/** The options array of initPassword()/initKeytab(), and its translation
    into the initial-credentials options record. */
module InitCredsOpts {
  import opened Base
  import opened Text
  import opened Krb5Types

  /** PHP array keys: integers, or byte strings of any length (a key may
      contain NUL bytes). */
  datatype Key = IntKey(i: int) | StrKey(s: string)

  /** The PHP values the parser can meet. */
  datatype Zval =
    | ZNull
    | ZBool(b: bool)
    | ZLong(n: int)
    | ZString(s: string)
    | ZArray(entries: map<Key, Zval>)

  /** zval_get_long */
  function ToLong(v: Zval): int {
    match v
    case ZNull => 0
    case ZBool(b) => if b then 1 else 0
    case ZLong(n) => n
    case ZString(s) => StrToLong(s)
    case ZArray(m) => if |m| > 0 then 1 else 0
  }

  /** zval_get_string */
  function ToStr(v: Zval): string {
    match v
    case ZNull => ""
    case ZBool(b) => if b then "1" else ""
    case ZLong(n) => FormatInt(n)
    case ZString(s) => s
    case ZArray(_) => "Array"
  }

  /** The key under which "proxiable" is looked up: its length is taken
      with sizeof, which counts the terminating NUL, so the lookup is for
      the ten-byte key "proxiable" followed by NUL. */
  const ProxiableLookupKey: string := "proxiable" + ['\0']

  /** Every key the parser reads. */
  const Whitelist: set<Key> := {
    StrKey("forwardable"), StrKey(ProxiableLookupKey), StrKey("canonicalize"),
    StrKey("tkt_life"), StrKey("renew_life"), StrKey("service_name"), StrKey("verify_keytab")}

  /** A flag option: present means set, to 1 if its integer value is
      non-zero and to 0 otherwise. */
  function FlagOpt(m: map<Key, Zval>, k: string): (r: Option<bool>)
    ensures r.Some? <==> StrKey(k) in m
    ensures r.Some? ==> (r.value <==> ToLong(m[StrKey(k)]) != 0)
  {
    if StrKey(k) in m then Some(ToLong(m[StrKey(k)]) != 0) else None
  }

  /** An integer option: present means set, to its integer value. */
  function LongOpt(m: map<Key, Zval>, k: string): (r: Option<int>)
    ensures r.Some? <==> StrKey(k) in m
    ensures r.Some? ==> r.value == ToLong(m[StrKey(k)])
  {
    if StrKey(k) in m then Some(ToLong(m[StrKey(k)])) else None
  }

  /** A string option, copied into a C buffer: only its part before the
      first NUL survives. */
  function StrOpt(m: map<Key, Zval>, k: string): (r: Option<CStr>)
    ensures r.Some? <==> StrKey(k) in m
    ensures r.Some? ==> r.value <= ToStr(m[StrKey(k)])
    ensures r.Some? ==> |r.value| == |ToStr(m[StrKey(k)])| || ToStr(m[StrKey(k)])[|r.value|] == '\0'
  {
    if StrKey(k) in m then Some(CString(ToStr(m[StrKey(k)]))) else None
  }

  /** The option is set exactly when key k is present, to whether the
      entry's integer value is non-zero. */
  predicate FlagSetFrom(o: Option<bool>, m: map<Key, Zval>, k: string) {
    && (o.Some? <==> StrKey(k) in m)
    && (o.Some? ==> (o.value <==> ToLong(m[StrKey(k)]) != 0))
  }

  /** The option is set exactly when key k is present, to the entry's
      integer value. */
  predicate LongSetFrom(o: Option<int>, m: map<Key, Zval>, k: string) {
    && (o.Some? <==> StrKey(k) in m)
    && (o.Some? ==> o.value == ToLong(m[StrKey(k)]))
  }

  /** The option is set exactly when key k is present, to the part of the
      entry's string value before its first NUL. */
  predicate CStrSetFrom(o: Option<CStr>, m: map<Key, Zval>, k: string) {
    && (o.Some? <==> StrKey(k) in m)
    && (o.Some? ==> o.value <= ToStr(m[StrKey(k)]))
    && (o.Some? ==> |o.value| == |ToStr(m[StrKey(k)])| || ToStr(m[StrKey(k)])[|o.value|] == '\0')
  }

  /** php_krb5_parse_init_creds_opts: a non-array is an error; otherwise
      each whitelisted key that is present sets the matching option and
      every other key is ignored. */
  function ParseInitCredsOpts(opts: Zval): (r: Result<CredOpts, Error>)
    ensures r.Err? <==> !opts.ZArray?
    ensures r.Err? ==> r.error == OptsParse
    ensures r.Ok? ==> FlagSetFrom(r.value.forwardable, opts.entries, "forwardable")
    ensures r.Ok? ==> FlagSetFrom(r.value.proxiable, opts.entries, ProxiableLookupKey)
    ensures r.Ok? ==> FlagSetFrom(r.value.canonicalize, opts.entries, "canonicalize")
    ensures r.Ok? ==> LongSetFrom(r.value.tktLife, opts.entries, "tkt_life")
    ensures r.Ok? ==> LongSetFrom(r.value.renewLife, opts.entries, "renew_life")
    ensures r.Ok? ==> CStrSetFrom(r.value.serviceName, opts.entries, "service_name")
    ensures r.Ok? ==> CStrSetFrom(r.value.verifyKeytab, opts.entries, "verify_keytab")
    ensures opts == ZArray(map[]) ==> r == Ok(DefaultOpts)
  {
    match opts
    case ZArray(m) =>
      Ok(CredOpts(
        forwardable := FlagOpt(m, "forwardable"),
        proxiable := FlagOpt(m, ProxiableLookupKey),
        canonicalize := FlagOpt(m, "canonicalize"),
        tktLife := LongOpt(m, "tkt_life"),
        renewLife := LongOpt(m, "renew_life"),
        serviceName := StrOpt(m, "service_name"),
        verifyKeytab := StrOpt(m, "verify_keytab")))
    case _ => Err(OptsParse)
  }

  /** Unrecognised keys are ignored: adding or replacing a key outside the
      whitelist does not change the parsed options. */
  lemma IgnoresUnknownKeys(m: map<Key, Zval>, k: Key, v: Zval)
    requires k !in Whitelist
    ensures ParseInitCredsOpts(ZArray(m[k := v])) == ParseInitCredsOpts(ZArray(m))
  {
    var m' := m[k := v];
    assert forall w :: w in Whitelist ==> (w in m' <==> w in m) && (w in m ==> m'[w] == m[w]);
  }

  /** The ordinary "proxiable" key is never matched, so it has no effect. */
  lemma PlainProxiableIgnored(m: map<Key, Zval>, v: Zval)
    ensures ParseInitCredsOpts(ZArray(m[StrKey("proxiable") := v])) == ParseInitCredsOpts(ZArray(m))
  {
    assert StrKey("proxiable") != StrKey(ProxiableLookupKey) by {
      assert |"proxiable"| != |ProxiableLookupKey|;
    }
    IgnoresUnknownKeys(m, StrKey("proxiable"), v);
  }

  /** Flag options are normalised through the integer value: true and any
      non-zero integer set the flag, false, null and 0 clear it, and a
      string sets it exactly when it reads as a non-zero integer. */
  lemma FlagNormalisation(m: map<Key, Zval>, k: string, n: int, s: string)
    ensures FlagOpt(m[StrKey(k) := ZBool(true)], k) == Some(true)
    ensures FlagOpt(m[StrKey(k) := ZBool(false)], k) == Some(false)
    ensures FlagOpt(m[StrKey(k) := ZNull], k) == Some(false)
    ensures FlagOpt(m[StrKey(k) := ZLong(n)], k) == Some(n != 0)
    ensures FlagOpt(m[StrKey(k) := ZString(FormatInt(n))], k) == Some(n != 0)
  {
    FormatIntRoundTrip(n);
  }
}
