/** The PHP class KRB5CCache: a private MEMORY credential cache, and the
    methods PHP code calls on it. Each query is specified by a function of
    the cache contents; each state-changing method by the specification
    function of its module. */
module KRB5CCache {
  import opened Base
  import opened Krb5Types
  import opened NativeCache
  import opened InitCredsOpts
  import opened Expiry
  import opened Tickets
  import opened Acquire

  const MemoryType: CStr := "MEMORY"

  // ------------------------------------------------------------- queries

  /** getPrincipal(): the primary principal as text, or "" and one
      exception. */
  function PrincipalQuery(st: CacheState, lib: Library): (r: (string, seq<Error>))
    ensures r.1 == [] <==> st.principal.Some? && lib.unparseName(st.principal.value).Some?
    ensures r.1 == [] ==> Some(r.0) == lib.unparseName(st.principal.value)
    ensures r.1 != [] ==> r.0 == "" && |r.1| == 1
  {
    match st.principal
    case None => ("", [PrincipalLookup])
    case Some(p) =>
      match lib.unparseName(p)
      case None => ("", [UnparseName])
      case Some(n) => (n, [])
  }

  /** getRealm(): the primary principal's realm as a C string, or "" and
      one exception. */
  function RealmQuery(st: CacheState): (r: (string, seq<Error>))
    ensures r.1 == [] <==> st.principal.Some? && st.principal.value.realm.Some?
    ensures r.1 == [] ==> r.0 <= st.principal.value.realm.value && '\0' !in r.0
    ensures r.1 == [] ==>
      var realm := st.principal.value.realm.value;
      |r.0| == |realm| || realm[|r.0|] == '\0'
    ensures r.1 != [] ==> r.0 == "" && |r.1| == 1
  {
    match st.principal
    case None => ("", [PrincipalLookup])
    case Some(p) =>
      match p.realm
      case None => ("", [RealmExtract])
      case Some(realm) => (CString(realm), [])
  }

  /** getLifetime(): the primary TGT's end and renew-till times, or an
      empty array and two exceptions, the helper's and the method's own. */
  function LifetimeQuery(st: CacheState): (r: (Option<Lifetime>, seq<Error>))
    ensures r.0.Some? <==> TgtExpire(st).Ok?
    ensures r.0.Some? ==> r.0.value == TgtExpire(st).value && r.1 == []
    ensures r.0.None? ==> r.1 == [TgtExpire(st).error, TgtTimes]
  {
    match TgtExpire(st)
    case Ok(life) => (Some(life), [])
    case Err(e) => (None, [e, TgtTimes])
  }

  /** isValid($timeRemain): false, with the helper's exception, when there
      is no primary TGT; otherwise whether it lasts `need` more seconds plus
      the clock-skew allowance. */
  function IsValidSpec(st: CacheState, now: int, need: int): (r: Reply)
    ensures r.value <==> TgtExpire(st).Ok? && now + need + ClockSkew <= TgtExpire(st).value.endtime
    ensures r.raised == (if TgtExpire(st).Ok? then [] else [TgtExpire(st).error])
  {
    match TgtExpire(st)
    case Err(e) => Reply(false, [e])
    case Ok(life) => Reply(StillValid(life, now, need), [])
  }

  /** getEntries(): the server names of the cache, in order, or an empty
      array and one exception. */
  function EntriesQuery(st: CacheState, lib: Library, cursorOk: bool): (r: (seq<CStr>, seq<Error>))
    ensures r.1 != [] ==> r.0 == [] && |r.1| == 1
    ensures r.1 == [] <==> cursorOk && forall i :: 0 <= i < |Servers(st.creds)| ==> lib.unparseName(Servers(st.creds)[i]).Some?
    ensures r.1 == [] ==> |r.0| == |Servers(st.creds)|
    ensures r.1 == [] ==> forall i :: 0 <= i < |r.0| ==> Some(r.0[i]) == lib.unparseName(Servers(st.creds)[i])
  {
    ServerNamesCorrect(st.creds, lib);
    if !cursorOk then ([], [CursorStart])
    else
      match ServerNames(st.creds, lib)
      case None => ([], [UnparseName])
      case Some(names) => (names, [])
  }

  /** getTktAttrs($prefix): the records of the tickets whose server name
      starts with the prefix, or an empty array and one exception. */
  function TktAttrsQuery(st: CacheState, prefix: string, lib: Library, cursorOk: bool): (r: (seq<TicketAttrs>, seq<Error>))
    ensures r.1 != [] ==> r.0 == [] && |r.1| == 1
    ensures forall t :: t in r.0 ==> prefix <= t.server
    ensures cursorOk && prefix == [] && r.1 == [] ==>
      EntriesQuery(st, lib, cursorOk).1 == [] && |r.0| == |EntriesQuery(st, lib, cursorOk).0|
    ensures r.1 == [] <==> cursorOk && TktAttrs(st.creds, prefix, lib).Ok?
    ensures r.1 == [] ==>
      && EntriesQuery(st, lib, cursorOk).1 == []
      && RecordServers(r.0) == WithPrefix(EntriesQuery(st, lib, cursorOk).0, prefix)
  {
    if !cursorOk then ([], [CursorStart])
    else
      match TktAttrs(st.creds, prefix, lib)
      case Err(e) => ([], [e])
      case Ok(recs) =>
        TktAttrsMatchPrefix(st.creds, prefix, lib);
        TktAttrsAreFilteredEntries(st.creds, prefix, lib);
        if prefix == [] then EmptyPrefixListsEntries(st.creds, lib); (recs, [])
        else (recs, [])
  }

  // --------------------------------------------------------------- class

  class CCacheObject {
    /** The private cache, destroyed with the object. */
    const cc: Ccache
    /** The keytab of the last successful initKeytab(). */
    var keytab: Option<CStr>

    /** A new object owns a fresh, uninitialised MEMORY cache; the cache's
        unique name is chosen by the library. */
    constructor (uniqueName: CStr)
      ensures fresh(cc) && cc.ccType == MemoryType && cc.ccName == uniqueName
      ensures cc.State() == CacheState(None, []) && keytab == None
    {
      cc := new Ccache(MemoryType, uniqueName);
      keytab := None;
    }

    /** getName(): the locator "TYPE:name", which splits back into the
        cache's type and name. */
    function GetName(): (r: string)
      ensures |r| == |cc.ccType| + 1 + |cc.ccName|
      ensures ':' !in cc.ccType ==> SplitLocator(r) == Some((cc.ccType, cc.ccName))
    {
      var r := cc.ccType + ":" + cc.ccName;
      if ':' !in cc.ccType then LocatorRoundTrip(cc.ccType, cc.ccName); r else r
    }

    /** open($src): replace this cache's contents by a copy of the cache
        the locator names. */
    method Open(locator: string, caches: map<string, Ccache>, f: Faults) returns (ok: bool, raised: seq<Error>)
      modifies cc
      ensures locator !in caches ==> cc.State() == old(cc.State()) && !ok && raised == [CacheResolve]
      ensures locator in caches ==>
        var out := CopySpec(old(caches[locator].State()), old(cc.State()), caches[locator] == cc, f);
        && cc.State() == out.dest
        && (ok <==> out.code.None?)
        && raised == out.raised + (if ok then [] else [CacheCopy])
    {
      if locator !in caches {
        return false, [CacheResolve];
      }
      var code;
      code, raised := CopyCCache(caches[locator], cc, f);
      ok := code.None?;
      if !ok {
        raised := raised + [CacheCopy];
      }
    }

    /** save($dest): replace the contents of the cache the locator names by
        a copy of this cache. */
    method Save(locator: string, caches: map<string, Ccache>, f: Faults) returns (ok: bool, raised: seq<Error>)
      modifies if locator in caches then {caches[locator]} else {}
      ensures locator !in caches ==> !ok && raised == [CacheResolve]
      ensures locator in caches ==>
        var out := CopySpec(old(cc.State()), old(caches[locator].State()), caches[locator] == cc, f);
        && caches[locator].State() == out.dest
        && (ok <==> out.code.None?)
        && raised == out.raised + (if ok then [] else [CacheCopy])
    {
      if locator !in caches {
        return false, [CacheResolve];
      }
      var code;
      code, raised := CopyCCache(cc, caches[locator], f);
      ok := code.None?;
      if !ok {
        raised := raised + [CacheCopy];
      }
    }

    /** The steps shared by initPassword() and initKeytab(), from the
        principal name on. */
    method ObtainAndStore(name: string, secret: Secret, opts: Option<Zval>, lib: Library, f: Faults) returns (ok: bool, raised: seq<Error>)
      modifies cc
      ensures (cc.State(), Reply(ok, raised)) == AcquireSpec(old(cc.State()), name, secret, opts, lib, f)
    {
      var princ := lib.parseName(CString(name));
      if princ.None? {
        return false, [ParseName];
      }
      var p := princ.value;
      if secret.KeytabFile? && !lib.resolveKeytab(secret.path) {
        return false, [KeytabLoad];
      }
      if !f.optsAllocOk {
        return false, [OptsAlloc];
      }
      var o := DefaultOpts;
      if opts.Some? {
        var parsed := ParseInitCredsOpts(opts.value);
        if parsed.Err? {
          return false, [parsed.error];
        }
        o := parsed.value;
      }
      var creds := Obtain(p, secret, o, lib);
      if creds.None? {
        return false, [GetTicket];
      }
      cc.Initialize(p, f.initOk);
      if !f.initOk {
        return false, [CacheInit];
      }
      cc.Store(creds.value, f.storeOk(0));
      if !f.storeOk(0) {
        return false, [CacheWrite];
      }
      assert [] + [creds.value] == [creds.value];
      if o.verifyKeytab.Some? && o.verifyKeytab.value != [] && !VerifyTgt(creds.value, o.verifyKeytab.value, lib) {
        return false, [VerifyTicket];
      }
      return true, [];
    }

    /** initPassword($principal, $pass [, $options]) */
    method InitPassword(name: string, password: string, opts: Option<Zval>, lib: Library, f: Faults) returns (ok: bool, raised: seq<Error>)
      modifies cc
      ensures (cc.State(), Reply(ok, raised)) == AcquireSpec(old(cc.State()), name, Password(password), opts, lib, f)
    {
      ok, raised := ObtainAndStore(name, Password(password), opts, lib, f);
    }

    /** initKeytab($principal, $keytab_file [, $options]): `allowed` is the
        host's open_basedir verdict on the keytab path. On success the
        keytab path is remembered. */
    method InitKeytab(name: string, path: CStr, allowed: bool, opts: Option<Zval>, lib: Library, f: Faults) returns (ok: bool, raised: seq<Error>)
      modifies this, cc
      ensures !allowed ==> cc.State() == old(cc.State()) && keytab == old(keytab) && !ok && raised == []
      ensures allowed ==>
        (cc.State(), Reply(ok, raised)) == AcquireSpec(old(cc.State()), name, KeytabFile(path), opts, lib, f)
      ensures allowed ==> keytab == if ok then Some(path) else old(keytab)
    {
      if !allowed {
        return false, [];
      }
      ok, raised := ObtainAndStore(name, KeytabFile(path), opts, lib, f);
      if ok {
        keytab := Some(path);
      }
    }

    method GetPrincipal(lib: Library) returns (name: string, raised: seq<Error>)
      ensures (name, raised) == PrincipalQuery(cc.State(), lib)
    {
      var princ := cc.principal;
      if princ.None? {
        return "", [PrincipalLookup];
      }
      var n := lib.unparseName(princ.value);
      if n.None? {
        return "", [UnparseName];
      }
      return n.value, [];
    }

    method GetRealm() returns (realm: string, raised: seq<Error>)
      ensures (realm, raised) == RealmQuery(cc.State())
    {
      var princ := cc.principal;
      if princ.None? {
        return "", [PrincipalLookup];
      }
      if princ.value.realm.None? {
        return "", [RealmExtract];
      }
      return CString(princ.value.realm.value), [];
    }

    method GetLifetime() returns (life: Option<Lifetime>, raised: seq<Error>)
      ensures (life, raised) == LifetimeQuery(cc.State())
    {
      var t := TgtExpire(cc.State());
      if t.Err? {
        return None, [t.error, TgtTimes];
      }
      return Some(t.value), [];
    }

    /** isValid($timeRemain): `now` is the clock reading. */
    method IsValid(need: int, now: int) returns (ok: bool, raised: seq<Error>)
      ensures Reply(ok, raised) == IsValidSpec(cc.State(), now, need)
    {
      var t := TgtExpire(cc.State());
      if t.Err? {
        return false, [t.error];
      }
      var deadline := now + need + ClockSkew;
      ok := !(deadline > t.value.endtime);
      raised := [];
    }

    /** getEntries(): walks the cache with a cursor. */
    method GetEntries(lib: Library, cursorOk: bool) returns (names: seq<CStr>, raised: seq<Error>)
      ensures (names, raised) == EntriesQuery(cc.State(), lib, cursorOk)
    {
      if !cursorOk {
        return [], [CursorStart];
      }
      var creds := cc.creds;
      names := [];
      var i := 0;
      while i < |creds|
        invariant 0 <= i <= |creds|
        invariant ServerNames(creds[..i], lib) == Some(names)
      {
        var c := creds[i];
        assert creds[..i + 1][..i] == creds[..i];
        if c.server.Some? {
          var n := lib.unparseName(c.server.value);
          if n.None? {
            ServerNamesFailureSticks(creds, i + 1, lib);
            return [], [UnparseName];
          }
          names := names + [n.value];
        }
        i := i + 1;
      }
      assert creds[..i] == creds;
      raised := [];
    }

    /** getTktAttrs([$prefix]): walks the cache with a cursor, building one
        record per wanted ticket. */
    method GetTktAttrs(prefix: string, lib: Library, cursorOk: bool) returns (recs: seq<TicketAttrs>, raised: seq<Error>)
      ensures (recs, raised) == TktAttrsQuery(cc.State(), prefix, lib, cursorOk)
    {
      if !cursorOk {
        return [], [CursorStart];
      }
      var creds := cc.creds;
      recs := [];
      var i := 0;
      while i < |creds|
        invariant 0 <= i <= |creds|
        invariant TktAttrs(creds[..i], prefix, lib) == Ok(recs)
      {
        var c := creds[i];
        assert creds[..i + 1][..i] == creds[..i];
        if c.server.Some? {
          var r := CredRecord(c, prefix, lib);
          if r.Err? {
            TktAttrsFailureSticks(creds, prefix, i + 1, lib);
            return [], [r.error];
          }
          if r.value.Some? {
            recs := recs + [r.value.value];
          }
        }
        i := i + 1;
      }
      assert creds[..i] == creds;
      raised := [];
    }

    /** renew(): `clock` is the clock reading, None when it fails. */
    method Renew(clock: Option<int>, lib: Library, f: Faults) returns (ok: bool, raised: seq<Error>)
      modifies cc
      ensures (cc.State(), Reply(ok, raised)) == RenewSpec(old(cc.State()), clock, lib, f)
    {
      var st := cc.State();
      var t := TgtExpire(st);
      if t.Err? {
        return false, [t.error, RenewUntil];
      }
      if clock.None? {
        return false, [ClockRead];
      }
      var now := clock.value;
      if now > t.value.renewUntil {
        return now < t.value.endtime, [];
      }
      var p := cc.principal.value;
      var creds := lib.renewedCreds(p, st);
      if creds.None? {
        return false, [RenewTgt];
      }
      cc.Initialize(p, f.initOk);
      if !f.initOk {
        return false, [CacheInit];
      }
      cc.Store(creds.value, f.storeOk(0));
      if !f.storeOk(0) {
        return false, [CacheWrite];
      }
      assert [] + [creds.value] == [creds.value];
      return true, [];
    }
  }

  // ------------------------------------------- properties across methods

  /** getLifetime() and isValid() read the same ticket: isValid($n) holds
      exactly when getLifetime() has an end time at least n + 60 seconds
      away. */
  lemma LifetimeAgreesWithIsValid(st: CacheState, now: int, need: int)
    ensures IsValidSpec(st, now, need).value <==>
      LifetimeQuery(st).0.Some? && now + need + ClockSkew <= LifetimeQuery(st).0.value.endtime
  {
  }

  /** When a primary TGT is found, getRealm() succeeds and names the realm
      that TGT belongs to. */
  lemma TgtRealmAgrees(st: CacheState)
    requires TgtExpire(st).Ok?
    requires '\0' !in st.principal.value.realm.value
    ensures RealmQuery(st).1 == []
    ensures exists i :: 0 <= i < |st.creds| && st.creds[i].server == Some(KrbtgtPrincipal(RealmQuery(st).0))
  {
    var i :| (0 <= i < |st.creds| && IsPrimaryTgt(st, st.creds[i])
      && TgtExpire(st).value == Lifetime(st.creds[i].times.endtime, st.creds[i].times.renewTill));
    CStringOfCStr(st.principal.value.realm.value);
  }

  lemma {:induction false} CStringOfCStr(s: string)
    requires '\0' !in s
    ensures CString(s) == s
  {
    if s != [] {
      assert s[0] in s;
      assert '\0' !in s[1..] by {
        forall k | 0 <= k < |s[1..]|
          ensures s[1..][k] != '\0'
        {
          assert s[1..][k] == s[k + 1];
        }
      }
      CStringOfCStr(s[1..]);
      assert [s[0]] + s[1..] == s;
    }
  }

  /** After a successful initPassword()/initKeytab() for a principal the
      library renders back to text, getPrincipal() returns that text, and
      getEntries() lists exactly the one new ticket's server. */
  lemma AcquireThenQuery(st: CacheState, name: string, secret: Secret, opts: Option<Zval>, lib: Library, f: Faults)
    requires AcquireSpec(st, name, secret, opts, lib, f).1.value
    ensures var st' := AcquireSpec(st, name, secret, opts, lib, f).0;
      && st'.principal == lib.parseName(CString(name))
      && PrincipalQuery(st', lib).0 == lib.unparseName(lib.parseName(CString(name)).value).GetOr("")
      && |st'.creds| == 1
      && |EntriesQuery(st', lib, true).0| <= 1
      && (st'.creds[0].server.None? ==> EntriesQuery(st', lib, true) == ([], []))
      && (st'.creds[0].server.Some? && lib.unparseName(st'.creds[0].server.value).Some? ==>
            EntriesQuery(st', lib, true) == ([lib.unparseName(st'.creds[0].server.value).value], []))
  {
    var st' := AcquireSpec(st, name, secret, opts, lib, f).0;
    var c := st'.creds[0];
    assert st'.creds[..0] == [];
    assert ServerNames(st'.creds[..0], lib) == Some([]);
    if c.server.Some? && lib.unparseName(c.server.value).Some? {
      assert ServerNames(st'.creds, lib) == Some([] + [lib.unparseName(c.server.value).value]);
      assert [] + [lib.unparseName(c.server.value).value] == [lib.unparseName(c.server.value).value];
    }
  }

  /** A TGT acquired with enough lifetime passes isValid(): after a
      successful acquisition whose new ticket is the realm's TGT and ends at
      least need + 60 seconds from now, isValid(need) is true without an
      exception. */
  lemma AcquiredTgtIsValid(st: CacheState, name: string, secret: Secret, opts: Option<Zval>, lib: Library, f: Faults, now: int, need: int)
    requires AcquireSpec(st, name, secret, opts, lib, f).1.value
    requires var st' := AcquireSpec(st, name, secret, opts, lib, f).0;
      IsPrimaryTgt(st', st'.creds[0]) && now + need + ClockSkew <= st'.creds[0].times.endtime
    ensures IsValidSpec(AcquireSpec(st, name, secret, opts, lib, f).0, now, need) == Reply(true, [])
  {
    var st' := AcquireSpec(st, name, secret, opts, lib, f).0;
    assert FindPrimaryTgt(st', st'.creds) == Some(0);
  }

  /** A renewal within the window leaves a cache that isValid() accepts for
      as long as the renewed ticket lasts, provided the renewed ticket is
      again the realm's TGT. */
  lemma RenewedTgtIsValid(st: CacheState, now: int, lib: Library, f: Faults, need: int)
    requires TgtExpire(st).Ok? && now <= TgtExpire(st).value.renewUntil
    requires RenewSpec(st, Some(now), lib, f).1.value
    requires var c := lib.renewedCreds(st.principal.value, st).value;
      IsPrimaryTgt(st, c) && now + need + ClockSkew <= c.times.endtime
    ensures IsValidSpec(RenewSpec(st, Some(now), lib, f).0, now, need) == Reply(true, [])
  {
    var st' := RenewSpec(st, Some(now), lib, f).0;
    assert FindPrimaryTgt(st', st'.creds) == Some(0);
  }
}
