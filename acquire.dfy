/** Acquiring a fresh TGT into a cache, by password or from a keytab, with
    the optional verification of the new ticket against a keytab. */
module Acquire {
  import opened Base
  import opened Krb5Types
  import opened InitCredsOpts

  /** php_krb5_verify_tgt, as seen from its callers: the new credential
      passes when a keytab is named, it resolves, its first entry can be
      read, and the library verifies the credential against that entry's
      principal. */
  function VerifyTgt(c: Credential, path: CStr, lib: Library): (ok: bool)
    ensures path == [] ==> !ok
    ensures !lib.resolveKeytab(path) ==> !ok
    ensures ok ==> lib.keytabEntries(path).Some? && |lib.keytabEntries(path).value| > 0
    ensures ok ==> lib.verifyInitCreds(c, lib.keytabEntries(path).value[0], path)
    ensures (path != [] && lib.resolveKeytab(path) && lib.keytabEntries(path).Some?
             && |lib.keytabEntries(path).value| > 0
             && lib.verifyInitCreds(c, lib.keytabEntries(path).value[0], path)) ==> ok
  {
    if path == [] then false
    else if !lib.resolveKeytab(path) then false
    else
      match lib.keytabEntries(path)
      case None => false
      case Some(entries) =>
        if entries == [] then false
        else lib.verifyInitCreds(c, entries[0], path)
  }

  /** Where the long-term key comes from. The keytab path has been through
      the path argument check, which refuses NUL bytes. */
  datatype Secret = Password(password: string) | KeytabFile(path: CStr)

  /** The options record the request is made with: the library defaults
      when no options array is passed. */
  function RequestOpts(opts: Option<Zval>): (r: Result<CredOpts, Error>)
    ensures opts.None? ==> r == Ok(DefaultOpts)
    ensures opts.Some? ==> r == ParseInitCredsOpts(opts.value)
  {
    match opts
    case None => Ok(DefaultOpts)
    case Some(z) => ParseInitCredsOpts(z)
  }

  /** The KDC exchange; the password reaches the library as a C string. */
  function Obtain(p: Principal, secret: Secret, o: CredOpts, lib: Library): Option<Credential> {
    match secret
    case Password(pw) => lib.initCredsPassword(p, CString(pw), o)
    case KeytabFile(path) => lib.initCredsKeytab(p, path, o)
  }

  /** initPassword()/initKeytab(): the cache's new contents and the reply.
      The steps run in order and the first failure ends the call with one
      exception; only the two steps after the reinitialisation can leave
      the cache changed by a failed call. */
  function AcquireSpec(st: CacheState, name: string, secret: Secret, opts: Option<Zval>, lib: Library, f: Faults): (r: (CacheState, Reply))
    ensures r.1.value <==> r.1.raised == []
    ensures !r.1.value ==> |r.1.raised| == 1
    ensures r.1.value ==>
      && lib.parseName(CString(name)).Some?
      && RequestOpts(opts).Ok?
      && Obtain(lib.parseName(CString(name)).value, secret, RequestOpts(opts).value, lib).Some?
      && r.0 == CacheState(lib.parseName(CString(name)),
                           [Obtain(lib.parseName(CString(name)).value, secret, RequestOpts(opts).value, lib).value])
    ensures r.0 != st ==> r.0.principal == lib.parseName(CString(name)) && |r.0.creds| <= 1
    ensures r.0 != st ==> r.1.value || r.1.raised == [CacheWrite] || r.1.raised == [VerifyTicket]
  {
    match lib.parseName(CString(name))
    case None => (st, Reply(false, [ParseName]))
    case Some(p) =>
      if secret.KeytabFile? && !lib.resolveKeytab(secret.path) then (st, Reply(false, [KeytabLoad]))
      else if !f.optsAllocOk then (st, Reply(false, [OptsAlloc]))
      else
        match RequestOpts(opts)
        case Err(e) => (st, Reply(false, [e]))
        case Ok(o) =>
          match Obtain(p, secret, o, lib)
          case None => (st, Reply(false, [GetTicket]))
          case Some(c) =>
            if !f.initOk then (st, Reply(false, [CacheInit]))
            else if !f.storeOk(0) then (CacheState(Some(p), []), Reply(false, [CacheWrite]))
            else
              var cache := CacheState(Some(p), [c]);
              match o.verifyKeytab
              case Some(vk) =>
                if vk != [] && !VerifyTgt(c, vk, lib) then (cache, Reply(false, [VerifyTicket]))
                else (cache, Reply(true, []))
              case None => (cache, Reply(true, []))
  }

  /** A successful acquisition replaces whatever the cache held. */
  lemma AcquireReplaces(st1: CacheState, st2: CacheState, name: string, secret: Secret, opts: Option<Zval>, lib: Library, f: Faults)
    requires AcquireSpec(st1, name, secret, opts, lib, f).1.value
    ensures AcquireSpec(st2, name, secret, opts, lib, f) == AcquireSpec(st1, name, secret, opts, lib, f)
  {
  }

  /** A ticket that fails verification stays in the cache: the call
      returns false, but the cache already holds the new credential. */
  lemma VerifyFailureKeepsTicket(st: CacheState, name: string, secret: Secret, opts: Option<Zval>, lib: Library, f: Faults)
    requires AcquireSpec(st, name, secret, opts, lib, f).1.raised == [VerifyTicket]
    ensures var p := lib.parseName(CString(name)).value;
      var o := RequestOpts(opts).value;
      AcquireSpec(st, name, secret, opts, lib, f).0 == CacheState(Some(p), [Obtain(p, secret, o, lib).value])
  {
  }

  /** Without a verification keytab, the call succeeds exactly when the
      name parses, the keytab (if any) resolves, the options can be made,
      the KDC issues a ticket and the cache accepts it. */
  lemma NoVerifyKeytabSucceedsIff(st: CacheState, name: string, secret: Secret, m: map<Key, Zval>, lib: Library, f: Faults)
    requires StrKey("verify_keytab") !in m
    ensures var p := lib.parseName(CString(name));
      var o := RequestOpts(Some(ZArray(m))).value;
      AcquireSpec(st, name, secret, Some(ZArray(m)), lib, f).1.value <==>
        && p.Some?
        && (secret.KeytabFile? ==> lib.resolveKeytab(secret.path))
        && f.optsAllocOk
        && Obtain(p.value, secret, o, lib).Some?
        && f.initOk && f.storeOk(0)
  {
  }
}
