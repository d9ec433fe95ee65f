/** Expiry and renewal of a cache's primary TGT: the ticket whose server is
    the ticket-granting service of the primary principal's realm,
    `krbtgt/REALM@REALM` (section 7.3 of RFC 4120). */
module Expiry {
  import opened Base
  import opened Krb5Types

  /** The allowance for clock drift that isValid() always adds. */
  const ClockSkew: int := 60

  /** The name of the ticket-granting service of a realm. */
  function KrbtgtPrincipal(realm: string): (r: Principal)
    ensures r.components == ["krbtgt", realm] && r.realm == Some(realm)
  {
    Principal(["krbtgt", realm], Some(realm))
  }

  /** A credential is the primary TGT of a cache when its client is the
      cache's primary principal and its server is the ticket-granting
      service of that principal's realm. */
  predicate IsPrimaryTgt(st: CacheState, c: Credential) {
    && st.principal.Some?
    && st.principal.value.realm.Some?
    && c.client == st.principal.value
    && c.server == Some(KrbtgtPrincipal(st.principal.value.realm.value))
  }

  /** The cache-only lookup: the first credential, in iteration order, that
      the predicate accepts. */
  function FindPrimaryTgt(st: CacheState, creds: seq<Credential>): (r: Option<nat>)
    ensures r.Some? ==> r.value < |creds| && IsPrimaryTgt(st, creds[r.value])
    ensures r.Some? ==> forall j :: 0 <= j < r.value ==> !IsPrimaryTgt(st, creds[j])
    ensures r.None? ==> forall j :: 0 <= j < |creds| ==> !IsPrimaryTgt(st, creds[j])
  {
    if creds == [] then None
    else if IsPrimaryTgt(st, creds[0]) then Some(0)
    else match FindPrimaryTgt(st, creds[1..])
      case None => None
      case Some(k) => Some(k + 1)
  }

  datatype Lifetime = Lifetime(endtime: int, renewUntil: int)

  /** php_krb5_get_tgt_expire: read the primary principal, take its realm,
      build krbtgt/REALM@REALM, look that ticket up in the cache only, and
      return its end time and renew-till time. */
  function TgtExpire(st: CacheState): (r: Result<Lifetime, Error>)
    ensures st.principal.None? ==> r == Err(PrincipalLookup)
    ensures st.principal.Some? && st.principal.value.realm.None? ==> r == Err(RealmExtract)
    ensures r.Ok? ==> st.principal.Some?
    ensures r.Ok? <==> exists i :: 0 <= i < |st.creds| && IsPrimaryTgt(st, st.creds[i])
    ensures r.Ok? ==> exists i :: (0 <= i < |st.creds| && IsPrimaryTgt(st, st.creds[i])
      && r.value == Lifetime(st.creds[i].times.endtime, st.creds[i].times.renewTill)
      && forall j :: 0 <= j < i ==> !IsPrimaryTgt(st, st.creds[j]))
    ensures r.Err? && st.principal.Some? && st.principal.value.realm.Some? ==> r.error == TgtLookup
  {
    match st.principal
    case None => Err(PrincipalLookup)
    case Some(p) =>
      match p.realm
      case None => Err(RealmExtract)
      case Some(_) =>
        match FindPrimaryTgt(st, st.creds)
        case None => Err(TgtLookup)
        case Some(i) => Ok(Lifetime(st.creds[i].times.endtime, st.creds[i].times.renewTill))
  }

  /** The primary TGT of a cache is found however many other tickets come
      after it. */
  lemma {:induction false} TgtExpireIgnoresLaterTickets(st: CacheState, more: seq<Credential>)
    requires TgtExpire(st).Ok?
    ensures TgtExpire(CacheState(st.principal, st.creds + more)) == TgtExpire(st)
  {
    var st' := CacheState(st.principal, st.creds + more);
    FirstPrimaryTgtKept(st, st', st.creds, more);
  }

  lemma {:induction false} FirstPrimaryTgtKept(st: CacheState, st': CacheState, creds: seq<Credential>, more: seq<Credential>)
    requires st.principal == st'.principal
    requires FindPrimaryTgt(st, creds).Some?
    ensures FindPrimaryTgt(st', creds + more) == FindPrimaryTgt(st, creds)
  {
    assert (creds + more)[0] == creds[0];
    if !IsPrimaryTgt(st, creds[0]) {
      assert (creds + more)[1..] == creds[1..] + more;
      FirstPrimaryTgtKept(st, st', creds[1..], more);
    }
  }

  /** The intended validity test: the ticket still has `need` seconds,
      plus the clock-skew allowance, to run. */
  function StillValid(life: Lifetime, now: int, need: int): (r: bool)
    ensures r <==> now + need + ClockSkew <= life.endtime
  {
    var deadline := now + need + ClockSkew;
    !(deadline > life.endtime)
  }

  /** Asking for less remaining time never turns a valid ticket invalid. */
  lemma StillValidMonotone(life: Lifetime, now: int, need1: int, need2: int)
    requires need1 <= need2 && StillValid(life, now, need2)
    ensures StillValid(life, now, need1)
  {
  }

  const LongMin: int := -0x8000_0000_0000_0000
  const LongMax: int := 0x7fff_ffff_ffff_ffff

  /** Two's-complement wrap-around of a 64-bit `long`. */
  function WrapLong(x: int): (r: int)
    ensures LongMin <= r <= LongMax
    ensures (r - x) % 0x1_0000_0000_0000_0000 == 0
  {
    (x - LongMin) % 0x1_0000_0000_0000_0000 + LongMin
  }

  /** The test as the C code computes it: `now + need + 60` in a 64-bit
      `long`, which wraps around for a `need` close to the largest long. */
  function StillValidAsWritten(life: Lifetime, now: int, need: int): bool
    requires LongMin <= need <= LongMax
  {
    var deadline := WrapLong(now + need + ClockSkew);
    !(deadline > life.endtime)
  }

  /** With a ticket one hour from expiry, asking for an hour is refused but
      asking for the largest long is granted, because the sum wraps to a
      negative number. */
  lemma AsWrittenOverflow()
    ensures var life := Lifetime(1_700_003_600, 1_700_007_200);
      && !StillValidAsWritten(life, 1_700_000_000, 3600)
      && StillValidAsWritten(life, 1_700_000_000, LongMax)
      && !StillValid(life, 1_700_000_000, LongMax)
  {
    assert WrapLong(1_700_000_000 + LongMax + ClockSkew) < 0;
  }

  /** The boundary: with 100 seconds left, a margin of 40 still passes
      (40 + 60 does not exceed 100) and a margin of 41 does not. */
  lemma StillValidBoundary(now: int)
    ensures StillValid(Lifetime(now + 100, now + 100), now, 40)
    ensures !StillValid(Lifetime(now + 100, now + 100), now, 41)
  {
  }

  /** What renew() does once it knows the TGT times and the time. */
  datatype RenewDecision = Proceed | KeepValid | Expired

  function DecideRenew(life: Lifetime, now: int): (d: RenewDecision)
    ensures d == Proceed <==> now <= life.renewUntil
    ensures d == KeepValid <==> life.renewUntil < now < life.endtime
    ensures d == Expired <==> now > life.renewUntil && now >= life.endtime
  {
    if now > life.renewUntil then
      if now >= life.endtime then Expired else KeepValid
    else Proceed
  }

  /** renew(): the new cache contents and the PHP reply. Outside the
      renewable window nothing is touched: the reply is false, with no
      exception, for an expired ticket and true for one still valid. */
  function RenewSpec(st: CacheState, clock: Option<int>, lib: Library, f: Faults): (r: (CacheState, Reply))
    ensures r.0 != st ==> r.0 == CacheState(st.principal, []) || r.1.value
    ensures TgtExpire(st).Err? ==> r == (st, Reply(false, [TgtExpire(st).error, RenewUntil]))
  {
    match TgtExpire(st)
    case Err(e) => (st, Reply(false, [e, RenewUntil]))
    case Ok(life) =>
      match clock
      case None => (st, Reply(false, [ClockRead]))
      case Some(now) =>
        match DecideRenew(life, now)
        case Expired => (st, Reply(false, []))
        case KeepValid => (st, Reply(true, []))
        case Proceed =>
          var p := st.principal.value;
          match lib.renewedCreds(p, st)
          case None => (st, Reply(false, [RenewTgt]))
          case Some(c) =>
            if !f.initOk then (st, Reply(false, [CacheInit]))
            else if !f.storeOk(0) then (CacheState(Some(p), []), Reply(false, [CacheWrite]))
            else (CacheState(Some(p), [c]), Reply(true, []))
  }

  /** Past the renew-till time the cache is left alone, and the reply is
      true exactly when the ticket has not yet expired. */
  lemma RenewPastWindow(st: CacheState, now: int, lib: Library, f: Faults)
    requires TgtExpire(st).Ok? && now > TgtExpire(st).value.renewUntil
    ensures RenewSpec(st, Some(now), lib, f) == (st, Reply(now < TgtExpire(st).value.endtime, []))
  {
  }

  /** A successful renewal within the window leaves the same primary
      principal and exactly one credential, the renewed one. */
  lemma RenewReplacesAll(st: CacheState, now: int, lib: Library, f: Faults)
    requires TgtExpire(st).Ok? && now <= TgtExpire(st).value.renewUntil
    requires RenewSpec(st, Some(now), lib, f).1.value
    ensures st.principal.Some? && lib.renewedCreds(st.principal.value, st).Some?
    ensures RenewSpec(st, Some(now), lib, f).0 ==
      CacheState(st.principal, [lib.renewedCreds(st.principal.value, st).value])
  {
  }

  /** Once a renewed ticket is in hand, a failed reinitialisation or store
      makes renew() return false. */
  lemma RenewLateFailures(st: CacheState, now: int, lib: Library, f: Faults)
    requires TgtExpire(st).Ok? && now <= TgtExpire(st).value.renewUntil
    requires lib.renewedCreds(st.principal.value, st).Some?
    requires !f.initOk || !f.storeOk(0)
    ensures !RenewSpec(st, Some(now), lib, f).1.value
  {
  }
}
