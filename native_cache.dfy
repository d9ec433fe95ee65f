/** A native credential cache, with the two library primitives the
    extension builds on (initialise for a principal, store one credential),
    and the cursor-based copy of one cache into another that open() and
    save() are made of. */
module NativeCache {
  import opened Base
  import opened Krb5Types

  class Ccache {
    const ccType: CStr
    const ccName: CStr
    var principal: Option<Principal>
    var creds: seq<Credential>

    /** A fresh cache of the given type and name, not yet initialised. */
    constructor (ccType: CStr, ccName: CStr)
      ensures this.ccType == ccType && this.ccName == ccName
      ensures principal == None && creds == []
    {
      this.ccType := ccType;
      this.ccName := ccName;
      principal := None;
      creds := [];
    }

    function State(): CacheState
      reads this
    {
      CacheState(principal, creds)
    }

    /** krb5_cc_initialize: on success the cache holds the principal and no
        credentials, whatever it held before; a failed call changes nothing. */
    method Initialize(p: Principal, ok: bool)
      modifies this
      ensures State() == if ok then CacheState(Some(p), []) else old(State())
    {
      if ok {
        principal := Some(p);
        creds := [];
      }
    }

    /** krb5_cc_store_cred: on success the credential is appended; a failed
        call changes nothing. */
    method Store(c: Credential, ok: bool)
      modifies this
      ensures State() == if ok then CacheState(old(principal), old(creds) + [c]) else old(State())
    {
      if ok {
        creds := creds + [c];
      }
    }
  }

  /** The first position in [from, n) whose store fails, or n if none does. */
  function FirstFailure(ok: nat -> bool, from: nat, n: nat): (k: nat)
    requires from <= n
    ensures from <= k <= n
    ensures forall j :: from <= j < k ==> ok(j)
    ensures k < n ==> !ok(k)
    decreases n - from
  {
    if from == n then n
    else if !ok(from) then from
    else FirstFailure(ok, from + 1, n)
  }

  /** Result of copying a cache: the destination's new contents, the error
      code returned (None for success), and the exceptions raised. */
  datatype CopyOutcome = CopyOutcome(dest: CacheState, code: Option<Error>, raised: seq<Error>)

  /** What copying `src` into `dest` leaves behind. `aliased` says that both
      handles name the same cache, in which case the reinitialisation has
      already emptied the source when the cursor starts. */
  function CopySpec(src: CacheState, dest: CacheState, aliased: bool, f: Faults): (r: CopyOutcome)
    // success replaces the destination by the source, in the same order
    ensures r.code.None? ==>
      r.raised == [] && r.dest == CacheState(src.principal, if aliased then [] else src.creds)
    // without a source principal, or if reinitialisation fails, nothing changes
    ensures src.principal.None? || !f.initOk ==> r.dest == dest && r.code.Some?
    // once reinitialised, the destination holds the source principal and a
    // prefix of the source credentials
    ensures src.principal.Some? && f.initOk ==>
      r.dest.principal == src.principal && r.dest.creds <= (if aliased then [] else src.creds)
    // a failure part way leaves a strict prefix
    ensures src.principal.Some? && f.initOk && r.code.Some? ==>
      |r.dest.creds| < |src.creds| || !f.cursorOk
  {
    match src.principal
    case None => CopyOutcome(dest, Some(PrincipalLookup), [PrincipalLookup])
    case Some(p) =>
      if !f.initOk then CopyOutcome(dest, Some(CacheInit), [CacheInit])
      else if !f.cursorOk then CopyOutcome(CacheState(Some(p), []), Some(CursorStart), [])
      else
        var walk := if aliased then [] else src.creds;
        var k := FirstFailure(f.storeOk, 0, |walk|);
        CopyOutcome(CacheState(Some(p), walk[..k]), if k == |walk| then None else Some(CacheWrite), [])
  }

  /** php_krb5_copy_ccache, cursor variant: read the source principal,
      reinitialise the destination for it, then walk the source storing
      each credential into the destination, stopping at the first failed
      store. */
  method CopyCCache(src: Ccache, dest: Ccache, f: Faults) returns (code: Option<Error>, raised: seq<Error>)
    modifies dest
    ensures CopyOutcome(dest.State(), code, raised) == CopySpec(old(src.State()), old(dest.State()), src == dest, f)
  {
    ghost var src0, dest0 := src.State(), dest.State();
    var princ := src.principal;
    if princ.None? {
      return Some(PrincipalLookup), [PrincipalLookup];
    }
    dest.Initialize(princ.value, f.initOk);
    if !f.initOk {
      return Some(CacheInit), [CacheInit];
    }
    if !f.cursorOk {
      return Some(CursorStart), [];
    }
    // the cursor sees the source as it is now, after the reinitialisation
    var walk := src.creds;
    assert walk == if src == dest then [] else src0.creds;
    var i := 0;
    while i < |walk|
      invariant 0 <= i <= |walk|
      invariant forall j :: 0 <= j < i ==> f.storeOk(j)
      invariant dest.State() == CacheState(princ, walk[..i])
    {
      dest.Store(walk[i], f.storeOk(i));
      if !f.storeOk(i) {
        assert FirstFailure(f.storeOk, 0, |walk|) == i;
        return Some(CacheWrite), [];
      }
      assert walk[..i + 1] == walk[..i] + [walk[i]];
      i := i + 1;
    }
    assert walk[..i] == walk;
    code, raised := None, [];
  }

  /** Copy is a replace, not a merge: once the source has a principal and
      the reinitialisation succeeds, what the destination held before makes
      no difference. */
  lemma CopyIgnoresOldDest(src: CacheState, d1: CacheState, d2: CacheState, f: Faults)
    requires src.principal.Some? && f.initOk
    ensures CopySpec(src, d1, false, f) == CopySpec(src, d2, false, f)
  {
  }

  /** Saving into the same destination twice leaves what saving once does. */
  lemma SaveTwiceIsSaveOnce(src: CacheState, dest: CacheState, f: Faults, g: Faults)
    requires CopySpec(src, dest, false, f).code.None?
    requires g.initOk
    ensures CopySpec(src, CopySpec(src, dest, false, f).dest, false, g) == CopySpec(src, dest, false, g)
  {
    CopyIgnoresOldDest(src, CopySpec(src, dest, false, f).dest, dest, g);
  }

  /** Copying a cache onto itself keeps its principal and drops every
      credential. */
  lemma SelfCopyEmpties(src: CacheState, f: Faults)
    requires src.principal.Some? && f.initOk && f.cursorOk
    ensures CopySpec(src, src, true, f) == CopyOutcome(CacheState(src.principal, []), None, [])
  {
  }
}
