/** Ticket introspection: the server-name listing of getEntries() and the
    per-ticket records of getTktAttrs(), with the pieces each record is
    made of (flags string, enctype labels, address strings). */
module Tickets {
  import opened Base
  import opened Text
  import opened Krb5Types

  // ---------------------------------------------------------------- flags

  /** The TicketFlags bits (section 5.3 of RFC 4120, where bit n is the
      mask 0x80000000 >> n; enc-pa-rep is bit 15 and anonymous bit 16) in
      the order the renderer tests them, each with its character. */
  const FlagTable: seq<(bv32, char)> := [
    (0x4000_0000, 'F'),  // forwardable
    (0x2000_0000, 'f'),  // forwarded
    (0x1000_0000, 'P'),  // proxiable
    (0x0800_0000, 'p'),  // proxy
    (0x0400_0000, 'D'),  // may-postdate
    (0x0200_0000, 'd'),  // postdated
    (0x0100_0000, 'i'),  // invalid
    (0x0080_0000, 'R'),  // renewable
    (0x0040_0000, 'I'),  // initial
    (0x0020_0000, 'A'),  // pre-authent
    (0x0010_0000, 'H'),  // hw-authent
    (0x0008_0000, 'T'),  // transited-policy-checked
    (0x0004_0000, 'O'),  // ok-as-delegate
    (0x0001_0000, 'e'),  // enc-pa-rep
    (0x0000_8000, 'a')]  // anonymous

  predicate BitSet(flags: bv32, mask: bv32) {
    flags & mask != 0
  }

  /** The character a row contributes: its own when its bit is set. */
  function RowChars(flags: bv32, row: (bv32, char)): (s: string)
    ensures s == (if BitSet(flags, row.0) then [row.1] else [])
  {
    if BitSet(flags, row.0) then [row.1] else ""
  }

  /** The characters of the rows of `table` whose bit is set in `flags`,
      in table order. */
  function Rendered(flags: bv32, table: seq<(bv32, char)>): (s: string)
    ensures |s| <= |table|
  {
    if table == [] then ""
    else Rendered(flags, table[..|table| - 1]) + RowChars(flags, table[|table| - 1])
  }

  function FlagString(flags: bv32): (s: string)
    ensures |s| <= |FlagTable|
  {
    Rendered(flags, FlagTable)
  }

  predicate DistinctChars(table: seq<(bv32, char)>) {
    forall i, j :: 0 <= i < j < |table| ==> table[i].1 != table[j].1
  }

  /** A row's character appears in the rendering exactly when its bit is
      set. */
  lemma {:induction false} RenderedHasCharIff(flags: bv32, table: seq<(bv32, char)>, k: nat)
    requires DistinctChars(table) && k < |table|
    ensures table[k].1 in Rendered(flags, table) <==> BitSet(flags, table[k].0)
  {
    var n := |table| - 1;
    var init := table[..n];
    var tail := RowChars(flags, table[n]);
    assert Rendered(flags, table) == Rendered(flags, init) + tail;
    if k < n {
      assert DistinctChars(init) by {
        forall i, j | 0 <= i < j < |init|
          ensures init[i].1 != init[j].1
        {
          assert init[i] == table[i] && init[j] == table[j];
        }
      }
      RenderedHasCharIff(flags, init, k);
      assert init[k] == table[k];
      assert table[k].1 !in tail by {
        assert table[k].1 != table[n].1;
      }
    } else {
      RenderedCharsFrom(flags, init);
      forall i | 0 <= i < |init|
        ensures init[i].1 != table[k].1
      {
        assert init[i] == table[i];
      }
      assert table[k].1 !in Rendered(flags, init);
    }
  }

  /** Every character of a rendering comes from some row of its table. */
  lemma {:induction false} RenderedCharsFrom(flags: bv32, table: seq<(bv32, char)>)
    ensures forall c :: c in Rendered(flags, table) ==> exists i :: 0 <= i < |table| && table[i].1 == c
  {
    if table != [] {
      var n := |table| - 1;
      RenderedCharsFrom(flags, table[..n]);
      forall c | c in Rendered(flags, table)
        ensures exists i :: 0 <= i < |table| && table[i].1 == c
      {
        if c in Rendered(flags, table[..n]) {
          var i :| 0 <= i < n && table[..n][i].1 == c;
          assert table[i].1 == c;
        } else {
          assert table[n].1 == c;
        }
      }
    }
  }

  /** Rendering a table one row longer appends that row's character. */
  lemma RenderedStep(flags: bv32, table: seq<(bv32, char)>, i: nat)
    requires i < |table|
    ensures Rendered(flags, table[..i + 1]) == Rendered(flags, table[..i]) + RowChars(flags, table[i])
  {
    assert table[..i + 1][..i] == table[..i];
  }

  /** The order is fixed by the table: splitting the table anywhere splits
      the rendering the same way, so characters of earlier rows always come
      first. */
  lemma {:induction false} RenderedSplits(flags: bv32, table: seq<(bv32, char)>, k: nat)
    requires k <= |table|
    ensures Rendered(flags, table) == Rendered(flags, table[..k]) + Rendered(flags, table[k..])
    decreases |table|
  {
    if k < |table| {
      var n := |table| - 1;
      var init := table[..n];
      var back := table[k..];
      RenderedSplits(flags, init, k);
      assert init[..k] == table[..k];
      assert back[..|back| - 1] == init[k..];
      assert back[|back| - 1] == table[n];
      assert Rendered(flags, back) == Rendered(flags, init[k..]) + RowChars(flags, table[n]);
      assert Rendered(flags, table) == Rendered(flags, init) + RowChars(flags, table[n]);
    } else {
      assert table[..k] == table;
      assert table[k..] == [];
    }
  }

  /** A forwardable, renewable ticket renders as "FR". */
  lemma ForwardableRenewable()
    ensures FlagString(0x4000_0000 | 0x0080_0000) == "FR"
  {
    var f: bv32 := 0x4000_0000 | 0x0080_0000;
    var t := FlagTable;
    assert t[..0] == [];
    RenderedStep(f, t, 0);
    RenderedStep(f, t, 1);
    RenderedStep(f, t, 2);
    RenderedStep(f, t, 3);
    RenderedStep(f, t, 4);
    RenderedStep(f, t, 5);
    RenderedStep(f, t, 6);
    RenderedStep(f, t, 7);
    RenderedStep(f, t, 8);
    RenderedStep(f, t, 9);
    RenderedStep(f, t, 10);
    RenderedStep(f, t, 11);
    RenderedStep(f, t, 12);
    RenderedStep(f, t, 13);
    RenderedStep(f, t, 14);
    assert t[..15] == t;
  }

  /** With every bit set, the rendering is the whole table, in order. */
  lemma AllFlags()
    ensures FlagString(0xFFFF_FFFF) == "FfPpDdiRIAHTOea"
  {
    var f: bv32 := 0xFFFF_FFFF;
    var t := FlagTable;
    assert t[..0] == [];
    RenderedStep(f, t, 0);
    RenderedStep(f, t, 1);
    RenderedStep(f, t, 2);
    RenderedStep(f, t, 3);
    RenderedStep(f, t, 4);
    assert Rendered(f, t[..5]) == "FfPpD";
    RenderedStep(f, t, 5);
    RenderedStep(f, t, 6);
    RenderedStep(f, t, 7);
    RenderedStep(f, t, 8);
    RenderedStep(f, t, 9);
    assert Rendered(f, t[..10]) == "FfPpDdiRIA";
    RenderedStep(f, t, 10);
    RenderedStep(f, t, 11);
    RenderedStep(f, t, 12);
    RenderedStep(f, t, 13);
    RenderedStep(f, t, 14);
    assert t[..15] == t;
  }

  /** Each flag character appears exactly when its bit is set. */
  lemma FlagStringHasCharIff(flags: bv32, k: nat)
    requires k < |FlagTable|
    ensures FlagTable[k].1 in FlagString(flags) <==> BitSet(flags, FlagTable[k].0)
  {
    AllFlags();
    assert DistinctChars(FlagTable) by {
      var all := FlagString(0xFFFF_FFFF);
      forall i, j | 0 <= i < j < |FlagTable|
        ensures FlagTable[i].1 != FlagTable[j].1
      {
        assert FlagTable[i].1 == all[i] && FlagTable[j].1 == all[j];
      }
    }
    RenderedHasCharIff(flags, FlagTable, k);
  }

  /** The indices of the rows whose bit is set. */
  function SetRows(flags: bv32, table: seq<(bv32, char)>): set<int> {
    set k | 0 <= k < |table| && BitSet(flags, table[k].0)
  }

  lemma SetRowsStep(flags: bv32, table: seq<(bv32, char)>)
    requires table != []
    ensures var n := |table| - 1;
      SetRows(flags, table) == SetRows(flags, table[..n]) + (if BitSet(flags, table[n].0) then {n} else {})
  {
    var n := |table| - 1;
    var extra: set<int> := if BitSet(flags, table[n].0) then {n} else {};
    forall k | k in SetRows(flags, table)
      ensures k in SetRows(flags, table[..n]) + extra
    {
      if k < n {
        assert table[..n][k] == table[k];
      }
    }
    forall k | k in SetRows(flags, table[..n]) + extra
      ensures k in SetRows(flags, table)
    {
      if k < n {
        assert table[..n][k] == table[k];
      }
    }
  }

  /** One character per set bit: the rendering is as long as the number of
      rows whose bit is set. */
  lemma {:induction false} RenderedCount(flags: bv32, table: seq<(bv32, char)>)
    ensures |Rendered(flags, table)| == |SetRows(flags, table)|
  {
    if table != [] {
      var n := |table| - 1;
      RenderedCount(flags, table[..n]);
      SetRowsStep(flags, table);
      assert n !in SetRows(flags, table[..n]);
    }
  }

  /** The renderer of getTktAttrs(): the fifteen guarded stores into the
      65-byte `strflags` buffer, one per table row in order, each taken
      only while the write position is below the last byte. */
  method RenderFlags(flags: bv32) returns (s: string)
    ensures s == FlagString(flags)
    ensures |s| <= 64
  {
    var buf := new char[65];
    var q := buf.Length - 1;
    var p := 0;
    buf[p] := '\0';
    var table := FlagTable;
    assert |table| == 15;
    var i := 0;
    while i < |table|
      invariant 0 <= i <= |table|
      invariant p <= i
      invariant buf[..p] == Rendered(flags, table[..i])
    {
      var row := table[i];
      ghost var before := buf[..p];
      if BitSet(flags, row.0) && p < q {
        buf[p] := row.1;
        p := p + 1;
        assert buf[..p] == before + [row.1];
      }
      RenderedStep(flags, table, i);
      i := i + 1;
    }
    ghost var done := buf[..p];
    buf[p] := '\0';
    assert buf[..p] == done;
    s := buf[..p];
    assert table[..i] == table;
  }

  // ------------------------------------------------------ enctype labels

  /** An enctype's label: the library's name for it, or "enctype N" when the
      library has none. */
  function EnctypeLabel(enctype: int, name: Option<CStr>): (r: string)
    ensures name.Some? ==> r == name.value
    ensures name.None? ==> |r| > 8 && r[..8] == "enctype " && StrToLong(r[8..]) == enctype
  {
    match name
    case Some(n) => n
    case None =>
      var r := "enctype " + FormatInt(enctype);
      assert r[8..] == FormatInt(enctype);
      FormatIntRoundTrip(enctype);
      r
  }

  // ----------------------------------------------------------- addresses

  /** The fields of a string between its '.' separators, in order. */
  function DotFields(s: string): (r: seq<string>)
    ensures |r| >= 1
  {
    if s == [] then [[]]
    else if s[0] == '.' then [[]] + DotFields(s[1..])
    else
      var f := DotFields(s[1..]);
      [[s[0]] + f[0]] + f[1..]
  }

  lemma {:induction false} DotFieldsNoDot(a: string)
    requires '.' !in a
    ensures DotFields(a) == [a]
  {
    if a != [] {
      assert a[0] in a;
      assert '.' !in a[1..] by {
        forall k | 0 <= k < |a[1..]|
          ensures a[1..][k] != '.'
        {
          assert a[1..][k] == a[k + 1];
        }
      }
      DotFieldsNoDot(a[1..]);
      assert [a[0]] + a[1..] == a;
    }
  }

  /** A dot-free field followed by '.' splits off as the first field. */
  lemma {:induction false} DotFieldsJoin(a: string, rest: string)
    requires '.' !in a
    ensures DotFields(a + "." + rest) == [a] + DotFields(rest)
  {
    var s := a + "." + rest;
    if a == [] {
      assert s == ['.'] + rest;
      assert s[1..] == rest;
    } else {
      assert a[0] in a;
      assert s[0] == a[0];
      assert s[1..] == a[1..] + "." + rest;
      assert '.' !in a[1..] by {
        forall k | 0 <= k < |a[1..]|
          ensures a[1..][k] != '.'
        {
          assert a[1..][k] == a[k + 1];
        }
      }
      DotFieldsJoin(a[1..], rest);
      assert [a[0]] + a[1..] == a;
    }
  }

  lemma DigitsHaveNoDot(d: string)
    requires AllDigits(d)
    ensures '.' !in d
  {
  }

  /** Four digit strings joined by '.' split back into the four. */
  lemma DottedQuadFields(d0: string, d1: string, d2: string, d3: string)
    requires AllDigits(d0) && AllDigits(d1) && AllDigits(d2) && AllDigits(d3)
    ensures DotFields(d0 + "." + (d1 + "." + (d2 + "." + d3))) == [d0, d1, d2, d3]
  {
    var e2 := d2 + "." + d3;
    var e1 := d1 + "." + e2;
    var e0 := d0 + "." + e1;
    DigitsHaveNoDot(d3);
    DotFieldsNoDot(d3);
    DigitsHaveNoDot(d2);
    DotFieldsJoin(d2, d3);
    assert DotFields(e2) == [d2, d3];
    DigitsHaveNoDot(d1);
    DotFieldsJoin(d1, e2);
    assert DotFields(e1) == [d1, d2, d3];
    DigitsHaveNoDot(d0);
    DotFieldsJoin(d0, e1);
  }

  /** inet_ntop for an IPv4 address: dotted decimal, in byte order. The
      result has exactly four '.'-separated fields, each the decimal digits
      of one address byte. */
  function FormatIPv4(b: seq<bv8>): (r: string)
    requires |b| == 4
    ensures 7 <= |r| <= 15
    ensures var f := DotFields(r);
      && |f| == 4
      && forall i :: 0 <= i < 4 ==> AllDigits(f[i]) && DigitsValue(f[i]) == b[i] as nat
  {
    var d0 := NatToDigits(b[0] as nat);
    var d1 := NatToDigits(b[1] as nat);
    var d2 := NatToDigits(b[2] as nat);
    var d3 := NatToDigits(b[3] as nat);
    DottedQuadFields(d0, d1, d2, d3);
    DigitsRoundTrip(b[0] as nat);
    DigitsRoundTrip(b[1] as nat);
    DigitsRoundTrip(b[2] as nat);
    DigitsRoundTrip(b[3] as nat);
    d0 + "." + (d1 + "." + (d2 + "." + d3))
  }

  predicate IsIPv4(a: Address) {
    a.addrType == ADDRTYPE_INET && |a.contents| == 4
  }

  /** The address list of a ticket record: one dotted-quad string per
      four-byte INET address, in order; other entries are skipped. */
  function AddressStrings(addrs: seq<Address>): (r: seq<string>)
    ensures |r| <= |addrs|
    ensures forall k :: 0 <= k < |r| ==> 7 <= |r[k]| <= 15
  {
    if addrs == [] then []
    else
      var last := addrs[|addrs| - 1];
      AddressStrings(addrs[..|addrs| - 1]) + (if IsIPv4(last) then [FormatIPv4(last.contents)] else [])
  }

  /** Only INET entries of length 4 contribute, each exactly once. */
  lemma {:induction false} AddressStringsCount(addrs: seq<Address>)
    ensures |AddressStrings(addrs)| == |set k | 0 <= k < |addrs| && IsIPv4(addrs[k])|
  {
    if addrs != [] {
      var n := |addrs| - 1;
      AddressStringsCount(addrs[..n]);
      var before := set k | 0 <= k < n && IsIPv4(addrs[..n][k]);
      var all := set k | 0 <= k < |addrs| && IsIPv4(addrs[k]);
      assert before == set k | 0 <= k < n && IsIPv4(addrs[k]);
      if IsIPv4(addrs[n]) {
        assert all == before + {n};
      } else {
        assert all == before;
      }
    }
  }

  /** The walk over the ticket's address array. */
  method AddressList(addrs: seq<Address>) returns (r: seq<string>)
    ensures r == AddressStrings(addrs)
  {
    r := [];
    var i := 0;
    while i < |addrs|
      invariant 0 <= i <= |addrs|
      invariant r == AddressStrings(addrs[..i])
    {
      var a := addrs[i];
      if a.addrType == ADDRTYPE_INET && |a.contents| == 4 {
        r := r + [FormatIPv4(a.contents)];
      }
      assert addrs[..i + 1][..i] == addrs[..i];
      i := i + 1;
    }
    assert addrs[..i] == addrs;
  }

  // --------------------------------------------------------- getEntries

  /** The server principals of the credentials that have one, in order. */
  function Servers(creds: seq<Credential>): (r: seq<Principal>)
    ensures |r| <= |creds|
  {
    if creds == [] then []
    else
      var last := creds[|creds| - 1];
      Servers(creds[..|creds| - 1]) + (if last.server.Some? then [last.server.value] else [])
  }

  /** The names getEntries() lists for these credentials, or None when
      rendering one of them fails. */
  function ServerNames(creds: seq<Credential>, lib: Library): Option<seq<CStr>> {
    if creds == [] then Some([])
    else
      var last := creds[|creds| - 1];
      match ServerNames(creds[..|creds| - 1], lib)
      case None => None
      case Some(names) =>
        match last.server
        case None => Some(names)
        case Some(s) =>
          match lib.unparseName(s)
          case None => None
          case Some(n) => Some(names + [n])
  }

  /** The listing holds one name per server principal, in cache order, and
      exists exactly when every one of them can be rendered. */
  lemma {:induction false} ServerNamesCorrect(creds: seq<Credential>, lib: Library)
    ensures ServerNames(creds, lib).Some? <==>
      forall i :: 0 <= i < |Servers(creds)| ==> lib.unparseName(Servers(creds)[i]).Some?
    ensures ServerNames(creds, lib).Some? ==>
      var names := ServerNames(creds, lib).value;
      && |names| == |Servers(creds)|
      && forall i :: 0 <= i < |names| ==> Some(names[i]) == lib.unparseName(Servers(creds)[i])
  {
    if creds != [] {
      var n := |creds| - 1;
      ServerNamesCorrect(creds[..n], lib);
      var pre := Servers(creds[..n]);
      if creds[n].server.Some? {
        assert Servers(creds) == pre + [creds[n].server.value];
        assert forall i :: 0 <= i < |pre| ==> Servers(creds)[i] == pre[i];
        assert Servers(creds)[|pre|] == creds[n].server.value;
      } else {
        assert Servers(creds) == pre;
      }
    }
  }

  /** A failure part way through empties the listing for good. */
  lemma {:induction false} ServerNamesFailureSticks(creds: seq<Credential>, k: nat, lib: Library)
    requires k <= |creds| && ServerNames(creds[..k], lib).None?
    ensures ServerNames(creds, lib).None?
    decreases |creds| - k
  {
    if k < |creds| {
      assert creds[..k + 1][..k] == creds[..k];
      ServerNamesFailureSticks(creds, k + 1, lib);
    } else {
      assert creds[..k] == creds;
    }
  }

  // -------------------------------------------------------- getTktAttrs

  /** One record of getTktAttrs(). */
  datatype TicketAttrs = TicketAttrs(
    server: CStr,
    client: CStr,
    authtime: int,
    starttime: int,
    endtime: int,
    renewUntil: int,
    flags: string,
    skeyEnc: string,
    tktEnc: string,
    addresses: seq<string>)

  function CharAt(s: string, i: nat): char {
    if i < |s| then s[i] else '\0'
  }

  /** `strncmp(a + i, b + i, n - i) == 0` over NUL-terminated strings. */
  function StrNEq(a: string, b: string, i: nat, n: nat): bool
    decreases n - i
  {
    if i >= n then true
    else if CharAt(a, i) != CharAt(b, i) then false
    else if CharAt(a, i) == '\0' then true
    else StrNEq(a, b, i + 1, n)
  }

  /** The filter of getTktAttrs(): an empty prefix matches every name;
      otherwise the name must be at least as long as the prefix and agree
      with it on the prefix's length under strncmp. */
  predicate PrefixWanted(name: CStr, prefix: string) {
    prefix == [] || (|name| >= |prefix| && StrNEq(name, prefix, 0, |prefix|))
  }

  lemma {:induction false} StrNEqIsSliceEq(name: CStr, prefix: string, i: nat)
    requires i <= |prefix| <= |name|
    ensures StrNEq(name, prefix, i, |prefix|) <==> prefix[i..] == name[i..|prefix|]
    decreases |prefix| - i
  {
    if i < |prefix| {
      assert name[i] in name;
      StrNEqIsSliceEq(name, prefix, i + 1);
      assert prefix[i..] == [prefix[i]] + prefix[i + 1..];
      assert name[i..|prefix|] == [name[i]] + name[i + 1..|prefix|];
    }
  }

  /** For the NUL-free names the library renders, the filter is exactly
      "the prefix is a byte prefix of the name". */
  lemma PrefixWantedIsBytePrefix(name: CStr, prefix: string)
    ensures PrefixWanted(name, prefix) <==> prefix <= name
  {
    if prefix != [] && |name| >= |prefix| {
      StrNEqIsSliceEq(name, prefix, 0);
    }
  }

  /** The record for one credential that has a server: an error when a
      rendering or decoding step fails (which empties the whole listing),
      Ok(None) when the prefix filter skips it. */
  function CredAttrs(c: Credential, prefix: string, lib: Library): Result<Option<TicketAttrs>, Error>
    requires c.server.Some?
  {
    match lib.unparseName(c.server.value)
    case None => Err(UnparseName)
    case Some(sname) =>
      if !PrefixWanted(sname, prefix) then Ok(None)
      else
        match lib.unparseName(c.client)
        case None => Err(UnparseName)
        case Some(cname) =>
          match lib.decodeTicket(c.ticket)
          case None => Err(DecodeTicket)
          case Some(tktEnctype) =>
            Ok(Some(TicketAttrs(
              sname, cname,
              c.times.authtime, c.times.starttime, c.times.endtime, c.times.renewTill,
              FlagString(c.ticketFlags),
              EnctypeLabel(c.keyEnctype, lib.enctypeName(c.keyEnctype)),
              EnctypeLabel(tktEnctype, lib.enctypeName(tktEnctype)),
              AddressStrings(c.addresses))))
  }

  /** The body of the getTktAttrs() loop for one credential. */
  method CredRecord(c: Credential, prefix: string, lib: Library) returns (r: Result<Option<TicketAttrs>, Error>)
    requires c.server.Some?
    ensures r == CredAttrs(c, prefix, lib)
  {
    var sname := lib.unparseName(c.server.value);
    if sname.None? {
      return Err(UnparseName);
    }
    if prefix != [] && (|sname.value| < |prefix| || !StrNEq(sname.value, prefix, 0, |prefix|)) {
      return Ok(None);
    }
    var cname := lib.unparseName(c.client);
    if cname.None? {
      return Err(UnparseName);
    }
    var flags := RenderFlags(c.ticketFlags);
    var skey := EnctypeLabel(c.keyEnctype, lib.enctypeName(c.keyEnctype));
    var tkt := lib.decodeTicket(c.ticket);
    if tkt.None? {
      return Err(DecodeTicket);
    }
    var tktEnc := EnctypeLabel(tkt.value, lib.enctypeName(tkt.value));
    var addrs := AddressList(c.addresses);
    r := Ok(Some(TicketAttrs(
      sname.value, cname.value,
      c.times.authtime, c.times.starttime, c.times.endtime, c.times.renewTill,
      flags, skey, tktEnc, addrs)));
  }

  /** The records getTktAttrs() lists, or the error of the first step that
      fails. */
  function TktAttrs(creds: seq<Credential>, prefix: string, lib: Library): Result<seq<TicketAttrs>, Error> {
    if creds == [] then Ok([])
    else
      var last := creds[|creds| - 1];
      match TktAttrs(creds[..|creds| - 1], prefix, lib)
      case Err(e) => Err(e)
      case Ok(recs) =>
        if last.server.None? then Ok(recs)
        else
          match CredAttrs(last, prefix, lib)
          case Err(e) => Err(e)
          case Ok(None) => Ok(recs)
          case Ok(Some(t)) => Ok(recs + [t])
  }

  /** The first failure decides the outcome, whatever comes after it. */
  lemma {:induction false} TktAttrsFailureSticks(creds: seq<Credential>, prefix: string, k: nat, lib: Library)
    requires k <= |creds| && TktAttrs(creds[..k], prefix, lib).Err?
    ensures TktAttrs(creds, prefix, lib) == TktAttrs(creds[..k], prefix, lib)
    decreases |creds| - k
  {
    if k < |creds| {
      assert creds[..k + 1][..k] == creds[..k];
      TktAttrsFailureSticks(creds, prefix, k + 1, lib);
    } else {
      assert creds[..k] == creds;
    }
  }

  /** Every listed record's server name starts with the prefix. */
  lemma {:induction false} TktAttrsMatchPrefix(creds: seq<Credential>, prefix: string, lib: Library)
    requires TktAttrs(creds, prefix, lib).Ok?
    ensures forall t :: t in TktAttrs(creds, prefix, lib).value ==> prefix <= t.server
  {
    if creds != [] {
      var n := |creds| - 1;
      TktAttrsMatchPrefix(creds[..n], prefix, lib);
      if creds[n].server.Some? {
        var sname := lib.unparseName(creds[n].server.value);
        if sname.Some? {
          PrefixWantedIsBytePrefix(sname.value, prefix);
        }
      }
    }
  }

  /** The names among these that start with the prefix, in order. */
  function WithPrefix(names: seq<CStr>, prefix: string): (r: seq<CStr>)
    ensures |r| <= |names|
    ensures forall n :: n in r ==> n in names && prefix <= n
  {
    if names == [] then []
    else
      var last := names[|names| - 1];
      WithPrefix(names[..|names| - 1], prefix) + (if prefix <= last then [last] else [])
  }

  /** The server names of a list of records, in order. */
  function RecordServers(recs: seq<TicketAttrs>): (r: seq<CStr>)
    ensures |r| == |recs| && forall i :: 0 <= i < |recs| ==> r[i] == recs[i].server
  {
    seq(|recs|, i requires 0 <= i < |recs| => recs[i].server)
  }

  /** For any prefix, a successful listing holds one record for each
      name getEntries() would list that starts with the prefix, and no
      other, in cache order. */
  lemma {:induction false} TktAttrsAreFilteredEntries(creds: seq<Credential>, prefix: string, lib: Library)
    requires TktAttrs(creds, prefix, lib).Ok?
    ensures ServerNames(creds, lib).Some?
    ensures RecordServers(TktAttrs(creds, prefix, lib).value) == WithPrefix(ServerNames(creds, lib).value, prefix)
  {
    if creds != [] {
      var n := |creds| - 1;
      var init := creds[..n];
      assert TktAttrs(init, prefix, lib).Ok?;
      TktAttrsAreFilteredEntries(init, prefix, lib);
      var recs0 := TktAttrs(init, prefix, lib).value;
      var names0 := ServerNames(init, lib).value;
      var c := creds[n];
      if c.server.Some? {
        var sname := lib.unparseName(c.server.value).value;
        PrefixWantedIsBytePrefix(sname, prefix);
        assert ServerNames(creds, lib).value == names0 + [sname];
        assert (names0 + [sname])[..|names0|] == names0;
        if prefix <= sname {
          var t := TktAttrs(creds, prefix, lib).value[|recs0|];
          assert TktAttrs(creds, prefix, lib).value == recs0 + [t];
          assert t.server == sname;
          assert RecordServers(recs0 + [t]) == RecordServers(recs0) + [sname];
        }
      }
    }
  }

  /** With no prefix, the records list the very names getEntries() lists,
      in the same order. */
  lemma {:induction false} EmptyPrefixListsEntries(creds: seq<Credential>, lib: Library)
    requires TktAttrs(creds, "", lib).Ok?
    ensures ServerNames(creds, lib).Some?
    ensures var recs := TktAttrs(creds, "", lib).value;
      var names := ServerNames(creds, lib).value;
      |recs| == |names| && forall i :: 0 <= i < |recs| ==> recs[i].server == names[i]
  {
    if creds != [] {
      var n := |creds| - 1;
      EmptyPrefixListsEntries(creds[..n], lib);
    }
  }
}
