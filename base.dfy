/** Option and Result wrappers, and the C-string view of Dafny strings used
    wherever the extension hands a string to, or takes one from, C code. */
module Base {

  datatype Option<+T> = None | Some(value: T) {
    function GetOr(default: T): T {
      match this
      case Some(v) => v
      case None => default
    }
  }

  datatype Result<+R, +E> = Ok(value: R) | Err(error: E)

  /** A string as C sees it: no embedded NUL, so `strlen` is its length. */
  type CStr = s: string | '\0' !in s witness ""

  /** What a C routine (`strlen`, `strcpy`, `strncpy` followed by a
      terminator) sees of a length-counted string: everything before the
      first NUL. */
  function CString(s: string): (r: CStr)
    ensures r <= s
    ensures |r| == |s| || s[|r|] == '\0'
  {
    if s == [] || s[0] == '\0' then ""
    else
      var rest := CString(s[1..]);
      [s[0]] + rest
  }

  /** A locator in `type:residual` form splits at its first colon. */
  function SplitLocator(s: string): (r: Option<(string, string)>)
    ensures r.Some? ==> ':' !in r.value.0 && s == r.value.0 + ":" + r.value.1
    ensures r.None? <==> ':' !in s
  {
    if s == [] then None
    else if s[0] == ':' then Some(("", s[1..]))
    else match SplitLocator(s[1..])
      case None => None
      case Some((t, n)) => Some(([s[0]] + t, n))
  }

  /** Joining a colon-free type and a residual with ':' and splitting again
      gives the two parts back. */
  lemma {:induction false} LocatorRoundTrip(t: string, n: string)
    requires ':' !in t
    ensures SplitLocator(t + ":" + n) == Some((t, n))
  {
    if t != [] {
      var s := t + ":" + n;
      assert s[0] == t[0] && s[0] != ':';
      assert s[1..] == t[1..] + ":" + n;
      LocatorRoundTrip(t[1..], n);
      assert [t[0]] + t[1..] == t;
    } else {
      assert t + ":" + n == [':'] + n;
    }
  }
}
