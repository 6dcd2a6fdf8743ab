/**
 * The two JavaScript truth tests the screens' guards rely on:
 *  - `!text.trim()`, true exactly when `String.prototype.trim` leaves the empty
 *    string; `trim` strips the code points ECMA-262 calls WhiteSpace
 *    (section 12.2) and LineTerminator (section 12.3) from both ends;
 *  - `!selected` on a `number | null` selection, true for null and for 0.
 */
module JsValues {
  import opened Records

  /** A `number | null` selection used as a condition: null and 0 are falsy
      (NaN, never stored by the screens, is not modelled). */
  predicate Truthy(selected: Option<int>): (b: bool)
    ensures !b <==> selected == None || selected == Some(0)
  {
    selected.Some? && selected.value != 0
  }

  /** A WhiteSpace or LineTerminator code point of ECMA-262. */
  predicate IsTrimmable(c: char) {
    var n := c as int;
    n == 0x09 || n == 0x0A || n == 0x0B || n == 0x0C || n == 0x0D
    || n == 0x20 || n == 0xA0 || n == 0x1680 || (0x2000 <= n <= 0x200A)
    || n == 0x2028 || n == 0x2029 || n == 0x202F || n == 0x205F
    || n == 0x3000 || n == 0xFEFF
  }

  /** `s` without its leading trimmable characters. */
  function TrimStart(s: string): (r: string)
    ensures |r| <= |s| && r == s[|s| - |r|..]
    ensures forall i :: 0 <= i < |s| - |r| ==> IsTrimmable(s[i])
    ensures r != [] ==> !IsTrimmable(r[0])
  {
    if s != [] && IsTrimmable(s[0]) then TrimStart(s[1..]) else s
  }

  /** `s` without its trailing trimmable characters. */
  function TrimEnd(s: string): (r: string)
    ensures |r| <= |s| && r == s[..|r|]
    ensures forall i :: |r| <= i < |s| ==> IsTrimmable(s[i])
    ensures r != [] ==> !IsTrimmable(r[|r| - 1])
  {
    if s != [] && IsTrimmable(s[|s| - 1]) then TrimEnd(s[..|s| - 1]) else s
  }

  /** `s.trim()`: the slice of `s` left after cutting a trimmable run off each
      end, and neither end of that slice is trimmable. */
  function Trim(s: string): (r: string)
    ensures |r| <= |s|
    ensures exists a, b :: (0 <= a <= b <= |s| && r == s[a..b]
      && (forall i :: 0 <= i < a ==> IsTrimmable(s[i]))
      && (forall i :: b <= i < |s| ==> IsTrimmable(s[i])))
    ensures r != [] ==> !IsTrimmable(r[0]) && !IsTrimmable(r[|r| - 1])
  {
    var t := TrimStart(s);
    var r := TrimEnd(t);
    assert r != [] ==> r[0] == t[0];
    var a := |s| - |t|;
    var b := a + |r|;
    assert t == s[a..];
    assert r == s[a..b];
    assert forall i :: b <= i < |s| ==> s[i] == t[i - a];
    r
  }

  /** `!s.trim()`: the empty string is the only falsy string, so a text is blank
      exactly when every one of its characters is trimmable (the empty text included). */
  predicate IsBlank(s: string): (b: bool)
    ensures b <==> forall i :: 0 <= i < |s| ==> IsTrimmable(s[i])
  {
    Trim(s) == []
  }
}
