/** Python's `str.strip()` with no argument, and the whitespace it removes. */
module PyStr {

  /** The characters Python 3's `str.isspace()` accepts: `\t \n \v \f \r`, the
      separators U+001C..U+001F, the space, U+0085, U+00A0, U+1680, U+2000..U+200A,
      U+2028, U+2029, U+202F, U+205F and U+3000. */
  predicate IsSpace(c: char) {
    || '\t' <= c <= '\r'
    || '\U{1C}' <= c <= ' '
    || c == '\U{85}' || c == '\U{A0}' || c == '\U{1680}'
    || '\U{2000}' <= c <= '\U{200A}'
    || c == '\U{2028}' || c == '\U{2029}' || c == '\U{202F}' || c == '\U{205F}'
    || c == '\U{3000}'
  }

  /** Every character of `s` is whitespace (true of the empty string). */
  predicate AllSpace(s: string) {
    forall i :: 0 <= i < |s| ==> IsSpace(s[i])
  }

  /** `s.lstrip()`: the longest suffix of `s` that does not start with whitespace. */
  function LStrip(s: string): (r: string)
    ensures |r| <= |s| && r == s[|s| - |r|..]
    ensures AllSpace(s[..|s| - |r|])
    ensures r != [] ==> !IsSpace(r[0])
  {
    if s != [] && IsSpace(s[0]) then LStrip(s[1..]) else s
  }

  /** `s.rstrip()`: the longest prefix of `s` that does not end with whitespace. */
  function RStrip(s: string): (r: string)
    ensures |r| <= |s| && r == s[..|r|]
    ensures AllSpace(s[|r|..])
    ensures r != [] ==> !IsSpace(r[|r| - 1])
  {
    if s != [] && IsSpace(s[|s| - 1]) then RStrip(s[..|s| - 1]) else s
  }

  /** `s.strip()`: `s` without its leading and trailing whitespace. */
  function Strip(s: string): (r: string)
    ensures |r| <= |s|
    ensures r != [] ==> !IsSpace(r[0]) && !IsSpace(r[|r| - 1])
  {
    RStrip(LStrip(s))
  }

  /** `s.strip()` is the slice of `s` left after removing a whitespace-only prefix and
      a whitespace-only suffix. */
  lemma StripIsSlice(s: string)
    ensures exists a :: 0 <= a <= a + |Strip(s)| <= |s| && Strip(s) == s[a..a + |Strip(s)|]
                         && AllSpace(s[..a]) && AllSpace(s[a + |Strip(s)|..])
  {
    var t := LStrip(s);
    var r := Strip(s);
    var a := |s| - |t|;
    assert s[a + |r|..] == t[|r|..];
    assert r == s[a..a + |r|];
  }

  /** `not s.strip()` holds exactly when `s` is empty or whitespace only. */
  lemma StripEmptyIffAllSpace(s: string)
    ensures Strip(s) == [] <==> AllSpace(s)
  {
    var t := LStrip(s);
    if !AllSpace(s) {
      var i :| 0 <= i < |s| && !IsSpace(s[i]);
      assert t[i - (|s| - |t|)] == s[i];
    }
  }
}
