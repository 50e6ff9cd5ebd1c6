/** `string_trim`: removal of leading and trailing whitespace. */
module StringUtils {
  import opened Wrappers

  /** The characters the source treats as whitespace: space, newline,
      carriage return and tab. */
  predicate IsWhitespace(c: char) {
    c == ' ' || c == '\n' || c == '\r' || c == '\t'
  }

  predicate AllWhitespace(s: string) {
    forall i :: 0 <= i < |s| ==> IsWhitespace(s[i])
  }

  /** `find_first_not_of(k_whitespace)`. */
  function FirstNonWhitespace(s: string): (r: Option<nat>)
    ensures r.None? <==> AllWhitespace(s)
    ensures r.Some? ==> r.value < |s| && !IsWhitespace(s[r.value]) && AllWhitespace(s[..r.value])
  {
    if |s| == 0 then None
    else if !IsWhitespace(s[0]) then Some(0)
    else match FirstNonWhitespace(s[1..])
      case None => None
      case Some(k) =>
        assert s[..k + 1] == [s[0]] + s[1..][..k];
        Some(k + 1)
  }

  /** `find_last_not_of(k_whitespace)`. */
  function LastNonWhitespace(s: string): (r: Option<nat>)
    ensures r.None? <==> AllWhitespace(s)
    ensures r.Some? ==> r.value < |s| && !IsWhitespace(s[r.value]) && AllWhitespace(s[r.value + 1..])
  {
    if |s| == 0 then None
    else if !IsWhitespace(s[|s| - 1]) then Some(|s| - 1)
    else match LastNonWhitespace(s[..|s| - 1])
      case None => None
      case Some(k) =>
        assert s[k + 1..] == s[..|s| - 1][k + 1..] + [s[|s| - 1]];
        Some(k)
  }

  /** `string_trim`: the text from the first to the last non-whitespace
      character, or "" when there is none. The result is s with a
      whitespace-only prefix and suffix removed, and it neither starts nor
      ends with whitespace. */
  function Trim(s: string): (r: string)
    ensures |r| == 0 <==> AllWhitespace(s)
    ensures |r| > 0 ==> !IsWhitespace(r[0]) && !IsWhitespace(r[|r| - 1])
    ensures exists k :: 0 <= k <= |s| - |r| && s[k..k + |r|] == r &&
                        AllWhitespace(s[..k]) && AllWhitespace(s[k + |r|..])
  {
    var first := FirstNonWhitespace(s);
    if first.None? then
      assert s[..0] == [] && s[0..] == s;
      ""
    else
      var last := LastNonWhitespace(s).value;
      assert first.value <= last;
      s[first.value..last + 1]
  }

  /** Trimming twice is the same as trimming once. */
  lemma TrimIdempotent(s: string)
    ensures Trim(Trim(s)) == Trim(s)
  {
    var t := Trim(s);
    if |t| > 0 {
      assert FirstNonWhitespace(t) == Some(0);
      assert LastNonWhitespace(t) == Some(|t| - 1);
      assert t[0..|t|] == t;
    }
  }

  /** Interior whitespace is kept: a string that starts and ends with
      non-whitespace is its own trim. */
  lemma TrimKeepsInterior(s: string)
    requires |s| > 0 && !IsWhitespace(s[0]) && !IsWhitespace(s[|s| - 1])
    ensures Trim(s) == s
  {
    assert FirstNonWhitespace(s) == Some(0);
    assert LastNonWhitespace(s) == Some(|s| - 1);
    assert s[0..|s|] == s;
  }
}
