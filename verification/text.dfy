/** Python's str.strip() and the white space it removes. */
module Text {

  predicate IsSpace(c: char) {
    c == ' ' || c == '\t' || c == '\n' || c == '\r' || c == 11 as char || c == 12 as char
  }

  function StripLeft(s: string): (r: string)
    ensures |r| <= |s| && r == s[|s| - |r|..]
    ensures forall i :: 0 <= i < |s| - |r| ==> IsSpace(s[i])
    ensures r != [] ==> !IsSpace(r[0])
  {
    if s != [] && IsSpace(s[0]) then StripLeft(s[1..]) else s
  }

  function StripRight(s: string): (r: string)
    ensures |r| <= |s| && r == s[..|r|]
    ensures forall i :: |r| <= i < |s| ==> IsSpace(s[i])
    ensures r != [] ==> !IsSpace(r[|r| - 1])
  {
    if s != [] && IsSpace(s[|s| - 1]) then StripRight(s[..|s| - 1]) else s
  }

  function Strip(s: string): string {
    StripRight(StripLeft(s))
  }

  ghost predicate Blank(s: string, lo: nat, hi: nat)
    requires hi <= |s|
  {
    forall k :: lo <= k < hi ==> IsSpace(s[k])
  }

  /** Stripping removes all outer white space and nothing else. */
  lemma StripMeaning(s: string) returns (a: nat, b: nat)
    ensures a <= b <= |s| && Strip(s) == s[a..b]
    ensures Blank(s, 0, a) && Blank(s, b, |s|)
    ensures a < b ==> !IsSpace(s[a]) && !IsSpace(s[b - 1])
  {
    var left := StripLeft(s);
    a := |s| - |left|;
    b := a + |StripRight(left)|;
    assert s[a..b] == left[..b - a];
    forall k | b <= k < |s| ensures IsSpace(s[k]) {
      assert s[k] == left[k - a];
    }
    assert a < b ==> s[a] == left[0] && s[b - 1] == left[b - 1 - a];
  }
}
