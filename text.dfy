/**
 * The string operations the scraper applies to page text: Python's
 * `str.strip()` with no argument, the substring test `pat in s`, and
 * `str.lower()`.
 */
module Text {

  /** The characters for which Python's `str.isspace()` holds. */
  predicate IsSpace(c: char)
  {
    c == ' ' || ('\t' <= c <= '\r') || ('\U{1C}' <= c <= '\U{1F}') ||
    c == '\U{85}' || c == '\U{A0}' || c == '\U{1680}' ||
    ('\U{2000}' <= c <= '\U{200A}') || c == '\U{2028}' || c == '\U{2029}' ||
    c == '\U{202F}' || c == '\U{205F}' || c == '\U{3000}'
  }

  ghost predicate AllSpace(s: string)
  {
    forall i :: 0 <= i < |s| ==> IsSpace(s[i])
  }

  /** `s` neither starts nor ends with whitespace. */
  ghost predicate Trimmed(s: string)
  {
    s == [] || (!IsSpace(s[0]) && !IsSpace(s[|s| - 1]))
  }

  /** `s` with its leading whitespace removed. */
  function TrimStart(s: string): (r: string)
    ensures |r| <= |s| && r == s[|s| - |r|..] && AllSpace(s[..|s| - |r|])
    ensures r == [] || !IsSpace(r[0])
  {
    if s == [] || !IsSpace(s[0]) then
      s
    else
      var t := s[1..];
      var r := TrimStart(t);
      var k := |t| - |r|;
      assert t[k..] == s[k + 1..];
      assert AllSpace(s[..k + 1]) by {
        var u := s[..k + 1];
        forall i | 0 <= i < k + 1 ensures IsSpace(u[i]) {
          if i > 0 { assert u[i] == t[..k][i - 1]; }
        }
      }
      r
  }

  /** `s` with its trailing whitespace removed. */
  function TrimEnd(s: string): (r: string)
    ensures |r| <= |s| && r == s[..|r|] && AllSpace(s[|r|..])
    ensures r == [] || !IsSpace(r[|r| - 1])
  {
    if s == [] || !IsSpace(s[|s| - 1]) then
      s
    else
      var init := s[..|s| - 1];
      var r := TrimEnd(init);
      assert r == s[..|r|];
      assert AllSpace(s[|r|..]) by {
        forall i | 0 <= i < |s| - |r| ensures IsSpace(s[|r|..][i]) {
          if i < |s| - 1 - |r| { assert s[|r|..][i] == init[|r|..][i]; }
        }
      }
      r
  }

  /** `r` sits at index `i` of `s` with only whitespace around it. */
  ghost predicate PaddedAt(s: string, r: string, i: int)
  {
    0 <= i && i + |r| <= |s| && s[i..i + |r|] == r && AllSpace(s[..i]) && AllSpace(s[i + |r|..])
  }

  /**
   * Python's `s.strip()`: the result is the part of `s` left after removing
   * whitespace from both ends.
   */
  function Strip(s: string): (r: string)
    ensures Trimmed(r)
    ensures exists i :: PaddedAt(s, r, i)
  {
    var t := TrimStart(s);
    var r := TrimEnd(t);
    StripParts(s, t, r);
    r
  }

  /** Trimming the start and then the end leaves the middle of `s`. */
  lemma StripParts(s: string, t: string, r: string)
    requires |t| <= |s| && t == s[|s| - |t|..] && AllSpace(s[..|s| - |t|]) && (t == [] || !IsSpace(t[0]))
    requires |r| <= |t| && r == t[..|r|] && AllSpace(t[|r|..]) && (r == [] || !IsSpace(r[|r| - 1]))
    ensures Trimmed(r) && PaddedAt(s, r, |s| - |t|)
  {
    var i := |s| - |t|;
    assert s[i..i + |r|] == t[..|r|];
    assert s[i + |r|..] == t[|r|..];
    if r != [] {
      assert r[0] == t[0];
    }
  }

  /** Stripping already trimmed text changes nothing. */
  lemma StripTrimmed(s: string)
    requires Trimmed(s)
    ensures Strip(s) == s
  {
    if s != [] {
      assert TrimStart(s) == s;
      assert TrimEnd(s) == s;
    }
  }

  /** The specification of the substring test: `pat` occurs in `s` at some position. */
  ghost predicate Occurs(pat: string, s: string)
  {
    exists i :: OccursAt(pat, s, i)
  }

  /** `pat` occurs in `s` starting at index `i`. */
  ghost predicate OccursAt(pat: string, s: string, i: int)
  {
    0 <= i && i + |pat| <= |s| && s[i..i + |pat|] == pat
  }

  /** Python's `pat in s`. */
  function Contains(s: string, pat: string): (b: bool)
    ensures b <==> Occurs(pat, s)
  {
    if |s| < |pat| then
      false
    else if s[..|pat|] == pat then
      assert OccursAt(pat, s, 0);
      true
    else
      var b := Contains(s[1..], pat);
      if b then
        assert Occurs(pat, s) by {
          var i :| OccursAt(pat, s[1..], i);
          assert s[i + 1..i + 1 + |pat|] == s[1..][i..i + |pat|];
          assert OccursAt(pat, s, i + 1);
        }
        true
      else
        assert !Occurs(pat, s) by {
          forall i ensures !OccursAt(pat, s, i) {
            if i > 0 && i + |pat| <= |s| {
              var t := s[1..];
              assert t[i - 1..i - 1 + |pat|] == s[i..i + |pat|];
              assert !OccursAt(pat, t, i - 1);
            }
          }
        }
        false
  }

  /** An occurrence survives putting text before and after. */
  lemma OccursInContext(pat: string, s: string, p: string, q: string)
    requires Occurs(pat, s)
    ensures Occurs(pat, p + s + q)
  {
    var i :| OccursAt(pat, s, i);
    var t := p + s + q;
    assert t[|p| + i..|p| + i + |pat|] == s[i..i + |pat|];
    assert OccursAt(pat, t, |p| + i);
  }

  /** Python's lower-casing of one character, for the ASCII letters. */
  function LowerChar(c: char): (d: char)
    ensures 'A' <= c <= 'Z' ==> 'a' <= d <= 'z' && d as int - c as int == 32
    ensures !('A' <= c <= 'Z') ==> d == c
  {
    if 'A' <= c <= 'Z' then (c as int + 32) as char else c
  }

  /** Python's `s.lower()`, character by character. */
  function Lower(s: string): (r: string)
    ensures |r| == |s|
    ensures forall i :: 0 <= i < |s| ==> r[i] == LowerChar(s[i])
  {
    seq(|s|, i requires 0 <= i < |s| => LowerChar(s[i]))
  }

  /** Lower-casing commutes with concatenation. */
  lemma LowerAppend(s: string, t: string)
    ensures Lower(s + t) == Lower(s) + Lower(t)
  {
    var l, r := Lower(s + t), Lower(s) + Lower(t);
    assert |l| == |r|;
    forall i | 0 <= i < |l| ensures l[i] == r[i] {
      if i < |s| { assert (s + t)[i] == s[i]; } else { assert (s + t)[i] == t[i - |s|]; }
    }
  }

  /** Lower-casing commutes with taking a slice. */
  lemma LowerSlice(s: string, i: nat, j: nat)
    requires i <= j <= |s|
    ensures Lower(s)[i..j] == Lower(s[i..j])
  {
    var l, r := Lower(s)[i..j], Lower(s[i..j]);
    assert |l| == |r|;
    forall k | 0 <= k < |l| ensures l[k] == r[k] {
      assert l[k] == Lower(s)[i + k] == LowerChar(s[i + k]);
      assert r[k] == LowerChar(s[i..j][k]);
    }
  }

  /** Lower-casing twice is lower-casing once. */
  lemma LowerIdempotent(s: string)
    ensures Lower(Lower(s)) == Lower(s)
  {
    var l := Lower(s);
    assert |Lower(l)| == |l|;
    forall i | 0 <= i < |l| ensures Lower(l)[i] == l[i] {
      assert l[i] == LowerChar(s[i]);
    }
  }
}
