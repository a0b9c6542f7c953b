/** Python's `str.strip()` with no argument, as the store applies it to every
    name and task text a user types. */
module Strings {

  /** The characters for which Python's `str.isspace()` is true: tab through
      carriage return, the four information separators and the space, NEL,
      no-break space, the Ogham space mark, the spaces U+2000 to U+200A, the
      line and paragraph separators, the narrow no-break and medium
      mathematical spaces, and the ideographic space. */
  predicate IsSpace(c: char)
  {
    || ('\t' <= c <= '\r')
    || ('\U{1C}' <= c <= ' ')
    || c == '\U{85}' || c == '\U{A0}' || c == '\U{1680}'
    || ('\U{2000}' <= c <= '\U{200A}')
    || c == '\U{2028}' || c == '\U{2029}' || c == '\U{202F}' || c == '\U{205F}'
    || c == '\U{3000}'
  }

  predicate AllSpace(s: string)
  {
    forall k :: 0 <= k < |s| ==> IsSpace(s[k])
  }

  /** A string `strip()` leaves alone: empty, or neither end is white space. */
  predicate Stripped(s: string)
  {
    s == [] || (!IsSpace(s[0]) && !IsSpace(s[|s| - 1]))
  }

  /** Length of the run of white space at the front of `s`. */
  function LeadLen(s: string): (n: nat)
    ensures n <= |s|
    ensures AllSpace(s[..n])
    ensures n < |s| ==> !IsSpace(s[n])
  {
    if |s| > 0 && IsSpace(s[0]) then
      var m := LeadLen(s[1..]);
      assert s[1..][..m] == s[1..m + 1];
      1 + m
    else 0
  }

  /** Length of the run of white space at the back of `s`. */
  function TrailLen(s: string): (n: nat)
    ensures n <= |s|
    ensures AllSpace(s[|s| - n..])
    ensures n < |s| ==> !IsSpace(s[|s| - n - 1])
  {
    if |s| > 0 && IsSpace(s[|s| - 1]) then
      var t := s[..|s| - 1];
      var m := TrailLen(t);
      TrailStep(s, m);
      1 + m
    else 0
  }

  /** One more white-space character at the back extends the trailing run. */
  lemma TrailStep(s: string, m: nat)
    requires |s| > 0 && IsSpace(s[|s| - 1])
    requires m <= |s| - 1 && AllSpace(s[..|s| - 1][|s| - 1 - m..])
    requires m < |s| - 1 ==> !IsSpace(s[..|s| - 1][|s| - 2 - m])
    ensures AllSpace(s[|s| - 1 - m..])
    ensures m + 1 < |s| ==> !IsSpace(s[|s| - 2 - m])
  {
    var t, u := s[..|s| - 1], s[|s| - 1 - m..];
    forall k | 0 <= k < |u| ensures IsSpace(u[k]) {
      if k < m {
        assert u[k] == t[|s| - 1 - m..][k];
      }
    }
    if m + 1 < |s| {
      assert s[|s| - 2 - m] == t[|s| - 2 - m];
    }
  }

  /** White space on both sides of a cut is white space throughout. */
  lemma AllSpaceJoin(s: string, i: nat)
    requires i <= |s|
    requires AllSpace(s[..i]) && AllSpace(s[i..])
    ensures AllSpace(s)
  {
    forall k | 0 <= k < |s| ensures IsSpace(s[k]) {
      if k < i {
        assert s[k] == s[..i][k];
      } else {
        assert s[k] == s[i..][k - i];
      }
    }
  }

  /** What is left of `s` once `lead` characters are cut from the front
      and `trail` from the back, named so that `Strip` can state it. */
  function Middle(s: string, lead: nat, trail: nat): string
    requires lead + trail <= |s|
  {
    s[lead..|s| - trail]
  }

  /** `s.strip()`: the middle of `s` once the white space at both ends is
      cut off; everything cut off is white space and the result is empty
      exactly when `s` is all white space. */
  function Strip(s: string): (r: string)
    ensures |r| <= |s|
    ensures Stripped(r)
    ensures r == [] <==> AllSpace(s)
    ensures LeadLen(s) + |r| <= |s|
    ensures r == s[LeadLen(s)..LeadLen(s) + |r|]
    ensures AllSpace(s[..LeadLen(s)]) && AllSpace(s[LeadLen(s) + |r|..])
  {
    var i := LeadLen(s);
    var j := TrailLen(s[i..]);
    TrailOfRest(s, i, j);
    MiddleEnds(s, i, j);
    MiddleEmpty(s, i, j);
    Middle(s, i, j)
  }

  /** The trailing run of `s[i..]`, read as positions of `s`. */
  lemma TrailOfRest(s: string, i: nat, j: nat)
    requires i <= |s| && j <= |s| - i
    requires AllSpace(s[i..][|s| - i - j..])
    requires j < |s| - i ==> !IsSpace(s[i..][|s| - i - j - 1])
    ensures AllSpace(s[|s| - j..])
    ensures i + j < |s| ==> !IsSpace(s[|s| - j - 1])
  {
    assert s[i..][|s| - i - j..] == s[|s| - j..];
    if i + j < |s| {
      assert s[i..][|s| - i - j - 1] == s[|s| - j - 1];
    }
  }

  /** Cutting `i` leading and `j` trailing characters, each run ending at a
      non-space, leaves a middle whose ends are not white space. */
  lemma MiddleEnds(s: string, i: nat, j: nat)
    requires i + j <= |s|
    requires i < |s| ==> !IsSpace(s[i])
    requires i + j < |s| ==> !IsSpace(s[|s| - j - 1])
    ensures Stripped(Middle(s, i, j))
  {
    var r := Middle(s, i, j);
    if r != [] {
      assert r[0] == s[i];
      assert r[|r| - 1] == s[|s| - j - 1];
    }
  }

  /** With white space cut from both ends, nothing is left in the middle
      exactly when all of `s` is white space. */
  lemma MiddleEmpty(s: string, i: nat, j: nat)
    requires i + j <= |s|
    requires AllSpace(s[..i]) && AllSpace(s[|s| - j..])
    requires i < |s| ==> !IsSpace(s[i])
    ensures Middle(s, i, j) == [] <==> AllSpace(s)
  {
    if i + j == |s| {
      assert s[i..] == s[|s| - j..];
      AllSpaceJoin(s, i);
    } else {
      assert !IsSpace(s[i]);
    }
  }

  /** A stripped string is a fixed point of `Strip`. */
  lemma {:induction false} StripStripped(s: string)
    requires Stripped(s)
    ensures Strip(s) == s
  {
    if s != [] {
      assert LeadLen(s) == 0;
      assert TrailLen(s) == 0;
    }
  }

  /** Stripping twice is stripping once. */
  lemma StripIdempotent(s: string)
    ensures Strip(Strip(s)) == Strip(s)
  {
    StripStripped(Strip(s));
  }
}
