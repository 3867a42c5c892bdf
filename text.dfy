/** Character classes, Python's `str.strip`, and "obtained by deleting characters"
    (the subsequence relation), shared by the three normalisation stages. */
module Text {

  /** `[A-Za-z]` of the postal-code pattern. */
  predicate IsLetter(c: char) {
    'A' <= c <= 'Z' || 'a' <= c <= 'z'
  }

  /** `\d`, restricted to the ASCII digits. */
  predicate IsDigit(c: char) {
    '0' <= c <= '9'
  }

  /** `\w`, restricted to ASCII: letters, digits and the underscore. */
  predicate IsWord(c: char) {
    IsLetter(c) || IsDigit(c) || c == '_'
  }

  /** The whitespace of Python strings: what `str.strip` removes and what `\s` matches. */
  predicate IsSpace(c: char) {
    '\U{9}' <= c <= '\U{D}' || '\U{1C}' <= c <= '\U{20}' || c == '\U{85}' || c == '\U{A0}'
    || c == '\U{1680}' || '\U{2000}' <= c <= '\U{200A}' || c == '\U{2028}' || c == '\U{2029}'
    || c == '\U{202F}' || c == '\U{205F}' || c == '\U{3000}'
  }

  /** A string with no whitespace at either end. */
  predicate IsTrimmed(s: string) {
    s == [] || (!IsSpace(s[0]) && !IsSpace(s[|s| - 1]))
  }

  /** Number of whitespace characters at the front of `s`. */
  function LeadCount(s: string): (n: nat)
    ensures n <= |s|
    ensures forall k :: 0 <= k < n ==> IsSpace(s[k])
    ensures n == |s| || !IsSpace(s[n])
  {
    if s == [] || !IsSpace(s[0]) then 0 else 1 + LeadCount(s[1..])
  }

  /** Number of whitespace characters at the back of `s`. */
  function TrailCount(s: string): (n: nat)
    ensures n <= |s|
    ensures forall k :: |s| - n <= k < |s| ==> IsSpace(s[k])
    ensures n == |s| || !IsSpace(s[|s| - 1 - n])
  {
    if s == [] || !IsSpace(s[|s| - 1]) then 0 else 1 + TrailCount(s[..|s| - 1])
  }

  /** Python's `str.strip()` with no argument: the infix of `s` left after removing
      the whitespace at both ends. */
  function Strip(s: string): (r: string)
    ensures LeadCount(s) + |r| <= |s|
    ensures IsTrimmed(r)
    ensures r == s[LeadCount(s)..LeadCount(s) + |r|]
    ensures forall k :: 0 <= k < |s| && !(LeadCount(s) <= k < LeadCount(s) + |r|) ==> IsSpace(s[k])
  {
    var a := LeadCount(s);
    var rest := s[a..];
    rest[..|rest| - TrailCount(rest)]
  }

  /** Stripping a string that has no whitespace at its ends changes nothing. */
  lemma StripTrimmed(s: string)
    requires IsTrimmed(s)
    ensures Strip(s) == s
  {
    assert LeadCount(s) == 0;
    assert TrailCount(s) == 0;
  }

  /** Stripping a trimmed, non-empty string followed by one whitespace character gives back
      the string. */
  lemma StripTrailingSpace(t: string, c: char)
    requires t != [] && IsTrimmed(t) && IsSpace(c)
    ensures Strip(t + [c]) == t
  {
    var s := t + [c];
    assert s[0] == t[0];
    assert LeadCount(s) == 0;
    var r := Strip(s);
    assert s[|t| - 1] == t[|t| - 1];
    assert |r| >= |t|;
    assert s[0..|t|] == t;
  }

  /** Proof helper: joining two kept pieces across a dropped middle, stated on plain strings
      so that callers pass the scan's results as values. */
  lemma JoinPieces(x: string, p: string, y: string, z: string, q: string, r: string)
    requires x == p + y && y == z && z == q + r && r == []
    ensures x == p + q
  {
    assert q + r == q;
  }

  /** Proof helper: keeping `s[a]` in front of a copy of `s[a + 1..i]` copies `s[a..i]`,
      stated on plain strings so that callers pass the scan's results as values. */
  lemma PrependSlice(s: string, a: nat, i: nat, x: string, y: string, z: string)
    requires a < i <= |s|
    requires x == [s[a]] + y && y == s[a + 1..i] + z
    ensures x == s[a..i] + z
  {
    assert s[a..i] == [s[a]] + s[a + 1..i];
  }

  /** `a` is obtained from `b` by deleting characters. */
  predicate IsSubseq(a: string, b: string)
    decreases |b|
  {
    a == [] || (b != [] && ((a[0] == b[0] && IsSubseq(a[1..], b[1..])) || IsSubseq(a, b[1..])))
  }

  lemma {:induction false} SubseqLength(a: string, b: string)
    requires IsSubseq(a, b)
    ensures |a| <= |b|
    decreases |b|
  {
    if a != [] {
      if a[0] == b[0] && IsSubseq(a[1..], b[1..]) {
        SubseqLength(a[1..], b[1..]);
      } else {
        SubseqLength(a, b[1..]);
      }
    }
  }

  lemma {:induction false} SubseqRefl(a: string)
    ensures IsSubseq(a, a)
    decreases |a|
  {
    if a != [] {
      SubseqRefl(a[1..]);
    }
  }

  /** Deleting a prefix of `b` first does not break the relation. */
  lemma {:induction false} SubseqDropFront(a: string, b: string, k: nat)
    requires k <= |b|
    requires IsSubseq(a, b[k..])
    ensures IsSubseq(a, b)
    decreases k
  {
    if k > 0 {
      assert b[1..][k - 1..] == b[k..];
      SubseqDropFront(a, b[1..], k - 1);
    }
  }

  /** Keeping one more character in front on both sides. */
  lemma SubseqCons(c: char, a: string, b: string)
    requires IsSubseq(a, b)
    ensures IsSubseq([c] + a, [c] + b)
  {
    assert ([c] + a)[1..] == a;
    assert ([c] + b)[1..] == b;
  }

  lemma {:induction false} SubseqTrans(a: string, b: string, c: string)
    requires IsSubseq(a, b) && IsSubseq(b, c)
    ensures IsSubseq(a, c)
    decreases |c|
  {
    if a != [] {
      if IsSubseq(b, c[1..]) {
        SubseqTrans(a, b, c[1..]);
      } else if a[0] == b[0] && IsSubseq(a[1..], b[1..]) {
        SubseqTrans(a[1..], b[1..], c[1..]);
      } else {
        SubseqTrans(a, b[1..], c[1..]);
      }
    }
  }

  /** A prefix is obtained by deleting the rest. */
  lemma {:induction false} PrefixIsSubseq(s: string, n: nat)
    requires n <= |s|
    ensures IsSubseq(s[..n], s)
    decreases n
  {
    if n > 0 {
      PrefixIsSubseq(s[1..], n - 1);
      assert s[..n][1..] == s[1..][..n - 1];
    }
  }

  /** Stripping only deletes characters. */
  lemma StripIsSubseq(s: string)
    ensures IsSubseq(Strip(s), s)
  {
    var a := LeadCount(s);
    var r := Strip(s);
    PrefixIsSubseq(s[a..], |r|);
    assert s[a..][..|r|] == r;
    SubseqDropFront(r, s, a);
  }
}
