/** Stage 1 of the normaliser: every suburb name in a fixed list is replaced, literally
    and case-sensitively, by the canonical city name, wherever it occurs (also inside a
    longer word). */
module Aliases {

  /** The suburb names, in the order the loop visits them. */
  const CityAliases: seq<string> := ["Carp", "Stittsville", "Gloucester", "Manotick", "Nepean", "Greely",
    "North Gower", "Kanata", "Metcalfe", "Dunrobin", "Vars", "Kinburn"]

  /** What each suburb name becomes. */
  const Canonical: string := "Ottawa"

  predicate StartsWith(s: string, p: string) {
    |p| <= |s| && s[..|p|] == p
  }

  predicate OccursAt(p: string, s: string, i: int) {
    0 <= i && i + |p| <= |s| && s[i..i + |p|] == p
  }

  predicate Occurs(p: string, s: string) {
    exists i :: 0 <= i <= |s| && OccursAt(p, s, i)
  }

  /** Left-to-right, non-overlapping replacement of every occurrence of `pat` by `rep`
      (the regular-expression substitution with a pattern free of metacharacters). */
  function Replace(s: string, pat: string, rep: string): string
    requires |pat| > 0
    decreases |s|
  {
    if s == [] then []
    else if StartsWith(s, pat) then rep + Replace(s[|pat|..], pat, rep)
    else [s[0]] + Replace(s[1..], pat, rep)
  }

  /** An occurrence of `w` can never overlap an inserted `rep`: `w` does not begin with a
      character of `rep`, and `rep`'s first character appears nowhere in `w`. */
  predicate CannotStraddle(w: string, rep: string) {
    |w| > 0 && |rep| > 0 && w[0] !in rep && rep[0] !in w
  }

  /** Every name can be replaced and no name can straddle the replacement text. */
  predicate ValidAliases(names: seq<string>, rep: string) {
    forall i :: 0 <= i < |names| ==> CannotStraddle(names[i], rep)
  }

  lemma OccursInSuffix(p: string, s: string, n: nat)
    requires n <= |s|
    requires Occurs(p, s[n..])
    ensures Occurs(p, s)
  {
    var i :| 0 <= i <= |s[n..]| && OccursAt(p, s[n..], i);
    assert i + |p| <= |s| - n;
    assert s[n..][i..i + |p|] == s[i + n..i + n + |p|];
    assert OccursAt(p, s, i + n);
  }

  /** As long as no character of the result equals `rep[0]`, no replacement has happened yet:
      the result starts like the input. */
  lemma {:induction false} ReplacePrefix(s: string, pat: string, rep: string, m: nat)
    requires |pat| > 0 && |rep| > 0
    requires m <= |Replace(s, pat, rep)|
    requires forall k :: 0 <= k < m ==> Replace(s, pat, rep)[k] != rep[0]
    ensures m <= |s| && Replace(s, pat, rep)[..m] == s[..m]
    decreases |s|
  {
    if m > 0 {
      var r := Replace(s, pat, rep);
      assert r[0] != rep[0];
      assert s != [] && !StartsWith(s, pat);
      var t := Replace(s[1..], pat, rep);
      assert r == [s[0]] + t;
      forall k | 0 <= k < m - 1 ensures t[k] != rep[0] {
        assert t[k] == r[k + 1];
      }
      ReplacePrefix(s[1..], pat, rep, m - 1);
      assert r[..m] == [s[0]] + t[..m - 1];
      assert s[..m] == [s[0]] + s[1..][..m - 1];
    }
  }

  /** A `w` free of `rep[0]` at the start of the result was already at the start of the input. */
  lemma ReplaceKeepsStart(s: string, pat: string, rep: string, w: string)
    requires |pat| > 0 && |rep| > 0
    requires rep[0] !in w
    ensures StartsWith(Replace(s, pat, rep), w) ==> StartsWith(s, w)
  {
    var r := Replace(s, pat, rep);
    if StartsWith(r, w) {
      forall k | 0 <= k < |w| ensures r[k] != rep[0] {
        assert r[k] == w[k];
      }
      ReplacePrefix(s, pat, rep, |w|);
    }
  }

  lemma StartsWithCons(c: char, t: string, p: string)
    requires |p| > 0
    ensures StartsWith([c] + t, p) <==> c == p[0] && StartsWith(t, p[1..])
  {
    if StartsWith(t, p[1..]) && c == p[0] {
      assert ([c] + t)[..|p|] == [c] + t[..|p| - 1];
    }
    if StartsWith([c] + t, p) {
      assert t[..|p| - 1] == ([c] + t)[..|p|][1..];
    }
  }

  /** An occurrence in `h + t` that does not start inside `h` is an occurrence in `t`. */
  lemma NoOccursAfter(w: string, h: string, t: string)
    requires !Occurs(w, t)
    requires forall i :: 0 <= i < |h| ==> !OccursAt(w, h + t, i)
    ensures !Occurs(w, h + t)
  {
    forall i | |h| <= i <= |h + t| ensures !OccursAt(w, h + t, i) {
      assert !OccursAt(w, t, i - |h|);
      if i + |w| <= |h + t| {
        assert (h + t)[i..i + |w|] == t[i - |h|..i - |h| + |w|];
      }
    }
  }

  /** After replacing `pat`, neither `pat` itself nor any `w` that was absent occurs,
      provided that `w` cannot straddle the replacement text. */
  lemma {:induction false} ReplaceAvoids(s: string, pat: string, rep: string, w: string)
    requires |pat| > 0
    requires CannotStraddle(w, rep)
    requires w == pat || !Occurs(w, s)
    ensures !Occurs(w, Replace(s, pat, rep))
    decreases |s|
  {
    var r := Replace(s, pat, rep);
    if s == [] {
      assert !OccursAt(w, r, 0);
    } else if StartsWith(s, pat) {
      var rest := s[|pat|..];
      if w != pat && Occurs(w, rest) {
        OccursInSuffix(w, s, |pat|);
      }
      ReplaceAvoids(rest, pat, rep, w);
      var t := Replace(rest, pat, rep);
      assert r == rep + t;
      forall i | 0 <= i < |rep| ensures !OccursAt(w, rep + t, i) {
        assert (rep + t)[i] == rep[i];
      }
      NoOccursAfter(w, rep, t);
    } else {
      if w != pat && Occurs(w, s[1..]) {
        OccursInSuffix(w, s, 1);
      }
      ReplaceAvoids(s[1..], pat, rep, w);
      ReplaceKeepsStart(s, pat, rep, w);
      var t := Replace(s[1..], pat, rep);
      assert r == [s[0]] + t;
      assert OccursAt(w, r, 0) == StartsWith(r, w);
      assert OccursAt(w, s, 0) == StartsWith(s, w);
      NoOccursAfter(w, [s[0]], t);
    }
  }

  /** An address without the name is left alone. */
  lemma {:induction false} ReplaceAbsent(s: string, pat: string, rep: string)
    requires |pat| > 0
    requires !Occurs(pat, s)
    ensures Replace(s, pat, rep) == s
    decreases |s|
  {
    if s != [] {
      assert !OccursAt(pat, s, 0);
      if Occurs(pat, s[1..]) {
        OccursInSuffix(pat, s, 1);
      }
      ReplaceAbsent(s[1..], pat, rep);
    }
  }

  /** Each former occurrence of `pat` now reads `rep` and the text around it is unchanged:
      replacing `rep` back by `pat` restores the input, when the input did not already
      contain `rep`. */
  lemma {:induction false} ReplaceRoundTrip(s: string, pat: string, rep: string)
    requires CannotStraddle(pat, rep)
    requires rep[0] !in rep[1..]
    requires !Occurs(rep, s)
    ensures Replace(Replace(s, pat, rep), rep, pat) == s
    decreases |s|
  {
    var r := Replace(s, pat, rep);
    if s == [] {
    } else if StartsWith(s, pat) {
      var rest := s[|pat|..];
      if Occurs(rep, rest) {
        OccursInSuffix(rep, s, |pat|);
      }
      ReplaceRoundTrip(rest, pat, rep);
      var t := Replace(rest, pat, rep);
      assert r == rep + t;
      assert StartsWith(r, rep);
      assert r[|rep|..] == t;
      assert s == pat + rest;
    } else {
      if Occurs(rep, s[1..]) {
        OccursInSuffix(rep, s, 1);
      }
      ReplaceRoundTrip(s[1..], pat, rep);
      var t := Replace(s[1..], pat, rep);
      assert r == [s[0]] + t;
      assert s == [s[0]] + s[1..];
      ReplaceKeepsStart(s[1..], pat, rep, rep[1..]);
      StartsWithCons(s[0], t, rep);
      StartsWithCons(s[0], s[1..], rep);
      assert OccursAt(rep, s, 0) == StartsWith(s, rep);
      assert !StartsWith(r, rep);
      assert r[1..] == t;
    }
  }

  /** The loop of the stage as a fold: the first `n` names are replaced one after the other,
      first to last. */
  function ReplaceFirst(s: string, names: seq<string>, n: nat, rep: string): string
    requires n <= |names|
    requires forall i :: 0 <= i < |names| ==> |names[i]| > 0
  {
    if n == 0 then s
    else Replace(ReplaceFirst(s, names, n - 1, rep), names[n - 1], rep)
  }

  /** After the fold none of the names occurs. */
  lemma {:induction false} ReplaceFirstRemoves(s: string, names: seq<string>, n: nat, rep: string)
    requires n <= |names|
    requires ValidAliases(names, rep)
    ensures forall i :: 0 <= i < n ==> !Occurs(names[i], ReplaceFirst(s, names, n, rep))
  {
    if n > 0 {
      ReplaceFirstRemoves(s, names, n - 1, rep);
      var prev := ReplaceFirst(s, names, n - 1, rep);
      forall i | 0 <= i < n ensures !Occurs(names[i], ReplaceFirst(s, names, n, rep)) {
        ReplaceAvoids(prev, names[n - 1], rep, names[i]);
      }
    }
  }

  /** An address containing none of the names, exactly as capitalised, comes back unchanged. */
  lemma {:induction false} ReplaceFirstAbsent(s: string, names: seq<string>, n: nat, rep: string)
    requires n <= |names|
    requires forall i :: 0 <= i < |names| ==> |names[i]| > 0
    requires forall i :: 0 <= i < n ==> !Occurs(names[i], s)
    ensures ReplaceFirst(s, names, n, rep) == s
  {
    if n > 0 {
      ReplaceFirstAbsent(s, names, n - 1, rep);
      ReplaceAbsent(s, names[n - 1], rep);
    }
  }

  /** The twelve names and "Ottawa" satisfy the straddling condition: no name contains an
      upper-case O and none starts with a letter of "Ottawa". */
  lemma CityAliasesValid()
    ensures ValidAliases(CityAliases, Canonical)
    ensures Canonical[0] !in Canonical[1..]
  {
  }

  /** The stage over the whole address column: a loop over the names that rewrites every
      address on each pass. */
  method ReplaceCities(column: seq<string>) returns (out: seq<string>)
    ensures |out| == |column|
    ensures forall r :: 0 <= r < |out| ==> out[r] == ReplaceFirst(column[r], CityAliases, |CityAliases|, Canonical)
    ensures forall r, i :: 0 <= r < |out| && 0 <= i < |CityAliases| ==> !Occurs(CityAliases[i], out[r])
  {
    CityAliasesValid();
    out := column;
    var c := 0;
    while c < |CityAliases|
      invariant 0 <= c <= |CityAliases|
      invariant |out| == |column|
      invariant forall r :: 0 <= r < |out| ==> out[r] == ReplaceFirst(column[r], CityAliases, c, Canonical)
      invariant forall r, i :: 0 <= r < |out| && 0 <= i < c ==> !Occurs(CityAliases[i], out[r])
    {
      var city := CityAliases[c];
      var next := seq(|out|, r requires 0 <= r < |out| => Replace(out[r], city, Canonical));
      forall r, i | 0 <= r < |next| && 0 <= i <= c ensures !Occurs(CityAliases[i], next[r]) {
        ReplaceAvoids(out[r], city, Canonical, CityAliases[i]);
      }
      out := next;
      c := c + 1;
    }
  }

  /** A name whose first letter does not appear in `s` does not occur in `s`. */
  lemma InitialAbsent(p: string, s: string)
    requires |p| > 0 && p[0] !in s
    ensures !Occurs(p, s)
  {
    forall i | 0 <= i <= |s| ensures !OccursAt(p, s, i) {
      if i + |p| <= |s| {
        assert s[i..i + |p|][0] == s[i];
      }
    }
  }

  /** Text in front that holds no start of an occurrence is copied unchanged: `re.sub`
      copies everything before the first occurrence, whatever letters it holds. */
  lemma {:induction false} ReplaceSkip(a: string, b: string, pat: string, rep: string)
    requires |pat| > 0
    requires forall k :: 0 <= k < |a| ==> !OccursAt(pat, a + b, k)
    ensures Replace(a + b, pat, rep) == a + Replace(b, pat, rep)
    decreases |a|
  {
    if a == [] {
      assert a + b == b;
    } else {
      assert !OccursAt(pat, a + b, 0);
      assert !StartsWith(a + b, pat);
      assert (a + b)[1..] == a[1..] + b;
      forall k | 0 <= k < |a[1..]| ensures !OccursAt(pat, a[1..] + b, k) {
        assert !OccursAt(pat, a + b, k + 1);
        if k + |pat| <= |a[1..] + b| {
          assert (a[1..] + b)[k..k + |pat|] == (a + b)[k + 1..k + 1 + |pat|];
        }
      }
      ReplaceSkip(a[1..], b, pat, rep);
    }
  }

  /** Text that lacks the first letter of `pat` holds no start of an occurrence. */
  lemma NoStartIn(a: string, b: string, pat: string)
    requires |pat| > 0 && pat[0] !in a
    ensures forall k :: 0 <= k < |a| ==> !OccursAt(pat, a + b, k)
  {
    forall k | 0 <= k < |a| ensures !OccursAt(pat, a + b, k) {
      if k + |pat| <= |a + b| {
        assert (a + b)[k..k + |pat|][0] == a[k];
      }
    }
  }

  /** The first occurrence reads `rep` afterwards, the text in front of it is unchanged, and
      the rest is processed the same way. */
  lemma ReplaceOccurrence(a: string, b: string, pat: string, rep: string)
    requires |pat| > 0
    requires forall k :: 0 <= k < |a| ==> !OccursAt(pat, a + pat + b, k)
    ensures Replace(a + pat + b, pat, rep) == a + rep + Replace(b, pat, rep)
  {
    assert a + pat + b == a + (pat + b);
    ReplaceSkip(a, pat + b, pat, rep);
    assert (pat + b)[..|pat|] == pat;
    assert (pat + b)[|pat|..] == b;
  }

  /** A name whose first three letters never appear together in `s` does not occur in `s`. */
  lemma TrigramAbsent(p: string, s: string)
    requires |p| >= 3
    requires forall i :: 0 <= i && i + 3 <= |s| ==> s[i] != p[0] || s[i + 1] != p[1] || s[i + 2] != p[2]
    ensures !Occurs(p, s)
  {
    forall i | 0 <= i <= |s| ensures !OccursAt(p, s, i) {
      if i + |p| <= |s| {
        assert s[i..i + |p|][0] == s[i] && s[i..i + |p|][1] == s[i + 1] && s[i..i + |p|][2] == s[i + 2];
      }
    }
  }

  /** Names that do not occur once the first `k` have been replaced change nothing more. */
  lemma {:induction false} ReplaceFirstRest(s: string, names: seq<string>, k: nat, n: nat, rep: string)
    requires k <= n <= |names|
    requires forall i :: 0 <= i < |names| ==> |names[i]| > 0
    requires forall i :: k <= i < n ==> !Occurs(names[i], ReplaceFirst(s, names, k, rep))
    ensures ReplaceFirst(s, names, n, rep) == ReplaceFirst(s, names, k, rep)
  {
    if k < n {
      ReplaceFirstRest(s, names, k, n - 1, rep);
      ReplaceAbsent(ReplaceFirst(s, names, k, rep), names[n - 1], rep);
    }
  }

  /** `"Vars"` at the front of `"Varsity"` is replaced. */
  lemma VarsReplaced(before: string, after: string)
    requires before == "Varsity" && after == "Ottawaity"
    ensures Replace(before, "Vars", Canonical) == after
  {
    var tail := "ity";
    assert before == [] + "Vars" + tail;
    ReplaceOccurrence([], tail, "Vars", Canonical);
    assert tail + [] == tail;
    NoStartIn(tail, [], "Vars");
    ReplaceSkip(tail, [], "Vars", Canonical);
  }

  /** A name right after its own first letter is still replaced: the `C` in front is copied. */
  lemma ReplaceAfterInitial(before: string, after: string)
    requires before == "CCarp" && after == "COttawa"
    ensures Replace(before, "Carp", Canonical) == after
  {
    assert before == "C" + "Carp" + [];
    assert before[..4] != "Carp" by { assert before[1] != "Carp"[1]; }
    ReplaceOccurrence("C", [], "Carp", Canonical);
  }

  /** A name inside a longer word is replaced too. */
  lemma ReplaceInsideWord(before: string, after: string)
    requires before == "Varsity" && after == "Ottawaity"
    ensures ReplaceFirst(before, CityAliases, |CityAliases|, Canonical) == after
  {
    forall i | 0 <= i < 10 ensures !Occurs(CityAliases[i], before) {
      InitialAbsent(CityAliases[i], before);
    }
    ReplaceFirstAbsent(before, CityAliases, 10, Canonical);
    VarsReplaced(before, after);
    assert ReplaceFirst(before, CityAliases, 11, Canonical) == after;
    InitialAbsent(CityAliases[11], after);
    ReplaceFirstRest(before, CityAliases, 11, 12, Canonical);
  }
}
