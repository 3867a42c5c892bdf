/** Stage 3 of the normaliser, `remove_apartment_number`: every match of
    `\s*#\w+\s*|\s*(?:Apt|Suite)\s*\w+\s*` is deleted, left to right and without overlap,
    and the result is stripped. The match may sit anywhere in the address and takes the
    whitespace on both of its sides with it. */
module ApartmentNumber {
  import opened Text

  /** End of the run of whitespace that starts at `i` (the greedy `\s*`). */
  function SpanSpaces(s: string, i: nat): (j: nat)
    requires i <= |s|
    ensures i <= j <= |s|
    decreases |s| - i
  {
    if i < |s| && IsSpace(s[i]) then SpanSpaces(s, i + 1) else i
  }

  /** End of the run of word characters that starts at `i` (the greedy `\w*`). */
  function SpanWord(s: string, i: nat): (j: nat)
    requires i <= |s|
    ensures i <= j <= |s|
    decreases |s| - i
  {
    if i < |s| && IsWord(s[i]) then SpanWord(s, i + 1) else i
  }

  predicate AllSpace(s: string, a: nat, b: nat)
    requires a <= b <= |s|
  {
    forall k :: a <= k < b ==> IsSpace(s[k])
  }

  predicate AllWord(s: string, a: nat, b: nat)
    requires a <= b <= |s|
  {
    forall k :: a <= k < b ==> IsWord(s[k])
  }

  /** `SpanSpaces` stops at the first character that is not whitespace. */
  lemma {:induction false} SpanSpacesRun(s: string, i: nat)
    requires i <= |s|
    ensures AllSpace(s, i, SpanSpaces(s, i))
    ensures SpanSpaces(s, i) == |s| || !IsSpace(s[SpanSpaces(s, i)])
    decreases |s| - i
  {
    if i < |s| && IsSpace(s[i]) {
      SpanSpacesRun(s, i + 1);
    }
  }

  /** `SpanWord` stops at the first character that is not a word character. */
  lemma {:induction false} SpanWordRun(s: string, i: nat)
    requires i <= |s|
    ensures AllWord(s, i, SpanWord(s, i))
    ensures SpanWord(s, i) == |s| || !IsWord(s[SpanWord(s, i)])
    decreases |s| - i
  {
    if i < |s| && IsWord(s[i]) {
      SpanWordRun(s, i + 1);
    }
  }

  /** `Apt` occurs in `s` at `j`. */
  predicate AptAt(s: string, j: nat) {
    j + 3 <= |s| && s[j] == 'A' && s[j + 1] == 'p' && s[j + 2] == 't'
  }

  /** `Suite` occurs in `s` at `j`. */
  predicate SuiteAt(s: string, j: nat) {
    j + 5 <= |s| && s[j] == 'S' && s[j + 1] == 'u' && s[j + 2] == 'i' && s[j + 3] == 't'
    && s[j + 4] == 'e'
  }

  /** `(?:Apt|Suite)` matches `s[j..m]`. */
  predicate KeywordAt(s: string, j: nat, m: nat) {
    (AptAt(s, j) && m == j + 3) || (SuiteAt(s, j) && m == j + 5)
  }

  /** `s[i..e]` matches the first alternative `\s*#\w+\s*`, with `s[j]` the `#` and
      `s[j + 1..k]` the word. */
  predicate HashFragment(s: string, i: nat, j: nat, k: nat, e: nat) {
    i <= j && j + 1 < k <= e <= |s| && AllSpace(s, i, j) && s[j] == '#'
    && AllWord(s, j + 1, k) && AllSpace(s, k, e)
  }

  /** `s[i..e]` matches the second alternative `\s*(?:Apt|Suite)\s*\w+\s*`, with `s[j..m]` the
      keyword and `s[p..k]` the word. */
  predicate UnitFragment(s: string, i: nat, j: nat, m: nat, p: nat, k: nat, e: nat) {
    i <= j <= m <= p < k <= e <= |s| && AllSpace(s, i, j) && KeywordAt(s, j, m)
    && AllSpace(s, m, p) && AllWord(s, p, k) && AllSpace(s, k, e)
  }

  /** Some match of the pattern starts at `i`. */
  ghost predicate MatchesAt(s: string, i: nat) {
    (exists j, k, e :: HashFragment(s, i, j, k, e))
    || (exists j, m, p, k, e :: UnitFragment(s, i, j, m, p, k, e))
  }

  /** End of the match of `\s*#\w+\s*` at `i`, or `i` when there is none. */
  function HashEnd(s: string, i: nat): (e: nat)
    requires i <= |s|
    ensures i <= e <= |s|
  {
    var j := SpanSpaces(s, i);
    if j < |s| && s[j] == '#' then
      var k := SpanWord(s, j + 1);
      if k > j + 1 then SpanSpaces(s, k) else i
    else i
  }

  /** End of the match of `\s*\w+\s*` that follows a keyword ending at `m`, or `i` when there
      is none. */
  function TailEnd(s: string, i: nat, m: nat): (e: nat)
    requires i <= m <= |s|
    ensures i <= e <= |s|
  {
    var p := SpanSpaces(s, m);
    var k := SpanWord(s, p);
    if k > p then SpanSpaces(s, k) else i
  }

  /** End of the match of `\s*(?:Apt|Suite)\s*\w+\s*` at `i`, or `i` when there is none. */
  function UnitEnd(s: string, i: nat): (e: nat)
    requires i <= |s|
    ensures i <= e <= |s|
  {
    var j := SpanSpaces(s, i);
    if AptAt(s, j) then TailEnd(s, i, j + 3)
    else if SuiteAt(s, j) then TailEnd(s, i, j + 5)
    else i
  }

  /** End of the match of the whole pattern at `i`, trying the alternatives in order, or `i`
      when there is none. Greedy runs are enough: every `\s*` is followed by `#`, a keyword
      or `\w`, none of which is whitespace, so giving back characters never rescues a
      failed match. */
  function MatchEnd(s: string, i: nat): (e: nat)
    requires i <= |s|
    ensures i <= e <= |s|
  {
    var h := HashEnd(s, i);
    if h > i then h else UnitEnd(s, i)
  }

  /** A whitespace run that stops at a non-space is the greedy one. */
  lemma {:induction false} SpanSpacesExact(s: string, i: nat, j: nat)
    requires i <= j <= |s| && AllSpace(s, i, j) && (j == |s| || !IsSpace(s[j]))
    ensures SpanSpaces(s, i) == j
    decreases j - i
  {
    if i < j {
      SpanSpacesExact(s, i + 1, j);
    }
  }

  /** A whitespace run that stops at a word character is the greedy one. */
  lemma SpanSpacesBeforeWord(s: string, i: nat, j: nat)
    requires i <= j < |s| && AllSpace(s, i, j) && IsWord(s[j])
    ensures SpanSpaces(s, i) == j
  {
    SpanSpacesExact(s, i, j);
  }

  /** A word run that stops at a non-word character is the greedy one. */
  lemma {:induction false} SpanWordExact(s: string, i: nat, k: nat)
    requires i <= k <= |s| && AllWord(s, i, k) && (k == |s| || !IsWord(s[k]))
    ensures SpanWord(s, i) == k
    decreases k - i
  {
    if i < k {
      SpanWordExact(s, i + 1, k);
    }
  }

  /** The greedy word run reaches at least as far as any word run. */
  lemma {:induction false} SpanWordCovers(s: string, i: nat, k: nat)
    requires i <= k <= |s| && AllWord(s, i, k)
    ensures SpanWord(s, i) >= k
    decreases k - i
  {
    if i < k {
      SpanWordCovers(s, i + 1, k);
    }
  }

  /** A `#` fragment at `i` is found by the first alternative. */
  lemma HashEndComplete(s: string, i: nat, j: nat, k: nat, e: nat)
    requires HashFragment(s, i, j, k, e)
    ensures HashEnd(s, i) > i
  {
    SpanSpacesExact(s, i, j);
    SpanWordCovers(s, j + 1, k);
  }

  /** A `#` fragment whose word and trailing whitespace cannot be extended is exactly the
      match the matcher reports. */
  lemma HashEndExact(s: string, i: nat, j: nat, k: nat, e: nat)
    requires HashFragment(s, i, j, k, e)
    requires k == |s| || !IsWord(s[k])
    requires e == |s| || !IsSpace(s[e])
    ensures MatchEnd(s, i) == e
  {
    SpanSpacesExact(s, i, j);
    SpanWordExact(s, j + 1, k);
    SpanSpacesExact(s, k, e);
  }

  /** An `Apt` or `Suite` fragment whose word and trailing whitespace cannot be extended is
      exactly the match the matcher reports. */
  lemma UnitEndExact(s: string, i: nat, j: nat, m: nat, p: nat, k: nat, e: nat)
    requires UnitFragment(s, i, j, m, p, k, e)
    requires k == |s| || !IsWord(s[k])
    requires e == |s| || !IsSpace(s[e])
    ensures MatchEnd(s, i) == e
  {
    SpanSpacesExact(s, i, j);
    SpanSpacesExact(s, m, p);
    SpanWordExact(s, p, k);
    SpanSpacesExact(s, k, e);
    if AptAt(s, j) {
      assert m == j + 3;
    } else {
      assert m == j + 5;
    }
  }

  /** An `Apt` or `Suite` fragment at `i` is found by the second alternative. */
  lemma UnitEndComplete(s: string, i: nat, j: nat, m: nat, p: nat, k: nat, e: nat)
    requires UnitFragment(s, i, j, m, p, k, e)
    ensures UnitEnd(s, i) > i
  {
    SpanSpacesExact(s, i, j);
    SpanSpacesBeforeWord(s, m, p);
    SpanWordCovers(s, p, k);
    if AptAt(s, j) {
      assert m == j + 3;
    } else {
      assert m == j + 5;
    }
  }

  /** Whenever the pattern can match at `i`, the matcher reports a match. */
  lemma MatchEndComplete(s: string, i: nat)
    requires i <= |s|
    requires MatchesAt(s, i)
    ensures MatchEnd(s, i) > i
  {
    if j: nat, k: nat, e: nat :| HashFragment(s, i, j, k, e) {
      HashEndComplete(s, i, j, k, e);
    } else {
      var j: nat, m: nat, p: nat, k: nat, e: nat :| UnitFragment(s, i, j, m, p, k, e);
      UnitEndComplete(s, i, j, m, p, k, e);
    }
  }

  /** A match reported by the first alternative is a `#` fragment. */
  lemma HashEndSound(s: string, i: nat)
    requires i <= |s|
    ensures HashEnd(s, i) > i ==> exists j, k :: HashFragment(s, i, j, k, HashEnd(s, i))
    ensures HashEnd(s, i) > i ==> HashEnd(s, i) == |s| || !IsSpace(s[HashEnd(s, i)])
  {
    var j := SpanSpaces(s, i);
    SpanSpacesRun(s, i);
    if j < |s| && s[j] == '#' {
      var k := SpanWord(s, j + 1);
      SpanWordRun(s, j + 1);
      SpanSpacesRun(s, k);
      if k > j + 1 {
        assert HashFragment(s, i, j, k, HashEnd(s, i));
      }
    }
  }

  /** What follows the keyword: a whitespace run, a word and a whitespace run. */
  predicate TailFragment(s: string, m: nat, p: nat, k: nat, e: nat) {
    m <= p < k <= e <= |s| && AllSpace(s, m, p) && AllWord(s, p, k) && AllSpace(s, k, e)
  }

  /** A tail reported after a keyword is a whitespace run, a word and all the whitespace
      after it. */
  lemma TailEndSound(s: string, i: nat, m: nat)
    requires i <= m <= |s|
    ensures TailEnd(s, i, m) > i ==> exists p, k :: TailFragment(s, m, p, k, TailEnd(s, i, m))
    ensures TailEnd(s, i, m) > i ==> TailEnd(s, i, m) == |s| || !IsSpace(s[TailEnd(s, i, m)])
  {
    var p := SpanSpaces(s, m);
    SpanSpacesRun(s, m);
    var k := SpanWord(s, p);
    SpanWordRun(s, p);
    SpanSpacesRun(s, k);
    if k > p {
      assert TailFragment(s, m, p, k, TailEnd(s, i, m));
    }
  }

  /** A match reported by the second alternative is an `Apt` or `Suite` fragment. */
  lemma UnitEndSound(s: string, i: nat)
    requires i <= |s|
    ensures UnitEnd(s, i) > i ==> exists j, m, p, k :: UnitFragment(s, i, j, m, p, k, UnitEnd(s, i))
    ensures UnitEnd(s, i) > i ==> UnitEnd(s, i) == |s| || !IsSpace(s[UnitEnd(s, i)])
  {
    var j := SpanSpaces(s, i);
    SpanSpacesRun(s, i);
    if AptAt(s, j) || SuiteAt(s, j) {
      var m := if AptAt(s, j) then j + 3 else j + 5;
      TailEndSound(s, i, m);
      if UnitEnd(s, i) > i {
        var p: nat, k: nat :| TailFragment(s, m, p, k, UnitEnd(s, i));
        assert UnitFragment(s, i, j, m, p, k, UnitEnd(s, i));
      }
    }
  }

  /** What the matcher reports is a fragment of one of the two alternatives, ending exactly
      where the matcher says, with all the whitespace after it. */
  lemma MatchEndSound(s: string, i: nat)
    requires i <= |s|
    ensures MatchEnd(s, i) > i ==>
      (exists j, k :: HashFragment(s, i, j, k, MatchEnd(s, i)))
      || (exists j, m, p, k :: UnitFragment(s, i, j, m, p, k, MatchEnd(s, i)))
    ensures MatchEnd(s, i) > i ==> MatchesAt(s, i)
    ensures MatchEnd(s, i) > i ==> MatchEnd(s, i) == |s| || !IsSpace(s[MatchEnd(s, i)])
  {
    HashEndSound(s, i);
    UnitEndSound(s, i);
  }

  /** The whitespace in front of a fragment goes with it: a match that starts after a space
      is the same match started one character earlier. */
  lemma SpaceBeforeMatch(s: string, i: nat)
    requires 0 < i <= |s| && IsSpace(s[i - 1]) && MatchEnd(s, i) > i
    ensures MatchEnd(s, i - 1) == MatchEnd(s, i)
  {
    assert SpanSpaces(s, i - 1) == SpanSpaces(s, i);
  }

  /** The substitution `re.sub(pattern, '', s)` from position `i` on. */
  function Excise(s: string, i: nat): string
    requires i <= |s|
    decreases |s| - i
  {
    if i == |s| then []
    else
      var e := MatchEnd(s, i);
      if e > i then Excise(s, e) else [s[i]] + Excise(s, i + 1)
  }

  /** `remove_apartment_number`. */
  function RemoveApartmentNumber(address: string): string {
    Strip(Excise(address, 0))
  }

  /** The output is trimmed. */
  lemma RemoveApartmentNumberTrimmed(address: string)
    ensures IsTrimmed(RemoveApartmentNumber(address))
  {
  }

  /** A `#`, `Apt` or `Suite` starts at `j`. */
  predicate MarkerAt(s: string, j: nat)
    requires j < |s|
  {
    s[j] == '#' || AptAt(s, j) || SuiteAt(s, j)
  }

  /** Every match contains a marker: a `#`, `Apt` or `Suite`. */
  lemma MatchHasMarker(s: string, i: nat)
    requires i <= |s|
    ensures MatchEnd(s, i) > i ==> SpanSpaces(s, i) < |s| && MarkerAt(s, SpanSpaces(s, i))
  {
  }

  /** A character that cannot begin a match: not whitespace and not the first character of
      a marker. */
  predicate CannotStart(c: char) {
    !IsSpace(c) && c != '#' && c != 'A' && c != 'S'
  }

  /** No match starts at a character that cannot begin one. */
  lemma NoMatchAtPlain(s: string, k: nat)
    requires k < |s|
    ensures CannotStart(s[k]) ==> MatchEnd(s, k) == k
  {
    MatchHasMarker(s, k);
  }

  /** Proof helper: one unfolding of `Excise` where nothing matches. */
  lemma ExciseKeeps(s: string, i: nat)
    requires i < |s|
    ensures MatchEnd(s, i) == i ==> Excise(s, i) == [s[i]] + Excise(s, i + 1)
  {
  }

  /** Proof helper: one unfolding of `Excise` where a match starts. */
  lemma ExciseJumps(s: string, i: nat)
    requires i < |s|
    ensures MatchEnd(s, i) > i ==> Excise(s, i) == Excise(s, MatchEnd(s, i))
  {
  }

  /** Stripping cannot create a marker: the result is a piece of the input. */
  lemma StripKeepsNoMarker(t: string)
    requires forall j :: 0 <= j < |t| ==> !MarkerAt(t, j)
    ensures forall j :: 0 <= j < |Strip(t)| ==> !MarkerAt(Strip(t), j)
  {
    var a := LeadCount(t);
    var r := Strip(t);
    forall j | 0 <= j < |r| ensures !MarkerAt(r, j) {
      assert forall q :: j <= q < |r| ==> r[q] == t[a + q];
      assert !MarkerAt(t, a + j);
    }
  }

  /** Without a match from `i` on, the scan copies its input. */
  lemma {:induction false} ExciseNoMatch(s: string, i: nat)
    requires i <= |s|
    requires forall k :: i <= k < |s| ==> MatchEnd(s, k) == k
    ensures Excise(s, i) == s[i..]
    decreases |s| - i
  {
    if i < |s| {
      assert MatchEnd(s, i) == i;
      ExciseKeeps(s, i);
      ExciseNoMatch(s, i + 1);
      assert s[i..] == [s[i]] + s[i + 1..];
    }
  }

  /** An address with no `#`, no `Apt` and no `Suite` is only stripped. */
  lemma RemoveApartmentNumberNoMarker(address: string)
    requires forall j :: 0 <= j < |address| ==> !MarkerAt(address, j)
    ensures RemoveApartmentNumber(address) == Strip(address)
  {
    forall k | 0 <= k < |address| ensures MatchEnd(address, k) == k {
      MatchHasMarker(address, k);
    }
    ExciseNoMatch(address, 0);
  }

  /** The text up to the next match is copied verbatim. */
  lemma {:induction false} ExciseCopiesGap(s: string, a: nat, i: nat)
    requires a <= i <= |s|
    requires forall k :: a <= k < i ==> MatchEnd(s, k) == k
    ensures Excise(s, a) == s[a..i] + Excise(s, i)
    decreases i - a
  {
    if a < i {
      ExciseKeeps(s, a);
      ExciseCopiesGap(s, a + 1, i);
      PrependSlice(s, a, i, Excise(s, a), Excise(s, a + 1), Excise(s, i));
    }
  }

  /** The first match is dropped, with the whitespace around it, and everything before it is kept. */
  lemma FirstFragmentDropped(s: string, i: nat)
    requires i < |s| && MatchEnd(s, i) > i
    requires forall k :: 0 <= k < i ==> MatchEnd(s, k) == k
    ensures Excise(s, 0) == s[..i] + Excise(s, MatchEnd(s, i))
  {
    ExciseCopiesGap(s, 0, i);
  }

  /** The scan only deletes characters. */
  lemma {:induction false} ExciseIsSubseq(s: string, i: nat)
    requires i <= |s|
    ensures IsSubseq(Excise(s, i), s[i..])
    decreases |s| - i
  {
    if i < |s| {
      var e := MatchEnd(s, i);
      if e > i {
        ExciseIsSubseq(s, e);
        assert s[i..][e - i..] == s[e..];
        SubseqDropFront(Excise(s, e), s[i..], e - i);
      } else {
        ExciseIsSubseq(s, i + 1);
        SubseqCons(s[i], Excise(s, i + 1), s[i + 1..]);
        assert [s[i]] + s[i + 1..] == s[i..];
      }
    }
  }

  /** `remove_apartment_number` only deletes characters, so its output is no longer than its input. */
  lemma RemoveApartmentNumberDeletesOnly(address: string)
    ensures IsSubseq(RemoveApartmentNumber(address), address)
    ensures |RemoveApartmentNumber(address)| <= |address|
  {
    var t := Excise(address, 0);
    ExciseIsSubseq(address, 0);
    assert address[0..] == address;
    StripIsSubseq(t);
    SubseqTrans(Strip(t), t, address);
    SubseqLength(Strip(t), address);
  }

  /** A stretch with no whitespace and no marker is copied. */
  lemma PlainCopied(s: string, a: nat, i: nat)
    requires a <= i <= |s|
    requires forall k :: a <= k < i ==> CannotStart(s[k])
    ensures Excise(s, a) == s[a..i] + Excise(s, i)
  {
    forall k | a <= k < i ensures MatchEnd(s, k) == k {
      NoMatchAtPlain(s, k);
    }
    ExciseCopiesGap(s, a, i);
  }

  /** A single match, with no other match before or after it, is dropped and the text on
      its two sides is joined. */
  lemma SingleFragmentDropped(s: string, a: nat, e: nat)
    requires a < e <= |s|
    requires forall k :: 0 <= k < a ==> MatchEnd(s, k) == k
    requires MatchEnd(s, a) == e
    requires forall k :: e <= k < |s| ==> MatchEnd(s, k) == k
    ensures Excise(s, 0) == s[0..a] + s[e..|s|]
  {
    ExciseCopiesGap(s, 0, a);
    ExciseJumps(s, a);
    ExciseCopiesGap(s, e, |s|);
    JoinPieces(Excise(s, 0), s[0..a], Excise(s, a), Excise(s, e), s[e..|s|], Excise(s, |s|));
  }

  /** No match starts at whitespace that is followed by a character that cannot begin one. */
  lemma NoMatchAtSpace(s: string, k: nat)
    requires k + 1 < |s|
    ensures IsSpace(s[k]) && CannotStart(s[k + 1]) ==> MatchEnd(s, k) == k
  {
    if IsSpace(s[k]) && CannotStart(s[k + 1]) {
      SpanSpacesExact(s, k, k + 1);
    }
  }

  /** A single match between two stretches that cannot begin one is dropped, and the two
      stretches are joined. */
  lemma FragmentBetweenPlain(s: string, a: nat, e: nat)
    requires a < e <= |s|
    requires forall k :: 0 <= k < a ==> CannotStart(s[k])
    requires MatchEnd(s, a) == e
    requires forall k :: e <= k < |s| ==> CannotStart(s[k])
    ensures Excise(s, 0) == s[0..a] + s[e..|s|]
  {
    PlainCopied(s, 0, a);
    ExciseJumps(s, a);
    PlainCopied(s, e, |s|);
    JoinPieces(Excise(s, 0), s[0..a], Excise(s, a), Excise(s, e), s[e..|s|], Excise(s, |s|));
  }

  /** A `#` fragment inside an address is dropped with the spaces on both of its sides,
      which glues the neighbouring words together. */
  lemma HashFragmentGluesWords(address: string)
    requires address == "Unit #5 Main"
    ensures RemoveApartmentNumber(address) == "UnitMain"
  {
    var s := address;
    assert s[4] == ' ' && s[5] == '#' && s[6] == '5' && s[7] == ' ' && s[8] == 'M';
    HashEndExact(s, 4, 5, 7, 8);
    FragmentBetweenPlain(s, 4, 8);
    assert s[0..4] + s[8..|s|] == "UnitMain";
    StripTrimmed("UnitMain");
  }

  /** A `Suite` fragment at the end of an address is dropped with the space before it. */
  lemma SuiteNumberDropped(address: string)
    requires address == "Main Suite 200"
    ensures RemoveApartmentNumber(address) == "Main"
  {
    var s := address;
    assert s[4] == ' ' && SuiteAt(s, 5) && s[10] == ' ' && s[11] == '2';
    UnitEndExact(s, 4, 5, 10, 11, 14, 14);
    FragmentBetweenPlain(s, 4, 14);
    assert s[0..4] + s[14..|s|] == "Main";
    StripTrimmed("Main");
  }

  /** A `#` that is not followed by a word character is not a fragment and stays. */
  lemma LoneHashKept(address: string)
    requires address == "##5 6"
    ensures RemoveApartmentNumber(address) == "#6"
  {
    var s := address;
    assert MatchEnd(s, 0) == 0 by {
      assert SpanSpaces(s, 0) == 0 && SpanWord(s, 1) == 1;
    }
    assert s[1] == '#' && s[2] == '5' && s[3] == ' ' && s[4] == '6';
    HashEndExact(s, 1, 1, 3, 4);
    FirstFragmentDropped(s, 1);
    assert MatchEnd(s, 4) == 4 by {
      NoMatchAtPlain(s, 4);
    }
    ExciseNoMatch(s, 4);
    assert s[..1] + s[4..] == "#6";
    StripTrimmed("#6");
  }

  /** A whole address that is one fragment leaves nothing. */
  lemma WholeFragmentDropped(address: string)
    requires address == "#6"
    ensures RemoveApartmentNumber(address) == ""
  {
    assert MatchEnd(address, 0) == 2 by {
      assert SpanSpaces(address, 0) == 0 && SpanWord(address, 1) == 2;
      assert SpanSpaces(address, 2) == 2;
    }
    assert Excise(address, 0) == Excise(address, 2) == [];
  }

  /** Removing apartment numbers twice can remove more than once: deleting a fragment can
      bring a `#` next to a word. */
  lemma RemoveApartmentNumberNotIdempotent(address: string)
    requires address == "##5 6"
    ensures RemoveApartmentNumber(RemoveApartmentNumber(address)) != RemoveApartmentNumber(address)
  {
    LoneHashKept(address);
    WholeFragmentDropped("#6");
  }
}
