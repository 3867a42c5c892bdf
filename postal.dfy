/** Stage 2 of the normaliser, `remove_postal_code`: every match of the Canadian
    postal-code pattern `\b[A-Za-z]\d[A-Za-z] \d[A-Za-z]\d\b` is deleted, left to right and
    without overlap, and the result is stripped. */
module PostalCode {
  import opened Text

  /** Letter, digit, letter, one space, digit, letter, digit (for example `M5A 1A1`). */
  predicate PostalShape(t: string) {
    |t| == 7 && IsLetter(t[0]) && IsDigit(t[1]) && IsLetter(t[2]) && t[3] == ' '
    && IsDigit(t[4]) && IsLetter(t[5]) && IsDigit(t[6])
  }

  /** The pattern matches `s` at `i`, where `prevIsWord` says whether a word character
      stands before `s[0]` in some longer text. Both `\b` reduce to "no word character on
      the outer side", since the first and last characters of the shape are word characters. */
  predicate PostalAtAfter(s: string, i: int, prevIsWord: bool) {
    0 <= i && i + 7 <= |s|
    && (if i == 0 then !prevIsWord else !IsWord(s[i - 1]))
    && PostalShape(s[i..i + 7])
    && (i + 7 == |s| || !IsWord(s[i + 7]))
  }

  /** The pattern matches `s` at `i`. */
  predicate PostalAt(s: string, i: int) {
    PostalAtAfter(s, i, false)
  }

  /** No position of `s` matches the pattern, reading `s` after a character that is a word
      character exactly when `prevIsWord` holds. */
  predicate NoPostalCodeAfter(s: string, prevIsWord: bool) {
    forall i :: 0 <= i < |s| ==> !PostalAtAfter(s, i, prevIsWord)
  }

  /** No position of `s` matches the pattern. */
  predicate NoPostalCode(s: string) {
    NoPostalCodeAfter(s, false)
  }

  /** The substitution `re.sub(pattern, '', s)` from position `i` on. As in `re.sub`, the
      matches are found in the original string, so both `\b` read the original neighbours
      of a match. */
  function Scrub(s: string, i: nat): string
    requires i <= |s|
    decreases |s| - i
  {
    if i == |s| then []
    else if PostalAt(s, i) then Scrub(s, i + 7)
    else [s[i]] + Scrub(s, i + 1)
  }

  /** `remove_postal_code`. */
  function RemovePostalCode(address: string): string {
    Strip(Scrub(address, 0))
  }

  /** A character that is not a letter cannot start a match, so it is kept. */
  lemma ScrubKeepsNonLetter(s: string, i: nat)
    requires i < |s|
    ensures !IsLetter(s[i]) ==> Scrub(s, i) == [s[i]] + Scrub(s, i + 1)
  {
  }

  /** A match begins with a letter followed by a digit. */
  lemma MatchStartsLetterDigit(s: string, i: nat)
    requires i + 1 < |s|
    ensures PostalAt(s, i) ==> IsLetter(s[i]) && IsDigit(s[i + 1])
  {
    if PostalAt(s, i) {
      assert s[i..i + 7][0] == s[i] && s[i..i + 7][1] == s[i + 1];
    }
  }

  /** What follows a match: the scan resumes after it, and the characters on both sides of
      it are not word characters. */
  lemma ScrubAfterMatch(s: string, j: nat)
    requires j < |s|
    ensures PostalAt(s, j) ==> Scrub(s, j) == Scrub(s, j + 7) && (j > 0 ==> !IsWord(s[j - 1]))
    ensures PostalAt(s, j) && j + 7 < |s| ==> !IsWord(s[j + 7]) && Scrub(s, j)[0] == s[j + 7]
  {
    if PostalAt(s, j) && j + 7 < |s| {
      ScrubKeepsNonLetter(s, j + 7);
    }
  }

  /** As long as the output shows no deletion junction (two neighbouring non-word characters),
      it copies the input. A deletion leaves a non-word character on both of its sides. */
  lemma {:induction false} ScrubPrefix(s: string, i: nat, m: nat)
    requires i <= |s|
    requires m <= |Scrub(s, i)|
    requires m > 0 ==> !PostalAt(s, i)
    requires forall k :: 0 <= k < m - 1 ==> IsWord(Scrub(s, i)[k]) || IsWord(Scrub(s, i)[k + 1])
    ensures i + m <= |s| && Scrub(s, i)[..m] == s[i..i + m]
    ensures 0 < m == |Scrub(s, i)| && IsWord(s[i + m - 1]) ==> i + m == |s|
    decreases m
  {
    if m > 0 {
      var u := Scrub(s, i);
      assert i < |s|;
      var v := Scrub(s, i + 1);
      assert u == [s[i]] + v;
      if m == 1 {
        if i + 1 < |s| && !PostalAt(s, i + 1) {
          assert |v| > 0;
        }
      } else {
        assert IsWord(u[0]) || IsWord(u[1]);
        assert u[0] == s[i] && u[1] == v[0];
        if i + 1 < |s| {
          ScrubAfterMatch(s, i + 1);
        }
        assert !PostalAt(s, i + 1);
        forall k | 0 <= k < m - 2 ensures IsWord(v[k]) || IsWord(v[k + 1]) {
          assert v[k] == u[k + 1] && v[k + 1] == u[k + 2];
        }
        ScrubPrefix(s, i + 1, m - 1);
        assert u[..m] == [s[i]] + v[..m - 1];
        assert s[i..i + m] == [s[i]] + s[i + 1..i + m];
      }
    }
  }

  /** A match in the output, read with the real character in front of it, would have been
      a match in the input at the same place; there it was deleted. */
  lemma {:induction false} ScrubLeavesNoCode(s: string, i: nat)
    requires i <= |s|
    ensures NoPostalCodeAfter(Scrub(s, i), i > 0 && IsWord(s[i - 1]))
    decreases |s| - i
  {
    var u := Scrub(s, i);
    var lw := i > 0 && IsWord(s[i - 1]);
    if i == |s| {
    } else if PostalAt(s, i) {
      ScrubLeavesNoCode(s, i + 7);
      if i + 7 < |s| {
        ScrubKeepsNonLetter(s, i + 7);
      }
      forall k | 0 <= k < |u| ensures !PostalAtAfter(u, k, lw) {
        assert PostalAtAfter(u, k, lw) ==> PostalAtAfter(u, k, IsWord(s[i + 6]));
      }
    } else {
      var v := Scrub(s, i + 1);
      ScrubLeavesNoCode(s, i + 1);
      assert u == [s[i]] + v;
      forall k | 1 <= k < |u| ensures !PostalAtAfter(u, k, lw) {
        if k + 7 <= |u| {
          assert u[k..k + 7] == v[k - 1..k + 6];
          assert u[k - 1] == if k == 1 then s[i] else v[k - 2];
        }
        assert !PostalAtAfter(v, k - 1, IsWord(s[i]));
      }
      assert !PostalAtAfter(u, 0, lw) by {
        if 7 <= |u| && PostalShape(u[..7]) && (7 == |u| || !IsWord(u[7])) {
          var m := if |u| == 7 then 7 else 8;
          ScrubPrefix(s, i, m);
          assert s[i..i + 7] == u[..7];
        }
      }
    }
  }

  /** A piece of a string without a match, cut where no word character is lost on either
      side, has no match either. */
  lemma InfixKeepsNoCode(t: string, a: nat, b: nat)
    requires a <= b <= |t|
    requires a == 0 || !IsWord(t[a - 1])
    requires b == |t| || !IsWord(t[b])
    requires NoPostalCode(t)
    ensures NoPostalCode(t[a..b])
  {
    var r := t[a..b];
    forall k | 0 <= k < |r| ensures !PostalAtAfter(r, k, false) {
      if k + 7 <= |r| {
        assert forall j :: k <= j < k + 7 ==> r[j] == t[a + j];
        assert r[k..k + 7] == t[a + k..a + k + 7];
        assert k > 0 ==> r[k - 1] == t[a + k - 1];
        assert k + 7 < |r| ==> r[k + 7] == t[a + k + 7];
        assert !PostalAt(t, a + k);
      }
    }
  }

  /** Stripping cannot create a match: what it removes is whitespace, which is not a word
      character. */
  lemma StripKeepsNoCode(t: string)
    requires NoPostalCode(t)
    ensures NoPostalCode(Strip(t))
  {
    var a := LeadCount(t);
    var r := Strip(t);
    var b := a + |r|;
    assert a > 0 ==> IsSpace(t[a - 1]);
    assert b < |t| ==> IsSpace(t[b]);
    InfixKeepsNoCode(t, a, b);
  }

  /** No postal code survives `remove_postal_code`. */
  lemma RemovePostalCodeLeavesNoCode(address: string)
    ensures NoPostalCode(RemovePostalCode(address))
  {
    ScrubLeavesNoCode(address, 0);
    StripKeepsNoCode(Scrub(address, 0));
  }

  /** The output is trimmed. */
  lemma RemovePostalCodeTrimmed(address: string)
    ensures IsTrimmed(RemovePostalCode(address))
  {
  }

  /** Without a match the scan copies its input. */
  lemma {:induction false} ScrubNoMatch(s: string, i: nat)
    requires i <= |s|
    requires forall k :: i <= k < |s| ==> !PostalAt(s, k)
    ensures Scrub(s, i) == s[i..]
    decreases |s| - i
  {
    if i < |s| {
      ScrubNoMatch(s, i + 1);
      assert s[i..] == [s[i]] + s[i + 1..];
    }
  }

  /** An address without a match is only stripped. */
  lemma RemovePostalCodeNoMatch(address: string)
    requires NoPostalCode(address)
    ensures RemovePostalCode(address) == Strip(address)
  {
    ScrubNoMatch(address, 0);
  }

  /** Removing postal codes twice is the same as once. */
  lemma RemovePostalCodeIdempotent(address: string)
    ensures RemovePostalCode(RemovePostalCode(address)) == RemovePostalCode(address)
  {
    var r := RemovePostalCode(address);
    RemovePostalCodeLeavesNoCode(address);
    RemovePostalCodeNoMatch(r);
    StripTrimmed(r);
  }

  /** The text up to the next match is copied verbatim. */
  lemma {:induction false} ScrubCopiesGap(s: string, a: nat, i: nat)
    requires a <= i <= |s|
    requires forall k :: a <= k < i ==> !PostalAt(s, k)
    ensures Scrub(s, a) == s[a..i] + Scrub(s, i)
    decreases i - a
  {
    if a < i {
      assert !PostalAt(s, a);
      ScrubCopiesGap(s, a + 1, i);
      PrependSlice(s, a, i, Scrub(s, a), Scrub(s, a + 1), Scrub(s, i));
    }
  }

  /** The first match is dropped and everything before it is kept. */
  lemma FirstCodeDropped(s: string, i: nat)
    requires PostalAt(s, i)
    requires forall k :: 0 <= k < i ==> !PostalAt(s, k)
    ensures Scrub(s, 0) == s[..i] + Scrub(s, i + 7)
  {
    ScrubCopiesGap(s, 0, i);
  }

  /** The scan only deletes characters. */
  lemma {:induction false} ScrubIsSubseq(s: string, i: nat)
    requires i <= |s|
    ensures IsSubseq(Scrub(s, i), s[i..])
    decreases |s| - i
  {
    if i < |s| {
      if PostalAt(s, i) {
        ScrubIsSubseq(s, i + 7);
        assert s[i..][7..] == s[i + 7..];
        SubseqDropFront(Scrub(s, i + 7), s[i..], 7);
      } else {
        ScrubIsSubseq(s, i + 1);
        SubseqCons(s[i], Scrub(s, i + 1), s[i + 1..]);
        assert [s[i]] + s[i + 1..] == s[i..];
      }
    }
  }

  /** `remove_postal_code` only deletes characters, so its output is no longer than its input. */
  lemma RemovePostalCodeDeletesOnly(address: string)
    ensures IsSubseq(RemovePostalCode(address), address)
    ensures |RemovePostalCode(address)| <= |address|
  {
    var t := Scrub(address, 0);
    ScrubIsSubseq(address, 0);
    assert address[0..] == address;
    StripIsSubseq(t);
    SubseqTrans(Strip(t), t, address);
    SubseqLength(Strip(t), address);
  }

  /** A code-shaped run that touches a word character is not a match and stays. */
  lemma PostalCodeTouchingWordKept(address: string)
    requires address == "K0A 1L0X"
    ensures RemovePostalCode(address) == address
  {
    assert !PostalAt(address, 0);
    RemovePostalCodeNoMatch(address);
    StripTrimmed(address);
  }
}
