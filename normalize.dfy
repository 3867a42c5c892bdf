/** The address normaliser as a whole: the suburb names are replaced by "Ottawa" over the
    whole column, then every address loses its postal codes, then its apartment and suite
    numbers. */
module Normalizer {
  import opened Text
  import opened Aliases
  import opened PostalCode
  import opened ApartmentNumber

  /** Stage 1 on one address: all twelve names, in list order. */
  function CanonicalCity(address: string): string {
    ReplaceFirst(address, CityAliases, |CityAliases|, Canonical)
  }

  /** The three stages in the order the script runs them. */
  function Normalize(address: string): string {
    RemoveApartmentNumber(RemovePostalCode(CanonicalCity(address)))
  }

  /** The normaliser over the address column: the alias loop rewrites the whole column once
      per name, then each stage is applied to every address. */
  method NormalizeAddresses(addresses: seq<string>) returns (column: seq<string>)
    ensures |column| == |addresses|
    ensures forall r :: 0 <= r < |column| ==> column[r] == Normalize(addresses[r])
    ensures forall r :: 0 <= r < |column| ==> IsTrimmed(column[r])
  {
    var replaced := ReplaceCities(addresses);
    var withoutPostal := seq(|replaced|, r requires 0 <= r < |replaced| => RemovePostalCode(replaced[r]));
    column := seq(|withoutPostal|, r requires 0 <= r < |withoutPostal| => RemoveApartmentNumber(withoutPostal[r]));
  }

  /** Every normalised address is trimmed. */
  lemma NormalizeTrimmed(address: string)
    ensures IsTrimmed(Normalize(address))
  {
  }

  /** After the name replacement the two later stages only delete characters. */
  lemma NormalizeDeletesOnly(address: string)
    ensures IsSubseq(Normalize(address), CanonicalCity(address))
    ensures |Normalize(address)| <= |CanonicalCity(address)|
  {
    var c := CanonicalCity(address);
    var p := RemovePostalCode(c);
    RemovePostalCodeDeletesOnly(c);
    RemoveApartmentNumberDeletesOnly(p);
    SubseqTrans(Normalize(address), p, c);
    SubseqLength(Normalize(address), c);
  }

  /** An address with no suburb name, no postal code and no `#`, `Apt` or `Suite` is only
      stripped. */
  lemma NormalizePlain(address: string)
    requires forall i :: 0 <= i < |CityAliases| ==> !Occurs(CityAliases[i], address)
    requires NoPostalCode(address)
    requires forall j :: 0 <= j < |address| ==> !MarkerAt(address, j)
    ensures Normalize(address) == Strip(address)
  {
    ReplaceFirstAbsent(address, CityAliases, |CityAliases|, Canonical);
    RemovePostalCodeNoMatch(address);
    StripKeepsNoMarker(address);
    RemoveApartmentNumberNoMarker(Strip(address));
    StripTrimmed(Strip(address));
  }

  /** The name stage leaves an address alone when no name's first letter appears in it. */
  lemma NoInitialKeptByAliases(address: string)
    requires forall i :: 0 <= i < |CityAliases| ==> CityAliases[i][0] !in address
    ensures CanonicalCity(address) == address
  {
    forall i | 0 <= i < |CityAliases| ensures !Occurs(CityAliases[i], address) {
      InitialAbsent(CityAliases[i], address);
    }
    ReplaceFirstAbsent(address, CityAliases, |CityAliases|, Canonical);
  }

  /** A postal code split by a `#` fragment is not a match for the postal stage. */
  lemma SplitCodeMissedByPostalStage(address: string)
    requires address == "H0H 0#x H0"
    ensures RemovePostalCode(address) == address
  {
    var s := address;
    assert NoPostalCode(s) by {
      forall i | 0 <= i < |s| ensures !PostalAtAfter(s, i, false) {
        if i + 7 <= |s| {
          assert s[i..i + 7][1] == s[i + 1] && s[i..i + 7][3] == s[i + 3];
          assert s[i..i + 7][5] == s[i + 5];
        }
      }
    }
    RemovePostalCodeNoMatch(s);
    StripTrimmed(s);
  }

  /** The apartment stage deletes the `#` fragment and joins the two halves of the code. */
  lemma SplitCodeJoinedByApartmentStage(address: string)
    requires address == "H0H 0#x H0"
    ensures RemoveApartmentNumber(address) == "H0H 0H0"
  {
    var s := address;
    forall k | 0 <= k < 5 ensures MatchEnd(s, k) == k {
      NoMatchAtPlain(s, k);
      NoMatchAtSpace(s, k);
    }
    assert s[5] == '#' && s[6] == 'x' && s[7] == ' ' && s[8] == 'H';
    HashEndExact(s, 5, 5, 7, 8);
    forall k | 8 <= k < |s| ensures MatchEnd(s, k) == k {
      NoMatchAtPlain(s, k);
    }
    SingleFragmentDropped(s, 5, 8);
    assert s[0..5] + s[8..|s|] == "H0H 0H0";
    StripTrimmed("H0H 0H0");
  }

  /** The joined string is a postal code that the pattern matches. */
  lemma JoinedCodeMatches(r: string)
    requires r == "H0H 0H0"
    ensures !NoPostalCode(r)
  {
    assert r[0..7] == r;
    assert PostalAtAfter(r, 0, false);
  }

  /** Deleting an apartment fragment can join the two halves of a postal code that the
      postal stage, which runs first, did not see: the normalised address then holds a
      postal code. */
  lemma PostalCodeCanReappear(address: string)
    requires address == "H0H 0#x H0"
    ensures Normalize(address) == "H0H 0H0"
    ensures !NoPostalCode(Normalize(address))
  {
    NoInitialKeptByAliases(address);
    SplitCodeMissedByPostalStage(address);
    SplitCodeJoinedByApartmentStage(address);
    JoinedCodeMatches("H0H 0H0");
  }

  /** None of the names occurs in the worked example once "Carp" has been replaced. */
  lemma ExampleHasNoName(s: string)
    requires s == "#5 Ottawa K0A 1L0"
    ensures forall k :: 0 <= k < |CityAliases| ==> !Occurs(CityAliases[k], s)
  {
    forall k | 0 <= k < |CityAliases| ensures !Occurs(CityAliases[k], s) {
      TrigramAbsent(CityAliases[k], s);
    }
  }

  /** The name stage leaves `"Car #5 p"` alone: the only name it could start is cut by the
      fragment. */
  lemma SplitNameMissedByNameStage(address: string)
    requires address == "Car #5 p"
    ensures CanonicalCity(address) == address
  {
    var s := address;
    forall k | 0 <= k < |CityAliases| ensures !Occurs(CityAliases[k], s) {
      if k == 0 {
        forall i | 0 <= i <= |s| ensures !OccursAt("Carp", s, i) {
          if i + 4 <= |s| {
            assert s[i..i + 4][0] == s[i] && s[i..i + 4][3] == s[i + 3];
          }
        }
      } else {
        InitialAbsent(CityAliases[k], s);
      }
    }
    ReplaceFirstAbsent(s, CityAliases, |CityAliases|, Canonical);
  }

  /** The postal stage finds no letter followed by a digit in `"Car #5 p"`. */
  lemma SplitNameKeptByPostalStage(address: string)
    requires address == "Car #5 p"
    ensures RemovePostalCode(address) == address
  {
    var s := address;
    assert NoPostalCode(s) by {
      forall k | 0 <= k < |s| ensures !PostalAt(s, k) {
        if k + 1 < |s| {
          MatchStartsLetterDigit(s, k);
        }
      }
    }
    RemovePostalCodeNoMatch(s);
    StripTrimmed(s);
  }

  /** The apartment stage joins the two halves of the name. */
  lemma SplitNameJoinedByApartmentStage(address: string)
    requires address == "Car #5 p"
    ensures RemoveApartmentNumber(address) == "Carp"
  {
    var s := address;
    forall k | 0 <= k < 3 ensures MatchEnd(s, k) == k {
      NoMatchAtPlain(s, k);
    }
    assert s[3] == ' ' && s[4] == '#' && s[5] == '5' && s[6] == ' ' && s[7] == 'p';
    HashEndExact(s, 3, 4, 6, 7);
    NoMatchAtPlain(s, 7);
    SingleFragmentDropped(s, 3, 7);
    assert s[0..3] + s[7..|s|] == "Carp";
    StripTrimmed("Carp");
  }

  /** Deleting an apartment fragment can also join the halves of a suburb name that the
      name stage, which runs first, did not see. */
  lemma SuburbNameCanReappear(address: string)
    requires address == "Car #5 p"
    ensures Normalize(address) == "Carp"
    ensures Occurs(CityAliases[0], Normalize(address))
  {
    SplitNameMissedByNameStage(address);
    SplitNameKeptByPostalStage(address);
    SplitNameJoinedByApartmentStage(address);
    var r: string := "Carp";
    assert r[0..4] == CityAliases[0];
    assert OccursAt(CityAliases[0], r, 0);
  }

  /** An address with one `"Carp"` and no other `C` gets `"Ottawa"` in its place, with the
      text on both sides unchanged. */
  lemma CarpReplaced(front: string, rest: string)
    requires 'C' !in front && 'C' !in rest
    ensures Replace(front + "Carp" + rest, "Carp", Canonical) == front + Canonical + rest
  {
    assert front + "Carp" + rest == front + ("Carp" + rest);
    NoStartIn(front, "Carp" + rest, "Carp");
    ReplaceOccurrence(front, rest, "Carp", Canonical);
    assert rest + [] == rest;
    NoStartIn(rest, [], "Carp");
    ReplaceSkip(rest, [], "Carp", Canonical);
  }

  /** Stage 1 of the worked example: "Carp" becomes "Ottawa" and nothing else changes. */
  lemma ExampleNameStage(unit: string, rest: string)
    requires unit == "#5 " && rest == " K0A 1L0"
    ensures CanonicalCity(unit + "Carp" + rest) == unit + Canonical + rest
  {
    var s := unit + "Carp" + rest;
    var s1 := unit + Canonical + rest;
    CarpReplaced(unit, rest);
    assert ReplaceFirst(s, CityAliases, 1, Canonical) == s1;
    ExampleHasNoName(s1);
    ReplaceFirstRest(s, CityAliases, 1, |CityAliases|, Canonical);
  }

  /** Stage 2 of the worked example: the code at the end goes, and so does the space that
      then ends the address. */
  lemma ExamplePostalStage(s: string)
    requires s == "#5 Ottawa K0A 1L0"
    ensures RemovePostalCode(s) == "#5 Ottawa"
  {
    forall k | 0 <= k < 10 ensures !PostalAt(s, k) {
      MatchStartsLetterDigit(s, k);
    }
    assert s[10..17] == "K0A 1L0";
    assert PostalAt(s, 10);
    FirstCodeDropped(s, 10);
    assert Scrub(s, 17) == [];
    assert s[..10] == "#5 Ottawa" + [' '];
    assert Scrub(s, 0) == "#5 Ottawa" + [' '];
    StripTrailingSpace("#5 Ottawa", ' ');
  }

  /** Stage 3 of the worked example: the leading `#` fragment goes with the space after it. */
  lemma ExampleApartmentStage(s: string)
    requires s == "#5 Ottawa"
    ensures RemoveApartmentNumber(s) == "Ottawa"
  {
    HashEndExact(s, 0, 0, 2, 3);
    forall k | 3 <= k < |s| ensures MatchEnd(s, k) == k {
      NoMatchAtPlain(s, k);
    }
    SingleFragmentDropped(s, 0, 3);
    assert s[0..0] + s[3..|s|] == "Ottawa";
    StripTrimmed("Ottawa");
  }

  /** The three stages in order on an address with a unit number: the suburb becomes
      "Ottawa", the postal code goes, and then the unit number. */
  lemma UnitNumberExample(address: string)
    requires address == "#5 Carp K0A 1L0"
    ensures CanonicalCity(address) == "#5 Ottawa K0A 1L0" != address
    ensures RemovePostalCode(CanonicalCity(address)) == "#5 Ottawa" != CanonicalCity(address)
    ensures Normalize(address) == "Ottawa" != RemovePostalCode(CanonicalCity(address))
  {
    assert address == "#5 " + "Carp" + " K0A 1L0";
    ExampleNameStage("#5 ", " K0A 1L0");
    ExamplePostalStage("#5 " + Canonical + " K0A 1L0");
    ExampleApartmentStage("#5 Ottawa");
  }

  /** The names whose initial letter does not occur in the listing example. */
  lemma ListingHasNoRareName(s: string)
    requires s == "123 Main St, Ottawa, K0A 1L0"
    ensures forall k :: k in {0, 2, 4, 5, 6, 9, 10} ==> !Occurs(CityAliases[k], s)
  {
    forall k | k in {0, 2, 4, 5, 6, 9, 10} ensures !Occurs(CityAliases[k], s) {
      InitialAbsent(CityAliases[k], s);
    }
  }

  /** The names whose initial letter does occur, but not followed by their next two letters. */
  lemma ListingHasNoCommonName(s: string)
    requires s == "123 Main St, Ottawa, K0A 1L0"
    ensures forall k :: k in {1, 3, 7, 8, 11} ==> !Occurs(CityAliases[k], s)
  {
    forall k | k in {1, 3, 7, 8, 11} ensures !Occurs(CityAliases[k], s) {
      TrigramAbsent(CityAliases[k], s);
    }
  }

  /** None of the names occurs in the listing example once "Carp" has been replaced. */
  lemma ListingHasNoName(s: string)
    requires s == "123 Main St, Ottawa, K0A 1L0"
    ensures forall k :: 0 <= k < |CityAliases| ==> !Occurs(CityAliases[k], s)
  {
    ListingHasNoRareName(s);
    ListingHasNoCommonName(s);
  }

  /** Stage 1 of the listing example: "Carp" becomes "Ottawa" and nothing else changes. */
  lemma ListingNameStage(street: string, rest: string)
    requires street == "123 Main St, " && rest == ", K0A 1L0"
    ensures CanonicalCity(street + "Carp" + rest) == street + Canonical + rest
  {
    var s := street + "Carp" + rest;
    var s1 := street + Canonical + rest;
    CarpReplaced(street, rest);
    assert ReplaceFirst(s, CityAliases, 1, Canonical) == s1;
    ListingHasNoName(s1);
    ReplaceFirstRest(s, CityAliases, 1, |CityAliases|, Canonical);
  }

  /** The postal code of the listing example is the first match, at position 21. */
  lemma ListingCodeFound(s: string)
    requires s == "123 Main St, Ottawa, K0A 1L0"
    ensures PostalAt(s, 21)
    ensures forall k :: 0 <= k < 21 ==> !PostalAt(s, k)
  {
    forall k | 0 <= k < 21 ensures !PostalAt(s, k) {
      MatchStartsLetterDigit(s, k);
    }
    assert s[21..28] == "K0A 1L0";
  }

  /** Stage 2 of the listing example: the code at the end goes, and so does the space that
      then ends the address; the comma before it stays. */
  lemma ListingPostalStage(s: string)
    requires s == "123 Main St, Ottawa, K0A 1L0"
    ensures RemovePostalCode(s) == "123 Main St, Ottawa,"
  {
    ListingCodeFound(s);
    FirstCodeDropped(s, 21);
    assert Scrub(s, 28) == [];
    var kept := "123 Main St, Ottawa,";
    assert s[..21] == kept + [' '];
    assert Scrub(s, 0) == kept + [' '];
    StripTrailingSpace(kept, ' ');
  }

  /** The listing example has no `#`, `Apt` or `Suite`. */
  lemma ListingHasNoMarker(s: string)
    requires s == "123 Main St, Ottawa,"
    ensures forall j :: 0 <= j < |s| ==> !MarkerAt(s, j)
  {
  }

  /** Stage 3 of the listing example: there is no `#`, `Apt` or `Suite`, so nothing changes. */
  lemma ListingApartmentStage(s: string)
    requires s == "123 Main St, Ottawa,"
    ensures RemoveApartmentNumber(s) == s
  {
    ListingHasNoMarker(s);
    RemoveApartmentNumberNoMarker(s);
    assert s[0] == '1' && s[|s| - 1] == ',';
    StripTrimmed(s);
  }

  /** An example listing: a listing in Carp keeps its street, names Ottawa and loses its
      postal code, together with the space before it. */
  lemma WorkedExample(address: string)
    requires address == "123 Main St, Carp, K0A 1L0"
    ensures Normalize(address) == "123 Main St, Ottawa,"
  {
    assert address == "123 Main St, " + "Carp" + ", K0A 1L0";
    ListingNameStage("123 Main St, ", ", K0A 1L0");
    ListingPostalStage("123 Main St, " + Canonical + ", K0A 1L0");
    ListingApartmentStage("123 Main St, Ottawa,");
  }
}
