# Address normaliser of the Ottawa real-estate map

`show_on_map.py` reads a table of property sales, cleans the `Address` column so that the
geocoder can resolve it, geocodes every address and draws one marker per sale on a map of
Ottawa. This project models the cleaning step, which runs three stages in order over the
`Address` column:

1. **City aliases** (`show_on_map.py:42-44`): for each of twelve suburb names in a fixed
   order (`Carp`, `Stittsville`, …, `Kinburn`), every occurrence of the name is replaced by
   `Ottawa` throughout the column. The match is a literal, case-sensitive substring match,
   non-overlapping and left to right, and it also finds names inside longer words.
2. **Postal code** (`show_on_map.py:29-32`): every run matching
   `\b[A-Za-z]\d[A-Za-z] \d[A-Za-z]\d\b` is deleted, then the result is stripped.
3. **Apartment number** (`show_on_map.py:34-39`): every fragment matching
   `\s*#\w+\s*|\s*(?:Apt|Suite)\s*\w+\s*` is deleted, left to right, then the result is
   stripped.

The modules:

- `Text` (`text.dfy`): the character classes of the two patterns, Python's `str.strip`,
  and "obtained by deleting characters" (`IsSubseq`).
- `Aliases` (`aliases.dfy`): literal replacement of every occurrence (`Replace`), the fold
  over the twelve names (`ReplaceFirst`), and the loop that rewrites the whole column once
  per name (`ReplaceCities`, a method with a loop invariant over the names already done).
- `PostalCode` (`postal.dfy`): the regex scan as a left-to-right walk indexed on the
  original string. As in `re.sub`, matches are found in the original, so both `\b` read
  the original neighbours of a match.
- `ApartmentNumber` (`apartment.dfy`): the regex scan with greedy runs of spaces and word
  characters. `MatchEnd` gives the end of the fragment matched at a position, and
  `MatchesAt` is an independent description of a fragment. The two are proved to agree in
  both directions: `MatchEndComplete` (a fragment makes the matcher report a match) and
  `MatchEndSound` (the text the matcher reports, up to its end, is a fragment).
- `Normalizer` (`normalize.dfy`): the three stages in the script's order, over one address
  and over the column, together with worked examples.

Consequences of the code that a reader might not expect:

- The pattern of `remove_apartment_number` is not anchored, so a fragment is removed
  wherever it appears, not only at the start, and the words on either side are glued
  together (`ApartmentNumber.HashFragmentGluesWords`).
- Because the apartment stage runs after the postal stage, the normalised address can hold
  a postal code: deleting a fragment can join the two halves of one
  (`Normalizer.PostalCodeCanReappear`). What holds is that the postal stage's output has
  none (`PostalCode.RemovePostalCodeLeavesNoCode`).
- For the same reason the normalised address can hold a suburb name
  (`Normalizer.SuburbNameCanReappear`). What holds is that the alias stage's output has
  none (`Aliases.ReplaceCities`).
- `remove_apartment_number` is not idempotent
  (`ApartmentNumber.RemoveApartmentNumberNotIdempotent`), unlike `remove_postal_code`
  (`PostalCode.RemovePostalCodeIdempotent`).

## Model

| member | source | states |
|---|---|---|
| Text.IsLetter | show_on_map.py:31 | `[A-Za-z]`: the ASCII letters the postal pattern asks for |
| Text.IsDigit | show_on_map.py:31 | `\d` on ASCII digits |
| Text.IsSpace | show_on_map.py:32 | the whitespace that `str.strip()` removes and `\s` matches (Python's `str.isspace` set); no word character, `#`, `A` or `S` is whitespace (`ApartmentNumber.NoMatchAtPlain` relies on it) |
| Text.IsWord | show_on_map.py:31 | `\w` on ASCII letters, digits and `_`; the shape's first and last characters are word characters, so each `\b` reduces to a non-word neighbour (`PostalCode.ScrubAfterMatch`) |
| Text.Strip | show_on_map.py:32 | `str.strip()`: the result is the infix left after removing whitespace at both ends; it has no whitespace at its ends, and every character outside it is whitespace |
| Text.StripTrimmed | show_on_map.py:39 | stripping an already trimmed string changes nothing |
| Text.StripTrailingSpace | show_on_map.py:39 | stripping a trimmed non-empty string followed by one whitespace character gives that string back |
| Text.StripIsSubseq | show_on_map.py:32 | stripping only deletes characters |
| Aliases.Replace | show_on_map.py:44 | one pass of `Series.replace(city, 'Ottawa', regex=True)` on one address: left-to-right, non-overlapping literal replacement; pinned down by `ReplaceSkip`, `ReplaceOccurrence`, `ReplaceAbsent`, `ReplaceAvoids` and `ReplaceRoundTrip` |
| Aliases.ReplaceFirst | show_on_map.py:42-44 | the first `n` iterations of the loop on one address, in list order; `ReplaceFirstRemoves` shows none of those names remains, `ReplaceFirstAbsent` and `ReplaceFirstRest` that absent names change nothing |
| Aliases.ReplaceAbsent | show_on_map.py:44 | replacing a name that does not occur returns the address unchanged |
| Aliases.ReplaceAvoids | show_on_map.py:44 | for a name that cannot straddle `Ottawa` (all twelve cannot, by `CityAliasesValid`): after replacing a name by `Ottawa`, it no longer occurs if it is the replaced name or did not occur before |
| Aliases.ReplaceKeepsStart | show_on_map.py:44 | a replaced string starts with a word free of `O` only if the original did |
| Aliases.ReplacePrefix | show_on_map.py:44 | the replaced string agrees with the original up to the first `O` it contains |
| Aliases.ReplaceSkip | show_on_map.py:44 | text before the first occurrence of the name is copied unchanged, whatever letters it holds |
| Aliases.NoStartIn | show_on_map.py:44 | text without the first letter of the name holds no start of an occurrence |
| Aliases.ReplaceOccurrence | show_on_map.py:44 | the first occurrence of the name reads `Ottawa` in the result; the text before it is unchanged and the rest is processed the same way |
| Aliases.ReplaceRoundTrip | show_on_map.py:44 | on an address without `Ottawa`, replacing `Ottawa` back by the name undoes the replacement |
| Aliases.InitialAbsent | show_on_map.py:44 | a name whose first letter is not in the address does not occur in it |
| Aliases.TrigramAbsent | show_on_map.py:44 | a name whose first three letters never appear together in the address does not occur in it |
| Aliases.ReplaceFirstRemoves | show_on_map.py:42-44 | after replacing the first `n` names in order, none of those `n` names occurs |
| Aliases.ReplaceFirstRest | show_on_map.py:42-44 | names that do not occur after the first `k` iterations leave the address unchanged for the remaining iterations |
| Aliases.ReplaceFirstAbsent | show_on_map.py:42-44 | an address holding none of the names, exactly capitalised, comes out of the loop unchanged |
| Aliases.CityAliasesValid | show_on_map.py:42-43 | no name contains `O` or starts with a letter of `Ottawa`, so no name can overlap an inserted `Ottawa`; `O` occurs in `Ottawa` only at its start |
| Aliases.ReplaceCities | show_on_map.py:42-44 | the loop over the column leaves as many addresses as it got, each is the fold of the twelve replacements over the original, and none holds any of the twelve names |
| Aliases.VarsReplaced | show_on_map.py:44 | replacing `Vars` turns `"Varsity"` into `"Ottawaity"` |
| Aliases.ReplaceAfterInitial | show_on_map.py:44 | an occurrence right after the name's own first letter is replaced: `"CCarp"` becomes `"COttawa"` |
| Aliases.ReplaceInsideWord | show_on_map.py:42-44 | a name inside a longer word is replaced: `"Varsity"` becomes `"Ottawaity"` |
| PostalCode.PostalShape | show_on_map.py:31 | the seven-character body of the pattern: letter, digit, letter, one space, digit, letter, digit |
| PostalCode.PostalAt | show_on_map.py:31 | the pattern matches at a position: the seven-character shape with no word character on either side; `MatchStartsLetterDigit` and `ScrubAfterMatch` state its consequences |
| PostalCode.Scrub | show_on_map.py:31-32 | `re.sub(pattern, '', address)` as a left-to-right scan; `ScrubLeavesNoCode`, `ScrubIsSubseq`, `ScrubCopiesGap`, `FirstCodeDropped` and `ScrubNoMatch` pin it down |
| PostalCode.RemovePostalCode | show_on_map.py:29-32 | `remove_postal_code`: leaves no code (`RemovePostalCodeLeavesNoCode`), is trimmed, only deletes characters, and is idempotent (`RemovePostalCodeIdempotent`) |
| PostalCode.ScrubKeepsNonLetter | show_on_map.py:31-32 | no code starts at a non-letter, so the scan copies that character |
| PostalCode.MatchStartsLetterDigit | show_on_map.py:31 | a match starts with a letter followed by a digit |
| PostalCode.ScrubAfterMatch | show_on_map.py:31-32 | a match is deleted whole; it is preceded and followed by a non-word character or an end of the string, and the scan resumes right after it |
| PostalCode.ScrubPrefix | show_on_map.py:31-32 | when no code starts at the scan position and the first `m` output characters hold no two neighbouring non-word characters (a deletion leaves one on each side), those `m` characters are copied from the input; an output that is wholly such a prefix and ends in a word character reaches the end of the input |
| PostalCode.ScrubLeavesNoCode | show_on_map.py:31-32 | the output of the scan holds no match of the pattern |
| PostalCode.InfixKeepsNoCode | show_on_map.py:32 | an infix cut at non-word characters of a code-free string is code-free |
| PostalCode.StripKeepsNoCode | show_on_map.py:32 | stripping a code-free string keeps it code-free |
| PostalCode.RemovePostalCodeLeavesNoCode | show_on_map.py:29-32 | `remove_postal_code` leaves no postal code |
| PostalCode.RemovePostalCodeTrimmed | show_on_map.py:32 | `remove_postal_code` has no whitespace at its ends |
| PostalCode.ScrubNoMatch | show_on_map.py:31 | where no match starts, the scan copies the input |
| PostalCode.RemovePostalCodeNoMatch | show_on_map.py:29-32 | an address with no match is only stripped |
| PostalCode.RemovePostalCodeIdempotent | show_on_map.py:29-32 | `remove_postal_code` applied twice equals applying it once |
| PostalCode.ScrubCopiesGap | show_on_map.py:31 | characters before the next match are copied unchanged |
| PostalCode.FirstCodeDropped | show_on_map.py:31 | the first match is deleted and the text before it kept |
| PostalCode.ScrubIsSubseq | show_on_map.py:31 | the scan only deletes characters |
| PostalCode.RemovePostalCodeDeletesOnly | show_on_map.py:29-32 | the result is obtained from the address by deleting characters, so it is no longer |
| PostalCode.PostalCodeTouchingWordKept | show_on_map.py:31-32 | a code touching a word character is kept: `"K0A 1L0X"` is unchanged |
| ApartmentNumber.SpanSpaces | show_on_map.py:36 | the end of the greedy `\s*` run from a position, within the string; `SpanSpacesRun` and `SpanSpacesExact` characterise it |
| ApartmentNumber.SpanWord | show_on_map.py:36 | the end of the greedy `\w*` run from a position, within the string, possibly empty; callers take it as `\w+` only after checking it is non-empty (`k > j + 1` in `HashEnd`, `k > p` in `TailEnd`); `SpanWordRun` and `SpanWordExact` characterise it |
| ApartmentNumber.HashEnd | show_on_map.py:36 | the end of the match of `\s*#\w+\s*` at a position, within the string; sound by `HashEndSound`, complete by `HashEndComplete`, exact by `HashEndExact` |
| ApartmentNumber.TailEnd | show_on_map.py:36 | the end of the `\s*\w+\s*` that follows a keyword, within the string, or the start when there is no word; sound by `TailEndSound` |
| ApartmentNumber.UnitEnd | show_on_map.py:36 | the end of the match of `\s*(?:Apt\|Suite)\s*\w+\s*` at a position, within the string; sound by `UnitEndSound`, complete by `UnitEndComplete`, exact by `UnitEndExact` |
| ApartmentNumber.MatchEnd | show_on_map.py:36 | the end of the match of the whole pattern at a position (first alternative first), within the string; agrees with the independent `MatchesAt` in both directions (`MatchEndSound`, `MatchEndComplete`) |
| ApartmentNumber.SpanSpacesRun | show_on_map.py:36 | `\s*` takes the longest run of whitespace |
| ApartmentNumber.SpanWordRun | show_on_map.py:36 | the greedy `\w*` run holds only word characters and stops at a non-word character or the end |
| ApartmentNumber.SpanSpacesExact | show_on_map.py:36 | a maximal whitespace run is exactly what `\s*` takes |
| ApartmentNumber.SpanSpacesBeforeWord | show_on_map.py:36 | a whitespace run ending at a word character is exactly what `\s*` takes |
| ApartmentNumber.SpanWordExact | show_on_map.py:36 | a maximal word run is exactly what the greedy run takes |
| ApartmentNumber.SpanWordCovers | show_on_map.py:36 | the greedy run takes at least any run of word characters |
| ApartmentNumber.HashEndComplete | show_on_map.py:36 | wherever `\s*#\w+\s*` can match, the first alternative matches |
| ApartmentNumber.UnitEndComplete | show_on_map.py:36 | wherever `\s*(?:Apt\|Suite)\s*\w+\s*` can match, the second alternative matches |
| ApartmentNumber.MatchEndComplete | show_on_map.py:36 | wherever a fragment can start, the scan's matcher finds one |
| ApartmentNumber.HashEndSound | show_on_map.py:36 | what the first alternative matches is a `#` fragment, followed by a non-space or the end |
| ApartmentNumber.TailEndSound | show_on_map.py:36 | what follows `Apt` or `Suite` is optional space, a word run and optional space, ending before a non-space |
| ApartmentNumber.UnitEndSound | show_on_map.py:36 | what the second alternative matches is an `Apt` or `Suite` fragment, followed by a non-space or the end |
| ApartmentNumber.MatchEndSound | show_on_map.py:36 | what the matcher takes, from the position to the end it reports, is a `#` fragment or an `Apt`/`Suite` fragment, followed by a non-space or the end |
| ApartmentNumber.SpaceBeforeMatch | show_on_map.py:36 | the whitespace in front of a fragment goes with it: a match that starts after a space is the same match started one character earlier |
| ApartmentNumber.HashEndExact | show_on_map.py:36 | on a `#` fragment with maximal runs, the match ends exactly at the fragment's end |
| ApartmentNumber.UnitEndExact | show_on_map.py:36 | on an `Apt` or `Suite` fragment with maximal runs, the match ends exactly at the fragment's end |
| ApartmentNumber.MatchHasMarker | show_on_map.py:36 | every match holds a `#`, `Apt` or `Suite` after its leading whitespace |
| ApartmentNumber.NoMatchAtPlain | show_on_map.py:36 | no fragment starts at a character that is neither whitespace, `#`, `A` nor `S` |
| ApartmentNumber.NoMatchAtSpace | show_on_map.py:36 | no fragment starts at a single space before such a character |
| ApartmentNumber.Excise | show_on_map.py:36 | `re.sub(pattern, '', address)` as a left-to-right scan; what it deletes is exactly what `MatchEnd` reports, which `MatchEndSound`/`MatchEndComplete` tie to the independent `MatchesAt`; `ExciseCopiesGap` and `FirstFragmentDropped` say it copies text up to the first fragment and deletes that fragment, and `ExciseIsSubseq` that it only deletes |
| ApartmentNumber.RemoveApartmentNumber | show_on_map.py:34-39 | `remove_apartment_number`: trimmed, only deletes characters, only strips an address without markers, and is not idempotent |
| ApartmentNumber.ExciseNoMatch | show_on_map.py:36 | where no fragment starts, the scan copies the input |
| ApartmentNumber.ExciseCopiesGap | show_on_map.py:36 | characters before the next fragment are copied unchanged |
| ApartmentNumber.FirstFragmentDropped | show_on_map.py:36 | the first fragment is deleted and the text before it kept |
| ApartmentNumber.PlainCopied | show_on_map.py:36 | a stretch of characters that cannot start a fragment is copied |
| ApartmentNumber.SingleFragmentDropped | show_on_map.py:36 | an address with one fragment loses exactly that fragment |
| ApartmentNumber.FragmentBetweenPlain | show_on_map.py:36 | a fragment between stretches that cannot start one is deleted and the stretches joined |
| ApartmentNumber.ExciseIsSubseq | show_on_map.py:36 | the scan only deletes characters |
| ApartmentNumber.StripKeepsNoMarker | show_on_map.py:39 | stripping a string with no `#`, `Apt` or `Suite` keeps it free of them |
| ApartmentNumber.RemoveApartmentNumberTrimmed | show_on_map.py:34-39 | `remove_apartment_number` has no whitespace at its ends |
| ApartmentNumber.RemoveApartmentNumberNoMarker | show_on_map.py:34-39 | an address with no `#`, `Apt` or `Suite` is only stripped |
| ApartmentNumber.RemoveApartmentNumberDeletesOnly | show_on_map.py:34-39 | the result is obtained from the address by deleting characters, so it is no longer |
| ApartmentNumber.HashFragmentGluesWords | show_on_map.py:36-39 | the whitespace on both sides goes with the fragment: `"Unit #5 Main"` becomes `"UnitMain"` |
| ApartmentNumber.SuiteNumberDropped | show_on_map.py:36-39 | `"Main Suite 200"` becomes `"Main"` |
| ApartmentNumber.LoneHashKept | show_on_map.py:36-39 | a `#` not followed by a word character stays: `"##5 6"` becomes `"#6"` |
| ApartmentNumber.WholeFragmentDropped | show_on_map.py:36-39 | `"#6"` becomes the empty string |
| ApartmentNumber.RemoveApartmentNumberNotIdempotent | show_on_map.py:34-39 | `remove_apartment_number` is not idempotent: on `"##5 6"` a second application changes the result |
| Normalizer.CanonicalCity | show_on_map.py:42-44 | the alias loop on one address; `Aliases.ReplaceCities` shows the column loop computes it and that no name remains |
| Normalizer.Normalize | show_on_map.py:42-48 | the three stages in the script's order on one address; `NormalizeTrimmed`, `NormalizeDeletesOnly` and `NormalizePlain` state what it does |
| Normalizer.NormalizeAddresses | show_on_map.py:42-48 | the column keeps its length, each entry is the three stages applied in order to the original address, and each is trimmed |
| Normalizer.NormalizeTrimmed | show_on_map.py:47-48 | a normalised address has no whitespace at its ends |
| Normalizer.NormalizeDeletesOnly | show_on_map.py:47-48 | after the alias stage, the two removal stages only delete characters |
| Normalizer.NormalizePlain | show_on_map.py:42-48 | an address with no name, no postal code and no `#`, `Apt` or `Suite` is only stripped |
| Normalizer.NoInitialKeptByAliases | show_on_map.py:42-44 | an address holding no first letter of a name comes out of the alias stage unchanged |
| Normalizer.SplitCodeMissedByPostalStage | show_on_map.py:29-32 | `"H0H 0#x H0"` holds no postal code |
| Normalizer.SplitCodeJoinedByApartmentStage | show_on_map.py:34-39 | the apartment stage turns `"H0H 0#x H0"` into `"H0H 0H0"` |
| Normalizer.JoinedCodeMatches | show_on_map.py:31 | the pattern matches `"H0H 0H0"` |
| Normalizer.PostalCodeCanReappear | show_on_map.py:42-48 | because postal removal runs first, the normalised address can hold a postal code |
| Normalizer.SplitNameMissedByNameStage | show_on_map.py:42-44 | `"Car #5 p"` holds no suburb name |
| Normalizer.SplitNameKeptByPostalStage | show_on_map.py:29-32 | `"Car #5 p"` holds no postal code |
| Normalizer.SplitNameJoinedByApartmentStage | show_on_map.py:34-39 | the apartment stage turns `"Car #5 p"` into `"Carp"` |
| Normalizer.SuburbNameCanReappear | show_on_map.py:42-48 | because the alias stage runs first, the normalised address can hold a suburb name |
| Normalizer.ExampleHasNoName | show_on_map.py:42-44 | unit-number example: `"#5 Ottawa K0A 1L0"` holds none of the twelve names |
| Normalizer.CarpReplaced | show_on_map.py:44 | in an address with one `Carp` and no other `C`, that `Carp` reads `Ottawa` and the text on both sides is unchanged |
| Normalizer.ExampleNameStage | show_on_map.py:42-44 | unit-number example: the alias stage turns `"#5 Carp K0A 1L0"` into `"#5 Ottawa K0A 1L0"` |
| Normalizer.ExamplePostalStage | show_on_map.py:29-32 | unit-number example: the postal stage turns `"#5 Ottawa K0A 1L0"` into `"#5 Ottawa"` |
| Normalizer.ExampleApartmentStage | show_on_map.py:34-39 | unit-number example: the apartment stage turns `"#5 Ottawa"` into `"Ottawa"` |
| Normalizer.UnitNumberExample | show_on_map.py:42-48 | the alias stage turns `"#5 Carp K0A 1L0"` into `"#5 Ottawa K0A 1L0"`, the postal stage that into `"#5 Ottawa"`, and the apartment stage that into `"Ottawa"`; each stage changes the address |
| Normalizer.ListingHasNoRareName | show_on_map.py:42-44 | the seven names whose first letter is absent do not occur in `"123 Main St, Ottawa, K0A 1L0"` |
| Normalizer.ListingHasNoCommonName | show_on_map.py:42-44 | `Stittsville`, `Manotick`, `Kanata`, `Metcalfe` and `Kinburn` do not occur in `"123 Main St, Ottawa, K0A 1L0"` |
| Normalizer.ListingHasNoName | show_on_map.py:42-44 | `"123 Main St, Ottawa, K0A 1L0"` holds none of the twelve names |
| Normalizer.ListingNameStage | show_on_map.py:42-44 | the alias stage turns `"123 Main St, Carp, K0A 1L0"` into `"123 Main St, Ottawa, K0A 1L0"` |
| Normalizer.ListingCodeFound | show_on_map.py:31 | in `"123 Main St, Ottawa, K0A 1L0"` the first match of the pattern is `K0A 1L0` at position 21 |
| Normalizer.ListingPostalStage | show_on_map.py:29-32 | the postal stage turns `"123 Main St, Ottawa, K0A 1L0"` into `"123 Main St, Ottawa,"`: the code and the space before it go, the comma stays |
| Normalizer.ListingHasNoMarker | show_on_map.py:36 | `"123 Main St, Ottawa,"` holds no `#`, `Apt` or `Suite` |
| Normalizer.ListingApartmentStage | show_on_map.py:34-39 | the apartment stage leaves `"123 Main St, Ottawa,"` unchanged |
| Normalizer.WorkedExample | show_on_map.py:42-48 | an example listing: the three stages in order turn `"123 Main St, Carp, K0A 1L0"` into `"123 Main St, Ottawa,"` |

## Left out

- Loading the CSV file with pandas (`show_on_map.py:10-13`): file input through a library call.
- Geocoding through Nominatim (`show_on_map.py:16-25`, `51`, `54`): network calls to an outside service.
- The map, the colour scale and saving the HTML file (`show_on_map.py:57-68`, `91`, `94`): library calls over floating-point prices.
- The minimum and maximum price (`show_on_map.py:61-62`): a pandas reduction over floats.
- The marker loop and its console messages (`show_on_map.py:71-88`): map plumbing and output.
- `\w` and `\d` are modelled on ASCII only; Python's Unicode letters and digits are not.
- Missing (NaN) or non-string addresses are not modelled: every address is a string.
- The pandas column is a sequence of strings; `Series.replace` and `Series.apply` are
  modelled as maps over that sequence.
- Independence from the order of the twelve names is not proved.
