# rust-challenges in Dafny

A verified model of the core of `src/main.rs` from the rust-challenges
repository, a set of small Rust exercises. The central piece is
challenge 11, ISBN-13 parsing:

- `Isbn::from_str` scans text character by character. A `-` is skipped.
  A `0`..`9` becomes a digit. Any other character stops the scan with
  `InvalidCharacter(offset, c)`.
- It then rejects more than 13 digits (`TooLong`) and fewer (`TooShort`).
- It then compares the 13th digit with the check digit of the first twelve
  (`FailedCheck`).
- `calculate_check_digit` weighs the digits 1, 3, 1, 3, … and returns
  `10 - sum % 10`, with 10 mapped to 0.

Beside it the model covers:

- the card hand of challenge 6 (`Hand::new`, `add`, `value`, where an ace
  counts 11 while the running total is at most 10);
- the Morse encoder of challenge 5, which covers only A and B;
- `unique` of challenge 2, which sorts then removes duplicates;
- `sum_missing_data` of challenge 9, which sums optional `i32`s with a
  missing entry counting 0.

Files:

- `wrappers.dfy`: `Option` and `Result`.
- `checksum.dfy` (module `IsbnChecksum`): the weighted sum, the check digit,
  and what the checksum detects.
- `isbn.dfy` (module `IsbnParser`): two forms of `from_str` and their
  properties. `Parse` is the specification function. `FromStr` is the loop
  as written, proved equal to `Parse`.
- `blackjack.dfy` (module `Blackjack`): `Card`, and the class `Hand` with its
  `cards` field.
- `morse.dfy` (module `Morse`): `Pulse`, the encoder, and a decoder that
  serves as its partner.
- `unique.dfy` (module `Unique`): sorting and deduplication.
- `missing_data.dfy` (module `MissingData`): the sum of optional values.

Where Rust reports the offset of a bad character, it counts UTF-8 bytes.
`char_indices` gives byte offsets. The model computes the same byte offset
(`Utf8Width`, `ByteLength`), and proves that it equals the character index,
because every character before the first rejected one is ASCII.

## Model

| member | source | states |
|---|---|---|
| IsbnChecksum.CheckDigit | src/main.rs:227-242 | the check digit is a digit that makes the weighted sum of the first twelve digits plus itself a multiple of 10 |
| IsbnChecksum.CheckDigitUnique | src/main.rs:227-242 | it is the only digit with that property |
| IsbnChecksum.CheckDigitReadsPayloadOnly | src/main.rs:229-233 | the weights are zipped with the digits, so only the first twelve digits count: a 13-digit input gives the same check digit as its first twelve |
| IsbnChecksum.CheckDigitFormula | src/main.rs:228-241 | for at least twelve digits, the check digit is (10 − (Σ weight·digit over positions 0..11, weights alternating 1 and 3) mod 10) mod 10 |
| IsbnChecksum.DotIsWeightedSum | src/main.rs:228-233 | the zipped sum equals the alternating 1/3 weighted sum of the first twelve digits |
| IsbnChecksum.CheckDigitOfTwelve | src/main.rs:228-241 | for twelve digits d0..d11, the check digit is (10 − (d0 + 3·d1 + d2 + … + 3·d11) mod 10) mod 10, position by position |
| IsbnChecksum.CheckDigitMatchesIff | src/main.rs:210-212 | for 13 digits, digit 13 equals the check digit exactly when the 13-weight sum is a multiple of 10 |
| IsbnChecksum.DetectsSingleDigitError | src/main.rs:227-242 | changing any single digit of a valid ISBN makes the check fail |
| IsbnChecksum.DetectsAdjacentTransposition | src/main.rs:227-242 | swapping two adjacent digits that differ by other than 5 makes the check fail |
| IsbnChecksum.CheckDigitExample1 | src/main.rs:411-423 | 978186197876 has check digit 9 |
| IsbnChecksum.CheckDigitExample2 | src/main.rs:411-423 | 978316148410 has check digit 0 |
| IsbnParser.Utf8Width | src/main.rs:193 | a character's UTF-8 width is 1 to 4 bytes, and 1 exactly for ASCII |
| IsbnParser.FirstRejected | src/main.rs:193-201 | the position where the scan stops is a rejected character with only accepted ones before it |
| IsbnParser.DigitsConcat | src/main.rs:193-201 | the digits collected from two pieces of text are those of the first piece followed by those of the second |
| IsbnParser.FromStr | src/main.rs:191-218 | the scanning loop returns exactly `Parse(s)`: fail-fast on the first bad character with its byte offset, then the length gates, then the check |
| IsbnParser.ParseRejectsFirstInvalidCharacter | src/main.rs:193-201 | the first character that is neither `-` nor a digit is reported with its position and itself, whatever follows |
| IsbnParser.ParseLengthGate | src/main.rs:203-208 | for accepted text, `TooLong` iff more than 13 digits and `TooShort` iff fewer; hyphens are not counted |
| IsbnParser.ParseFailedCheckIff | src/main.rs:210-212 | `FailedCheck` iff the text is accepted, has 13 digits and the checksum is invalid |
| IsbnParser.ParseSucceedsIff | src/main.rs:191-218 | success iff the text is accepted and its digits form a valid ISBN-13; the result holds the raw text and those digits |
| IsbnParser.ParsedIsbnInvariant | src/main.rs:203-217 | every parsed ISBN has 13 digits, the last being the check digit of the first twelve |
| IsbnParser.SeparatorInserted | src/main.rs:195 | inserting a hyphen keeps the text accepted and leaves its digits unchanged |
| IsbnParser.ParseIgnoresSeparators | src/main.rs:195 | inserting a hyphen anywhere into accepted text changes neither the digits nor the error |
| IsbnParser.Display | src/main.rs:221-225 | the ISBN is displayed as its raw text, so an ISBN obtained by parsing displays as text that parses back to the same ISBN |
| IsbnParser.DisplayRoundTrip | src/main.rs:214-225 | `Display` writes back the text that was parsed, and parsing it again gives the same ISBN |
| IsbnParser.DigitsExampleValid | src/main.rs:191-201 | "978-1-86197-876-9" is accepted and its digits are 9781861978769 |
| IsbnParser.ParseExampleValid | src/main.rs:191-218 | "978-1-86197-876-9" parses to an ISBN |
| IsbnParser.ParseExampleInvalidCharacter | src/main.rs:197-199 | "978-1A6197876-9" fails with `InvalidCharacter(5, 'A')` |
| IsbnParser.ParseExampleTooShort | src/main.rs:206-207 | "978-1-86197-876" fails with `TooShort` |
| IsbnParser.ParseExampleTooLong | src/main.rs:204-205 | "978-1-86197-876-99" fails with `TooLong` |
| IsbnParser.ParseExampleFailedCheck | src/main.rs:210-212 | "9781861978768" fails with `FailedCheck` |
| Blackjack.Hand.constructor | src/main.rs:81-85 | a new hand has no cards |
| Blackjack.Hand.Add | src/main.rs:87-89 | the card is appended and the other cards are unchanged |
| Blackjack.Hand.Value | src/main.rs:90-120 | the two loops compute the non-ace total, plus 1 per ace, plus 10 when there is an ace and the other cards total at most 10 |
| Blackjack.HandValueAtLeastCardCount | src/main.rs:90-120 | a hand is worth at least its number of cards |
| Blackjack.AtMostOneAceCountsEleven | src/main.rs:115-118 | the value exceeds the all-aces-as-1 count by 0 or 10, and by 10 exactly when there is an ace and the other cards total at most 10 |
| Blackjack.CountsRemove | src/main.rs:93-112 | taking any one card out of a hand takes away exactly its first-pass points and its ace count |
| Blackjack.CountsPermutation | src/main.rs:93-112 | two hands holding the same cards in any order have the same non-ace total and the same number of aces |
| Blackjack.HandValueIgnoresOrder | src/main.rs:90-120 | the order of the cards does not change the value: any two hands holding the same cards (equal multisets) are worth the same |
| Blackjack.KingAndAce | src/main.rs:268-271 | a hand of King then Ace is worth 21 |
| Morse.ToMorseCode | src/main.rs:33-48 | the loop's message is `Encode(s)`: one code per A/a or B/b, in order, other characters skipped |
| Morse.EncodeConcat | src/main.rs:40-46 | encoding two pieces of text gives the two messages one after the other |
| Morse.EncodeLength | src/main.rs:40-46 | the message has one letter per A/a/B/b in the text |
| Morse.DecodeEncode | src/main.rs:40-46 | decoding the message gives the text's A/B letters in lower case, so only case and skipped characters are lost |
| Morse.EncodeDecode | src/main.rs:41-43 | any message that decodes is the encoding of its decoding |
| Morse.EncodeLetters | src/main.rs:41-43 | upper and lower case encode alike: encoding the kept letters equals encoding the text |
| Morse.EncodeExample | src/main.rs:264-266 | "ab" encodes to [[Short, Long], [Short, Long, Short, Long]] |
| Unique.Insert | src/main.rs:325 | inserting into a sorted list keeps it sorted and adds exactly that element |
| Unique.SortAscending | src/main.rs:325 | the sorted list is ascending and a permutation of the input |
| Unique.Dedup | src/main.rs:326 | deduplicating a sorted list gives a strictly increasing list with the same elements |
| Unique.Unique | src/main.rs:324-328 | the result is strictly increasing and holds exactly the input's elements |
| Unique.StrictlyIncreasingDetermined | src/main.rs:324-328 | those two properties fix the result: two strictly increasing lists with the same elements are equal |
| Unique.UniqueExamples | src/main.rs:249-250 | [1, 6, 2, 5] gives [1, 2, 5, 6] (and [1, 5, 2, 7, 9, 9] gives [1, 2, 5, 7, 9], the test at lines 403-409) |
| MissingData.SumMissingData | src/main.rs:359-363 | each present entry is added and a missing one counts 0; the sum lies between the list length times the least and the greatest `i32` |
| MissingData.SumMissingDataConcat | src/main.rs:359-363 | the sum of two lists put together is the sum of their sums |
| MissingData.SumMissingDataIgnoresNone | src/main.rs:362 | a missing entry anywhere leaves the sum unchanged |
| MissingData.SumMissingDataExample | src/main.rs:292-294 | [Some(2), None, Some(3)] sums to 5 |

## Left out

- The other challenges in `src/main.rs` are not part of this model: `median`, `ImportantEvent::is_passed`, `Temperature` and its conversions, `sort_username`, the `info*` printers and `weeks_between`. They involve floating point, clocks and dates, Unicode lower-casing (a case-mapping table), and printing.
- `main` itself, which prints, is not modelled; its demonstration values are proved as examples (`Unique.UniqueExamples`, `Morse.EncodeExample`, `Blackjack.KingAndAce`, `MissingData.SumMissingDataExample`).
- `Display for Pulse` is printing only and is not modelled.
- `MissingData.SumMissingData`: the sum is computed in unbounded integers. Rust's `i32` `sum()` panics on overflow in debug builds and wraps in release builds; neither is modelled. Its contract states how far the unbounded sum can stray.
- `Blackjack.Hand.Value`: the `usize` result and the `i32` ace counter `aces_seen` are unbounded here. A hand needs 2^31 aces (or, on 32-bit targets, about 4.3·10^8 ten-point cards) to overflow them; that panic (debug builds) or wrap-around (release builds) is not modelled.
- `IsbnChecksum.CheckDigit`: the `u8` products and the `u32` sum of the source are exact here. With digits of at most 9 and weights of at most 3, no product exceeds 27 and no sum exceeds 324, so nothing wraps.
- `IsbnChecksum.CheckDigitFormula` and `IsbnChecksum.DotIsWeightedSum` are stated for inputs of at least twelve digits. The parser only calls the check digit with exactly 13.
- `Unique.Unique` is generic over `T: Ord` in the source. It is modelled on `int`, where a stable and an unstable sort cannot be told apart.
- `Unique.SortAscending`: `slice::sort`, which works in place, is modelled by a functional insertion sort whose contract (ascending and a permutation) is the one the standard library promises.
- `Unique.Dedup`: `Vec::dedup` works in place on the vector's buffer. It is modelled as a loop building a new sequence, so the in-place update and the reuse of the buffer are not captured.
- `IsbnParser.FromStr`: the `Vec::with_capacity(13)` pre-allocation has no observable effect and is not modelled.
