/**
 * ISBN-13 parsing and validation (challenge 11 of src/main.rs).
 *
 * Raw text is scanned once, left to right: `-` is skipped, `0`..`9` become
 * digit values, and any other character stops the scan with
 * `InvalidCharacter(offset, c)`, where `offset` is the character's UTF-8 byte
 * offset. The digit count is then checked (more than 13 is `TooLong`, fewer
 * is `TooShort`) and finally the 13th digit is compared with the check digit
 * of the first twelve (`FailedCheck` when they differ).
 */
module IsbnParser {
  import opened Wrappers
  import opened IsbnChecksum

  datatype InvalidIsbn = TooLong | TooShort | FailedCheck | InvalidCharacter(pos: nat, c: char)

  datatype Isbn = Isbn(raw: string, digits: seq<Digit>)

  // ---------------------------------------------------------------------------
  // Digit extractor
  // ---------------------------------------------------------------------------

  predicate IsSeparator(c: char) { c == '-' }

  predicate IsDigitChar(c: char) { '0' <= c <= '9' }

  /** The characters the scan lets through. */
  predicate Accepted(c: char) { IsSeparator(c) || IsDigitChar(c) }

  predicate AllAccepted(s: string)
  {
    forall i :: 0 <= i < |s| ==> Accepted(s[i])
  }

  function DigitValue(c: char): Digit
    requires IsDigitChar(c)
  {
    c as int - '0' as int
  }

  /** The values of the digit characters of `s`, in order; separators and
      every other character contribute nothing. */
  function Digits(s: string): seq<Digit>
  {
    if s == [] then []
    else
      var last := s[|s| - 1];
      Digits(s[..|s| - 1]) + (if IsDigitChar(last) then [DigitValue(last)] else [])
  }

  /** Number of bytes the UTF-8 encoding of `c` takes. */
  function Utf8Width(c: char): (n: nat)
    ensures 1 <= n <= 4
    ensures n == 1 <==> c as int < 0x80
  {
    if c as int < 0x80 then 1
    else if c as int < 0x800 then 2
    else if c as int < 0x1_0000 then 3
    else 4
  }

  /** UTF-8 length of `s`: the byte offset `char_indices` reports just past it. */
  function ByteLength(s: string): nat
  {
    if s == [] then 0 else ByteLength(s[..|s| - 1]) + Utf8Width(s[|s| - 1])
  }

  /** Index of the first character the scan rejects. */
  function FirstRejected(s: string): (i: nat)
    requires !AllAccepted(s)
    ensures i < |s| && !Accepted(s[i])
    ensures AllAccepted(s[..i])
  {
    if !Accepted(s[0]) then 0
    else
      assert !AllAccepted(s[1..]) by {
        var j :| 0 <= j < |s| && !Accepted(s[j]);
        assert j != 0 && s[1..][j - 1] == s[j];
      }
      var i := 1 + FirstRejected(s[1..]);
      assert forall j :: 1 <= j < i ==> s[..i][j] == s[1..][..i - 1][j - 1];
      i
  }

  lemma {:induction false} DigitsConcat(a: string, b: string)
    ensures Digits(a + b) == Digits(a) + Digits(b)
  {
    if b != [] {
      assert (a + b)[..|a + b| - 1] == a + b[..|b| - 1];
      DigitsConcat(a, b[..|b| - 1]);
    } else {
      assert a + b == a;
    }
  }

  lemma {:induction false} AsciiByteLength(s: string)
    requires AllAccepted(s)
    ensures ByteLength(s) == |s|
  {
    if s != [] {
      var t := s[..|s| - 1];
      assert forall j :: 0 <= j < |t| ==> t[j] == s[j];
      AsciiByteLength(t);
    }
  }

  /** A rejected character preceded only by accepted ones is the first one. */
  lemma {:induction false} FirstRejectedAt(s: string, i: nat)
    requires i < |s| && !Accepted(s[i]) && AllAccepted(s[..i])
    ensures FirstRejected(s) == i
  {
    if i > 0 {
      assert s[..i][0] == s[0];
      assert s[1..][i - 1] == s[i];
      var t := s[1..][..i - 1];
      assert forall j :: 0 <= j < |t| ==> t[j] == s[..i][j + 1];
      FirstRejectedAt(s[1..], i - 1);
    }
  }

  // ---------------------------------------------------------------------------
  // Parse-and-validate
  // ---------------------------------------------------------------------------

  /** What `Isbn::from_str` returns for `s`: the first rejected character wins
      over every other error; then the digit count; then the check digit. */
  function Parse(s: string): Result<Isbn, InvalidIsbn>
  {
    if !AllAccepted(s) then
      var i := FirstRejected(s);
      Failure(InvalidCharacter(ByteLength(s[..i]), s[i]))
    else
      var d := Digits(s);
      if |d| > 13 then Failure(TooLong)
      else if |d| < 13 then Failure(TooShort)
      else if d[12] != CheckDigit(d) then Failure(FailedCheck)
      else Success(Isbn(s, d))
  }

  /** `Display for Isbn`: the original text, verbatim, so an ISBN that came
      from parsing displays as text that parses back to it. */
  function Display(isbn: Isbn): (text: string)
    ensures Parse(isbn.raw) == Success(isbn) ==> Parse(text) == Success(isbn)
  {
    isbn.raw
  }

  /** The single forward scan of `Isbn::from_str`, with its early returns. */
  method FromStr(s: string) returns (r: Result<Isbn, InvalidIsbn>)
    ensures r == Parse(s)
  {
    var digits: seq<Digit> := [];
    var offset: nat := 0;
    var i := 0;
    while i < |s|
      invariant 0 <= i <= |s|
      invariant AllAccepted(s[..i])
      invariant digits == Digits(s[..i])
      invariant offset == ByteLength(s[..i])
    {
      var c := s[i];
      assert s[..i + 1][..i] == s[..i];
      if c == '-' {
      } else if '0' <= c <= '9' {
        digits := digits + [DigitValue(c)];
      } else {
        FirstRejectedAt(s, i);
        return Failure(InvalidCharacter(offset, c));
      }
      offset := offset + Utf8Width(c);
      i := i + 1;
    }
    assert s[..i] == s;
    var n := |digits|;
    if n > 13 {
      return Failure(TooLong);
    } else if n < 13 {
      return Failure(TooShort);
    }
    if digits[12] != CheckDigit(digits) {
      return Failure(FailedCheck);
    }
    return Success(Isbn(s, digits));
  }

  // ---------------------------------------------------------------------------
  // Properties of Parse
  // ---------------------------------------------------------------------------

  /** The scan is fail-fast: the first character that is neither `-` nor a
      digit is reported, with its offset and itself, however many digits the
      rest of the text holds. Its byte offset equals its index, because every
      character before it is ASCII. */
  lemma ParseRejectsFirstInvalidCharacter(s: string, i: nat)
    requires i < |s| && !Accepted(s[i]) && AllAccepted(s[..i])
    ensures Parse(s) == Failure(InvalidCharacter(i, s[i]))
  {
    FirstRejectedAt(s, i);
    AsciiByteLength(s[..i]);
  }

  /** Once the scan succeeds, the digit count alone decides the length errors;
      separators are not counted. */
  lemma ParseLengthGate(s: string)
    requires AllAccepted(s)
    ensures Parse(s) == Failure(TooLong) <==> |Digits(s)| > 13
    ensures Parse(s) == Failure(TooShort) <==> |Digits(s)| < 13
  {
  }

  /** `FailedCheck` is returned exactly for accepted text with 13 digits whose
      weighted sum is not a multiple of 10. */
  lemma ParseFailedCheckIff(s: string)
    ensures Parse(s) == Failure(FailedCheck)
        <==> AllAccepted(s) && |Digits(s)| == 13 && !ChecksumValid(Digits(s))
  {
    if AllAccepted(s) && |Digits(s)| == 13 {
      CheckDigitMatchesIff(Digits(s));
    }
  }

  /** Parsing succeeds exactly on accepted text whose digits form a valid
      ISBN-13, and the result keeps the text and those digits. */
  lemma ParseSucceedsIff(s: string)
    ensures Parse(s).Success? <==> AllAccepted(s) && ChecksumValid(Digits(s))
    ensures Parse(s).Success? ==> Parse(s).value == Isbn(s, Digits(s))
  {
    if AllAccepted(s) && |Digits(s)| == 13 {
      CheckDigitMatchesIff(Digits(s));
    }
  }

  /** Every parsed ISBN holds 13 digits, the last being the check digit of
      the first twelve. */
  lemma ParsedIsbnInvariant(s: string)
    requires Parse(s).Success?
    ensures |Parse(s).value.digits| == 13
    ensures Parse(s).value.digits[12] == CheckDigit(Parse(s).value.digits[..12])
  {
    CheckDigitReadsPayloadOnly(Parse(s).value.digits);
  }

  /** The outcome of a parse with the raw text forgotten. */
  function DigitsOrError(r: Result<Isbn, InvalidIsbn>): Result<seq<Digit>, InvalidIsbn>
  {
    match r
    case Success(isbn) => Success(isbn.digits)
    case Failure(e) => Failure(e)
  }

  /** Inserting a hyphen keeps the text accepted and its digits unchanged. */
  lemma SeparatorInserted(a: string, b: string)
    requires AllAccepted(a + b)
    ensures AllAccepted(a + ['-'] + b)
    ensures Digits(a + ['-'] + b) == Digits(a + b)
  {
    var t := a + ['-'] + b;
    forall j | 0 <= j < |t| ensures Accepted(t[j]) {
      if j < |a| { assert t[j] == (a + b)[j]; }
      else if j > |a| { assert t[j] == (a + b)[j - 1]; }
    }
    DigitsConcat(a, ['-'] + b);
    DigitsConcat(['-'], b);
    assert Digits(['-']) == [];
    assert t == a + (['-'] + b);
    DigitsConcat(a, b);
  }

  /** A hyphen may be inserted anywhere in accepted text without changing the
      digits found or the error reported. */
  lemma ParseIgnoresSeparators(a: string, b: string)
    requires AllAccepted(a + b)
    ensures DigitsOrError(Parse(a + ['-'] + b)) == DigitsOrError(Parse(a + b))
  {
    SeparatorInserted(a, b);
  }

  /** Displaying a parsed ISBN gives back the text it was parsed from, and
      parsing that again gives the same ISBN. */
  lemma DisplayRoundTrip(s: string, isbn: Isbn)
    requires Parse(s) == Success(isbn)
    ensures Display(isbn) == s
    ensures Parse(Display(isbn)) == Success(isbn)
  {
  }

  lemma DigitsSnoc(s: string, c: char)
    ensures Digits(s + [c]) == Digits(s) + if IsDigitChar(c) then [DigitValue(c)] else []
  {
    assert (s + [c])[..|s|] == s;
  }

  lemma DigitsExampleValid(s: string)
    requires s == "978-1-86197-876-9"
    ensures AllAccepted(s) && Digits(s) == [9, 7, 8, 1, 8, 6, 1, 9, 7, 8, 7, 6, 9]
  {
    var t: string := [];
    DigitsSnoc(t, '9'); t := t + ['9'];
    DigitsSnoc(t, '7'); t := t + ['7'];
    DigitsSnoc(t, '8'); t := t + ['8'];
    DigitsSnoc(t, '-'); t := t + ['-'];
    DigitsSnoc(t, '1'); t := t + ['1'];
    DigitsSnoc(t, '-'); t := t + ['-'];
    DigitsSnoc(t, '8'); t := t + ['8'];
    DigitsSnoc(t, '6'); t := t + ['6'];
    DigitsSnoc(t, '1'); t := t + ['1'];
    DigitsSnoc(t, '9'); t := t + ['9'];
    DigitsSnoc(t, '7'); t := t + ['7'];
    DigitsSnoc(t, '-'); t := t + ['-'];
    DigitsSnoc(t, '8'); t := t + ['8'];
    DigitsSnoc(t, '7'); t := t + ['7'];
    DigitsSnoc(t, '6'); t := t + ['6'];
    DigitsSnoc(t, '-'); t := t + ['-'];
    DigitsSnoc(t, '9'); t := t + ['9'];
    assert t == s && Digits(s) == [9, 7, 8, 1, 8, 6, 1, 9, 7, 8, 7, 6, 9];
  }

  /** A hyphenated ISBN-13 with a correct check digit parses. */
  lemma ParseExampleValid(s: string)
    requires s == "978-1-86197-876-9"
    ensures Parse(s) == Success(Isbn(s, [9, 7, 8, 1, 8, 6, 1, 9, 7, 8, 7, 6, 9]))
  {
    DigitsExampleValid(s);
    var d := Digits(s);
    CheckDigitReadsPayloadOnly(d);
    CheckDigitExample1(d[..12]);
    assert d[12] == CheckDigit(d);
  }

  /** The position reported counts the separators before the bad character. */
  lemma ParseExampleInvalidCharacter(s: string)
    requires s == "978-1A6197876-9"
    ensures Parse(s) == Failure(InvalidCharacter(5, 'A'))
  {
    ParseRejectsFirstInvalidCharacter(s, 5);
  }

  /** Twelve digits are too few: the valid example without its last
      separator and check digit. */
  lemma ParseExampleTooShort(s: string)
    requires s == "978-1-86197-876"
    ensures Parse(s) == Failure(TooShort)
  {
    var valid := s + "-9";
    DigitsExampleValid(valid);
    DigitsConcat(s, "-9");
    DigitsSnoc("-", '9');
    assert "-" + ['9'] == "-9";
    assert Digits("-") == [] by { DigitsSnoc([], '-'); assert [] + ['-'] == "-"; }
    assert AllAccepted(s) by {
      forall j | 0 <= j < |s| ensures Accepted(s[j]) {
        assert s[j] == valid[j];
      }
    }
  }

  /** Fourteen digits are too many: the valid example with one more digit. */
  lemma ParseExampleTooLong(s: string)
    requires s == "978-1-86197-876-99"
    ensures Parse(s) == Failure(TooLong)
  {
    var valid := s[..|s| - 1];
    assert s == valid + "9";
    DigitsExampleValid(valid);
    DigitsSnoc(valid, '9');
    assert AllAccepted(s);
  }

  /** Thirteen digits whose last is not the check digit fail the check. */
  lemma ParseExampleFailedCheck(s: string)
    requires s == "9781861978768"
    ensures Parse(s) == Failure(FailedCheck)
  {
    var t: string := [];
    DigitsSnoc(t, '9'); t := t + ['9'];
    DigitsSnoc(t, '7'); t := t + ['7'];
    DigitsSnoc(t, '8'); t := t + ['8'];
    DigitsSnoc(t, '1'); t := t + ['1'];
    DigitsSnoc(t, '8'); t := t + ['8'];
    DigitsSnoc(t, '6'); t := t + ['6'];
    DigitsSnoc(t, '1'); t := t + ['1'];
    DigitsSnoc(t, '9'); t := t + ['9'];
    DigitsSnoc(t, '7'); t := t + ['7'];
    DigitsSnoc(t, '8'); t := t + ['8'];
    DigitsSnoc(t, '7'); t := t + ['7'];
    DigitsSnoc(t, '6'); t := t + ['6'];
    DigitsSnoc(t, '8'); t := t + ['8'];
    assert t == s && Digits(s) == [9, 7, 8, 1, 8, 6, 1, 9, 7, 8, 7, 6, 8];
    CheckDigitReadsPayloadOnly(Digits(s));
    CheckDigitExample1(Digits(s)[..12]);
  }
}
