/**
 * Morse encoding of a string (challenge 5 of src/main.rs).
 *
 * Only the letters A and B have a code, in either case; every other
 * character is dropped from the message.
 */
module Morse {
  import opened Wrappers

  datatype Pulse = Short | Long

  type Letter = seq<Pulse>
  type Message = seq<Letter>

  const CodeA: Letter := [Short, Long]
  const CodeB: Letter := [Short, Long, Short, Long]

  /** The code of one character, or None for a character that is skipped. */
  function LetterCode(c: char): Option<Letter>
  {
    if c == 'A' || c == 'a' then Some(CodeA)
    else if c == 'B' || c == 'b' then Some(CodeB)
    else None
  }

  /** The message for a string: the codes of its characters, in order. */
  function Encode(s: string): Message
  {
    if s == [] then []
    else
      var c := s[|s| - 1];
      Encode(s[..|s| - 1]) + match LetterCode(c) { case Some(code) => [code] case None => [] }
  }

  /** `to_morse_code`: one pass over the characters, pushing each code. */
  method ToMorseCode(s: string) returns (msg: Message)
    ensures msg == Encode(s)
  {
    msg := [];
    for i := 0 to |s|
      invariant msg == Encode(s[..i])
    {
      assert s[..i + 1][..i] == s[..i];
      var c := s[i];
      var morseCode;
      if c == 'A' || c == 'a' {
        morseCode := [Short, Long];
      } else if c == 'B' || c == 'b' {
        morseCode := [Short, Long, Short, Long];
      } else {
        continue;
      }
      msg := msg + [morseCode];
    }
    assert s[..|s|] == s;
  }

  /** The letters of a string that the encoding keeps, in lower case. */
  function Letters(s: string): string
  {
    if s == [] then []
    else
      var c := s[|s| - 1];
      Letters(s[..|s| - 1]) +
        if c == 'A' || c == 'a' then "a" else if c == 'B' || c == 'b' then "b" else []
  }

  /** Reads a message back, one letter per code; None when some letter is
      neither code. */
  function Decode(m: Message): Option<string>
  {
    if m == [] then Some([])
    else
      var letter := m[|m| - 1];
      match Decode(m[..|m| - 1])
      case None => None
      case Some(prefix) =>
        if letter == CodeA then Some(prefix + "a")
        else if letter == CodeB then Some(prefix + "b")
        else None
  }

  lemma {:induction false} EncodeConcat(a: string, b: string)
    ensures Encode(a + b) == Encode(a) + Encode(b)
  {
    if b == [] {
      assert a + b == a;
    } else {
      assert (a + b)[..|a + b| - 1] == a + b[..|b| - 1];
      EncodeConcat(a, b[..|b| - 1]);
    }
  }

  /** Each kept character gives exactly one letter of the message. */
  lemma {:induction false} EncodeLength(s: string)
    ensures |Encode(s)| == |Letters(s)|
  {
    if s != [] {
      EncodeLength(s[..|s| - 1]);
    }
  }

  /** Decoding a message gives back the letters of the string it encodes:
      the encoding loses only case and the skipped characters. */
  lemma {:induction false} DecodeEncode(s: string)
    ensures Decode(Encode(s)) == Some(Letters(s))
  {
    if s != [] {
      var p := s[..|s| - 1];
      DecodeEncode(p);
      var m := Encode(s);
      var c := s[|s| - 1];
      if LetterCode(c).Some? {
        assert m[..|m| - 1] == Encode(p);
      } else {
        assert m == Encode(p);
        assert Letters(s) == Letters(p) + [];
        assert Letters(p) + [] == Letters(p);
        assert Decode(m) == Some(Letters(p));
      }
    }
  }

  /** The other direction: a message that decodes is the encoding of what it
      decodes to. */
  lemma {:induction false} EncodeDecode(m: Message)
    ensures Decode(m).Some? ==> Encode(Decode(m).value) == m
  {
    if m != [] && Decode(m).Some? {
      var p := m[..|m| - 1];
      EncodeDecode(p);
      var prefix := Decode(p).value;
      var last := m[|m| - 1];
      assert m == p + [last];
      var letter: string := if last == CodeA then "a" else "b";
      assert Decode(m) == Some(prefix + letter);
      EncodeConcat(prefix, letter);
      assert letter[..0] == [];
      assert Encode(letter) == [last];
    }
  }

  /** The message depends only on the letters kept: upper and lower case
      encode alike. */
  lemma {:induction false} EncodeLetters(s: string)
    ensures Encode(Letters(s)) == Encode(s)
  {
    if s != [] {
      var p := s[..|s| - 1];
      var c := s[|s| - 1];
      EncodeLetters(p);
      var tail: string := if c == 'A' || c == 'a' then "a" else if c == 'B' || c == 'b' then "b" else [];
      EncodeConcat(Letters(p), tail);
      if tail != [] {
        assert tail[..0] == [];
      }
    }
  }

  /** The demonstration: "ab" becomes a short-long letter followed by a
      short-long-short-long letter. */
  lemma EncodeExample(s: string)
    requires s == "ab"
    ensures Encode(s) == [[Short, Long], [Short, Long, Short, Long]]
  {
    assert s[..1] == "a";
    assert s[..1][..0] == [];
    assert Encode("a") == [CodeA];
    assert Encode(s) == Encode("a") + [CodeB];
  }
}
