/// Concrete escapes, each decoded in any quoted atom whose other text holds
/// no backslash, obtained from the general lemmas of `EscapeProofs`.
/// `QuotedAtom(p, e, s)` is the raw atom `"` p e s `"`; escape texts are
/// written as code units.
module EscapeExamples {
  import opened Utf16
  import opened Common
  import opened Escapes
  import opened EscapeProofs

  const Digit1: CodeUnit := 0x31  // '1'
  const Digit2: CodeUnit := 0x32  // '2'
  const Digit4: CodeUnit := 0x34  // '4'
  const Digit6: CodeUnit := 0x36  // '6'
  const UpperD: CodeUnit := 0x44  // 'D'
  const LowerG: CodeUnit := 0x67  // 'g'

  /// The value of digits read one more digit to the right.
  lemma BaseValueAppend(ds: Text, c: CodeUnit, radix: int)
    ensures BaseValue(ds + [c], radix) == BaseValue(ds, radix) * radix + DigitValue(c)
  {
    assert (ds + [c])[..|ds|] == ds;
  }

  /// The value of leading zeros followed by `41`.
  lemma {:induction false} ZerosThen41(zeros: nat)
    ensures AllHex(seq(zeros, _ => Digit0) + [Digit4, Digit1])
    ensures BaseValue(seq(zeros, _ => Digit0) + [Digit4, Digit1], 16) == 0x41
  {
    var z := seq(zeros, _ => Digit0);
    assert AllHex(z + [Digit4, Digit1]) by {
      forall j | 0 <= j < |z| + 2 ensures IsHexDigit((z + [Digit4, Digit1])[j]) {
        if j < |z| { assert (z + [Digit4, Digit1])[j] == Digit0; }
      }
    }
    LeadingZeros(zeros);
    assert z + [Digit4, Digit1] == (z + [Digit4]) + [Digit1];
    BaseValueAppend(z, Digit4, 16);
    BaseValueAppend(z + [Digit4], Digit1, 16);
  }

  /// Leading zeros have value zero.
  lemma {:induction false} LeadingZeros(zeros: nat)
    ensures BaseValue(seq(zeros, _ => Digit0), 16) == 0
    decreases zeros
  {
    if zeros > 0 {
      LeadingZeros(zeros - 1);
      assert seq(zeros, _ => Digit0) == seq(zeros - 1, _ => Digit0) + [Digit0];
      BaseValueAppend(seq(zeros - 1, _ => Digit0), Digit0, 16);
    }
  }

  /// `\101` is `A`, wherever it stands.
  lemma OctalA(p: Text, s: Text)
    requires Backslash !in p && Backslash !in s
    ensures Unescaped(QuotedAtom(p, [Backslash, Digit1, Digit0, Digit1], s), Atom) == Success(p + [0x41] + s)
  {
    var ds := [Digit1, Digit0, Digit1];
    assert [Backslash] + ds == [Backslash, Digit1, Digit0, Digit1];
    OctalValueA();
    OctalEscapeDecodes(p, ds, s);
  }

  lemma OctalValueA()
    ensures BaseValue([Digit1, Digit0, Digit1], 8) == 0x41 && CastToChar(0x41) == 0x41
  {
    BaseValueAppend([], Digit1, 8);
    assert [] + [Digit1] == [Digit1];
    BaseValueAppend([Digit1], Digit0, 8);
    assert [Digit1] + [Digit0] == [Digit1, Digit0];
    BaseValueAppend([Digit1, Digit0], Digit1, 8);
    assert [Digit1, Digit0] + [Digit1] == [Digit1, Digit0, Digit1];
  }

  /// The code unit 0x41 is its own UTF-16 encoding.
  lemma EncodeA()
    ensures EncodeUtf16(0x41) == [0x41]
  {
  }

  /// `\x41` is `A` when no hexadecimal digit follows it.
  lemma HexA(p: Text, s: Text)
    requires Backslash !in p && Backslash !in s
    requires s == [] || !IsHexDigit(s[0])
    ensures Unescaped(QuotedAtom(p, [Backslash, LowerX, Digit4, Digit1], s), Atom) == Success(p + [0x41] + s)
  {
    var ds := [Digit4, Digit1];
    ZerosThen41(0);
    assert seq(0, _ => Digit0) + ds == ds;
    assert [Backslash, LowerX] + ds == [Backslash, LowerX, Digit4, Digit1];
    EncodeA();
    HexEscapeDecodes(p, LowerX, ds, s);
  }

  /// `\u0041` is `A`, whatever follows it.
  lemma UnicodeA(p: Text, s: Text)
    requires Backslash !in p && Backslash !in s
    ensures Unescaped(QuotedAtom(p, [Backslash, LowerU, Digit0, Digit0, Digit4, Digit1], s), Atom) == Success(p + [0x41] + s)
  {
    var ds := [Digit0, Digit0, Digit4, Digit1];
    ZerosThen41(2);
    assert seq(2, _ => Digit0) + [Digit4, Digit1] == ds;
    assert [Backslash, LowerU] + ds == [Backslash, LowerU, Digit0, Digit0, Digit4, Digit1];
    EncodeA();
    HexEscapeDecodes(p, LowerU, ds, s);
  }

  /// `\U00000041` is `A`, whatever follows it.
  lemma LongUnicodeA(p: Text, s: Text)
    requires Backslash !in p && Backslash !in s
    ensures Unescaped(QuotedAtom(p, [Backslash, UpperU] + seq(6, _ => Digit0) + [Digit4, Digit1], s), Atom) ==
            Success(p + [0x41] + s)
  {
    var ds := seq(6, _ => Digit0) + [Digit4, Digit1];
    ZerosThen41(6);
    assert [Backslash, UpperU] + ds == [Backslash, UpperU] + seq(6, _ => Digit0) + [Digit4, Digit1];
    EncodeA();
    HexEscapeDecodes(p, UpperU, ds, s);
  }

  /// `\u041` is also `A` when no hexadecimal digit follows it: `\u` accepts
  /// three digits, because the length check counts the letter `u`.
  lemma ThreeDigitUnicodeA(p: Text, s: Text)
    requires Backslash !in p && Backslash !in s
    requires s == [] || !IsHexDigit(s[0])
    ensures Unescaped(QuotedAtom(p, [Backslash, LowerU, Digit0, Digit4, Digit1], s), Atom) == Success(p + [0x41] + s)
  {
    var ds := [Digit0, Digit4, Digit1];
    ZerosThen41(1);
    assert seq(1, _ => Digit0) + [Digit4, Digit1] == ds;
    assert [Backslash, LowerU] + ds == [Backslash, LowerU, Digit0, Digit4, Digit1];
    EncodeA();
    HexEscapeDecodes(p, LowerU, ds, s);
  }

  /// `\U0001F600` (an emoji above the Basic Multilingual Plane) is the
  /// surrogate pair D83D DE00.
  lemma LongUnicodeEmoji(p: Text, s: Text)
    requires Backslash !in p && Backslash !in s
    ensures Unescaped(QuotedAtom(p, [Backslash, UpperU] + EmojiDigits, s), Atom) == Success(p + [0xD83D, 0xDE00] + s)
  {
    EmojiValue();
    HexEscapeDecodes(p, UpperU, EmojiDigits, s);
  }

  const EmojiDigits: Text := [Digit0, Digit0, Digit0, Digit1, UpperF, Digit6, Digit0, Digit0]

  lemma EmojiValue()
    ensures AllHex(EmojiDigits) && BaseValue(EmojiDigits, 16) == 0x1F600
    ensures EncodeUtf16(0x1F600) == [0xD83D, 0xDE00]
  {
    var z := [Digit0, Digit0, Digit0];
    assert z == seq(3, _ => Digit0);
    LeadingZeros(3);
    BaseValueAppend(z, Digit1, 16);
    BaseValueAppend(z + [Digit1], UpperF, 16);
    BaseValueAppend(z + [Digit1, UpperF], Digit6, 16);
    BaseValueAppend(z + [Digit1, UpperF, Digit6], Digit0, 16);
    BaseValueAppend(z + [Digit1, UpperF, Digit6, Digit0], Digit0, 16);
    assert z + [Digit1] + [UpperF] == z + [Digit1, UpperF];
    assert z + [Digit1, UpperF] + [Digit6] == z + [Digit1, UpperF, Digit6];
    assert z + [Digit1, UpperF, Digit6] + [Digit0] == z + [Digit1, UpperF, Digit6, Digit0];
    assert z + [Digit1, UpperF, Digit6, Digit0] + [Digit0] == EmojiDigits;
  }

  /// `\U00110000`, one past the last code point, is a format error naming
  /// the escape.
  lemma LongUnicodeTooLarge(p: Text, s: Text)
    requires Backslash !in p && Backslash !in s
    ensures Unescaped(QuotedAtom(p, [Backslash, UpperU] + TooLargeDigits, s), Atom) ==
            Failure(InvalidEscape([UpperU] + TooLargeDigits))
  {
    TooLargeValue();
    HexEscapeDecodes(p, UpperU, TooLargeDigits, s);
  }

  const TooLargeDigits: Text := [Digit0, Digit0, Digit1, Digit1, Digit0, Digit0, Digit0, Digit0]

  lemma TooLargeValue()
    ensures AllHex(TooLargeDigits) && BaseValue(TooLargeDigits, 16) == MaxCodePoint + 1
  {
    var z := [Digit0, Digit0];
    assert z == seq(2, _ => Digit0);
    LeadingZeros(2);
    BaseValueAppend(z, Digit1, 16);
    BaseValueAppend(z + [Digit1], Digit1, 16);
    BaseValueAppend(z + [Digit1, Digit1], Digit0, 16);
    BaseValueAppend(z + [Digit1, Digit1, Digit0], Digit0, 16);
    BaseValueAppend(z + [Digit1, Digit1, Digit0, Digit0], Digit0, 16);
    BaseValueAppend(z + [Digit1, Digit1, Digit0, Digit0, Digit0], Digit0, 16);
    assert z + [Digit1] + [Digit1] == z + [Digit1, Digit1];
    assert z + [Digit1, Digit1] + [Digit0] == z + [Digit1, Digit1, Digit0];
    assert z + [Digit1, Digit1, Digit0] + [Digit0] == z + [Digit1, Digit1, Digit0, Digit0];
    assert z + [Digit1, Digit1, Digit0, Digit0] + [Digit0] == z + [Digit1, Digit1, Digit0, Digit0, Digit0];
    assert z + [Digit1, Digit1, Digit0, Digit0, Digit0] + [Digit0] == TooLargeDigits;
  }

  /// `\uD800` yields a lone high surrogate: the decoder does not check that
  /// a surrogate escape is paired.
  lemma LoneSurrogate(p: Text, s: Text)
    requires Backslash !in p && Backslash !in s
    ensures Unescaped(QuotedAtom(p, [Backslash, LowerU, UpperD, Digit8, Digit0, Digit0], s), Atom) ==
            Success(p + [0xD800] + s)
    ensures IsHighSurrogate(0xD800)
  {
    var ds := [UpperD, Digit8, Digit0, Digit0];
    SurrogateValue();
    assert [Backslash, LowerU] + ds == [Backslash, LowerU, UpperD, Digit8, Digit0, Digit0];
    HexEscapeDecodes(p, LowerU, ds, s);
  }

  lemma SurrogateValue()
    ensures AllHex([UpperD, Digit8, Digit0, Digit0]) && BaseValue([UpperD, Digit8, Digit0, Digit0], 16) == 0xD800
    ensures EncodeUtf16(0xD800) == [0xD800]
  {
    BaseValueAppend([], UpperD, 16);
    assert [] + [UpperD] == [UpperD];
    BaseValueAppend([UpperD], Digit8, 16);
    assert [UpperD] + [Digit8] == [UpperD, Digit8];
    BaseValueAppend([UpperD, Digit8], Digit0, 16);
    assert [UpperD, Digit8] + [Digit0] == [UpperD, Digit8, Digit0];
    BaseValueAppend([UpperD, Digit8, Digit0], Digit0, 16);
    assert [UpperD, Digit8, Digit0] + [Digit0] == [UpperD, Digit8, Digit0, Digit0];
  }

  /// `\xg` before a character that is not a hexadecimal digit yields the
  /// code unit 0x10: the character after `x` is not checked to be a digit,
  /// and `g` counts as 16.
  lemma UncheckedHexDigit(p: Text, s: Text)
    requires Backslash !in p && Backslash !in s
    requires s == [] || !IsHexDigit(s[0])
    ensures Unescaped(QuotedAtom(p, [Backslash, LowerX, LowerG], s), Atom) == Success(p + [0x10] + s)
  {
    var middle := [Backslash, LowerX, LowerG];
    var raw := QuotedAtom(p, middle, s);
    var a := 1 + |p|;
    var st := DecodeState(p, false, []);
    QuotedAtomParts(p, middle, s);
    HoldsAt(raw, a, middle, 0);
    HoldsAt(raw, a, middle, 1);
    HoldsAt(raw, a, middle, 2);
    HexOpened(st, raw, a, LowerX);
    RunNext(st, raw, a, a + 2, DecodeState(p, true, [LowerX]));
    LaterEscapeStep(p, [LowerX], raw, a + 2);
    GAfterX(Lookahead(raw, a + 2));
    DecodeInContext(p, middle, s, [0x10]);
  }

  /// The escape code `xg` ends before a non-digit with the value 16.
  lemma GAfterX(next: CodeUnit)
    requires !IsHexDigit(next)
    ensures MultiCharacterEscape([LowerX] + [LowerG], next) == Success([0x10])
  {
    var code := [LowerX, LowerG];
    assert [LowerX] + [LowerG] == code;
    assert code[1..] == [LowerG];
    assert [LowerG][..0] == [];
    assert Accumulate([LowerG], 16) == Some(16);
  }

  /// `\u12` followed by `g` is a format error naming `u12g`: the escape is
  /// shorter than four characters and `g` is not a hexadecimal digit.
  lemma ShortUnicodeFails(p: Text, s: Text)
    requires Backslash !in p
    ensures Unescaped(QuotedAtom(p, [Backslash, LowerU, Digit1, Digit2], [LowerG] + s), Atom) ==
            Failure(InvalidEscape([LowerU, Digit1, Digit2, LowerG]))
  {
    var ds := [Digit1, Digit2];
    assert [Backslash, LowerU] + ds == [Backslash, LowerU, Digit1, Digit2];
    assert ([LowerG] + s)[0] == LowerG;
    assert [LowerU] + ds + [LowerG] == [LowerU, Digit1, Digit2, LowerG];
    ShortHexEscapeFails(p, LowerU, ds, [LowerG] + s);
  }
}
