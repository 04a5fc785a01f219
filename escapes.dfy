/// The escape decoder of `Token` (Renderer/Token.cs:219-447): how the raw
/// text of a token becomes its decoded string.
///
/// The functions here are the specification: `Unescaped` is a fold of
/// `Step` over the characters between the quotes, with the same state the
/// C# loop keeps (result, `inEscape`, `escapeCode`). The methods
/// `DecodeMultiCharacterEscapeCode` and `Unescape` are the loops of the
/// source, each proved equal to its specification function.
module Escapes {
  import opened Utf16
  import opened Common

  const Quote: CodeUnit := 0x22       // '"'
  const Backslash: CodeUnit := 0x5C   // '\\'
  const Apostrophe: CodeUnit := 0x27  // '\''
  const Question: CodeUnit := 0x3F    // '?'
  const Digit0: CodeUnit := 0x30      // '0'
  const Digit7: CodeUnit := 0x37      // '7'
  const Digit8: CodeUnit := 0x38      // '8'
  const Digit9: CodeUnit := 0x39      // '9'
  const UpperA: CodeUnit := 0x41      // 'A'
  const UpperF: CodeUnit := 0x46      // 'F'
  const UpperU: CodeUnit := 0x55      // 'U'
  const LowerA: CodeUnit := 0x61      // 'a'
  const LowerB: CodeUnit := 0x62      // 'b'
  const LowerF: CodeUnit := 0x66      // 'f'
  const LowerN: CodeUnit := 0x6E      // 'n'
  const LowerR: CodeUnit := 0x72      // 'r'
  const LowerT: CodeUnit := 0x74      // 't'
  const LowerU: CodeUnit := 0x75      // 'u'
  const LowerV: CodeUnit := 0x76      // 'v'
  const LowerX: CodeUnit := 0x78      // 'x'

  /// The fixed C-style escapes `\a \b \f \n \r \t \v \\ \' \" \?` and the
  /// character each stands for (Renderer/Token.cs:298-340).
  function SimpleEscape(c: CodeUnit): Option<CodeUnit> {
    if c == LowerA then Some(0x07)
    else if c == LowerB then Some(0x08)
    else if c == LowerF then Some(0x0C)
    else if c == LowerN then Some(0x0A)
    else if c == LowerR then Some(0x0D)
    else if c == LowerT then Some(0x09)
    else if c == LowerV then Some(0x0B)
    else if c == Backslash || c == Apostrophe || c == Quote || c == Question then Some(c)
    else None
  }

  /// The letters that open a hexadecimal escape: `\x`, `\u`, `\U`.
  predicate IsHexIntroducer(c: CodeUnit) {
    c == LowerX || c == LowerU || c == UpperU
  }

  predicate IsOctalDigit(c: CodeUnit) {
    Digit0 <= c <= Digit7
  }

  predicate IsHexDigit(c: CodeUnit) {
    IsOctalDigit(c) || (UpperA <= c <= UpperF) || (LowerA <= c <= LowerF) || (Digit8 <= c <= Digit9)
  }

  /// A character that may follow a backslash without a format error.
  predicate IsEscapeIntroducer(c: CodeUnit) {
    SimpleEscape(c).Some? || IsHexIntroducer(c) || IsOctalDigit(c)
  }

  /// `DecodeSingleCharacterEscapeCode` (Renderer/Token.cs:294-368): what the
  /// first character `c` after a backslash yields, `next` being the
  /// character after it. An empty success means the escape goes on.
  function DecodeSingleCharacterEscapeCode(c: CodeUnit, next: CodeUnit): (r: Result<Text>)
    ensures r.Failure? <==> !IsEscapeIntroducer(c)
    ensures r.Failure? ==> r.error == InvalidEscape([c])
    ensures r.Success? ==> |r.value| <= 1
    ensures r.Success? && r.value != [] ==> SimpleEscape(c).Some? || (IsOctalDigit(c) && !IsOctalDigit(next))
  {
    if SimpleEscape(c).Some? then Success([SimpleEscape(c).value])
    else if IsHexIntroducer(c) then Success([])
    else if IsOctalDigit(c) then
      if !IsOctalDigit(next) then Success([CastToChar(c as int - Digit0 as int)]) else Success([])
    else Failure(InvalidEscape([c]))
  }

  /// The limits of a multi-character escape, chosen by its first character
  /// (Renderer/Token.cs:223-246): octal unless it is `x`, `u` or `U`.
  datatype Shape = Shape(isOctal: bool, minimumLength: nat, maximumLength: nat)

  function ShapeOf(first: CodeUnit): (s: Shape)
    ensures s.isOctal <==> !IsHexIntroducer(first)
    ensures 1 <= s.minimumLength <= s.maximumLength
  {
    if first == LowerX then Shape(false, 1, 7)
    else if first == LowerU then Shape(false, 4, 4)
    else if first == UpperU then Shape(false, 8, 8)
    else Shape(true, 1, 3)
  }

  function Radix(isOctal: bool): int {
    if isOctal then 8 else 16
  }

  /// `isNextValid` (Renderer/Token.cs:225, 248-251): `next` would continue
  /// the escape.
  predicate IsNextValid(next: CodeUnit, isOctal: bool) {
    if isOctal then IsOctalDigit(next) else IsHexDigit(next)
  }

  /// `cVal` (Renderer/Token.cs:269-272). The character is not checked to be
  /// a digit, so the value may be negative or larger than 15.
  function DigitValue(c: CodeUnit): int {
    if c <= Digit9 then c as int - Digit0 as int
    else if c <= UpperF then c as int - UpperA as int + 10
    else c as int - LowerA as int + 10
  }

  /// C# `int` arithmetic: the exact result wrapped into [-2^31, 2^31).
  function Wrap32(x: int): (r: int)
    ensures -0x8000_0000 <= r < 0x8000_0000
    ensures -0x8000_0000 <= x < 0x8000_0000 ==> r == x
  {
    (x + 0x8000_0000) % 0x1_0000_0000 - 0x8000_0000
  }

  /// The value the loop at Renderer/Token.cs:264-278 accumulates over
  /// `digits`, or `None` once a running value exceeds 0x10FFFF.
  function Accumulate(digits: Text, radix: int): (r: Option<int>)
    ensures r.Some? ==> -0x8000_0000 <= r.value <= MaxCodePoint
    decreases |digits|
  {
    if digits == [] then Some(0)
    else
      match Accumulate(digits[..|digits| - 1], radix)
      case None => None
      case Some(v) =>
        var decoded := Wrap32(Wrap32(v * radix) + DigitValue(digits[|digits| - 1]));
        if decoded > MaxCodePoint then None else Some(decoded)
  }

  /// The end of a multi-character escape (Renderer/Token.cs:261-291): the
  /// digits `code[offset..]` read in base `radix` and emitted as UTF-16, or a
  /// format error naming the whole code once the value exceeds 0x10FFFF.
  function DecodedEscapeValue(code: Text, offset: nat, radix: int): (r: Result<Text>)
    requires offset <= |code|
    ensures r.Failure? <==> Accumulate(code[offset..], radix).None?
    ensures r.Success? ==> 1 <= |r.value| <= 2
  {
    match Accumulate(code[offset..], radix)
    case None => Failure(InvalidEscape(code))
    case Some(decoded) => Success(EncodeUtf16(decoded))
  }

  /// `DecodeMultiCharacterEscapeCode` (Renderer/Token.cs:219-292): what the
  /// escape code collected so far (`code`, at least two characters, the
  /// letter `x`/`u`/`U` included) yields, `next` being the character after it.
  /// An empty success means the escape goes on.
  function MultiCharacterEscape(code: Text, next: CodeUnit): (r: Result<Text>)
    requires |code| >= 1
    ensures r.Success? ==> |r.value| <= 2
    ensures r.Failure? ==> r.error == InvalidEscape(code + [next]) || r.error == InvalidEscape(code)
    ensures var shape := ShapeOf(code[0]);
            |code| < shape.minimumLength && !IsNextValid(next, shape.isOctal) ==>
              r == Failure(InvalidEscape(code + [next]))
    ensures var shape := ShapeOf(code[0]);
            r.Failure? && !(|code| < shape.minimumLength && !IsNextValid(next, shape.isOctal)) ==>
              r.error == InvalidEscape(code) &&
              Accumulate(code[if shape.isOctal then 0 else 1..], Radix(shape.isOctal)).None?
  {
    var shape := ShapeOf(code[0]);
    var isNextValid := IsNextValid(next, shape.isOctal);
    var offset := if shape.isOctal then 0 else 1;
    if |code| < shape.minimumLength && !isNextValid then
      Failure(InvalidEscape(code + [next]))
    else if |code| - offset == shape.maximumLength || !isNextValid then
      DecodedEscapeValue(code, offset, Radix(shape.isOctal))
    else
      Success([])
  }

  /// The loop state of `Unescape`: the result built so far, whether a
  /// backslash is pending, and the escape code collected since it.
  datatype DecodeState = DecodeState(output: Text, inEscape: bool, escapeCode: Text)

  const Initial: DecodeState := DecodeState([], false, [])

  /// The character after position `i`; past the end, a closing quote
  /// (Renderer/Token.cs:414).
  function Lookahead(raw: Text, i: nat): CodeUnit
    requires i < |raw|
  {
    if i < |raw| - 1 then raw[i + 1] else Quote
  }

  /// One iteration of the loop at Renderer/Token.cs:404-444.
  function Step(st: DecodeState, raw: Text, i: nat): Result<DecodeState>
    requires i < |raw|
  {
    var c := raw[i];
    if st.inEscape then
      var code := st.escapeCode + [c];
      var next := Lookahead(raw, i);
      var characters :=
        if |code| == 1 then DecodeSingleCharacterEscapeCode(c, next) else MultiCharacterEscape(code, next);
      match characters
      case Failure(e) => Failure(e)
      case Success(cs) =>
        if cs == [] then Success(DecodeState(st.output, true, code))
        else Success(DecodeState(st.output + cs, false, []))
    else if c == Backslash then
      Success(st.(inEscape := true))
    else
      Success(st.(output := st.output + [c]))
  }

  /// The loop run over positions `lo` up to `hi`, starting in state `st`.
  function Run(st: DecodeState, raw: Text, lo: nat, hi: nat): Result<DecodeState>
    requires lo <= hi <= |raw|
    decreases hi
  {
    if hi == lo then Success(st)
    else
      match Run(st, raw, lo, hi - 1)
      case Failure(e) => Failure(e)
      case Success(s) => Step(s, raw, hi - 1)
  }

  /// `Unescape` (Renderer/Token.cs:370-447): the decoded text of a token of
  /// type `kind` whose raw text is `raw`.
  function Unescaped(raw: Text, kind: TokenType): Result<Text> {
    if raw == [] then Success([])
    else if raw[0] != Quote && kind == Atom then Success(raw)
    else if Backslash !in raw then
      if kind == Atom then
        if |raw| < 2 then Failure(SubstringOutOfRange) else Success(raw[1..|raw| - 1])
      else Success(raw)
    else
      var start := if kind == Atom then 1 else 0;
      var end := if kind == Atom then |raw| - 1 else |raw|;
      OutputOf(Run(Initial, raw, start, end))
  }

  /// The text a finished loop has built, or its error.
  function OutputOf(r: Result<DecodeState>): Result<Text> {
    match r
    case Failure(e) => Failure(e)
    case Success(st) => Success(st.output)
  }

  /// Once a running value has exceeded 0x10FFFF, reading more digits cannot
  /// bring the escape back.
  lemma {:induction false} AccumulateFailureSticks(digits: Text, k: nat, radix: int)
    requires k <= |digits|
    requires Accumulate(digits[..k], radix).None?
    ensures Accumulate(digits, radix).None?
    decreases |digits|
  {
    if k < |digits| {
      var shorter := digits[..|digits| - 1];
      assert shorter[..k] == digits[..k];
      AccumulateFailureSticks(shorter, k, radix);
    } else {
      assert digits[..k] == digits;
    }
  }

  /// Once a step of the loop has failed, the whole loop fails with the same
  /// error.
  lemma {:induction false} RunFailureSticks(st: DecodeState, raw: Text, lo: nat, mid: nat, hi: nat)
    requires lo <= mid <= hi <= |raw|
    requires Run(st, raw, lo, mid).Failure?
    ensures Run(st, raw, lo, hi) == Run(st, raw, lo, mid)
    decreases hi
  {
    if hi > mid {
      RunFailureSticks(st, raw, lo, mid, hi - 1);
    }
  }

  /// One more digit for the accumulation loop.
  lemma AccumulateNext(code: Text, offset: nat, i: nat, radix: int, decoded: int)
    requires offset <= i < |code|
    requires Accumulate(code[offset..i], radix) == Some(decoded)
    ensures var d := Wrap32(Wrap32(decoded * radix) + DigitValue(code[i]));
            Accumulate(code[offset..i + 1], radix) == if d > MaxCodePoint then None else Some(d)
  {
    assert code[offset..i + 1][..i - offset] == code[offset..i];
  }

  /// The end station of `DecodeMultiCharacterEscapeCode`: the accumulation
  /// loop of Renderer/Token.cs:264-278 and the UTF-16 emission after it.
  method DecodeEscapeValue(code: Text, offset: nat, radix: int) returns (r: Result<Text>)
    requires offset <= |code|
    ensures r == DecodedEscapeValue(code, offset, radix)
  {
    var decoded := 0;
    var i := offset;
    while i < |code|
      invariant offset <= i <= |code|
      invariant Accumulate(code[offset..i], radix) == Some(decoded)
    {
      AccumulateNext(code, offset, i, radix, decoded);
      decoded := Wrap32(decoded * radix);
      decoded := Wrap32(decoded + DigitValue(code[i]));
      if decoded > MaxCodePoint {
        assert code[offset..][..i + 1 - offset] == code[offset..i + 1];
        AccumulateFailureSticks(code[offset..], i + 1 - offset, radix);
        return Failure(InvalidEscape(code));
      }
      i := i + 1;
    }
    assert code[offset..i] == code[offset..];
    ghost var value := decoded;
    if decoded >= 0x1_0000 {
      decoded := decoded - 0x1_0000;
      r := Success([(0xD800 + decoded / 1024) as CodeUnit, (0xDC00 + decoded % 1024) as CodeUnit]);
    } else {
      r := Success([CastToChar(decoded)]);
    }
    assert r == Success(EncodeUtf16(value));
  }

  /// `DecodeMultiCharacterEscapeCode` as the source writes it, with the
  /// accumulation loop of Renderer/Token.cs:264-278.
  method DecodeMultiCharacterEscapeCode(code: Text, nextChar: CodeUnit) returns (r: Result<Text>)
    requires |code| >= 1
    ensures r == MultiCharacterEscape(code, nextChar)
  {
    var minimumLength := 1;
    var maximumLength := 3;
    var isNextValid := IsOctalDigit(nextChar);
    var isOctal := true;
    if code[0] == LowerX {
      isOctal := false;
      maximumLength := 7;
    } else if code[0] == LowerU {
      isOctal := false;
      maximumLength := 4;
      minimumLength := 4;
    } else if code[0] == UpperU {
      isOctal := false;
      maximumLength := 8;
      minimumLength := 8;
    }
    if !isOctal {
      isNextValid := isNextValid || (UpperA <= nextChar <= UpperF) || (LowerA <= nextChar <= LowerF)
                     || (Digit8 <= nextChar <= Digit9);
    }
    assert Shape(isOctal, minimumLength, maximumLength) == ShapeOf(code[0]);
    assert isNextValid == IsNextValid(nextChar, isOctal);
    var offset := if isOctal then 0 else 1;
    var codeLength := |code| - offset;
    if |code| < minimumLength && !isNextValid {
      return Failure(InvalidEscape(code + [nextChar]));
    }
    if codeLength == maximumLength || !isNextValid {
      // We have reached the end station.
      r := DecodeEscapeValue(code, offset, if isOctal then 8 else 16);
      return;
    }
    return Success([]);
  }

  /// `Unescape` as the source writes it: the character loop with its
  /// `inEscape` flag and `escapeCode` buffer.
  method Unescape(escapedTokenValue: Text, kind: TokenType) returns (r: Result<Text>)
    ensures r == Unescaped(escapedTokenValue, kind)
  {
    if |escapedTokenValue| == 0 {
      return Success([]);
    }
    if escapedTokenValue[0] != Quote && kind == Atom {
      return Success(escapedTokenValue);
    }
    if Backslash !in escapedTokenValue {
      if kind == Atom {
        if |escapedTokenValue| < 2 {
          return Failure(SubstringOutOfRange);
        }
        return Success(escapedTokenValue[1..|escapedTokenValue| - 1]);
      }
      return Success(escapedTokenValue);
    }
    var resultBuilder: Text := [];
    var escapeCode: Text := [];
    var inEscape := false;
    var start := if kind == Atom then 1 else 0;
    var end := if kind == Atom then |escapedTokenValue| - 1 else |escapedTokenValue|;
    var i := start;
    while i < end
      invariant start <= i <= end
      invariant Run(Initial, escapedTokenValue, start, i) == Success(DecodeState(resultBuilder, inEscape, escapeCode))
    {
      var c := escapedTokenValue[i];
      if inEscape {
        escapeCode := escapeCode + [c];
        var next := if i < |escapedTokenValue| - 1 then escapedTokenValue[i + 1] else Quote;
        var characters: Result<Text>;
        if |escapeCode| == 1 {
          characters := DecodeSingleCharacterEscapeCode(c, next);
        } else {
          characters := DecodeMultiCharacterEscapeCode(escapeCode, next);
        }
        if characters.Failure? {
          RunFailureSticks(Initial, escapedTokenValue, start, i + 1, end);
          return Failure(characters.error);
        }
        var cs := characters.value;
        ghost var before := resultBuilder;
        ghost var code := escapeCode;
        var k := 0;
        while k < |cs|
          invariant 0 <= k <= |cs|
          invariant resultBuilder == before + cs[..k]
          invariant k == 0 ==> inEscape && escapeCode == code
          invariant k > 0 ==> !inEscape && escapeCode == []
        {
          resultBuilder := resultBuilder + [cs[k]];
          inEscape := false;
          escapeCode := [];
          k := k + 1;
        }
        assert cs[..k] == cs;
      } else {
        if c == Backslash {
          inEscape := true;
        } else {
          resultBuilder := resultBuilder + [c];
        }
      }
      i := i + 1;
    }
    return Success(resultBuilder);
  }
}
