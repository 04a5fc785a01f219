/// A token of a KiCad file and the typed values read from it
/// (Renderer/Token.cs). The decoded text is computed on first use and kept,
/// as the `Lazy<string>` of the source does; every coercion reads that one
/// cached value.
module Tokens {
  import opened Utf16
  import opened Common
  import opened Escapes
  import opened Numbers

  const TextY: Text := [0x59]     // "Y"
  const TextN: Text := [0x4E]     // "N"
  const TextOne: Text := [0x31]   // "1"
  const TextZero: Text := [0x30]  // "0"

  /// `GetTextFromTokenType` (Renderer/Token.cs:198-217): the fixed text of a
  /// token type; an atom has none.
  function TextOfTokenType(kind: TokenType): (r: Result<Text>)
    ensures r.Failure? <==> kind == Atom
    ensures r.Failure? ==> r.error == UnsupportedTokenType(Atom)
    ensures r.Success? ==> |r.value| <= 1 && (r.value == [] <==> kind == EndOfFile)
  {
    match kind
    case EndOfFile => Success([])
    case ExpressionClose => Success([0x29])
    case ExpressionOpen => Success([0x28])
    case LineBreak => Success([0x0A])
    case Atom => Failure(UnsupportedTokenType(Atom))
  }

  /// No two token types share a text, so the text names the type.
  lemma TextOfTokenTypeInjective(a: TokenType, b: TokenType)
    requires TextOfTokenType(a).Success? && TextOfTokenType(a) == TextOfTokenType(b)
    ensures a == b
  {
  }

  /// `ToBoolean` (Renderer/Token.cs:109-122) on the decoded text `value` of
  /// a token whose raw text is `escaped`: "Y" and "1" are true, "N" and "0"
  /// false; anything else is a format error that quotes the raw text.
  function BooleanOf(value: Text, escaped: Text): (r: Result<bool>)
    ensures r == Success(true) <==> value == TextY || value == TextOne
    ensures r == Success(false) <==> value == TextN || value == TextZero
    ensures r.Failure? ==> r.error == NotABoolean(escaped)
  {
    if value == TextY || value == TextOne then Success(true)
    else if value == TextN || value == TextZero then Success(false)
    else Failure(NotABoolean(escaped))
  }

  /// `ToChar` (Renderer/Token.cs:124-132): the one character of a decoded
  /// text of length one.
  function CharOf(value: Text, escaped: Text): (r: Result<CodeUnit>)
    ensures r.Success? <==> |value| == 1
    ensures r.Success? ==> value == [r.value]
    ensures r.Failure? ==> r.error == NotASingleCharacter(escaped)
  {
    if |value| != 1 then Failure(NotASingleCharacter(escaped)) else Success(value[0])
  }

  /// `ToInt` (Renderer/Token.cs:158-167): the decoded text read as an `int`.
  function IntOf(value: Text, escaped: Text): (r: Result<int>)
    ensures r.Success? <==> ParseInt32(value).Some?
    ensures r.Success? ==> IsInt32(r.value)
    ensures r.Failure? ==> r.error == NotAnInteger(escaped)
  {
    match ParseInt32(value)
    case None => Failure(NotAnInteger(escaped))
    case Some(n) => Success(n)
  }

  /// The indexer (Renderer/Token.cs:43-49): one code unit of the decoded
  /// text, or `IndexOutOfRangeException` outside it.
  function UnitAt(value: Text, index: int): (r: Result<CodeUnit>)
    ensures r.Success? <==> 0 <= index < |value|
    ensures r.Failure? ==> r.error == IndexOutOfRange(index)
  {
    if 0 <= index < |value| then Success(value[index]) else Failure(IndexOutOfRange(index))
  }

  /// Every text accepted as a boolean is also a single character.
  lemma BooleanIsOneCharacter(value: Text, escaped: Text)
    requires BooleanOf(value, escaped).Success?
    ensures CharOf(value, escaped).Success?
    ensures CharOf(value, escaped).value in {TextY[0], TextN[0], TextOne[0], TextZero[0]}
  {
  }

  /// "1" and "0" read as booleans agree with their integer values.
  lemma NumericBooleansAgree(value: Text, escaped: Text)
    requires value == TextOne || value == TextZero
    ensures IntOf(value, escaped).Success?
    ensures BooleanOf(value, escaped) == Success(IntOf(value, escaped).value == 1)
  {
    assert TrimEnd(TrimStart(value)) == value;
    assert value[..0] == [];
  }

  /// `ToChar` returns what the indexer returns at 0.
  lemma CharIsFirstUnit(value: Text, escaped: Text)
    requires CharOf(value, escaped).Success?
    ensures UnitAt(value, 0) == CharOf(value, escaped)
  {
  }

  /// Every `int` written in decimal is read back by `ToInt`.
  lemma IntOfDecimal(n: int, escaped: Text)
    requires IsInt32(n)
    ensures IntOf(Decimal(n), escaped) == Success(n)
  {
    ParseDecimal(n);
  }

  /// A token: its type, its raw text and where it was read; the decoded text
  /// is computed on first use (`unescapedToken`, Renderer/Token.cs:18, 24).
  class Token {
    const kind: TokenType
    const escaped: Text
    const line: int
    const column: int
    /// The value of the `Lazy<string>` once created: a decoded text or the
    /// exception, which `Lazy` caches as well.
    var cache: Option<Result<Text>>
    /// How many times the text has been decoded.
    ghost var decodeCount: nat

    ghost predicate Valid()
      reads this
    {
      decodeCount <= 1 &&
      (cache.None? <==> decodeCount == 0) &&
      (cache.Some? ==> cache.value == Decoded())
    }

    /// The decoded text of the token, or the error decoding raises.
    function Decoded(): Result<Text> {
      Unescaped(escaped, kind)
    }

    /// A missing raw text is taken as empty (Renderer/Token.cs:20-29).
    constructor (escapedTokenValue: Option<Text>, kind: TokenType, lineNumber: int, columnNumber: int)
      ensures Valid() && cache.None? && decodeCount == 0
      ensures this.kind == kind && line == lineNumber && column == columnNumber
      ensures escaped == if escapedTokenValue.Some? then escapedTokenValue.value else []
    {
      this.kind := kind;
      escaped := if escapedTokenValue.Some? then escapedTokenValue.value else [];
      line := lineNumber;
      column := columnNumber;
      cache := None;
      decodeCount := 0;
    }

    /// `unescapedToken.Value`: decodes on the first call only.
    method Value() returns (r: Result<Text>)
      requires Valid()
      modifies this`cache, this`decodeCount
      ensures Valid() && decodeCount == 1
      ensures r == Decoded() && cache == Some(r)
      ensures old(cache).Some? ==> decodeCount == old(decodeCount)
    {
      if cache.None? {
        var decoded := Unescape(escaped, kind);
        cache := Some(decoded);
        decodeCount := decodeCount + 1;
      }
      r := cache.value;
    }

    /// The implicit conversion to `string` (Renderer/Token.cs:71-74).
    method AsText() returns (r: Result<Text>)
      requires Valid()
      modifies this`cache, this`decodeCount
      ensures Valid() && decodeCount == 1 && r == Decoded()
    {
      r := Value();
    }

    /// `token == str` (Renderer/Token.cs:86-94): the decoded text compared
    /// with `str`; a decoding error propagates.
    method EqualsText(str: Text) returns (r: Result<bool>)
      requires Valid()
      modifies this`cache, this`decodeCount
      ensures Valid() && decodeCount == 1
      ensures r == (var v :- Decoded(); Success(v == str))
    {
      var v :- Value();
      r := Success(v == str);
    }

    method At(index: int) returns (r: Result<CodeUnit>)
      requires Valid()
      modifies this`cache, this`decodeCount
      ensures Valid() && decodeCount == 1
      ensures r == (var v :- Decoded(); UnitAt(v, index))
    {
      var v :- Value();
      r := UnitAt(v, index);
    }

    method ToBoolean() returns (r: Result<bool>)
      requires Valid()
      modifies this`cache, this`decodeCount
      ensures Valid() && decodeCount == 1
      ensures r == (var v :- Decoded(); BooleanOf(v, escaped))
    {
      var v :- Value();
      r := BooleanOf(v, escaped);
    }

    method ToChar() returns (r: Result<CodeUnit>)
      requires Valid()
      modifies this`cache, this`decodeCount
      ensures Valid() && decodeCount == 1
      ensures r == (var v :- Decoded(); CharOf(v, escaped))
    {
      var v :- Value();
      r := CharOf(v, escaped);
    }

    method ToInt() returns (r: Result<int>)
      requires Valid()
      modifies this`cache, this`decodeCount
      ensures Valid() && decodeCount == 1
      ensures r == (var v :- Decoded(); IntOf(v, escaped))
    {
      var v :- Value();
      r := IntOf(v, escaped);
    }
  }

  /// However many conversions are applied to a token, its text is decoded
  /// once, and they all see the same decoded text.
  method ReadTwice(t: Token) returns (b: Result<bool>, c: Result<CodeUnit>, s: Result<Text>)
    requires t.Valid()
    modifies t
    ensures t.Valid() && t.decodeCount == 1
    ensures b == (var v :- t.Decoded(); BooleanOf(v, t.escaped))
    ensures c == (var v :- t.Decoded(); CharOf(v, t.escaped))
    ensures s == t.Decoded()
  {
    b := t.ToBoolean();
    c := t.ToChar();
    s := t.AsText();
  }
}
