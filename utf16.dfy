/// UTF-16 text as the C# source sees it: a `string` is a sequence of 16-bit
/// code units (`char`), and a code point above the Basic Multilingual Plane
/// is written as a surrogate pair (section 2.1 of RFC 2781).
///
/// Dafny's own `char` is a Unicode scalar value and cannot hold a lone
/// surrogate, so the model uses `CodeUnit` for the C# `char`.
module Utf16 {

  /// One C# `char`.
  newtype CodeUnit = x: int | 0 <= x < 0x1_0000

  /// One C# `string`.
  type Text = seq<CodeUnit>

  /// The largest Unicode code point; a larger escape value is a format error.
  const MaxCodePoint: int := 0x10FFFF

  /// First code point that needs a surrogate pair.
  const SupplementaryBase: int := 0x1_0000

  /// The code unit of a character written as a Dafny literal (`'a'`). Only
  /// used for ASCII characters, where it is the character's own code.
  function Unit(c: char): CodeUnit {
    (c as int % 0x1_0000) as CodeUnit
  }

  /// The code units of a string literal written in Dafny (`"$EndDescr"`).
  function Lit(s: string): (r: Text)
    ensures |r| == |s|
  {
    seq(|s|, i requires 0 <= i < |s| => Unit(s[i]))
  }

  /// The C# cast `(char)n` of an `int`: in an unchecked context it keeps the
  /// low 16 bits, which is the Euclidean remainder modulo 2^16.
  function CastToChar(n: int): (r: CodeUnit)
    ensures 0 <= n < 0x1_0000 ==> r as int == n
  {
    (n % 0x1_0000) as CodeUnit
  }

  predicate IsHighSurrogate(u: CodeUnit) {
    0xD800 <= u <= 0xDBFF
  }

  predicate IsLowSurrogate(u: CodeUnit) {
    0xDC00 <= u <= 0xDFFF
  }

  /// The code point a high and a low surrogate stand for (section 2.2 of
  /// RFC 2781): ((hi - 0xD800) << 10) + (lo - 0xDC00) + 0x10000.
  function CombineSurrogates(hi: CodeUnit, lo: CodeUnit): int {
    (hi as int - 0xD800) * 1024 + (lo as int - 0xDC00) + SupplementaryBase
  }

  /// The code units emitted for one decoded numeric escape value
  /// (Renderer/Token.cs:280-290): a value at or above 0x10000 becomes a
  /// surrogate pair, `>> 10` and `& 0x3FF` of a non-negative value being
  /// division and remainder by 1024; a smaller value is cast to `char`.
  function EncodeUtf16(v: int): (r: Text)
    requires v <= MaxCodePoint
    ensures v >= SupplementaryBase ==>
              |r| == 2 && IsHighSurrogate(r[0]) && IsLowSurrogate(r[1]) && CombineSurrogates(r[0], r[1]) == v
    ensures v < SupplementaryBase ==> r == [CastToChar(v)]
    ensures 0 <= v < SupplementaryBase ==> r[0] as int == v
  {
    if v >= SupplementaryBase then
      var d := v - SupplementaryBase;
      [(0xD800 + d / 1024) as CodeUnit, (0xDC00 + d % 1024) as CodeUnit]
    else
      [CastToChar(v)]
  }

  /// Every well-formed surrogate pair is what `EncodeUtf16` emits for the
  /// code point it stands for: decoding then encoding gives the pair back.
  lemma SurrogatePairRoundTrip(hi: CodeUnit, lo: CodeUnit)
    requires IsHighSurrogate(hi) && IsLowSurrogate(lo)
    ensures SupplementaryBase <= CombineSurrogates(hi, lo) <= MaxCodePoint
    ensures EncodeUtf16(CombineSurrogates(hi, lo)) == [hi, lo]
  {
    var d := CombineSurrogates(hi, lo) - SupplementaryBase;
    assert d == (hi as int - 0xD800) * 1024 + (lo as int - 0xDC00);
    assert d / 1024 == hi as int - 0xD800;
    assert d % 1024 == lo as int - 0xDC00;
  }

  /// Distinct supplementary code points are encoded as distinct pairs.
  lemma EncodeUtf16Injective(v: int, w: int)
    requires SupplementaryBase <= v <= MaxCodePoint && SupplementaryBase <= w <= MaxCodePoint
    requires EncodeUtf16(v) == EncodeUtf16(w)
    ensures v == w
  {
    var r := EncodeUtf16(v);
    assert CombineSurrogates(r[0], r[1]) == v;
  }
}
