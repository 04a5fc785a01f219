/// The integer text the token layer reads and writes: `int.TryParse` with
/// `NumberStyles.Integer` and the invariant culture, as `Token.ToInt`
/// (Renderer/Token.cs:158-167) calls it, and the decimal form of an `int`
/// that the view box of a schematic is written with
/// (Renderer/Schematic/Description.cs:32). That string interpolation formats
/// with the current culture; `Decimal` writes the invariant culture's `-`
/// sign.
module Numbers {
  import opened Utf16
  import opened Common

  const Plus: CodeUnit := 0x2B   // '+'
  const Minus: CodeUnit := 0x2D  // '-'
  const Zero: CodeUnit := 0x30   // '0'
  const Nine: CodeUnit := 0x39   // '9'

  const MinInt32: int := -0x8000_0000
  const MaxInt32: int := 0x7FFF_FFFF

  predicate IsInt32(n: int) {
    MinInt32 <= n <= MaxInt32
  }

  /// The white space `NumberStyles.Integer` allows before and after the
  /// number: U+0009 to U+000D and U+0020.
  predicate IsWhiteSpace(u: CodeUnit) {
    0x09 <= u <= 0x0D || u == 0x20
  }

  predicate IsDecimalDigit(u: CodeUnit) {
    Zero <= u <= Nine
  }

  predicate AllDigits(s: Text) {
    forall i | 0 <= i < |s| :: IsDecimalDigit(s[i])
  }

  predicate AllWhiteSpace(s: Text) {
    forall i | 0 <= i < |s| :: IsWhiteSpace(s[i])
  }

  /// `s` without its leading white space.
  function TrimStart(s: Text): Text
    decreases |s|
  {
    if s != [] && IsWhiteSpace(s[0]) then TrimStart(s[1..]) else s
  }

  /// `s` without its trailing white space.
  function TrimEnd(s: Text): Text
    decreases |s|
  {
    if s != [] && IsWhiteSpace(s[|s| - 1]) then TrimEnd(s[..|s| - 1]) else s
  }

  /// `TrimStart` removes a prefix of white space, and no more.
  lemma {:induction false} TrimStartRemovesWhiteSpace(s: Text)
    ensures var r := TrimStart(s);
            |r| <= |s| && r == s[|s| - |r|..] && AllWhiteSpace(s[..|s| - |r|]) && (r == [] || !IsWhiteSpace(r[0]))
    decreases |s|
  {
    if s != [] && IsWhiteSpace(s[0]) {
      var r := TrimStart(s[1..]);
      TrimStartRemovesWhiteSpace(s[1..]);
      assert TrimStart(s) == r;
      var cut := s[..|s| - |r|];
      assert cut == [s[0]] + s[1..][..|s| - 1 - |r|];
      forall i | 0 <= i < |cut| ensures IsWhiteSpace(cut[i]) {
        if i > 0 { assert cut[i] == s[1..][..|s| - 1 - |r|][i - 1]; }
      }
      assert r == s[1..][|s| - 1 - |r|..];
    }
  }

  /// `TrimEnd` removes a suffix of white space, and no more.
  lemma {:induction false} TrimEndRemovesWhiteSpace(s: Text)
    ensures var r := TrimEnd(s);
            |r| <= |s| && r == s[..|r|] && AllWhiteSpace(s[|r|..]) && (r == [] || !IsWhiteSpace(r[|r| - 1]))
    decreases |s|
  {
    if s != [] && IsWhiteSpace(s[|s| - 1]) {
      var r := TrimEnd(s[..|s| - 1]);
      TrimEndRemovesWhiteSpace(s[..|s| - 1]);
      assert s[|r|..] == s[..|s| - 1][|r|..] + [s[|s| - 1]];
    }
  }

  /// The value of a run of decimal digits.
  function DigitsValue(ds: Text): nat
    requires AllDigits(ds)
    decreases |ds|
  {
    if ds == [] then 0 else DigitsValue(ds[..|ds| - 1]) * 10 + (ds[|ds| - 1] as int - Zero as int)
  }

  /// `int.TryParse(s, NumberStyles.Integer, CultureInfo.InvariantCulture,
  /// out result)`: optional white space, an optional `+` or `-`, one or more
  /// decimal digits, optional white space, and a value that fits an `int`.
  function ParseInt32(s: Text): (r: Option<int>)
    ensures r.Some? ==> IsInt32(r.value)
  {
    ParseSigned(TrimEnd(TrimStart(s)))
  }

  /// The number in text without surrounding white space.
  function ParseSigned(t: Text): (r: Option<int>)
    ensures r.Some? ==> IsInt32(r.value)
  {
    if t != [] && t[0] == Minus then ParseDigits(t[1..], true)
    else if t != [] && t[0] == Plus then ParseDigits(t[1..], false)
    else ParseDigits(t, false)
  }

  /// The number whose digits are `digits`, negated when `negative`.
  function ParseDigits(digits: Text, negative: bool): (r: Option<int>)
    ensures r.Some? ==> IsInt32(r.value)
  {
    if digits == [] || !AllDigits(digits) then None
    else
      var v: int := if negative then -(DigitsValue(digits) as int) else DigitsValue(digits);
      if IsInt32(v) then Some(v) else None
  }

  function DigitUnit(d: nat): (u: CodeUnit)
    requires d < 10
    ensures IsDecimalDigit(u) && u as int - Zero as int == d
  {
    (Zero as int + d) as CodeUnit
  }

  /// The decimal digits of a natural number, without leading zeros.
  function Natural(n: nat): (r: Text)
    ensures r != []
    decreases n
  {
    if n < 10 then [DigitUnit(n)] else Natural(n / 10) + [DigitUnit(n % 10)]
  }

  /// `n.ToString(CultureInfo.InvariantCulture)`.
  function Decimal(n: int): (r: Text)
    ensures r != []
  {
    if n < 0 then [Minus] + Natural(-n) else Natural(n)
  }

  /// The digits of a natural number read back as its value.
  lemma {:induction false} NaturalDigits(n: nat)
    ensures AllDigits(Natural(n)) && DigitsValue(Natural(n)) == n
    ensures Natural(n)[0] != Zero || n == 0
    decreases n
  {
    if n >= 10 {
      var x := Natural(n / 10);
      var d := DigitUnit(n % 10);
      NaturalDigits(n / 10);
      assert (x + [d])[..|x|] == x;
      assert (x + [d])[0] == x[0];
    }
  }

  /// Text that neither starts nor ends with white space is not trimmed.
  lemma UntrimmedText(s: Text)
    requires s != [] && !IsWhiteSpace(s[0]) && !IsWhiteSpace(s[|s| - 1])
    ensures TrimEnd(TrimStart(s)) == s
  {
  }

  /// Reading back the decimal form of a number gives the number exactly when
  /// it fits an `int`.
  lemma ParseDecimal(n: int)
    ensures ParseInt32(Decimal(n)) == if IsInt32(n) then Some(n) else None
  {
    var s := Decimal(n);
    DecimalUntrimmed(n);
    UntrimmedText(s);
    if n < 0 {
      NaturalDigits(-n);
      assert s[1..] == Natural(-n);
    } else {
      NaturalDigits(n);
    }
  }

  /// The decimal form of a number starts with a sign or a digit and ends
  /// with a digit.
  lemma DecimalUntrimmed(n: int)
    ensures var s := Decimal(n); !IsWhiteSpace(s[0]) && !IsWhiteSpace(s[|s| - 1])
    ensures n >= 0 ==> Decimal(n)[0] != Minus && Decimal(n)[0] != Plus
  {
    var m := if n < 0 then -n else n;
    NaturalDigits(m);
    var ds := Natural(m);
    assert Decimal(n)[|Decimal(n)| - 1] == ds[|ds| - 1];
  }

  /// White space around the number does not change what is read.
  lemma ParseIgnoresWhiteSpace(before: Text, s: Text, after: Text)
    requires AllWhiteSpace(before) && AllWhiteSpace(after)
    requires s != [] && !IsWhiteSpace(s[0]) && !IsWhiteSpace(s[|s| - 1])
    ensures ParseInt32(before + s + after) == ParseInt32(s)
  {
    TrimStartWhiteSpace(before, s + after);
    assert before + s + after == before + (s + after);
    TrimEndWhiteSpace(s, after);
    UntrimmedText(s);
  }

  lemma {:induction false} TrimStartWhiteSpace(w: Text, s: Text)
    requires AllWhiteSpace(w) && (s == [] || !IsWhiteSpace(s[0]))
    ensures TrimStart(w + s) == s
    decreases |w|
  {
    if w != [] {
      assert (w + s)[1..] == w[1..] + s;
      TrimStartWhiteSpace(w[1..], s);
    } else {
      assert w + s == s;
    }
  }

  lemma {:induction false} TrimEndWhiteSpace(s: Text, w: Text)
    requires AllWhiteSpace(w) && (s == [] || !IsWhiteSpace(s[|s| - 1]))
    ensures TrimEnd(s + w) == s
    decreases |w|
  {
    if w != [] {
      assert (s + w)[..|s + w| - 1] == s + w[..|w| - 1];
      TrimEndWhiteSpace(s, w[..|w| - 1]);
    } else {
      assert s + w == s;
    }
  }
}
