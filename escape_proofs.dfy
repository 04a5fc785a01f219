/// What the escape decoder of `Token` promises, proved about the
/// specification functions of module `Escapes`: the pass-through cases, each
/// escape form in any surrounding text, the format errors, the UTF-16 output
/// of large values, and a round trip through a quoting encoder.
module EscapeProofs {
  import opened Utf16
  import opened Common
  import opened Escapes

  /// Running the loop on from an earlier outcome.
  function Continue(r: Result<DecodeState>, raw: Text, lo: nat, hi: nat): Result<DecodeState>
    requires lo <= hi <= |raw|
  {
    match r
    case Failure(e) => Failure(e)
    case Success(st) => Run(st, raw, lo, hi)
  }

  /// The loop over [lo, hi) is the loop over [lo, mid) followed by the loop
  /// over [mid, hi).
  lemma {:induction false} RunCompose(st: DecodeState, raw: Text, lo: nat, mid: nat, hi: nat)
    requires lo <= mid <= hi <= |raw|
    ensures Run(st, raw, lo, hi) == Continue(Run(st, raw, lo, mid), raw, mid, hi)
    decreases hi
  {
    if hi > mid {
      RunCompose(st, raw, lo, mid, hi - 1);
    }
  }

  /// Two runs of the loop, one after the other, are one run.
  lemma RunThen(st: DecodeState, raw: Text, lo: nat, mid: nat, hi: nat, between: DecodeState, after: DecodeState)
    requires lo <= mid <= hi <= |raw|
    requires Run(st, raw, lo, mid) == Success(between)
    requires Run(between, raw, mid, hi) == Success(after)
    ensures Run(st, raw, lo, hi) == Success(after)
  {
    RunCompose(st, raw, lo, mid, hi);
  }

  /// Outside an escape, text without a backslash is copied unchanged.
  lemma {:induction false} PlainRun(st: DecodeState, raw: Text, lo: nat, hi: nat)
    requires lo <= hi <= |raw|
    requires !st.inEscape
    requires Backslash !in raw[lo..hi]
    ensures Run(st, raw, lo, hi) == Success(st.(output := st.output + raw[lo..hi]))
    decreases hi
  {
    if hi > lo {
      var c := raw[hi - 1];
      assert raw[lo..hi] == raw[lo..hi - 1] + [c];
      assert Backslash !in raw[lo..hi - 1] && c != Backslash;
      PlainRun(st, raw, lo, hi - 1);
      var before := st.(output := st.output + raw[lo..hi - 1]);
      assert Run(st, raw, lo, hi) == Step(before, raw, hi - 1);
      assert Step(before, raw, hi - 1) == Success(before.(output := before.output + [c]));
      assert before.output + [c] == st.output + raw[lo..hi];
    } else {
      assert st.output + raw[lo..hi] == st.output;
    }
  }

  /// `PlainRun` from a state outside an escape with no code pending.
  lemma PlainRunFrom(output: Text, raw: Text, lo: nat, hi: nat)
    requires lo <= hi <= |raw|
    requires Backslash !in raw[lo..hi]
    ensures Run(DecodeState(output, false, []), raw, lo, hi) == Success(DecodeState(output + raw[lo..hi], false, []))
  {
    PlainRun(DecodeState(output, false, []), raw, lo, hi);
  }

  /// A backslash followed by one of the fixed escape letters yields exactly
  /// the mapped character.
  lemma SimpleEscapeRun(st: DecodeState, raw: Text, a: nat)
    requires a + 2 <= |raw|
    requires !st.inEscape && st.escapeCode == []
    requires raw[a] == Backslash && SimpleEscape(raw[a + 1]).Some?
    ensures Run(st, raw, a, a + 2) == Success(DecodeState(st.output + [SimpleEscape(raw[a + 1]).value], false, []))
  {
    assert Run(st, raw, a, a + 1) == Success(st.(inEscape := true));
  }

  /// A backslash followed by a character that opens no escape is a format
  /// error naming that character.
  lemma UnknownEscapeRun(st: DecodeState, raw: Text, a: nat)
    requires a + 2 <= |raw|
    requires !st.inEscape && st.escapeCode == []
    requires raw[a] == Backslash && !IsEscapeIntroducer(raw[a + 1])
    ensures Run(st, raw, a, a + 2) == Failure(InvalidEscape([raw[a + 1]]))
  {
    assert Run(st, raw, a, a + 1) == Success(st.(inEscape := true));
  }

  /// The reference reading of `digits` in base `radix`, with no width limit,
  /// no range check and no wrap-around.
  function BaseValue(digits: Text, radix: int): int
    decreases |digits|
  {
    if digits == [] then 0
    else BaseValue(digits[..|digits| - 1], radix) * radix + DigitValue(digits[|digits| - 1])
  }

  predicate AllOctal(ds: Text) {
    forall j | 0 <= j < |ds| :: IsOctalDigit(ds[j])
  }

  predicate AllHex(ds: Text) {
    forall j | 0 <= j < |ds| :: IsHexDigit(ds[j])
  }

  /// A digit of the base has its usual value.
  lemma DigitValueOfDigit(c: CodeUnit, isOctal: bool)
    requires IsNextValid(c, isOctal)
    ensures 0 <= DigitValue(c) < Radix(isOctal)
  {
  }

  /// Over genuine digits, the guarded, wrapping loop of the source computes
  /// the reference value, and fails exactly when that value exceeds 0x10FFFF.
  lemma {:induction false} AccumulateIsBaseValue(ds: Text, isOctal: bool)
    requires forall j | 0 <= j < |ds| :: IsNextValid(ds[j], isOctal)
    ensures BaseValue(ds, Radix(isOctal)) >= 0
    ensures Accumulate(ds, Radix(isOctal)) ==
            if BaseValue(ds, Radix(isOctal)) > MaxCodePoint then None else Some(BaseValue(ds, Radix(isOctal)))
    decreases |ds|
  {
    if ds != [] {
      var radix := Radix(isOctal);
      var pre := ds[..|ds| - 1];
      var last := ds[|ds| - 1];
      AccumulateIsBaseValue(pre, isOctal);
      DigitValueOfDigit(last, isOctal);
      var v := BaseValue(pre, radix);
      assert BaseValue(ds, radix) == v * radix + DigitValue(last);
      assert v * radix >= v;
      if v <= MaxCodePoint {
        assert v * radix <= MaxCodePoint * 16;
        assert Wrap32(v * radix) == v * radix;
        assert Wrap32(v * radix + DigitValue(last)) == v * radix + DigitValue(last);
      }
    }
  }

  /// Positions [a, a + |s|) of `raw` hold `s`.
  predicate Holds(raw: Text, a: nat, s: Text) {
    a + |s| <= |raw| && raw[a..a + |s|] == s
  }

  /// What a step inside an escape makes of the characters an escape code
  /// yields: the error, the escape kept open, or the characters emitted.
  function Emit(output: Text, code: Text, characters: Result<Text>): Result<DecodeState> {
    match characters
    case Failure(e) => Failure(e)
    case Success(cs) =>
      if cs == [] then Success(DecodeState(output, true, code))
      else Success(DecodeState(output + cs, false, []))
  }

  /// The step on a backslash outside an escape opens one.
  lemma OpenEscape(st: DecodeState, raw: Text, a: nat)
    requires a < |raw| && !st.inEscape && st.escapeCode == [] && raw[a] == Backslash
    ensures Run(st, raw, a, a + 1) == Success(DecodeState(st.output, true, []))
  {
  }

  /// One more step of the loop after a run that did not fail.
  lemma RunNext(st: DecodeState, raw: Text, lo: nat, hi: nat, s: DecodeState)
    requires lo <= hi < |raw|
    requires Run(st, raw, lo, hi) == Success(s)
    ensures Run(st, raw, lo, hi + 1) == Step(s, raw, hi)
  {
  }

  /// A step on the first character after a backslash.
  lemma FirstEscapeStep(output: Text, raw: Text, i: nat)
    requires i < |raw|
    ensures Step(DecodeState(output, true, []), raw, i) ==
            Emit(output, [raw[i]], DecodeSingleCharacterEscapeCode(raw[i], Lookahead(raw, i)))
  {
    assert [] + [raw[i]] == [raw[i]];
  }

  /// A step on a later character of an escape.
  lemma LaterEscapeStep(output: Text, code: Text, raw: Text, i: nat)
    requires i < |raw| && code != []
    ensures Step(DecodeState(output, true, code), raw, i) ==
            Emit(output, code + [raw[i]], MultiCharacterEscape(code + [raw[i]], Lookahead(raw, i)))
  {
  }

  /// `x`, `u` and `U` open an escape that goes on, whatever follows them.
  lemma HexIntroducerOpens(letter: CodeUnit, next: CodeUnit)
    requires IsHexIntroducer(letter)
    ensures DecodeSingleCharacterEscapeCode(letter, next) == Success([])
  {
    assert SimpleEscape(letter).None?;
  }

  /// An octal digit followed by another opens an escape that goes on.
  lemma OctalDigitOpens(c: CodeUnit, next: CodeUnit)
    requires IsOctalDigit(c) && IsOctalDigit(next)
    ensures DecodeSingleCharacterEscapeCode(c, next) == Success([])
  {
    assert SimpleEscape(c).None?;
  }

  /// Text held at a position: its characters one by one.
  lemma HoldsAt(raw: Text, a: nat, s: Text, j: nat)
    requires Holds(raw, a, s) && j < |s|
    ensures a + j < |raw| && raw[a + j] == s[j]
  {
    assert raw[a..a + |s|][j] == s[j];
  }

  /// Text held at a position is held there piece by piece.
  lemma HoldsSplit(raw: Text, a: nat, x: Text, y: Text)
    requires Holds(raw, a, x + y)
    ensures Holds(raw, a, x) && Holds(raw, a + |x|, y)
  {
    assert raw[a..a + |x|] == (x + y)[..|x|];
    assert raw[a + |x|..a + |x| + |y|] == (x + y)[|x|..];
  }

  /// A prefix one longer is the prefix and the next character.
  lemma TakeOneMore(x: Text, ds: Text, k: nat)
    requires 0 < k <= |ds|
    ensures ds[..k - 1] + [ds[k - 1]] == ds[..k]
    ensures (x + ds[..k - 1]) + [ds[k - 1]] == x + ds[..k]
  {
    assert ds[..k - 1] + [ds[k - 1]] == ds[..k];
  }

  /// The empty and the whole prefix.
  lemma TakeEnds(x: Text, ds: Text)
    ensures x + ds[..0] == x && ds[..|ds|] == ds && x + ds[..|ds|] == x + ds
    ensures |ds| > 0 ==> ds[..1] == [ds[0]]
  {
    assert ds[..0] == [];
  }

  /// A hexadecimal escape before its full width, followed by a digit, goes on.
  lemma HexContinues(letter: CodeUnit, ds: Text, k: nat)
    requires IsHexIntroducer(letter) && AllHex(ds)
    requires 1 <= k < |ds| <= ShapeOf(letter).maximumLength
    ensures MultiCharacterEscape([letter] + ds[..k], ds[k]) == Success([])
  {
    var code := [letter] + ds[..k];
    assert code[0] == letter && |code| == 1 + k;
    assert IsNextValid(ds[k], false);
  }

  /// A complete hexadecimal escape code yields the value of its digits.
  lemma HexEnds(letter: CodeUnit, ds: Text, next: CodeUnit)
    requires IsHexIntroducer(letter) && AllHex(ds)
    requires EndsHexEscape(letter, |ds|, next)
    ensures BaseValue(ds, 16) >= 0
    ensures MultiCharacterEscape([letter] + ds, next) ==
            if BaseValue(ds, 16) > MaxCodePoint then Failure(InvalidEscape([letter] + ds))
            else Success(EncodeUtf16(BaseValue(ds, 16)))
  {
    var code := [letter] + ds;
    assert code[0] == letter && |code| == 1 + |ds|;
    assert code[1..] == ds;
    AccumulateIsBaseValue(ds, false);
    assert Radix(false) == 16;
    assert MultiCharacterEscape(code, next) == DecodedEscapeValue(code, 1, 16);
  }

  /// The first two steps of an `\x`, `\u` or `\U` escape open it and keep
  /// the letter.
  lemma HexOpened(st: DecodeState, raw: Text, a: nat, letter: CodeUnit)
    requires !st.inEscape && st.escapeCode == []
    requires IsHexIntroducer(letter)
    requires a + 1 < |raw| && raw[a] == Backslash && raw[a + 1] == letter
    ensures Run(st, raw, a, a + 2) == Success(DecodeState(st.output, true, [letter]))
  {
    var open := DecodeState(st.output, true, []);
    OpenEscape(st, raw, a);
    RunNext(st, raw, a, a + 1, open);
    FirstEscapeStep(st.output, raw, a + 1);
    HexIntroducerOpens(letter, Lookahead(raw, a + 1));
  }

  /// While the next character is a digit and the width is not reached, an
  /// `\x`, `\u` or `\U` escape stays open and emits nothing.
  lemma {:induction false} HexPending(st: DecodeState, raw: Text, a: nat, letter: CodeUnit, ds: Text, k: nat)
    requires !st.inEscape && st.escapeCode == []
    requires IsHexIntroducer(letter) && AllHex(ds)
    requires Holds(raw, a, [Backslash, letter] + ds)
    requires k < |ds| <= ShapeOf(letter).maximumLength
    ensures Run(st, raw, a, a + 2 + k) == Success(DecodeState(st.output, true, [letter] + ds[..k]))
    decreases k
  {
    if k == 0 {
      HexPendingStart(st, raw, a, letter, ds);
    } else {
      HexPending(st, raw, a, letter, ds, k - 1);
      HexPendingStep(st, raw, a, letter, ds, k);
    }
  }

  /// `HexPending` with no digit read yet.
  lemma HexPendingStart(st: DecodeState, raw: Text, a: nat, letter: CodeUnit, ds: Text)
    requires !st.inEscape && st.escapeCode == []
    requires IsHexIntroducer(letter)
    requires Holds(raw, a, [Backslash, letter] + ds)
    ensures Run(st, raw, a, a + 2 + 0) == Success(DecodeState(st.output, true, [letter] + ds[..0]))
  {
    var whole := [Backslash, letter] + ds;
    HoldsAt(raw, a, whole, 0);
    HoldsAt(raw, a, whole, 1);
    HexOpened(st, raw, a, letter);
    TakeEnds([letter], ds);
  }

  /// The step of `HexPending`: one more digit, with another after it, keeps
  /// the escape open.
  lemma HexPendingStep(st: DecodeState, raw: Text, a: nat, letter: CodeUnit, ds: Text, k: nat)
    requires IsHexIntroducer(letter) && AllHex(ds)
    requires Holds(raw, a, [Backslash, letter] + ds)
    requires 0 < k < |ds| <= ShapeOf(letter).maximumLength
    requires Run(st, raw, a, a + 2 + (k - 1)) == Success(DecodeState(st.output, true, [letter] + ds[..k - 1]))
    ensures Run(st, raw, a, a + 2 + k) == Success(DecodeState(st.output, true, [letter] + ds[..k]))
  {
    var whole := [Backslash, letter] + ds;
    var i := a + 1 + k;
    var code := [letter] + ds[..k - 1];
    HoldsAt(raw, a, whole, k + 1);
    HoldsAt(raw, a, whole, k + 2);
    assert raw[i] == ds[k - 1] && Lookahead(raw, i) == ds[k];
    RunNext(st, raw, a, i, DecodeState(st.output, true, code));
    LaterEscapeStep(st.output, code, raw, i);
    TakeOneMore([letter], ds, k);
    HexContinues(letter, ds, k);
  }

  /// An `\x`, `\u` or `\U` escape ends when its width is reached or the next
  /// character is not a hexadecimal digit, and when it is long enough for
  /// the check at Renderer/Token.cs:256, which counts the letter as well.
  predicate EndsHexEscape(letter: CodeUnit, n: nat, next: CodeUnit) {
    var shape := ShapeOf(letter);
    1 <= n <= shape.maximumLength &&
    (n == shape.maximumLength || (!IsHexDigit(next) && 1 + n >= shape.minimumLength))
  }

  /// A complete `\x`, `\u` or `\U` escape yields the UTF-16 encoding of the
  /// hexadecimal value of its digits, or a format error when that value is
  /// above 0x10FFFF.
  lemma HexEscapeRun(out: Text, raw: Text, a: nat, hi: nat, letter: CodeUnit, ds: Text, next: CodeUnit)
    requires IsHexIntroducer(letter) && AllHex(ds)
    requires Holds(raw, a, [Backslash, letter] + ds) && hi == a + 2 + |ds|
    requires Lookahead(raw, hi - 1) == next && EndsHexEscape(letter, |ds|, next)
    ensures Run(DecodeState(out, false, []), raw, a, hi) == Appended(out, HexResult(letter, ds))
  {
    var st := DecodeState(out, false, []);
    var n := |ds|;
    var i := a + 1 + n;
    var code := [letter] + ds[..n - 1];
    HexPending(st, raw, a, letter, ds, n - 1);
    HoldsAt(raw, a, [Backslash, letter] + ds, n + 1);
    assert raw[i] == ds[n - 1];
    RunNext(st, raw, a, i, DecodeState(st.output, true, code));
    LaterEscapeStep(st.output, code, raw, i);
    TakeOneMore([letter], ds, n);
    TakeEnds([letter], ds);
    HexEnds(letter, ds, next);
  }

  /// A `\u` or `\U` escape code shorter than its minimum length, followed
  /// by a character that is not a hexadecimal digit, is a format error
  /// naming the code and that character (Renderer/Token.cs:256-258).
  lemma HexTooShort(letter: CodeUnit, ds: Text, next: CodeUnit)
    requires IsHexIntroducer(letter) && 1 + |ds| < ShapeOf(letter).minimumLength && !IsHexDigit(next)
    ensures MultiCharacterEscape([letter] + ds, next) == Failure(InvalidEscape([letter] + ds + [next]))
  {
    var code := [letter] + ds;
    assert code[0] == letter && |code| == 1 + |ds|;
  }

  /// The loop over a `\u` or `\U` escape cut short before a character that
  /// is not a hexadecimal digit fails on its last digit.
  lemma ShortHexRun(out: Text, raw: Text, a: nat, hi: nat, letter: CodeUnit, ds: Text, next: CodeUnit)
    requires IsHexIntroducer(letter) && AllHex(ds)
    requires 1 <= |ds| && 1 + |ds| < ShapeOf(letter).minimumLength
    requires Holds(raw, a, [Backslash, letter] + ds) && hi == a + 2 + |ds|
    requires Lookahead(raw, hi - 1) == next && !IsHexDigit(next)
    ensures Run(DecodeState(out, false, []), raw, a, hi) == Failure(InvalidEscape([letter] + ds + [next]))
  {
    HexTooShort(letter, ds, next);
    var st := DecodeState(out, false, []);
    var n := |ds|;
    var i := a + 1 + n;
    var code := [letter] + ds[..n - 1];
    HexPending(st, raw, a, letter, ds, n - 1);
    HoldsAt(raw, a, [Backslash, letter] + ds, n + 1);
    assert raw[i] == ds[n - 1];
    RunNext(st, raw, a, i, DecodeState(st.output, true, code));
    LaterEscapeStep(st.output, code, raw, i);
    TakeOneMore([letter], ds, n);
    TakeEnds([letter], ds);
  }

  /// An octal escape of fewer than three digits, followed by an octal digit,
  /// goes on.
  lemma OctalContinues(ds: Text, k: nat)
    requires AllOctal(ds) && 2 <= k < |ds| <= 3
    ensures MultiCharacterEscape(ds[..k], ds[k]) == Success([])
  {
    var code := ds[..k];
    assert code[0] == ds[0] && |code| == k;
    assert ShapeOf(code[0]) == Shape(true, 1, 3);
  }

  /// A complete octal escape code of two or three digits yields the
  /// character of their octal value.
  lemma OctalEnds(ds: Text, next: CodeUnit)
    requires AllOctal(ds) && 2 <= |ds| <= 3
    requires |ds| == 3 || !IsOctalDigit(next)
    ensures 0 <= BaseValue(ds, 8) < 512
    ensures MultiCharacterEscape(ds, next) == Success([CastToChar(BaseValue(ds, 8))])
  {
    assert ShapeOf(ds[0]) == Shape(true, 1, 3);
    assert ds[0..] == ds;
    AccumulateIsBaseValue(ds, true);
    OctalDigitsBound(ds);
    assert Radix(true) == 8;
    assert MultiCharacterEscape(ds, next) == DecodedEscapeValue(ds, 0, 8);
  }

  /// A single octal digit before a character that is not one is a whole
  /// escape.
  lemma OctalDigitEnds(c: CodeUnit, next: CodeUnit)
    requires IsOctalDigit(c) && !IsOctalDigit(next)
    ensures BaseValue([c], 8) == c as int - Digit0 as int
    ensures DecodeSingleCharacterEscapeCode(c, next) == Success([CastToChar(BaseValue([c], 8))])
  {
    assert SimpleEscape(c).None?;
    assert [c][..0] == [];
  }

  /// While the next character is an octal digit and three digits are not
  /// reached, an octal escape stays open and emits nothing.
  lemma {:induction false} OctalPending(st: DecodeState, raw: Text, a: nat, ds: Text, k: nat)
    requires !st.inEscape && st.escapeCode == []
    requires AllOctal(ds)
    requires Holds(raw, a, [Backslash] + ds)
    requires 1 <= k < |ds| <= 3
    ensures Run(st, raw, a, a + 1 + k) == Success(DecodeState(st.output, true, ds[..k]))
    decreases k
  {
    var whole := [Backslash] + ds;
    if k == 1 {
      HoldsAt(raw, a, whole, 0);
      HoldsAt(raw, a, whole, 1);
      HoldsAt(raw, a, whole, 2);
      var open := DecodeState(st.output, true, []);
      OpenEscape(st, raw, a);
      RunNext(st, raw, a, a + 1, open);
      FirstEscapeStep(st.output, raw, a + 1);
      assert raw[a + 1] == ds[0] && Lookahead(raw, a + 1) == ds[1];
      OctalDigitOpens(ds[0], ds[1]);
      TakeEnds([], ds);
    } else {
      OctalPending(st, raw, a, ds, k - 1);
      var i := a + k;
      HoldsAt(raw, a, whole, k);
      HoldsAt(raw, a, whole, k + 1);
      assert raw[i] == ds[k - 1] && Lookahead(raw, i) == ds[k];
      RunNext(st, raw, a, i, DecodeState(st.output, true, ds[..k - 1]));
      LaterEscapeStep(st.output, ds[..k - 1], raw, i);
      TakeOneMore([], ds, k);
      OctalContinues(ds, k);
    }
  }

  /// A complete octal escape (one to three digits, ended by the third digit
  /// or by a character that is not an octal digit) yields the one character
  /// whose code is the octal value of its digits.
  lemma OctalEscapeRun(st: DecodeState, raw: Text, a: nat, ds: Text)
    requires !st.inEscape && st.escapeCode == []
    requires AllOctal(ds) && 1 <= |ds| <= 3
    requires Holds(raw, a, [Backslash] + ds)
    requires |ds| == 3 || !IsOctalDigit(Lookahead(raw, a + |ds|))
    ensures 0 <= BaseValue(ds, 8) < 512
    ensures Run(st, raw, a, a + 1 + |ds|) == Success(DecodeState(st.output + [CastToChar(BaseValue(ds, 8))], false, []))
  {
    var n := |ds|;
    var whole := [Backslash] + ds;
    OctalDigitsBound(ds);
    HoldsAt(raw, a, whole, 0);
    HoldsAt(raw, a, whole, n);
    if n == 1 {
      var open := DecodeState(st.output, true, []);
      OpenEscape(st, raw, a);
      RunNext(st, raw, a, a + 1, open);
      FirstEscapeStep(st.output, raw, a + 1);
      TakeEnds([], ds);
      assert ds == [ds[0]];
      OctalDigitEnds(ds[0], Lookahead(raw, a + 1));
    } else {
      OctalPending(st, raw, a, ds, n - 1);
      var i := a + n;
      assert raw[i] == ds[n - 1];
      RunNext(st, raw, a, i, DecodeState(st.output, true, ds[..n - 1]));
      LaterEscapeStep(st.output, ds[..n - 1], raw, i);
      TakeOneMore([], ds, n);
      TakeEnds([], ds);
      OctalEnds(ds, Lookahead(raw, i));
    }
  }

  /// At most three octal digits have a value below 8^3.
  lemma {:induction false} OctalDigitsBound(ds: Text)
    requires AllOctal(ds) && |ds| <= 3
    ensures 0 <= BaseValue(ds, 8) < if |ds| == 0 then 1 else if |ds| == 1 then 8 else if |ds| == 2 then 64 else 512
    decreases |ds|
  {
    if ds != [] {
      OctalDigitsBound(ds[..|ds| - 1]);
      DigitValueOfDigit(ds[|ds| - 1], true);
    }
  }

  /// The raw text of a quoted atom: `p`, then `middle`, then `s`, between
  /// quotes.
  function QuotedAtom(p: Text, middle: Text, s: Text): Text {
    [Quote] + p + middle + s + [Quote]
  }

  /// Where the parts of a quoted atom lie in its raw text.
  lemma QuotedAtomLayout(p: Text, middle: Text, s: Text)
    requires Backslash in middle
    ensures var raw := QuotedAtom(p, middle, s);
            |raw| == |p| + |middle| + |s| + 2 && raw[0] == Quote && Backslash in raw &&
            raw[1..1 + |p|] == p && raw[1 + |p|..1 + |p| + |middle|] == middle &&
            raw[1 + |p| + |middle|..|raw| - 1] == s
  {
    var raw := QuotedAtom(p, middle, s);
    var j :| 0 <= j < |middle| && middle[j] == Backslash;
    assert raw[1 + |p| + j] == Backslash;
  }

  /// The escape text of a quoted atom, and the character after it.
  lemma QuotedAtomParts(p: Text, middle: Text, s: Text)
    requires middle != []
    ensures var raw := QuotedAtom(p, middle, s);
            Holds(raw, 1 + |p|, middle) && |p| + |middle| < |raw| &&
            Lookahead(raw, 1 + |p| + |middle| - 1) == if s == [] then Quote else s[0]
  {
    var raw := QuotedAtom(p, middle, s);
    assert raw[1 + |p|..1 + |p| + |middle|] == middle;
    if s != [] {
      assert raw[1 + |p| + |middle|] == s[0];
    }
  }

  /// A quoted atom holding a backslash is decoded by the character loop over
  /// the text between its first and last characters.
  lemma QuotedAtomUsesLoop(raw: Text)
    requires |raw| >= 2 && raw[0] == Quote && Backslash in raw
    ensures Unescaped(raw, Atom) == OutputOf(Run(Initial, raw, 1, |raw| - 1))
  {
  }

  /// A quoted atom whose loop ends outside an escape decodes to what the
  /// loop built.
  lemma LoopDecodes(raw: Text, out: Text)
    requires |raw| >= 2 && raw[0] == Quote && Backslash in raw
    requires Run(Initial, raw, 1, |raw| - 1) == Success(DecodeState(out, false, []))
    ensures Unescaped(raw, Atom) == Success(out)
  {
  }

  /// Decoding a quoted atom whose only escapes are in `middle`: the prefix
  /// and the suffix are copied, and `middle` decodes as it does on its own.
  lemma DecodeInContext(p: Text, middle: Text, s: Text, m: Text)
    requires Backslash !in p && Backslash !in s && Backslash in middle
    requires Run(DecodeState(p, false, []), QuotedAtom(p, middle, s), 1 + |p|, 1 + |p| + |middle|)
             == Success(DecodeState(p + m, false, []))
    ensures Unescaped(QuotedAtom(p, middle, s), Atom) == Success(p + m + s)
  {
    LoopInAtom(p, middle, s, m);
    QuotedAtomShape(p, middle, s);
    LoopDecodes(QuotedAtom(p, middle, s), p + m + s);
  }

  /// `LoopInContext` for a quoted atom.
  lemma LoopInAtom(p: Text, middle: Text, s: Text, m: Text)
    requires Backslash !in p && Backslash !in s && Backslash in middle
    requires Run(DecodeState(p, false, []), QuotedAtom(p, middle, s), 1 + |p|, 1 + |p| + |middle|)
             == Success(DecodeState(p + m, false, []))
    ensures var raw := QuotedAtom(p, middle, s);
            Run(Initial, raw, 1, |raw| - 1) == Success(DecodeState(p + m + s, false, []))
  {
    QuotedAtomAround(p, middle, s);
    LoopInContext(QuotedAtom(p, middle, s), p, 1 + |p| + |middle|, m, s);
  }

  /// Where the text before and after `middle` lies in a quoted atom.
  lemma QuotedAtomAround(p: Text, middle: Text, s: Text)
    ensures var raw := QuotedAtom(p, middle, s);
            var c := 1 + |p| + |middle|;
            1 + |p| <= c <= |raw| - 1 && raw[1..1 + |p|] == p && raw[c..|raw| - 1] == s
  {
    var raw := QuotedAtom(p, middle, s);
    assert raw[1..1 + |p|] == p;
    assert raw[1 + |p| + |middle|..|raw| - 1] == s;
  }

  /// A quoted atom with a backslash in it is decoded by the loop.
  lemma QuotedAtomShape(p: Text, middle: Text, s: Text)
    requires Backslash in middle
    ensures var raw := QuotedAtom(p, middle, s);
            |raw| >= 2 && raw[0] == Quote && Backslash in raw
  {
    QuotedAtomLayout(p, middle, s);
  }

  /// The loop over the inner text of an atom: a prefix without a backslash,
  /// a part that decodes to `m`, then a suffix without a backslash.
  lemma LoopInContext(raw: Text, p: Text, c: nat, m: Text, s: Text)
    requires 1 + |p| <= c <= |raw| - 1
    requires raw[1..1 + |p|] == p && Backslash !in p
    requires raw[c..|raw| - 1] == s && Backslash !in s
    requires Run(DecodeState(p, false, []), raw, 1 + |p|, c) == Success(DecodeState(p + m, false, []))
    ensures Run(Initial, raw, 1, |raw| - 1) == Success(DecodeState(p + m + s, false, []))
  {
    var end := |raw| - 1;
    PrefixRun(raw, p, 1 + |p|, end);
    PlainRunFrom(p + m, raw, c, end);
    RunThen(DecodeState(p, false, []), raw, 1 + |p|, c, end, DecodeState(p + m, false, []), DecodeState(p + m + s, false, []));
  }

  /// As `DecodeInContext`, when `middle` fails: the atom fails with the same
  /// error, whatever follows.
  lemma FailInContext(p: Text, middle: Text, s: Text, e: Error)
    requires Backslash !in p && Backslash in middle
    requires Run(DecodeState(p, false, []), QuotedAtom(p, middle, s), 1 + |p|, 1 + |p| + |middle|) == Failure(e)
    ensures Unescaped(QuotedAtom(p, middle, s), Atom) == Failure(e)
  {
    var raw := QuotedAtom(p, middle, s);
    QuotedAtomLayout(p, middle, s);
    LoopFailsInContext(raw, p, 1 + |p| + |middle|, e);
    QuotedAtomUsesLoop(raw);
  }

  /// The loop state after the output `p` and what an escape yields.
  function Appended(p: Text, r: Result<Text>): Result<DecodeState> {
    match r
    case Failure(e) => Failure(e)
    case Success(m) => Success(DecodeState(p + m, false, []))
  }

  /// `DecodeInContext` and `FailInContext` together: the atom decodes to
  /// what `middle` yields between `p` and `s`, or fails with its error.
  lemma ResultInContext(p: Text, middle: Text, s: Text, r: Result<Text>)
    requires Backslash !in p && Backslash !in s && Backslash in middle
    requires Run(DecodeState(p, false, []), QuotedAtom(p, middle, s), 1 + |p|, 1 + |p| + |middle|) == Appended(p, r)
    ensures Unescaped(QuotedAtom(p, middle, s), Atom) == (var m :- r; Success(p + m + s))
  {
    if r.Failure? {
      FailInContext(p, middle, s, r.error);
    } else {
      DecodeInContext(p, middle, s, r.value);
    }
  }

  /// As `LoopInContext`, when the middle part fails.
  lemma LoopFailsInContext(raw: Text, p: Text, c: nat, e: Error)
    requires 1 + |p| <= c <= |raw| - 1
    requires raw[1..1 + |p|] == p && Backslash !in p
    requires Run(DecodeState(p, false, []), raw, 1 + |p|, c) == Failure(e)
    ensures Run(Initial, raw, 1, |raw| - 1) == Failure(e)
  {
    var end := |raw| - 1;
    PrefixRun(raw, p, 1 + |p|, end);
    RunFailureSticks(DecodeState(p, false, []), raw, 1 + |p|, c, end);
  }

  /// The loop from the first inner character, over a prefix `p` without a
  /// backslash, continues from the state that holds `p`.
  lemma PrefixRun(raw: Text, p: Text, b: nat, end: nat)
    requires b == 1 + |p| && b <= end <= |raw|
    requires raw[1..b] == p && Backslash !in p
    ensures Run(Initial, raw, 1, end) == Run(DecodeState(p, false, []), raw, b, end)
  {
    PlainRun(Initial, raw, 1, b);
    assert Initial.output + raw[1..b] == p;
    RunCompose(Initial, raw, 1, b, end);
  }

  // ---------------------------------------------------------------------
  // The decoder's promises, for a quoted atom `"p<escape>s"` in which the
  // text around the escape holds no backslash.
  // ---------------------------------------------------------------------

  /// Empty raw text decodes to the empty text (Renderer/Token.cs:374-377).
  lemma EmptyDecodesToEmpty(kind: TokenType)
    ensures Unescaped([], kind) == Success([])
  {
  }

  /// An atom that does not start with a quote is its own decoded text
  /// (Renderer/Token.cs:379-383).
  lemma UnquotedAtomUnchanged(raw: Text)
    requires raw != [] && raw[0] != Quote
    ensures Unescaped(raw, Atom) == Success(raw)
  {
  }

  /// A quoted atom without a backslash loses its first and last characters
  /// and nothing else (Renderer/Token.cs:385-391).
  lemma QuotedWithoutBackslashStripped(t: Text)
    requires Backslash !in t
    ensures Unescaped([Quote] + t + [Quote], Atom) == Success(t)
  {
    var raw := [Quote] + t + [Quote];
    assert raw[1..|raw| - 1] == t;
    assert Backslash !in raw by {
      forall j | 0 <= j < |raw| ensures raw[j] != Backslash {
        if 0 < j < |raw| - 1 { assert raw[j] == t[j - 1]; }
      }
    }
  }

  /// Each of `\a \b \f \n \r \t \v \\ \' \" \?` decodes to exactly its one
  /// character, the text around it being copied.
  lemma SimpleEscapeDecodes(p: Text, c: CodeUnit, s: Text)
    requires Backslash !in p && Backslash !in s
    requires SimpleEscape(c).Some?
    ensures Unescaped(QuotedAtom(p, [Backslash, c], s), Atom) == Success(p + [SimpleEscape(c).value] + s)
  {
    var raw := QuotedAtom(p, [Backslash, c], s);
    QuotedAtomParts(p, [Backslash, c], s);
    HoldsAt(raw, 1 + |p|, [Backslash, c], 0);
    HoldsAt(raw, 1 + |p|, [Backslash, c], 1);
    SimpleEscapeRun(DecodeState(p, false, []), raw, 1 + |p|);
    DecodeInContext(p, [Backslash, c], s, [SimpleEscape(c).value]);
  }

  /// A backslash followed by anything but a fixed escape letter, `x`, `u`,
  /// `U` or an octal digit is a format error, whatever follows it.
  lemma UnknownEscapeFails(p: Text, c: CodeUnit, s: Text)
    requires Backslash !in p
    requires !IsEscapeIntroducer(c)
    ensures Unescaped(QuotedAtom(p, [Backslash, c], s), Atom) == Failure(InvalidEscape([c]))
  {
    var raw := QuotedAtom(p, [Backslash, c], s);
    QuotedAtomParts(p, [Backslash, c], s);
    HoldsAt(raw, 1 + |p|, [Backslash, c], 0);
    HoldsAt(raw, 1 + |p|, [Backslash, c], 1);
    UnknownEscapeRun(DecodeState(p, false, []), raw, 1 + |p|);
    FailInContext(p, [Backslash, c], s, InvalidEscape([c]));
  }

  /// An octal escape of one to three digits decodes to the character whose
  /// code is their octal value; the characters after it are copied.
  lemma OctalEscapeDecodes(p: Text, ds: Text, s: Text)
    requires Backslash !in p && Backslash !in s
    requires AllOctal(ds) && 1 <= |ds| <= 3
    requires |ds| == 3 || s == [] || !IsOctalDigit(s[0])
    ensures 0 <= BaseValue(ds, 8) < 512
    ensures Unescaped(QuotedAtom(p, [Backslash] + ds, s), Atom) == Success(p + [CastToChar(BaseValue(ds, 8))] + s)
  {
    var middle := [Backslash] + ds;
    QuotedAtomParts(p, middle, s);
    OctalEscapeRun(DecodeState(p, false, []), QuotedAtom(p, middle, s), 1 + |p|, ds);
    DecodeInContext(p, middle, s, [CastToChar(BaseValue(ds, 8))]);
  }

  /// An `\x`, `\u` or `\U` escape decodes to the UTF-16 encoding of the
  /// hexadecimal value of its digits, or is a format error when that value
  /// is above 0x10FFFF; the characters after it are copied. With `\u` and
  /// `\U` the escape may end one digit short of the full width before a
  /// character that is not a hexadecimal digit (Renderer/Token.cs:256).
  lemma HexEscapeDecodes(p: Text, letter: CodeUnit, ds: Text, s: Text)
    requires Backslash !in p && Backslash !in s
    requires IsHexIntroducer(letter) && AllHex(ds)
    requires EndsHexEscape(letter, |ds|, if s == [] then Quote else s[0])
    ensures Unescaped(QuotedAtom(p, [Backslash, letter] + ds, s), Atom) ==
            (var m :- HexResult(letter, ds); Success(p + m + s))
  {
    HexEscapeInAtom(p, letter, ds, s, [Backslash, letter] + ds);
    ResultInContext(p, [Backslash, letter] + ds, s, HexResult(letter, ds));
  }

  /// What an `\x`, `\u` or `\U` escape with the digits `ds` yields: the
  /// UTF-16 encoding of their value, or a format error naming the escape
  /// when the value is above 0x10FFFF.
  function HexResult(letter: CodeUnit, ds: Text): (r: Result<Text>)
    requires AllHex(ds)
    ensures BaseValue(ds, 16) >= 0
    ensures r.Failure? <==> BaseValue(ds, 16) > MaxCodePoint
    ensures r.Failure? ==> r.error == InvalidEscape([letter] + ds)
    ensures r.Success? ==> r.value == EncodeUtf16(BaseValue(ds, 16))
  {
    AccumulateIsBaseValue(ds, false);
    assert Radix(false) == 16;
    if BaseValue(ds, 16) > MaxCodePoint then Failure(InvalidEscape([letter] + ds))
    else Success(EncodeUtf16(BaseValue(ds, 16)))
  }

  /// `HexEscapeRun` for the escape of a quoted atom.
  lemma HexEscapeInAtom(p: Text, letter: CodeUnit, ds: Text, s: Text, middle: Text)
    requires IsHexIntroducer(letter) && AllHex(ds) && middle == [Backslash, letter] + ds
    requires EndsHexEscape(letter, |ds|, if s == [] then Quote else s[0])
    ensures Run(DecodeState(p, false, []), QuotedAtom(p, middle, s), 1 + |p|, 1 + |p| + |middle|) ==
            Appended(p, HexResult(letter, ds))
  {
    var raw, next := QuotedAtom(p, middle, s), if s == [] then Quote else s[0];
    var a, hi := 1 + |p|, 1 + |p| + |middle|;
    assert Holds(raw, a, [Backslash, letter] + ds) && hi == a + 2 + |ds| && Lookahead(raw, hi - 1) == next by {
      QuotedAtomParts(p, middle, s);
    }
    HexEscapeRun(p, raw, a, hi, letter, ds, next);
  }

  /// A `\u` or `\U` escape with fewer digits than its minimum width allows,
  /// before a character that is not a hexadecimal digit (the closing quote
  /// at the end), is a format error naming the letter, the digits and that
  /// character (Renderer/Token.cs:256-258). The character right after the
  /// letter is always taken as a digit, so at least one digit is read.
  lemma ShortHexEscapeFails(p: Text, letter: CodeUnit, ds: Text, s: Text)
    requires Backslash !in p
    requires IsHexIntroducer(letter) && AllHex(ds)
    requires 1 <= |ds| && 1 + |ds| < ShapeOf(letter).minimumLength
    requires !IsHexDigit(if s == [] then Quote else s[0])
    ensures Unescaped(QuotedAtom(p, [Backslash, letter] + ds, s), Atom) ==
            Failure(InvalidEscape([letter] + ds + [if s == [] then Quote else s[0]]))
  {
    ShortHexInAtom(p, letter, ds, s, [Backslash, letter] + ds);
    FailInContext(p, [Backslash, letter] + ds, s, InvalidEscape([letter] + ds + [if s == [] then Quote else s[0]]));
  }

  /// `ShortHexRun` for the escape of a quoted atom.
  lemma ShortHexInAtom(p: Text, letter: CodeUnit, ds: Text, s: Text, middle: Text)
    requires IsHexIntroducer(letter) && AllHex(ds) && middle == [Backslash, letter] + ds
    requires 1 <= |ds| && 1 + |ds| < ShapeOf(letter).minimumLength
    requires !IsHexDigit(if s == [] then Quote else s[0])
    ensures Run(DecodeState(p, false, []), QuotedAtom(p, middle, s), 1 + |p|, 1 + |p| + |middle|) ==
            Failure(InvalidEscape([letter] + ds + [if s == [] then Quote else s[0]]))
  {
    var raw, next := QuotedAtom(p, middle, s), if s == [] then Quote else s[0];
    var a, hi := 1 + |p|, 1 + |p| + |middle|;
    assert Run(DecodeState(p, false, []), raw, a, hi) == Failure(InvalidEscape([letter] + ds + [next])) by {
      assert Holds(raw, a, [Backslash, letter] + ds) && hi == a + 2 + |ds| && Lookahead(raw, hi - 1) == next by {
        QuotedAtomParts(p, middle, s);
      }
      ShortHexRun(p, raw, a, hi, letter, ds, next);
    }
  }

  /// A `\x`, `\u` or `\U` right before the closing quote yields nothing and
  /// raises no error: the loop ends with the escape still open
  /// (Renderer/Token.cs:404-446).
  lemma BareHexIntroducerDropped(p: Text, letter: CodeUnit)
    requires Backslash !in p && IsHexIntroducer(letter)
    ensures Unescaped(QuotedAtom(p, [Backslash, letter], []), Atom) == Success(p)
  {
    var raw := QuotedAtom(p, [Backslash, letter], []);
    var a := 1 + |p|;
    var end := |raw| - 1;
    QuotedAtomLayout(p, [Backslash, letter], []);
    assert raw[a] == Backslash && raw[a + 1] == letter && end == a + 2;
    PrefixRun(raw, p, a, end);
    HexOpened(DecodeState(p, false, []), raw, a, letter);
    QuotedAtomUsesLoop(raw);
  }

  /// A backslash right before the closing quote yields nothing and raises
  /// no error: the loop ends with the escape still open
  /// (Renderer/Token.cs:435-437, 404).
  lemma TrailingBackslashDropped(p: Text)
    requires Backslash !in p
    ensures Unescaped(QuotedAtom(p, [Backslash], []), Atom) == Success(p)
  {
    var raw := QuotedAtom(p, [Backslash], []);
    var a := 1 + |p|;
    QuotedAtomLayout(p, [Backslash], []);
    assert raw[a] == Backslash && |raw| - 1 == a + 1;
    PrefixRun(raw, p, a, a + 1);
    OpenEscape(DecodeState(p, false, []), raw, a);
    QuotedAtomUsesLoop(raw);
  }
}
