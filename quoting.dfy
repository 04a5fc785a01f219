/// A quoting encoder for atoms, and the round trip that shows the escape
/// decoder of `Token` inverts it: any text, written between quotes with its
/// backslashes and quotes escaped, decodes to itself.
module Quoting {
  import opened Utf16
  import opened Common
  import opened Escapes
  import opened EscapeProofs

  /// A backslash and a quote are written as escapes; every other
  /// character as itself.
  function EscapeUnit(u: CodeUnit): Text {
    if u == Backslash || u == Quote then [Backslash, u] else [u]
  }

  /// The text between the quotes of the quoted atom for `t`.
  function Escaped(t: Text): Text
    decreases |t|
  {
    if t == [] then [] else Escaped(t[..|t| - 1]) + EscapeUnit(t[|t| - 1])
  }

  /// Text without a backslash or a quote is its own escaped form.
  lemma {:induction false} EscapedWithoutBackslash(t: Text)
    requires Backslash !in Escaped(t)
    ensures Escaped(t) == t
    decreases |t|
  {
    if t != [] {
      var shorter := t[..|t| - 1];
      var u := t[|t| - 1];
      assert Escaped(t) == Escaped(shorter) + EscapeUnit(u);
      assert EscapeUnit(u)[0] in Escaped(t);
      EscapedWithoutBackslash(shorter);
      assert t == shorter + [u];
    }
  }

  /// One escaped character, outside an escape, appends that character.
  lemma EscapeUnitRun(st: DecodeState, raw: Text, b: nat, u: CodeUnit)
    requires !st.inEscape && st.escapeCode == []
    requires Holds(raw, b, EscapeUnit(u))
    ensures Run(st, raw, b, b + |EscapeUnit(u)|) == Success(DecodeState(st.output + [u], false, []))
  {
    if u == Backslash || u == Quote {
      assert raw[b] == Backslash && raw[b + 1] == u;
      SimpleEscapeRun(st, raw, b);
    } else {
      assert raw[b] == u;
      assert Run(st, raw, b, b + 1) == Step(st, raw, b);
    }
  }

  /// The loop up to `b`, then one escaped character at `b`, ending at `hi`.
  lemma EscapedRunStep(st: DecodeState, raw: Text, a: nat, b: nat, hi: nat, out: Text, u: CodeUnit, after: Text)
    requires a <= b && Holds(raw, b, EscapeUnit(u)) && hi == b + |EscapeUnit(u)|
    requires Run(st, raw, a, b) == Success(DecodeState(out, false, []))
    requires after == out + [u]
    ensures Run(st, raw, a, hi) == Success(DecodeState(after, false, []))
  {
    var mid := DecodeState(out, false, []);
    EscapeUnitRun(mid, raw, b, u);
    RunThen(st, raw, a, b, hi, mid, DecodeState(after, false, []));
  }

  /// The loop over an escaped text, outside an escape, appends the original
  /// text.
  lemma {:induction false} EscapedRun(st: DecodeState, raw: Text, a: nat, t: Text)
    requires !st.inEscape && st.escapeCode == []
    requires Holds(raw, a, Escaped(t))
    ensures Run(st, raw, a, a + |Escaped(t)|) == Success(DecodeState(st.output + t, false, []))
    decreases |t|
  {
    if t == [] {
      EscapedRunEmpty(st, raw, a);
    } else {
      EscapedPrefixHolds(raw, a, t);
      EscapedRun(st, raw, a, t[..|t| - 1]);
      EscapedLastHolds(raw, a, t);
      EscapedRunLast(st, raw, a, t);
    }
  }

  /// `EscapedRun` for the empty text: the loop runs over nothing.
  lemma EscapedRunEmpty(st: DecodeState, raw: Text, a: nat)
    requires !st.inEscape && st.escapeCode == [] && a <= |raw|
    ensures Run(st, raw, a, a + |Escaped([])|) == Success(DecodeState(st.output + [], false, []))
  {
    assert Escaped([]) == [];
    assert st.output + [] == st.output;
    assert st == DecodeState(st.output, false, []);
  }

  /// The escaped form of all but the last character is held where the
  /// escaped text is.
  lemma EscapedPrefixHolds(raw: Text, a: nat, t: Text)
    requires t != [] && Holds(raw, a, Escaped(t))
    ensures Holds(raw, a, Escaped(t[..|t| - 1]))
  {
    EscapedLast(t);
    HoldsSplit(raw, a, Escaped(t[..|t| - 1]), EscapeUnit(t[|t| - 1]));
  }

  /// The step of `EscapedRun`: after the loop has appended all but the
  /// last character, the escaped last character appends that one.
  lemma EscapedRunLast(st: DecodeState, raw: Text, a: nat, t: Text)
    requires t != [] && Holds(raw, a + |Escaped(t[..|t| - 1])|, EscapeUnit(t[|t| - 1]))
    requires Run(st, raw, a, a + |Escaped(t[..|t| - 1])|) == Success(DecodeState(st.output + t[..|t| - 1], false, []))
    ensures Run(st, raw, a, a + |Escaped(t)|) == Success(DecodeState(st.output + t, false, []))
  {
    var shorter := t[..|t| - 1];
    EscapedLast(t);
    Snoc(st.output, t);
    EscapedRunStep(st, raw, a, a + |Escaped(shorter)|, a + |Escaped(t)|, st.output + shorter, t[|t| - 1], st.output + t);
  }

  /// Where the escaped last character lies in the escaped text.
  lemma EscapedLastHolds(raw: Text, a: nat, t: Text)
    requires t != [] && Holds(raw, a, Escaped(t))
    ensures var b := a + |Escaped(t[..|t| - 1])|;
            Holds(raw, b, EscapeUnit(t[|t| - 1])) && b + |EscapeUnit(t[|t| - 1])| == a + |Escaped(t)|
  {
    EscapedLast(t);
    HoldsSplit(raw, a, Escaped(t[..|t| - 1]), EscapeUnit(t[|t| - 1]));
  }

  /// The escaped form of a text is that of all but its last character,
  /// followed by the escaped last character.
  lemma EscapedLast(t: Text)
    requires t != []
    ensures Escaped(t) == Escaped(t[..|t| - 1]) + EscapeUnit(t[|t| - 1])
    ensures |Escaped(t)| == |Escaped(t[..|t| - 1])| + |EscapeUnit(t[|t| - 1])|
  {
  }

  /// A non-empty text is all but its last character, then that character.
  lemma Snoc(out: Text, t: Text)
    requires t != []
    ensures out + t[..|t| - 1] + [t[|t| - 1]] == out + t
  {
    assert t[..|t| - 1] + [t[|t| - 1]] == t;
  }

  /// Where the text between the quotes lies in a quoted atom.
  lemma QuotedLayout(e: Text)
    requires Backslash in e
    ensures var raw := [Quote] + e + [Quote];
            |raw| == |e| + 2 && raw[0] == Quote && Backslash in raw && Holds(raw, 1, e)
  {
    var raw := [Quote] + e + [Quote];
    assert raw[1..1 + |e|] == e;
    var j :| 0 <= j < |e| && e[j] == Backslash;
    assert raw[1 + j] == Backslash;
  }

  /// A quoted atom whose inner text holds a backslash decodes to what the
  /// loop over that text builds, when it ends outside an escape.
  lemma QuotedLoop(e: Text, out: Text)
    requires Backslash in e
    requires Run(Initial, [Quote] + e + [Quote], 1, 1 + |e|) == Success(DecodeState(out, false, []))
    ensures Unescaped([Quote] + e + [Quote], Atom) == Success(out)
  {
    QuotedLayout(e);
    LoopDecodes([Quote] + e + [Quote], out);
  }

  /// The loop starts from the empty output.
  lemma InitialOutput(t: Text)
    ensures Initial.output + t == t
  {
    assert Initial.output == [];
  }

  /// The quoted atom of a text holding a backslash or a quote runs the
  /// decoding loop over the escaped text.
  lemma QuotedEscapedDecodes(t: Text, e: Text)
    requires e == Escaped(t) && Backslash in e
    ensures Unescaped([Quote] + e + [Quote], Atom) == Success(t)
  {
    EscapedRunInQuotes(t);
    QuotedLoop(e, t);
  }

  /// The text between the quotes is held from position 1.
  lemma QuotedHolds(e: Text)
    ensures Holds([Quote] + e + [Quote], 1, e)
  {
    assert ([Quote] + e + [Quote])[1..1 + |e|] == e;
  }

  /// `EscapedRunFromStart` over the quoted atom of `t`.
  lemma EscapedRunInQuotes(t: Text)
    ensures Run(Initial, [Quote] + Escaped(t) + [Quote], 1, 1 + |Escaped(t)|) == Success(DecodeState(t, false, []))
  {
    QuotedHolds(Escaped(t));
    EscapedRunFromStart([Quote] + Escaped(t) + [Quote], t);
  }

  /// `EscapedRun` from the loop's initial state: the output is the text.
  lemma EscapedRunFromStart(raw: Text, t: Text)
    requires Holds(raw, 1, Escaped(t))
    ensures Run(Initial, raw, 1, 1 + |Escaped(t)|) == Success(DecodeState(t, false, []))
  {
    EscapedRun(Initial, raw, 1, t);
    InitialOutput(t);
  }

  /// Decoding the quoted atom of any text gives that text back.
  lemma QuotedRoundTrip(t: Text)
    ensures Unescaped([Quote] + Escaped(t) + [Quote], Atom) == Success(t)
  {
    if Backslash in Escaped(t) {
      QuotedEscapedDecodes(t, Escaped(t));
    } else {
      EscapedWithoutBackslash(t);
      QuotedWithoutBackslashStripped(t);
    }
  }
}
