/// The description section of a schematic (Renderer/Schematic/Description.cs):
/// its header gives the sheet size, written out as the width, height and
/// view box of the drawing, and the rest of the section is skipped up to
/// its `$EndDescr` line.
///
/// `LineSource`, the tokenizer the section is read from, is not part of this
/// model. `LineSource` below stands in for it: a finite sequence of tokens
/// ending in the one end-of-file token, and a read cursor.
module Description {
  import opened Utf16
  import opened Common
  import opened Escapes
  import opened Numbers
  import opened Tokens

  /// A token as the tokenizer produced it, with `text`, the decoded text
  /// its `Token` yields (`Decoded`), alongside.
  datatype RawToken = RawToken(kind: TokenType, escaped: Text, line: int, column: int, text: Result<Text>)

  /// A token sequence a tokenizer can produce: it ends with the only
  /// end-of-file token, whose text is empty.
  predicate WellFormed(tokens: seq<RawToken>) {
    |tokens| > 0 &&
    tokens[|tokens| - 1].kind == EndOfFile && tokens[|tokens| - 1].text == Success([]) &&
    (forall i | 0 <= i < |tokens| - 1 :: tokens[i].kind != EndOfFile)
  }

  /// Every token's `text` is its decoded text.
  predicate Decodes(tokens: seq<RawToken>) {
    forall i | 0 <= i < |tokens| :: tokens[i].text == Unescaped(tokens[i].escaped, tokens[i].kind)
  }

  /// What a read returns, and where the cursor is after it.
  datatype Outcome<T> = Outcome(result: Result<T>, position: nat)

  /// The cursor after reading the token at `pos`: reading stays on the
  /// end-of-file token.
  function Advance(tokens: seq<RawToken>, pos: nat): (next: nat)
    requires WellFormed(tokens) && pos < |tokens|
    ensures next < |tokens|
    ensures next == pos <==> tokens[pos].kind == EndOfFile
  {
    if tokens[pos].kind == EndOfFile then pos else pos + 1
  }

  /// `lineSource.Read(expected)`: the next token, a format error when it is
  /// of another type.
  function ReadKindAt(tokens: seq<RawToken>, pos: nat, expected: TokenType): (r: Outcome<RawToken>)
    requires WellFormed(tokens) && pos < |tokens|
    ensures r.position < |tokens|
    ensures r.result.Success? <==> tokens[pos].kind == expected
    ensures r.result.Success? ==> r.result.value == tokens[pos]
    ensures r.result.Success? && expected != EndOfFile ==> r.position == pos + 1
  {
    var t := tokens[pos];
    Outcome(if t.kind == expected then Success(t) else Failure(UnexpectedToken(expected, t.kind)), Advance(tokens, pos))
  }

  /// The `int` a token holds (`Token.ToInt`).
  function TokenInt(t: RawToken): Result<int> {
    var v :- t.text;
    IntOf(v, t.escaped)
  }

  /// `lineSource.Read(typeof(int))`: the next token read as an `int`.
  function ReadIntAt(tokens: seq<RawToken>, pos: nat): (r: Outcome<int>)
    requires WellFormed(tokens) && pos < |tokens|
    ensures r.position < |tokens|
  {
    Outcome(TokenInt(tokens[pos]), Advance(tokens, pos))
  }

  /// `SkipToStartOfNextLine`: the position just after the next line break,
  /// or the end-of-file token when no line break comes first.
  function NextLine(tokens: seq<RawToken>, pos: nat): (r: nat)
    requires WellFormed(tokens) && pos < |tokens|
    ensures pos <= r < |tokens|
    decreases |tokens| - pos
  {
    if tokens[pos].kind == EndOfFile then pos
    else if tokens[pos].kind == LineBreak then pos + 1
    else NextLine(tokens, pos + 1)
  }

  /// `NextLine` stops after the first line break, and passes over no line
  /// break and no end of file.
  lemma {:induction false} NextLineStops(tokens: seq<RawToken>, pos: nat)
    requires WellFormed(tokens) && pos < |tokens|
    ensures var r := NextLine(tokens, pos);
            (pos < r && tokens[r - 1].kind == LineBreak) ||
            (r == |tokens| - 1 && forall j | pos <= j < r :: tokens[j].kind != LineBreak)
    ensures var r := NextLine(tokens, pos);
            forall j | pos <= j < r - 1 :: tokens[j].kind != LineBreak
    decreases |tokens| - pos
  {
    if tokens[pos].kind != EndOfFile && tokens[pos].kind != LineBreak {
      NextLineStops(tokens, pos + 1);
    }
  }

  /// `$EndDescr`, the atom that closes the section.
  const EndDescr: Text := Lit("$EndDescr")

  /// The loop at Renderer/Schematic/Description.cs:35-48 from the cursor
  /// `pos`: read an atom; after `$EndDescr` read the line break and stop,
  /// else skip the rest of the line and go on.
  function SkipDescription(tokens: seq<RawToken>, pos: nat): (r: Outcome<()>)
    requires WellFormed(tokens) && pos < |tokens|
    ensures r.position < |tokens|
    decreases |tokens| - pos
  {
    var atom := ReadKindAt(tokens, pos, Atom);
    if atom.result.Failure? then Outcome(Failure(atom.result.error), atom.position)
    else
      match tokens[pos].text
      case Failure(e) => Outcome(Failure(e), atom.position)
      case Success(v) =>
        if v == EndDescr then
          var lineBreak := ReadKindAt(tokens, atom.position, LineBreak);
          Outcome(if lineBreak.result.Failure? then Failure(lineBreak.result.error) else Success(()), lineBreak.position)
        else SkipDescription(tokens, NextLine(tokens, atom.position))
  }

  /// An attribute of the drawing and its value. The millimetre values are
  /// kept as the number of mils they are computed from.
  datatype AttributeValue = Millimetres(mils: int) | Plain(text: Text)
  datatype Attribute = Attribute(name: Text, value: AttributeValue)

  const WidthName: Text := Lit("width")
  const HeightName: Text := Lit("height")
  const ViewBoxName: Text := Lit("viewBox")

  const Space: CodeUnit := 0x20

  /// `$"0 0 {width} {height}"`.
  function ViewBox(width: int, height: int): Text {
    [Zero, Space, Zero, Space] + Decimal(width) + [Space] + Decimal(height)
  }

  /// The three attributes of Renderer/Schematic/Description.cs:30-32.
  function HeaderAttributes(width: int, height: int): seq<Attribute> {
    [Attribute(WidthName, Millimetres(width)),
     Attribute(HeightName, Millimetres(height)),
     Attribute(ViewBoxName, Plain(ViewBox(width, height)))]
  }

  /// What `Render` does from the cursor `pos`: the attributes it writes,
  /// where it leaves the cursor, and whether it completes.
  datatype Rendering = Rendering(attributes: seq<Attribute>, position: nat, result: Result<()>)

  function Rendered(tokens: seq<RawToken>, pos: nat): Rendering
    requires WellFormed(tokens) && pos < |tokens|
  {
    var header := Header(tokens, pos);
    match header.result
    case Failure(e) => Rendering([], header.position, Failure(e))
    case Success(size) =>
      var rest := SkipDescription(tokens, header.position);
      Rendering(HeaderAttributes(size.0, size.1), rest.position, rest.result)
  }

  /// Reading the header (Renderer/Schematic/Description.cs:22-26): the
  /// sheet width and height, or the first read that fails.
  function Header(tokens: seq<RawToken>, pos: nat): (r: Outcome<(int, int)>)
    requires WellFormed(tokens) && pos < |tokens|
    ensures r.position < |tokens|
  {
    var paper := ReadKindAt(tokens, pos, Atom);
    if paper.result.Failure? then Outcome(Failure(paper.result.error), paper.position)
    else
      var width := ReadIntAt(tokens, paper.position);
      if width.result.Failure? then Outcome(Failure(width.result.error), width.position)
      else
        var height := ReadIntAt(tokens, width.position);
        if height.result.Failure? then Outcome(Failure(height.result.error), height.position)
        else
          var lineBreak := ReadKindAt(tokens, height.position, LineBreak);
          if lineBreak.result.Failure? then Outcome(Failure(lineBreak.result.error), lineBreak.position)
          else Outcome(Success((width.result.value, height.result.value)), lineBreak.position)
  }

  /// The header grammar (Renderer/Schematic/Description.cs:22-26): an atom,
  /// an integer width, an integer height and a line break.
  predicate HeaderAt(tokens: seq<RawToken>, pos: nat, width: int, height: int) {
    pos + 3 < |tokens| &&
    tokens[pos].kind == Atom &&
    TokenInt(tokens[pos + 1]) == Success(width) &&
    TokenInt(tokens[pos + 2]) == Success(height) &&
    tokens[pos + 3].kind == LineBreak
  }

  /// The end of the section: a `$EndDescr` atom and a line break.
  predicate EndAt(tokens: seq<RawToken>, j: nat) {
    j + 1 < |tokens| && tokens[j].kind == Atom && tokens[j].text == Success(EndDescr) &&
    tokens[j + 1].kind == LineBreak
  }

  /// Where a line starts, for a loop that starts at `pos`.
  predicate LineStart(tokens: seq<RawToken>, pos: nat, j: nat) {
    j == pos || (pos < j <= |tokens| && tokens[j - 1].kind == LineBreak)
  }

  // ---------------------------------------------------------------------
  // What `Render` promises.
  // ---------------------------------------------------------------------

  /// A well-formed header makes `Render` write exactly the width, the height
  /// and the view box, in that order, and go on with the loop after it.
  lemma WellFormedHeaderWrites(tokens: seq<RawToken>, pos: nat, width: int, height: int)
    requires WellFormed(tokens) && pos < |tokens|
    requires HeaderAt(tokens, pos, width, height)
    ensures Rendered(tokens, pos).attributes == HeaderAttributes(width, height)
    ensures Rendered(tokens, pos).position == SkipDescription(tokens, pos + 4).position
    ensures Rendered(tokens, pos).result == SkipDescription(tokens, pos + 4).result
  {
    assert tokens[pos + 1].kind != EndOfFile && tokens[pos + 2].kind != EndOfFile;
  }

  /// `Render` writes nothing unless the header is well formed, and then the
  /// three attributes of that header; with nothing written it fails.
  lemma AttributesNeedHeader(tokens: seq<RawToken>, pos: nat)
    requires WellFormed(tokens) && pos < |tokens|
    ensures var r := Rendered(tokens, pos);
            r.attributes == [] ==> r.result.Failure?
    ensures var r := Rendered(tokens, pos);
            r.attributes != [] ==>
              |r.attributes| == 3 && r.attributes[0].value.Millimetres? && r.attributes[1].value.Millimetres? &&
              HeaderAt(tokens, pos, r.attributes[0].value.mils, r.attributes[1].value.mils) &&
              r.attributes == HeaderAttributes(r.attributes[0].value.mils, r.attributes[1].value.mils)
  {
    if Header(tokens, pos).result.Success? {
      HeaderReadsHeaderAt(tokens, pos);
    }
  }

  /// A header that reads has the header grammar, with the sizes it read.
  lemma HeaderReadsHeaderAt(tokens: seq<RawToken>, pos: nat)
    requires WellFormed(tokens) && pos < |tokens|
    requires Header(tokens, pos).result.Success?
    ensures var size := Header(tokens, pos).result.value;
            HeaderAt(tokens, pos, size.0, size.1)
  {
    IntNotAtEnd(tokens, pos + 1);
    IntNotAtEnd(tokens, pos + 2);
  }

  /// The end-of-file token holds no number.
  lemma IntNotAtEnd(tokens: seq<RawToken>, pos: nat)
    requires WellFormed(tokens) && pos < |tokens|
    requires TokenInt(tokens[pos]).Success?
    ensures tokens[pos].kind != EndOfFile && pos + 1 < |tokens|
  {
    EmptyIsNotANumber();
  }

  lemma EmptyIsNotANumber()
    ensures ParseInt32([]).None?
  {
    assert TrimEnd(TrimStart([])) == [];
  }

  /// The view box reads back as `0 0 width height`.
  lemma ViewBoxReadsBack(width: int, height: int)
    requires IsInt32(width) && IsInt32(height)
    ensures var v := ViewBox(width, height);
            var k := 4 + |Decimal(width)|;
            k < |v| && v[1] == Space && v[3] == Space && v[k] == Space &&
            ParseInt32(v[..1]) == Some(0) && ParseInt32(v[2..3]) == Some(0) &&
            ParseInt32(v[4..k]) == Some(width) && ParseInt32(v[k + 1..]) == Some(height)
  {
    ViewBoxZeros(width, height);
    ViewBoxWidth(width, height);
    ViewBoxHeight(width, height);
    ParseDecimal(width);
    ParseDecimal(height);
    ParseDecimal(0);
  }

  /// The two zeros at the start of the view box, each followed by a space.
  lemma ViewBoxZeros(width: int, height: int)
    ensures var v := ViewBox(width, height);
            4 < |v| && v[1] == Space && v[3] == Space && v[..1] == Decimal(0) && v[2..3] == Decimal(0)
  {
    assert Decimal(0) == [Zero];
  }

  /// Where the width lies in the view box, and the space after it.
  lemma ViewBoxWidth(width: int, height: int)
    ensures var v := ViewBox(width, height);
            var k := 4 + |Decimal(width)|;
            k < |v| && v[k] == Space && v[4..k] == Decimal(width)
  {
    var v := ViewBox(width, height);
    var k := 4 + |Decimal(width)|;
    assert v[4..k] == Decimal(width);
  }

  /// Where the height lies in the view box.
  lemma ViewBoxHeight(width: int, height: int)
    ensures var v := ViewBox(width, height);
            var k := 4 + |Decimal(width)|;
            k < |v| && v[k + 1..] == Decimal(height)
  {
    var v := ViewBox(width, height);
    var k := 4 + |Decimal(width)|;
    assert v[k + 1..] == Decimal(height);
  }

  /// The loop stops right after a `$EndDescr` atom and its line break.
  lemma EndDescrStops(tokens: seq<RawToken>, pos: nat)
    requires WellFormed(tokens) && pos < |tokens|
    requires EndAt(tokens, pos)
    ensures SkipDescription(tokens, pos) == Outcome(Success(()), pos + 2)
  {
  }

  /// A line whose first atom is not `$EndDescr` is skipped whole, whatever
  /// else it holds.
  lemma LineSkipped(tokens: seq<RawToken>, pos: nat, end: nat)
    requires WellFormed(tokens) && pos < end < |tokens|
    requires tokens[pos].kind == Atom && tokens[pos].text.Success? && tokens[pos].text.value != EndDescr
    requires forall j | pos < j < end :: tokens[j].kind != LineBreak
    requires tokens[end].kind == LineBreak
    ensures SkipDescription(tokens, pos) == SkipDescription(tokens, end + 1)
  {
    SkipToLineBreak(tokens, pos + 1, end);
  }

  lemma {:induction false} SkipToLineBreak(tokens: seq<RawToken>, pos: nat, end: nat)
    requires WellFormed(tokens) && pos <= end < |tokens|
    requires forall j | pos <= j < end :: tokens[j].kind != LineBreak
    requires tokens[end].kind == LineBreak
    ensures NextLine(tokens, pos) == end + 1
    decreases end - pos
  {
    if pos < end {
      assert tokens[pos].kind != EndOfFile;
      SkipToLineBreak(tokens, pos + 1, end);
    }
  }

  /// When the loop completes, it has read up to and including the line break
  /// after the first line that starts with `$EndDescr`, and not beyond.
  lemma {:induction false} StopsAtFirstEnd(tokens: seq<RawToken>, pos: nat)
    requires WellFormed(tokens) && pos < |tokens|
    requires SkipDescription(tokens, pos).result.Success?
    ensures var q := SkipDescription(tokens, pos).position;
            pos + 2 <= q && EndAt(tokens, q - 2) && LineStart(tokens, pos, q - 2)
    ensures var q := SkipDescription(tokens, pos).position;
            forall j | pos <= j < q - 2 && LineStart(tokens, pos, j) :: !EndAt(tokens, j)
    decreases |tokens| - pos
  {
    var v := tokens[pos].text.value;
    if v != EndDescr {
      var next := NextLine(tokens, pos + 1);
      NextLineStops(tokens, pos + 1);
      StopsAtFirstEnd(tokens, next);
      var q := SkipDescription(tokens, pos).position;
      forall j | pos <= j < q - 2 && LineStart(tokens, pos, j)
        ensures !EndAt(tokens, j)
      {
        if j < next {
          assert j == pos;
        } else {
          assert LineStart(tokens, next, j);
        }
      }
    }
  }

  // ---------------------------------------------------------------------
  // The imperative model: the line source, the writer and `Render`.
  // ---------------------------------------------------------------------

  /// Stand-in for `LineSource`: its tokens and its read cursor.
  class LineSource {
    const tokens: seq<RawToken>
    var position: nat

    ghost predicate Valid()
      reads this
    {
      WellFormed(tokens) && Decodes(tokens) && position < |tokens|
    }

    constructor (tokens: seq<RawToken>)
      requires WellFormed(tokens) && Decodes(tokens)
      ensures Valid() && this.tokens == tokens && position == 0
    {
      this.tokens := tokens;
      position := 0;
    }

    /// The next token, as a fresh `Token` whose text is not decoded yet.
    method Read() returns (t: Token)
      requires Valid()
      modifies this`position
      ensures Valid() && position == Advance(tokens, old(position))
      ensures fresh(t) && t.Valid() && t.cache.None?
      ensures Same(t, tokens[old(position)])
    {
      var raw := tokens[position];
      t := new Token(Some(raw.escaped), raw.kind, raw.line, raw.column);
      if raw.kind != EndOfFile {
        position := position + 1;
      }
    }

    /// `Read(expected)`.
    method ReadKind(expected: TokenType) returns (r: Result<Token>)
      requires Valid()
      modifies this`position
      ensures Valid() && position == ReadKindAt(tokens, old(position), expected).position
      ensures r.Success? <==> ReadKindAt(tokens, old(position), expected).result.Success?
      ensures r.Failure? ==> r.error == ReadKindAt(tokens, old(position), expected).result.error
      ensures r.Success? ==> fresh(r.value) && r.value.Valid() && r.value.cache.None? && Same(r.value, tokens[old(position)])
    {
      var t := Read();
      if t.kind != expected {
        return Failure(UnexpectedToken(expected, t.kind));
      }
      r := Success(t);
    }

    /// `Read(typeof(int))`.
    method ReadInt() returns (r: Result<int>)
      requires Valid()
      modifies this`position
      ensures Valid() && position == ReadIntAt(tokens, old(position)).position
      ensures r == ReadIntAt(tokens, old(position)).result
    {
      var t := Read();
      r := t.ToInt();
    }

    method SkipToStartOfNextLine()
      requires Valid()
      modifies this`position
      ensures Valid() && position == NextLine(tokens, old(position))
    {
      while tokens[position].kind != EndOfFile
        invariant Valid() && NextLine(tokens, position) == NextLine(tokens, old(position))
        decreases |tokens| - position
      {
        var kind := tokens[position].kind;
        position := position + 1;
        if kind == LineBreak {
          return;
        }
      }
    }
  }

  /// A token object made from a raw token.
  ghost predicate Same(t: Token, raw: RawToken) {
    t.kind == raw.kind && t.escaped == raw.escaped && t.line == raw.line && t.column == raw.column
  }

  /// The element writer of the drawing; only its attributes are modelled.
  class Writer {
    var attributes: seq<Attribute>

    constructor ()
      ensures attributes == []
    {
      attributes := [];
    }

    /// `WriteNonInheritedAttributeStringAsync`.
    method WriteNonInheritedAttribute(name: Text, value: AttributeValue)
      modifies this`attributes
      ensures attributes == old(attributes) + [Attribute(name, value)]
    {
      attributes := attributes + [Attribute(name, value)];
    }
  }

  /// `Description.Render(LineSource)` (Renderer/Schematic/Description.cs:20-49):
  /// read the header, write the three attributes, skip to the end of the
  /// section.
  method Render(source: LineSource, writer: Writer) returns (r: Result<()>)
    requires source.Valid()
    modifies source`position, writer`attributes
    ensures source.Valid()
    ensures var spec := Rendered(source.tokens, old(source.position));
            r == spec.result && source.position == spec.position &&
            writer.attributes == old(writer.attributes) + spec.attributes
  {
    var size :- ReadHeader(source);
    var width, height := size.0, size.1;
    writer.WriteNonInheritedAttribute(WidthName, Millimetres(width));
    writer.WriteNonInheritedAttribute(HeightName, Millimetres(height));
    writer.WriteNonInheritedAttribute(ViewBoxName, Plain(ViewBox(width, height)));
    WrittenInOrder(old(writer.attributes), width, height);
    r := SkipToEndOfDescription(source);
  }

  /// Three attributes written one after the other are the header attributes.
  lemma WrittenInOrder(before: seq<Attribute>, width: int, height: int)
    ensures before + [Attribute(WidthName, Millimetres(width))] + [Attribute(HeightName, Millimetres(height))] +
            [Attribute(ViewBoxName, Plain(ViewBox(width, height)))] == before + HeaderAttributes(width, height)
  {
  }

  /// The reads at Renderer/Schematic/Description.cs:22-26.
  method ReadHeader(source: LineSource) returns (r: Result<(int, int)>)
    requires source.Valid()
    modifies source`position
    ensures source.Valid()
    ensures var spec := Header(source.tokens, old(source.position));
            r == spec.result && source.position == spec.position
  {
    var paper :- source.ReadKind(Atom);
    var width :- source.ReadInt();
    var height :- source.ReadInt();
    var lineBreak :- source.ReadKind(LineBreak);
    r := Success((width, height));
  }

  /// The loop at Renderer/Schematic/Description.cs:35-48.
  method SkipToEndOfDescription(source: LineSource) returns (r: Result<()>)
    requires source.Valid()
    modifies source`position
    ensures source.Valid()
    ensures var spec := SkipDescription(source.tokens, old(source.position));
            r == spec.result && source.position == spec.position
  {
    ghost var start := source.position;
    var descriptionCompleted := false;
    while !descriptionCompleted
      invariant source.Valid()
      invariant !descriptionCompleted ==> SkipDescription(source.tokens, source.position) == SkipDescription(source.tokens, start)
      invariant descriptionCompleted ==> SkipDescription(source.tokens, start) == Outcome(Success(()), source.position)
      decreases if descriptionCompleted then 0 else 1, |source.tokens| - source.position
    {
      var token :- source.ReadKind(Atom);
      var isEnd :- token.EqualsText(EndDescr);
      if isEnd {
        var lineBreak :- source.ReadKind(LineBreak);
        descriptionCompleted := true;
      } else {
        source.SkipToStartOfNextLine();
      }
    }
    r := Success(());
  }
}
