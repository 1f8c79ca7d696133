// The layout of dump, told from the text alone: a scanner that knows only quotation marks, reverse solidi and brackets
// turns the compact text into the indented one, with line breaks, indentation by the number of open brackets, and a
// space behind each colon.

module DumpLayout {
  import opened ByteStrings
  import opened Decimal
  import opened JsonValue
  import opened JsonString
  import Lexer
  import opened Numbers
  import opened JsonDump

  /** Outside of strings, inside of one, or behind a reverse solidus inside of one. */
  datatype Mode = Outside | Inside | Escaping

  function Next(m: Mode, b: byte): Mode {
    match m
    case Outside => if b == 0x22 then Inside else Outside
    case Inside => if b == 0x5c then Escaping else if b == 0x22 then Outside else Inside
    case Escaping => Inside
  }

  predicate Opens(b: byte) {
    b == 0x5b || b == 0x7b
  }

  predicate Shuts(b: byte) {
    b == 0x5d || b == 0x7d
  }

  /** The indentation at the beginning, and by how much each open bracket increases it. */
  datatype Margin = Margin(indent: uint32, step: uint32)

  /** The column at which a line inside d open brackets begins, in 32 bits. */
  function Column(d: int, g: Margin): uint32 {
    (g.indent + d * g.step) % 0x1_0000_0000
  }

  /** A line break, and the indentation of the next line. */
  function Line(d: int, g: Margin): Text {
    [0x0a] + seq(Column(d, g), _ => 0x20)
  }

  /** A compact text, reformatted: outside of strings, a new line begins behind each comma and each opening bracket and
      in front of each closing one, but not between the brackets of an empty container; each colon is followed by a
      space. d counts the brackets that are open. */
  function Spread(t: Text, m: Mode, d: int, g: Margin): Text
    decreases |t|
  {
    if t == [] then []
    else if m != Outside then [t[0]] + Spread(t[1..], Next(m, t[0]), d, g)
    else if Opens(t[0]) then
      if |t| > 1 && Shuts(t[1]) then [t[0], t[1]] + Spread(t[2..], Outside, d, g)
      else [t[0]] + Line(d + 1, g) + Spread(t[1..], Outside, d + 1, g)
    else if Shuts(t[0]) then Line(d - 1, g) + [t[0]] + Spread(t[1..], Outside, d - 1, g)
    else if t[0] == 0x2c then [0x2c] + Line(d, g) + Spread(t[1..], Outside, d, g)
    else if t[0] == 0x3a then [0x3a, 0x20] + Spread(t[1..], Outside, d, g)
    else [t[0]] + Spread(t[1..], Next(Outside, t[0]), d, g)
  }

  //////// Pieces of a text ////////

  /** Reformatting turns the piece into out, whatever follows. */
  ghost predicate Spreads(piece: Text, out: Text, d: int, g: Margin) {
    forall rest: Text {:trigger piece + rest} ::
      Spread(piece + rest, Outside, d, g) == out + Spread(rest, Outside, d, g)
  }

  lemma SpreadsConcat(a: Text, x: Text, b: Text, y: Text, d: int, g: Margin)
    requires Spreads(a, x, d, g) && Spreads(b, y, d, g)
    ensures Spreads(a + b, x + y, d, g)
  {
    hide Spread;
    forall rest: Text ensures Spread((a + b) + rest, Outside, d, g) == (x + y) + Spread(rest, Outside, d, g) {
      ConcatAssociative(a, b, rest);
      ConcatAssociative(x, y, Spread(rest, Outside, d, g));
    }
  }

  /** Neither a quotation mark nor a structural character. */
  predicate Inert(b: byte) {
    b != 0x22 && b != 0x2c && b != 0x3a && !Opens(b) && !Shuts(b)
  }

  lemma {:induction false} InertSpreads(piece: Text, d: int, g: Margin)
    requires forall i | 0 <= i < |piece| :: Inert(piece[i])
    ensures Spreads(piece, piece, d, g)
  {
    if piece == [] {
      forall rest: Text ensures Spread(piece + rest, Outside, d, g) == piece + Spread(rest, Outside, d, g) {
        assert piece + rest == rest;
      }
    } else {
      InertSpreads(piece[1..], d, g);
      OneInert(piece[0], d, g);
      SpreadsConcat([piece[0]], [piece[0]], piece[1..], piece[1..], d, g);
      assert [piece[0]] + piece[1..] == piece;
    }
  }

  lemma OneInert(b: byte, d: int, g: Margin)
    requires Inert(b)
    ensures Spreads([b], [b], d, g)
  {
    forall rest: Text ensures Spread([b] + rest, Outside, d, g) == [b] + Spread(rest, Outside, d, g) {
      assert ([b] + rest)[1..] == rest;
    }
  }

  lemma CommaSpreads(d: int, g: Margin)
    ensures Spreads([0x2c], [0x2c] + Line(d, g), d, g)
  {
    hide Line;
    forall rest: Text
      ensures Spread([0x2c] + rest, Outside, d, g) == [0x2c] + Line(d, g) + Spread(rest, Outside, d, g)
    {
      assert ([0x2c] + rest)[1..] == rest;
    }
  }

  lemma ColonSpreads(d: int, g: Margin)
    ensures Spreads([0x3a], [0x3a, 0x20], d, g)
  {
    forall rest: Text ensures Spread([0x3a] + rest, Outside, d, g) == [0x3a, 0x20] + Spread(rest, Outside, d, g) {
      assert ([0x3a] + rest)[1..] == rest;
    }
  }

  lemma EmptySpreads(open: byte, shut: byte, d: int, g: Margin)
    requires Opens(open) && Shuts(shut)
    ensures Spreads([open, shut], [open, shut], d, g)
  {
    forall rest: Text ensures Spread([open, shut] + rest, Outside, d, g) == [open, shut] + Spread(rest, Outside, d, g) {
      assert ([open, shut] + rest)[2..] == rest;
    }
  }

  lemma OpenSpreads(open: byte, t: Text, d: int, g: Margin)
    requires Opens(open) && t != [] && !Shuts(t[0])
    ensures Spread([open] + t, Outside, d, g) == [open] + Line(d + 1, g) + Spread(t, Outside, d + 1, g)
  {
    hide Line;
    assert ([open] + t)[1..] == t;
  }

  lemma ShutSpreads(shut: byte, t: Text, d: int, g: Margin)
    requires Shuts(shut)
    ensures Spread([shut] + t, Outside, d + 1, g) == Line(d, g) + [shut] + Spread(t, Outside, d, g)
  {
    hide Line;
    assert ([shut] + t)[1..] == t;
  }

  lemma BracketsSpread(open: byte, content: Text, shut: byte, out: Text, d: int, g: Margin)
    requires Opens(open) && Shuts(shut) && content != [] && !Shuts(content[0]) && Spreads(content, out, d + 1, g)
    ensures Spreads([open] + content + [shut], [open] + Line(d + 1, g) + out + Line(d, g) + [shut], d, g)
  {
    hide Spread, Line, Shuts, Opens;
    forall rest: Text
      ensures Spread([open] + content + [shut] + rest, Outside, d, g)
              == [open] + Line(d + 1, g) + out + Line(d, g) + [shut] + Spread(rest, Outside, d, g)
    {
      var behind := content + ([shut] + rest);
      assert [open] + content + [shut] + rest == [open] + behind;
      OpenSpreads(open, behind, d, g);
      ShutSpreads(shut, rest, d, g);
      FivePieces([open], Line(d + 1, g), out, Line(d, g) + [shut], Spread(rest, Outside, d, g));
      assert out + (Line(d, g) + [shut] + Spread(rest, Outside, d, g)) == Spread(behind, Outside, d + 1, g);
      assert [open] + Line(d + 1, g) + out + (Line(d, g) + [shut])
             == [open] + Line(d + 1, g) + out + Line(d, g) + [shut];
    }
  }

  lemma FivePieces(a: Text, b: Text, c: Text, d: Text, e: Text)
    ensures a + b + (c + (d + e)) == a + b + c + d + e
  {
  }

  //////// Strings ////////

  /** Inside of a string, reformatting leaves the piece as it is. */
  ghost predicate Verbatim(piece: Text, d: int, g: Margin) {
    forall rest: Text {:trigger piece + rest} ::
      Spread(piece + rest, Inside, d, g) == piece + Spread(rest, Inside, d, g)
  }

  lemma EscapeIsVerbatim(c: byte, d: int, g: Margin)
    ensures Verbatim(EscapedChar(c), d, g)
  {
    hide Line;
    var e := EscapedChar(c);
    forall rest: Text ensures Spread(e + rest, Inside, d, g) == e + Spread(rest, Inside, d, g) {
      var t := e + rest;
      if |e| == 1 {
        assert t[1..] == rest;
      } else if |e| == 2 {
        TwoVerbatim(e, rest, d, g);
      } else {
        TwoVerbatim(e[..2], e[2..] + rest, d, g);
        assert t == e[..2] + (e[2..] + rest);
        FourVerbatim(e[2..], rest, d, g);
      }
    }
  }

  lemma TwoVerbatim(e: Text, rest: Text, d: int, g: Margin)
    requires |e| == 2 && e[0] == 0x5c
    ensures Spread(e + rest, Inside, d, g) == e + Spread(rest, Inside, d, g)
  {
    hide Line;
    var t := e + rest;
    assert t[1..][1..] == rest;
    assert Spread(t[1..], Escaping, d, g) == [e[1]] + Spread(rest, Inside, d, g);
  }

  lemma {:induction false} FourVerbatim(e: Text, rest: Text, d: int, g: Margin)
    requires forall i | 0 <= i < |e| :: e[i] != 0x22 && e[i] != 0x5c
    ensures Spread(e + rest, Inside, d, g) == e + Spread(rest, Inside, d, g)
  {
    hide Line;
    if e == [] {
      assert e + rest == rest;
    } else {
      assert (e + rest)[1..] == e[1..] + rest;
      FourVerbatim(e[1..], rest, d, g);
    }
  }

  lemma {:induction false} EscapedIsVerbatim(s: Text, rest: Text, d: int, g: Margin)
    ensures Spread(Escaped(s) + rest, Inside, d, g) == Escaped(s) + Spread(rest, Inside, d, g)
  {
    hide Spread, EscapedChar;
    if s == [] {
      assert Escaped(s) + rest == rest;
    } else {
      EscapedIsVerbatim(s[1..], rest, d, g);
      EscapeIsVerbatim(s[0], d, g);
      ConcatAssociative(EscapedChar(s[0]), Escaped(s[1..]), rest);
      ConcatAssociative(EscapedChar(s[0]), Escaped(s[1..]), Spread(rest, Inside, d, g));
    }
  }

  lemma QuotedSpreads(s: Text, d: int, g: Margin)
    ensures Spreads(Quoted(s), Quoted(s), d, g)
  {
    hide Escaped, Line;
    forall rest: Text ensures Spread(Quoted(s) + rest, Outside, d, g) == Quoted(s) + Spread(rest, Outside, d, g) {
      var behind := [0x22] + rest;
      assert Quoted(s) + rest == [0x22] + (Escaped(s) + behind);
      assert ([0x22] + (Escaped(s) + behind))[1..] == Escaped(s) + behind;
      EscapedIsVerbatim(s, behind, d, g);
      assert behind[1..] == rest;
    }
  }

  //////// Values ////////

  lemma {:induction false} InertNumeral(n: nat)
    ensures forall i | 0 <= i < |Numeral(n)| :: Inert(Numeral(n)[i])
  {
  }

  lemma InertNumber(x: int)
    ensures forall i | 0 <= i < |NumberText(x)| :: Inert(NumberText(x)[i])
  {
    InertNumeral(if x < 0 then -x else x);
  }

  lemma InertLiterals()
    ensures forall i | 0 <= i < |Lexer.NULL_TEXT| :: Inert(Lexer.NULL_TEXT[i])
    ensures forall i | 0 <= i < |Lexer.TRUE_TEXT| :: Inert(Lexer.TRUE_TEXT[i])
    ensures forall i | 0 <= i < |Lexer.FALSE_TEXT| :: Inert(Lexer.FALSE_TEXT[i])
  {
  }

  /** One open bracket more is one step more. */
  lemma NextColumn(d: int, g: Margin)
    ensures Deeper(Column(d, g), g.step) == Column(d + 1, g)
  {
    assert (d + 1) * g.step == d * g.step + g.step;
    SumInColumns(g.indent + d * g.step, g.step);
  }

  lemma SumInColumns(a: int, s: int)
    ensures (a % 0x1_0000_0000 + s) % 0x1_0000_0000 == (a + s) % 0x1_0000_0000
  {
    var m := 0x1_0000_0000;
    assert a + s == m * (a / m + (a % m + s) / m) + (a % m + s) % m;
  }

  lemma SpacesAre(n: nat)
    ensures Spaces(n) == seq(n, _ => 0x20)
  {
  }

  predicate StartsValue(t: Text) {
    t != [] && !Shuts(t[0])
  }

  lemma CompactStarts(j: Json, f: Layout, indent: uint32)
    ensures StartsValue(Dumped(j, f, indent))
  {
    hide Listed, DumpedItems, DumpedMembers, Escaped, Block;
    match j
    case Int(i) => InertNumber(i);
    case Uint(u) => InertNumber(u);
    case _ =>
  }

  lemma {:induction false} ItemAt(es: seq<Json>, f: Layout, indent: uint32, i: nat)
    requires i < |es|
    ensures DumpedItems(es, f, indent)[i] == DumpedItem(es[i], f, indent)
    decreases |es|
  {
    if i > 0 {
      ItemAt(es[1..], f, indent, i - 1);
    }
  }

  lemma {:induction false} MemberAt(ms: seq<Member>, f: Layout, indent: uint32, i: nat)
    requires i < |ms|
    ensures DumpedMembers(ms, f, indent)[i] == DumpedMember(ms[i], f, indent)
    decreases |ms|
  {
    if i > 0 {
      MemberAt(ms[1..], f, indent, i - 1);
    }
  }

  lemma {:induction false} ListSpreads(parts: seq<Text>, outs: seq<Text>, d: int, g: Margin)
    requires |parts| == |outs| && parts != [] && forall i | 0 <= i < |parts| :: Spreads(parts[i], outs[i], d, g)
    ensures Spreads(Listed(parts, [0x2c]), Listed(outs, [0x2c] + Line(d, g)), d, g)
    decreases |parts|
  {
    hide Spreads, Line;
    if |parts| == 1 {
    } else {
      var sep := [0x2c] + Line(d, g);
      ListSpreads(parts[1..], outs[1..], d, g);
      CommaSpreads(d, g);
      SpreadsConcat([0x2c], sep, Listed(parts[1..], [0x2c]), Listed(outs[1..], sep), d, g);
      SpreadsConcat(parts[0], outs[0], [0x2c] + Listed(parts[1..], [0x2c]), sep + Listed(outs[1..], sep), d, g);
    }
  }

  /** Lines that begin with the same blanks. */
  lemma {:induction false} IndentedList(lines: seq<Text>, outs: seq<Text>, blanks: Text)
    requires |lines| == |outs| && lines != [] && forall i | 0 <= i < |lines| :: lines[i] == blanks + outs[i]
    ensures [0x0a] + Listed(lines, [0x2c, 0x0a]) == ([0x0a] + blanks) + Listed(outs, [0x2c] + ([0x0a] + blanks))
    decreases |lines|
  {
    var line := [0x0a] + blanks;
    if |lines| == 1 {
      ConcatAssociative([0x0a], blanks, outs[0]);
    } else {
      IndentedList(lines[1..], outs[1..], blanks);
      var rest := Listed(outs[1..], [0x2c] + line);
      assert [0x2c, 0x0a] + Listed(lines[1..], [0x2c, 0x0a]) == [0x2c] + ([0x0a] + Listed(lines[1..], [0x2c, 0x0a]));
      IndentedLine(blanks, outs[0], rest);
    }
  }

  lemma IndentedLine(blanks: Text, out: Text, rest: Text)
    ensures var line := [0x0a] + blanks;
            [0x0a] + ((blanks + out) + ([0x2c] + (line + rest))) == line + (out + (([0x2c] + line) + rest))
  {
  }

  /** The list between the brackets of an array or an object. */
  lemma BlockSpreads(open: byte, shut: byte, parts: seq<Text>, lines: seq<Text>, outs: seq<Text>, d: int, g: Margin)
    requires Opens(open) && Shuts(shut) && |parts| == |lines| == |outs| && parts != [] && StartsValue(parts[0])
    requires forall i | 0 <= i < |parts| :: Spreads(parts[i], outs[i], d + 1, g)
    requires forall i | 0 <= i < |parts| :: lines[i] == Spaces(Column(d + 1, g)) + outs[i]
    ensures Spreads([open] + Listed(parts, [0x2c]) + [shut],
                    [open] + ([0x0a] + Listed(lines, [0x2c, 0x0a]) + [0x0a] + Spaces(Column(d, g))) + [shut], d, g)
  {
    hide Spreads, Spread, Column, Listed, Opens;
    var content, out := Listed(parts, [0x2c]), Listed(outs, [0x2c] + Line(d + 1, g));
    SpacesAre(Column(d, g));
    SpacesAre(Column(d + 1, g));
    ListSpreads(parts, outs, d + 1, g);
    IndentedList(lines, outs, Spaces(Column(d + 1, g)));
    ListStarts(parts);
    BracketsSpread(open, content, shut, out, d, g);
    BlockPiecesAre([open], [0x0a] + Listed(lines, [0x2c, 0x0a]), Line(d + 1, g), out, Spaces(Column(d, g)), [shut]);
  }

  lemma BlockPiecesAre(open: Text, body: Text, line: Text, out: Text, blanks: Text, shut: Text)
    requires body == line + out
    ensures open + line + out + ([0x0a] + blanks) + shut == open + (body + [0x0a] + blanks) + shut
  {
  }

  lemma ListStarts(parts: seq<Text>)
    requires parts != [] && StartsValue(parts[0])
    ensures StartsValue(Listed(parts, [0x2c]))
  {
  }

  //////// The theorem ////////

  /** Indented output is compact output, reformatted: for every value, step, indentation and number of open brackets. */
  lemma {:induction false} DumpSpreads(j: Json, s: uint32, d: int, g: Margin)
    ensures Spreads(Dumped(j, Layout(false, s), 0), Dumped(j, Layout(true, g.step), Column(d, g)), d, g)
    decreases j, 0
  {
    hide Spreads, Quoted, Listed, Column, DumpedItems, DumpedMembers;
    match j {
      case Null =>
        InertLiterals();
        InertSpreads(Lexer.NULL_TEXT, d, g);
      case Bool(b) =>
        InertLiterals();
        InertSpreads(if b then Lexer.TRUE_TEXT else Lexer.FALSE_TEXT, d, g);
      case Int(i) =>
        InertNumber(i);
        InertSpreads(NumberText(i), d, g);
      case Uint(u) =>
        InertNumber(u);
        InertSpreads(NumberText(u), d, g);
      case Str(t) => QuotedSpreads(t, d, g);
      case Arr(es) =>
        if es == [] {
          EmptySpreads(0x5b, 0x5d, d, g);
        } else {
          ArraySpreads(es, s, d, g);
        }
      case Obj(ms) =>
        if ms == [] {
          EmptySpreads(0x7b, 0x7d, d, g);
        } else {
          ObjectSpreads(ms, s, d, g);
        }
    }
  }

  lemma {:induction false} ArraySpreads(es: seq<Json>, s: uint32, d: int, g: Margin)
    requires es != []
    ensures Spreads(Dumped(Arr(es), Layout(false, s), 0), Dumped(Arr(es), Layout(true, g.step), Column(d, g)), d, g)
    decreases es, 1
  {
    hide Spreads, Listed, Column, DumpedItems, Spaces, StartsValue;
    var f, p, c := Layout(false, s), Layout(true, g.step), Column(d + 1, g);
    NextColumn(d, g);
    var parts, lines := DumpedItems(es, f, 0), DumpedItems(es, p, c);
    var outs := seq(|es|, i requires 0 <= i < |es| => Dumped(es[i], p, c));
    forall i | 0 <= i < |es|
      ensures Spreads(parts[i], outs[i], d + 1, g) && lines[i] == Spaces(c) + outs[i] && StartsValue(parts[i])
    {
      ItemAt(es, f, 0, i);
      ItemAt(es, p, c, i);
      NoSpaces(Dumped(es[i], f, 0));
      CompactStarts(es[i], f, 0);
      DumpSpreads(es[i], s, d + 1, g);
    }
    BlockSpreads(0x5b, 0x5d, parts, lines, outs, d, g);
    NoBlock(0x5b, Listed(parts, [0x2c]), 0x5d);
  }

  lemma NoSpaces(t: Text)
    ensures Spaces(0) + t == t
  {
  }

  lemma NoBlock(open: byte, lines: Text, shut: byte)
    ensures [open] + ([] + lines + [] + Spaces(0)) + [shut] == [open] + lines + [shut]
  {
    assert [] + lines + [] + Spaces(0) == lines;
  }

  lemma {:induction false} MemberSpreads(m: Member, s: uint32, d: int, g: Margin)
    ensures var p, c := Layout(true, g.step), Column(d, g);
            Spreads(DumpedMember(m, Layout(false, s), 0), Quoted(m.key) + [0x3a, 0x20] + Dumped(m.value, p, c), d, g) &&
            DumpedMember(m, p, c) == Spaces(c) + (Quoted(m.key) + [0x3a, 0x20] + Dumped(m.value, p, c)) &&
            StartsValue(DumpedMember(m, Layout(false, s), 0))
    decreases m, 0
  {
    hide Spreads, Column, Escaped, Dumped;
    var f, p, c := Layout(false, s), Layout(true, g.step), Column(d, g);
    var value, out := Dumped(m.value, f, 0), Dumped(m.value, p, c);
    DumpSpreads(m.value, s, d, g);
    QuotedSpreads(m.key, d, g);
    ColonSpreads(d, g);
    SpreadsConcat(Quoted(m.key), Quoted(m.key), [0x3a], [0x3a, 0x20], d, g);
    SpreadsConcat(Quoted(m.key) + [0x3a], Quoted(m.key) + [0x3a, 0x20], value, out, d, g);
    KeyAndValue(Spaces(0), Escaped(m.key), [0x22, 0x3a], value);
    KeyAndValue(Spaces(c), Escaped(m.key), [0x22, 0x3a, 0x20], out);
  }

  lemma KeyAndValue(blanks: Text, key: Text, end: Text, value: Text)
    requires end != [] && end[0] == 0x22
    ensures blanks + [0x22] + key + end + value == blanks + ([0x22] + key + [0x22] + end[1..] + value)
    ensures blanks == [] ==> blanks + [0x22] + key + end + value == [0x22] + key + [0x22] + end[1..] + value
  {
    assert end == [0x22] + end[1..];
  }

  lemma {:induction false} ObjectSpreads(ms: seq<Member>, s: uint32, d: int, g: Margin)
    requires ms != []
    ensures Spreads(Dumped(Obj(ms), Layout(false, s), 0), Dumped(Obj(ms), Layout(true, g.step), Column(d, g)), d, g)
    decreases ms, 1
  {
    hide Spreads, Listed, Column, DumpedMembers, DumpedMember, Spaces, StartsValue, Quoted;
    var f, p, c := Layout(false, s), Layout(true, g.step), Column(d + 1, g);
    NextColumn(d, g);
    var parts, lines := DumpedMembers(ms, f, 0), DumpedMembers(ms, p, c);
    var outs := seq(|ms|, i requires 0 <= i < |ms| => Quoted(ms[i].key) + [0x3a, 0x20] + Dumped(ms[i].value, p, c));
    forall i | 0 <= i < |ms|
      ensures Spreads(parts[i], outs[i], d + 1, g) && lines[i] == Spaces(c) + outs[i] && StartsValue(parts[i])
    {
      MemberAt(ms, f, 0, i);
      MemberAt(ms, p, c, i);
      MemberSpreads(ms[i], s, d + 1, g);
    }
    BlockSpreads(0x7b, 0x7d, parts, lines, outs, d, g);
    NoBlock(0x7b, Listed(parts, [0x2c]), 0x7d);
  }

  /** Indented output is the compact output of the same value, reformatted. */
  lemma IndentedIsSpread(j: Json, s: uint32, indent: uint32, step: uint32)
    ensures Dumped(j, Layout(true, step), indent)
            == Spread(Dumped(j, Layout(false, s), 0), Outside, 0, Margin(indent, step))
  {
    hide Spread, Dumped;
    var g := Margin(indent, step);
    var t := Dumped(j, Layout(false, s), 0);
    DumpSpreads(j, s, 0, g);
    assert Column(0, g) == indent;
    assert t + [] == t;
    assert Spread(t + [], Outside, 0, g) == Dumped(j, Layout(true, step), indent) + Spread([], Outside, 0, g);
    NothingToSpread(g);
  }

  lemma NothingToSpread(g: Margin)
    ensures Spread([], Outside, 0, g) == []
  {
  }
}
