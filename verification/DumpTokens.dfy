// The compact text of dump is the texts of its tokens in a row, without a blank between them; the indented text is the
// same but for blanks outside of strings.

module DumpTokens {
  import opened ByteStrings
  import opened Decimal
  import opened JsonValue
  import opened JsonString
  import Lexer
  import opened Numbers
  import opened JsonGrammar
  import opened JsonDump
  import opened DumpLayout
  import opened TextRoundTrip

  predicate Blank(b: byte) {
    b == 0x20 || b == 0x09 || b == 0x0a || b == 0x0d
  }

  /** A text without the blanks outside of its strings. */
  function Squeezed(t: Text, m: Mode): Text
    decreases |t|
  {
    if t == [] then []
    else if m == Outside && Blank(t[0]) then Squeezed(t[1..], m)
    else [t[0]] + Squeezed(t[1..], Next(m, t[0]))
  }

  //////// The compact text ////////

  /** The text of a token. */
  function TextOf(l: Lexeme): Text {
    match l.kind
    case BeginArray => [0x5b]
    case EndArray => [0x5d]
    case BeginObject => [0x7b]
    case EndObject => [0x7d]
    case NameSeparator => [0x3a]
    case ValueSeparator => [0x2c]
    case LiteralTrue => [0x74, 0x72, 0x75, 0x65]
    case LiteralFalse => [0x66, 0x61, 0x6c, 0x73, 0x65]
    case LiteralNull => [0x6e, 0x75, 0x6c, 0x6c]
    case _ => l.text
  }

  function TextsOf(ls: seq<Lexeme>): Text {
    if ls == [] then [] else TextOf(ls[0]) + TextsOf(ls[1..])
  }

  /** The piece has no blanks outside of strings, and it ends outside of strings. */
  ghost predicate Dense(piece: Text) {
    forall rest: Text {:trigger piece + rest} :: Squeezed(piece + rest, Outside) == piece + Squeezed(rest, Outside)
  }

  /** The piece is a row of tokens. */
  ghost predicate IsRow(piece: Text, ls: seq<Lexeme>) {
    piece == TextsOf(ls) && Dense(piece)
  }

  lemma {:induction false} TextsConcat(a: seq<Lexeme>, b: seq<Lexeme>)
    ensures TextsOf(a + b) == TextsOf(a) + TextsOf(b)
  {
    hide TextOf;
    if a == [] {
      assert a + b == b;
    } else {
      TextsConcat(a[1..], b);
      assert (a + b)[1..] == a[1..] + b;
      ConcatAssociative(TextOf(a[0]), TextsOf(a[1..]), TextsOf(b));
    }
  }

  lemma DenseConcat(a: Text, b: Text)
    requires Dense(a) && Dense(b)
    ensures Dense(a + b)
  {
    hide Squeezed;
    forall rest: Text ensures Squeezed((a + b) + rest, Outside) == (a + b) + Squeezed(rest, Outside) {
      ConcatAssociative(a, b, rest);
      ConcatAssociative(a, b, Squeezed(rest, Outside));
    }
  }

  lemma RowConcat(a: Text, x: seq<Lexeme>, b: Text, y: seq<Lexeme>)
    requires IsRow(a, x) && IsRow(b, y)
    ensures IsRow(a + b, x + y)
  {
    TextsConcat(x, y);
    DenseConcat(a, b);
  }

  /** Neither a quotation mark nor a blank. */
  predicate Solid(b: byte) {
    b != 0x22 && !Blank(b)
  }

  lemma {:induction false} SolidIsDense(piece: Text)
    requires forall i | 0 <= i < |piece| :: Solid(piece[i])
    ensures Dense(piece)
  {
    if piece == [] {
      forall rest: Text ensures Squeezed(piece + rest, Outside) == piece + Squeezed(rest, Outside) {
        assert piece + rest == rest;
      }
    } else {
      SolidIsDense(piece[1..]);
      OneSolid(piece[0]);
      DenseConcat([piece[0]], piece[1..]);
      assert [piece[0]] + piece[1..] == piece;
    }
  }

  lemma OneSolid(b: byte)
    requires Solid(b)
    ensures Dense([b])
  {
    forall rest: Text ensures Squeezed([b] + rest, Outside) == [b] + Squeezed(rest, Outside) {
      assert ([b] + rest)[1..] == rest;
    }
  }

  lemma {:induction false} EscapedIsKept(s: Text, rest: Text)
    ensures Squeezed(Escaped(s) + rest, Inside) == Escaped(s) + Squeezed(rest, Inside)
  {
    hide Squeezed, EscapedChar;
    if s == [] {
      assert Escaped(s) + rest == rest;
    } else {
      EscapedIsKept(s[1..], rest);
      EscapeIsKept(s[0], Escaped(s[1..]) + rest);
      ConcatAssociative(EscapedChar(s[0]), Escaped(s[1..]), rest);
      ConcatAssociative(EscapedChar(s[0]), Escaped(s[1..]), Squeezed(rest, Inside));
    }
  }

  lemma EscapeIsKept(c: byte, rest: Text)
    ensures Squeezed(EscapedChar(c) + rest, Inside) == EscapedChar(c) + Squeezed(rest, Inside)
  {
    var e := EscapedChar(c);
    if |e| == 1 {
      assert (e + rest)[1..] == rest;
    } else if |e| == 2 {
      TwoKept(e, rest);
    } else {
      TwoKept(e[..2], e[2..] + rest);
      assert e + rest == e[..2] + (e[2..] + rest);
      FourKept(e[2..], rest);
    }
  }

  lemma TwoKept(e: Text, rest: Text)
    requires |e| == 2 && e[0] == 0x5c
    ensures Squeezed(e + rest, Inside) == e + Squeezed(rest, Inside)
  {
    var t := e + rest;
    assert t[1..][1..] == rest;
    assert Squeezed(t[1..], Escaping) == [e[1]] + Squeezed(rest, Inside);
  }

  lemma {:induction false} FourKept(e: Text, rest: Text)
    requires forall i | 0 <= i < |e| :: e[i] != 0x22 && e[i] != 0x5c
    ensures Squeezed(e + rest, Inside) == e + Squeezed(rest, Inside)
  {
    if e == [] {
      assert e + rest == rest;
    } else {
      assert (e + rest)[1..] == e[1..] + rest;
      FourKept(e[1..], rest);
    }
  }

  lemma QuotedIsDense(s: Text)
    ensures Dense(Quoted(s))
  {
    hide Escaped;
    forall rest: Text ensures Squeezed(Quoted(s) + rest, Outside) == Quoted(s) + Squeezed(rest, Outside) {
      var behind := [0x22] + rest;
      assert Quoted(s) + rest == [0x22] + (Escaped(s) + behind);
      assert ([0x22] + (Escaped(s) + behind))[1..] == Escaped(s) + behind;
      EscapedIsKept(s, behind);
      assert behind[1..] == rest;
    }
  }

  lemma TokenRow(l: Lexeme)
    requires Dense(TextOf(l))
    ensures IsRow(TextOf(l), [l])
  {
    assert TextsOf([l]) == TextOf(l) + TextsOf([]) == TextOf(l);
  }

  lemma MarkRow(kind: Lexer.TokenType, text: Text)
    requires TextOf(Mark(kind)) == text && forall i | 0 <= i < |text| :: Solid(text[i])
    ensures IsRow(text, [Mark(kind)])
  {
    SolidIsDense(text);
    TokenRow(Mark(kind));
  }

  lemma {:induction false} SolidNumeral(n: nat)
    ensures forall i | 0 <= i < |Numeral(n)| :: Solid(Numeral(n)[i])
  {
  }

  lemma NumberRow(x: int)
    ensures IsRow(NumberText(x), [NumberLexeme(x)])
  {
    SolidNumeral(if x < 0 then -x else x);
    SolidIsDense(NumberText(x));
    TokenRow(NumberLexeme(x));
  }

  lemma StringRow(s: Text)
    ensures IsRow(Quoted(s), [StringLexeme(s)])
  {
    QuotedIsDense(s);
    TokenRow(StringLexeme(s));
  }

  lemma {:induction false} ListRow(parts: seq<Text>, lists: seq<seq<Lexeme>>)
    requires |parts| == |lists| && forall i | 0 <= i < |parts| :: IsRow(parts[i], lists[i])
    ensures IsRow(Listed(parts, [0x2c]), Separated(lists))
    decreases |parts|
  {
    hide IsRow;
    if parts == [] {
      EmptyRow();
    } else if |parts| > 1 {
      ListRow(parts[1..], lists[1..]);
      MarkRow(Lexer.ValueSeparator, [0x2c]);
      RowConcat([0x2c], [Mark(Lexer.ValueSeparator)], Listed(parts[1..], [0x2c]), Separated(lists[1..]));
      RowConcat(parts[0], lists[0], [0x2c] + Listed(parts[1..], [0x2c]),
                [Mark(Lexer.ValueSeparator)] + Separated(lists[1..]));
    }
  }

  lemma EmptyRow()
    ensures IsRow([], [])
  {
    SolidIsDense([]);
  }

  lemma BracketRow(open: Lexer.TokenType, content: Text, ls: seq<Lexeme>, shut: Lexer.TokenType)
    requires IsRow(content, ls)
    requires (open.BeginArray? && shut.EndArray?) || (open.BeginObject? && shut.EndObject?)
    ensures IsRow(TextOf(Mark(open)) + content + TextOf(Mark(shut)), [Mark(open)] + ls + [Mark(shut)])
  {
    hide IsRow;
    MarkRow(open, TextOf(Mark(open)));
    MarkRow(shut, TextOf(Mark(shut)));
    RowConcat(TextOf(Mark(open)), [Mark(open)], content, ls);
    RowConcat(TextOf(Mark(open)) + content, [Mark(open)] + ls, TextOf(Mark(shut)), [Mark(shut)]);
  }

  lemma {:induction false} CompactRow(j: Json, s: uint32)
    ensures IsRow(Dumped(j, Layout(false, s), 0), Yield(TreeOf(j)))
    decreases j, 0
  {
    hide IsRow, Quoted, Listed, Separated, DumpedItems, DumpedMembers, Spaces;
    match j {
      case Null => MarkRow(Lexer.LiteralNull, Lexer.NULL_TEXT);
      case Bool(b) =>
        if b { MarkRow(Lexer.LiteralTrue, Lexer.TRUE_TEXT); } else { MarkRow(Lexer.LiteralFalse, Lexer.FALSE_TEXT); }
      case Int(i) => NumberRow(i);
      case Uint(u) => NumberRow(u);
      case Str(t) => StringRow(t);
      case Arr(es) => ArrayRow(es, s);
      case Obj(ms) => ObjectRow(ms, s);
    }
  }

  lemma {:induction false} ArrayRow(es: seq<Json>, s: uint32)
    ensures IsRow(Dumped(Arr(es), Layout(false, s), 0), Yield(TreeOf(Arr(es))))
    decreases es, 2
  {
    hide IsRow, Listed, Separated, Spaces;
    var parts := DumpedItems(es, Layout(false, s), 0);
    ItemRows(es, s);
    ListRow(parts, YieldItems(TreesOf(es)));
    BracketRow(Lexer.BeginArray, Listed(parts, [0x2c]), Separated(YieldItems(TreesOf(es))), Lexer.EndArray);
    NoBlock(0x5b, Listed(parts, [0x2c]), 0x5d);
    var t := [0x5b] + Listed(parts, [0x2c]) + [0x5d];
    if es == [] {
      EmptyList(0x5b, 0x5d);
    }
    assert Dumped(Arr(es), Layout(false, s), 0) == t;
    assert Yield(TreeOf(Arr(es)))
           == [Mark(Lexer.BeginArray)] + Separated(YieldItems(TreesOf(es))) + [Mark(Lexer.EndArray)];
  }

  lemma EmptyList(open: byte, shut: byte)
    ensures [open] + Listed([], [0x2c]) + [shut] == [open, shut]
  {
  }

  lemma {:induction false} ItemRows(es: seq<Json>, s: uint32)
    ensures forall i | 0 <= i < |es| :: IsRow(DumpedItems(es, Layout(false, s), 0)[i], YieldItems(TreesOf(es))[i])
    decreases es, 1
  {
    hide IsRow, Dumped, Yield, TreeOf, Spaces;
    if es == [] {
    } else {
      CompactRow(es[0], s);
      NoSpaces(Dumped(es[0], Layout(false, s), 0));
      ItemRows(es[1..], s);
    }
  }

  lemma {:induction false} ObjectRow(ms: seq<Member>, s: uint32)
    ensures IsRow(Dumped(Obj(ms), Layout(false, s), 0), Yield(TreeOf(Obj(ms))))
    decreases ms, 2
  {
    hide IsRow, Listed, Separated, Spaces;
    var parts := DumpedMembers(ms, Layout(false, s), 0);
    MemberRows(ms, s);
    ListRow(parts, YieldEntries(EntriesOf(ms)));
    BracketRow(Lexer.BeginObject, Listed(parts, [0x2c]), Separated(YieldEntries(EntriesOf(ms))), Lexer.EndObject);
    NoBlock(0x7b, Listed(parts, [0x2c]), 0x7d);
    var t := [0x7b] + Listed(parts, [0x2c]) + [0x7d];
    if ms == [] {
      EmptyList(0x7b, 0x7d);
    }
    assert Dumped(Obj(ms), Layout(false, s), 0) == t;
    assert Yield(TreeOf(Obj(ms)))
           == [Mark(Lexer.BeginObject)] + Separated(YieldEntries(EntriesOf(ms))) + [Mark(Lexer.EndObject)];
  }

  lemma {:induction false} MemberRow(m: Member, s: uint32)
    ensures IsRow(DumpedMember(m, Layout(false, s), 0), YieldEntry(EntryOf(m)))
    decreases m, 0
  {
    hide IsRow, Dumped, Yield, TreeOf, Escaped;
    var value := Dumped(m.value, Layout(false, s), 0);
    CompactRow(m.value, s);
    StringRow(m.key);
    MarkRow(Lexer.NameSeparator, [0x3a]);
    RowConcat(Quoted(m.key), [StringLexeme(m.key)], [0x3a], [Mark(Lexer.NameSeparator)]);
    RowConcat(Quoted(m.key) + [0x3a], [StringLexeme(m.key)] + [Mark(Lexer.NameSeparator)],
              value, Yield(TreeOf(m.value)));
    KeyAndValue(Spaces(0), Escaped(m.key), [0x22, 0x3a], value);
    assert [StringLexeme(m.key)] + [Mark(Lexer.NameSeparator)] == [StringLexeme(m.key), Mark(Lexer.NameSeparator)];
  }

  lemma {:induction false} MemberRows(ms: seq<Member>, s: uint32)
    ensures forall i | 0 <= i < |ms| ::
              IsRow(DumpedMembers(ms, Layout(false, s), 0)[i], YieldEntries(EntriesOf(ms))[i])
    decreases ms, 1
  {
    hide IsRow, DumpedMember, YieldEntry, EntryOf;
    if ms == [] {
    } else {
      MemberRow(ms[0], s);
      MemberRows(ms[1..], s);
    }
  }

  /** Compact output is the texts of the tokens in a row; there is no blank outside of its strings. */
  lemma CompactIsTokens(j: Json, s: uint32)
    ensures Dumped(j, Layout(false, s), 0) == TextsOf(Yield(TreeOf(j)))
    ensures Squeezed(Dumped(j, Layout(false, s), 0), Outside) == Dumped(j, Layout(false, s), 0)
  {
    hide Dumped, Yield, TreeOf, Squeezed, TextsOf;
    var t := Dumped(j, Layout(false, s), 0);
    CompactRow(j, s);
    assert t + [] == t;
    assert Squeezed(t + [], Outside) == t + Squeezed([], Outside);
    assert Squeezed([], Outside) == [] by { NothingToSqueeze(); }
  }

  lemma NothingToSqueeze()
    ensures Squeezed([], Outside) == []
  {
  }

  //////// Squeezing undoes reformatting ////////

  lemma {:induction false} BlanksVanish(blanks: Text, rest: Text)
    requires forall i | 0 <= i < |blanks| :: Blank(blanks[i])
    ensures Squeezed(blanks + rest, Outside) == Squeezed(rest, Outside)
  {
    if blanks == [] {
      assert blanks + rest == rest;
    } else {
      assert (blanks + rest)[1..] == blanks[1..] + rest;
      BlanksVanish(blanks[1..], rest);
    }
  }

  lemma LineVanishes(d: int, g: Margin, rest: Text)
    ensures Squeezed(Line(d, g) + rest, Outside) == Squeezed(rest, Outside)
  {
    hide Squeezed, Column;
    BlanksVanish(Line(d, g), rest);
  }

  lemma ByteStays(b: byte, m: Mode, rest: Text)
    requires m != Outside || !Blank(b)
    ensures Squeezed([b] + rest, m) == [b] + Squeezed(rest, Next(m, b))
  {
    assert ([b] + rest)[1..] == rest;
  }

  /** Reformatting adds blanks outside of strings and nothing else, whatever the text is. */
  lemma {:induction false} SqueezedSpread(t: Text, m: Mode, d: int, g: Margin)
    ensures Squeezed(Spread(t, m, d, g), m) == Squeezed(t, m)
    decreases |t|, 1
  {
    hide Squeezed, Line;
    if t == [] {
    } else {
      var b, rest := t[0], t[1..];
      assert t == [b] + rest;
      if m != Outside {
        SqueezedSpread(rest, Next(m, b), d, g);
        ByteStays(b, m, Spread(rest, Next(m, b), d, g));
        ByteStays(b, m, rest);
      } else {
        SqueezedByte(t, d, g);
      }
    }
  }

  lemma {:induction false} SqueezedByte(t: Text, d: int, g: Margin)
    requires t != []
    ensures Squeezed(Spread(t, Outside, d, g), Outside) == Squeezed(t, Outside)
    decreases |t|, 0
  {
    hide Squeezed, Line;
    var b, rest := t[0], t[1..];
    assert t == [b] + rest;
    if Opens(b) && rest != [] && Shuts(rest[0]) {
      var behind := Spread(t[2..], Outside, d, g);
      SqueezedSpread(t[2..], Outside, d, g);
      assert rest == [rest[0]] + t[2..] && [b, rest[0]] + behind == [b] + ([rest[0]] + behind);
      ByteStays(b, Outside, [rest[0]] + behind);
      ByteStays(rest[0], Outside, behind);
      ByteStays(b, Outside, rest);
      ByteStays(rest[0], Outside, t[2..]);
    } else if Opens(b) {
      SqueezedMark(b, d + 1, rest, d + 1, g);
    } else if Shuts(b) {
      var behind := Spread(rest, Outside, d - 1, g);
      SqueezedSpread(rest, Outside, d - 1, g);
      ConcatAssociative(Line(d - 1, g), [b], behind);
      LineVanishes(d - 1, g, [b] + behind);
      ByteStays(b, Outside, behind);
      ByteStays(b, Outside, rest);
    } else if b == 0x2c {
      SqueezedMark(b, d, rest, d, g);
    } else {
      SqueezedOther(b, rest, d, g);
    }
  }

  /** A byte with a line break behind it. */
  lemma {:induction false} SqueezedMark(b: byte, line: int, rest: Text, d: int, g: Margin)
    requires b == 0x2c || Opens(b)
    ensures Squeezed([b] + Line(line, g) + Spread(rest, Outside, d, g), Outside) == Squeezed([b] + rest, Outside)
    decreases |rest|, 2
  {
    hide Squeezed, Line, Spread;
    var behind := Spread(rest, Outside, d, g);
    SqueezedSpread(rest, Outside, d, g);
    ConcatAssociative([b], Line(line, g), behind);
    ByteStays(b, Outside, Line(line, g) + behind);
    LineVanishes(line, g, behind);
    ByteStays(b, Outside, rest);
  }

  lemma {:induction false} SqueezedOther(b: byte, rest: Text, d: int, g: Margin)
    requires !Opens(b) && !Shuts(b) && b != 0x2c
    ensures Squeezed(Spread([b] + rest, Outside, d, g), Outside) == Squeezed([b] + rest, Outside)
    decreases |rest|, 2
  {
    hide Squeezed, Line;
    var t, m := [b] + rest, Next(Outside, b);
    assert t[1..] == rest;
    SqueezedSpread(rest, m, d, g);
    if b == 0x3a {
      var behind := Spread(rest, Outside, d, g);
      assert [0x3a, 0x20] + behind == [0x3a] + ([0x20] + behind);
      ByteStays(b, Outside, [0x20] + behind);
      BlanksVanish([0x20], behind);
      ByteStays(b, Outside, rest);
    } else if Blank(b) {
      BlanksVanish([b], Spread(rest, Outside, d, g));
      BlanksVanish([b], rest);
    } else {
      ByteStays(b, Outside, Spread(rest, m, d, g));
      ByteStays(b, Outside, rest);
    }
  }

  /** Without its blanks, the output is the same for every layout. */
  lemma SqueezedIsCompact(j: Json, s: uint32, indent: uint32, step: uint32)
    ensures Squeezed(Dumped(j, Layout(true, step), indent), Outside) == Dumped(j, Layout(false, s), 0)
  {
    hide Dumped, Squeezed, Spread;
    IndentedIsSpread(j, s, indent, step);
    SqueezedSpread(Dumped(j, Layout(false, s), 0), Outside, 0, Margin(indent, step));
    CompactIsTokens(j, s);
  }
}
