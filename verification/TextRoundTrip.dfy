// parse undoes dump: for every value whose strings are well-formed UTF-8, every layout and every indentation.

module TextRoundTrip {
  import opened ByteStrings
  import opened JsonValue
  import opened Utf8
  import opened JsonString
  import opened StringGrammar
  import Lexer
  import opened LexerLaws
  import opened TokenGrammar
  import opened Numbers
  import opened JsonGrammar
  import opened JsonGrammarLaws
  import opened JsonParser
  import opened JsonDump

  /** All strings and keys are well-formed UTF-8. */
  ghost predicate HasUtf8(j: Json) {
    match j
    case Str(s) => IsUtf8(s)
    case Arr(es) => forall i | 0 <= i < |es| :: HasUtf8(es[i])
    case Obj(ms) => forall i | 0 <= i < |ms| :: IsUtf8(ms[i].key) && HasUtf8(ms[i].value)
    case _ => true
  }

  //////// The derivation of a value ////////

  function StringLexeme(s: Text): Lexeme {
    Lexeme(Lexer.ValueString, Quoted(s))
  }

  function NumberLexeme(x: int): Lexeme {
    Lexeme(if x < 0 then Lexer.ValueInteger else Lexer.ValueUnsigned, NumberText(x))
  }

  function TreeOf(j: Json): Tree {
    match j
    case Null => Leaf(Mark(Lexer.LiteralNull))
    case Bool(b) => Leaf(Mark(if b then Lexer.LiteralTrue else Lexer.LiteralFalse))
    case Int(i) => Leaf(NumberLexeme(i))
    case Uint(u) => Leaf(NumberLexeme(u))
    case Str(s) => Leaf(StringLexeme(s))
    case Arr(es) => ArrayTree(TreesOf(es))
    case Obj(ms) => ObjectTree(EntriesOf(ms))
  }

  function TreesOf(es: seq<Json>): (ts: seq<Tree>)
    ensures |ts| == |es|
  {
    if es == [] then [] else [TreeOf(es[0])] + TreesOf(es[1..])
  }

  function EntryOf(m: Member): Entry {
    Entry(StringLexeme(m.key), TreeOf(m.value))
  }

  function EntriesOf(ms: seq<Member>): (es: seq<Entry>)
    ensures |es| == |ms|
  {
    if ms == [] then [] else [EntryOf(ms[0])] + EntriesOf(ms[1..])
  }

  lemma {:induction false} TreeIsValue(j: Json)
    ensures IsValue(TreeOf(j))
    decreases j, 0
  {
    match j
    case Arr(es) => TreesAreValues(es);
    case Obj(ms) => EntriesAreMembers(ms);
    case _ =>
  }

  lemma {:induction false} TreesAreValues(es: seq<Json>)
    ensures AreValues(TreesOf(es))
    decreases es, 1
  {
    if es == [] {
    } else {
      TreeIsValue(es[0]);
      TreesAreValues(es[1..]);
    }
  }

  lemma {:induction false} EntriesAreMembers(ms: seq<Member>)
    ensures AreMembers(EntriesOf(ms))
    decreases ms, 1
  {
    if ms == [] {
    } else {
      TreeIsValue(ms[0].value);
      EntriesAreMembers(ms[1..]);
    }
  }

  lemma QuotedMeans(s: Text)
    ensures StringOf(Quoted(s)) == Ok(s)
  {
    assert Quoted(s)[1..|Quoted(s)| - 1] == Escaped(s);
    UnescapedEscaped(s);
  }

  /** The derivation of a value means the value, up to the sign of non-negative integers. */
  lemma {:induction false} TreeMeans(j: Json)
    requires Ordered(j)
    ensures IsValue(TreeOf(j)) && Meaning(TreeOf(j)) == Ok(Unsign(j))
    decreases j, 0
  {
    TreeIsValue(j);
    match j {
      case Null =>
      case Bool(b) =>
      case Int(i) => GetNumberText(i);
      case Uint(u) => GetNumberText(u);
      case Str(s) => QuotedMeans(s);
      case Arr(es) =>
        ItemsMeanValues(es, []);
        assert [] + UnsignSeq(es) == UnsignSeq(es);
      case Obj(ms) =>
        EntriesMeanMembers(ms, []);
        assert [] + UnsignMembers(ms) == UnsignMembers(ms);
    }
  }

  lemma {:induction false} ItemsMeanValues(es: seq<Json>, done: seq<Json>)
    requires Ordered(Arr(es))
    ensures AreValues(TreesOf(es)) && Collected(Meanings(TreesOf(es)), done) == Ok(Arr(done + UnsignSeq(es)))
    decreases es, 1
  {
    TreesAreValues(es);
    if es == [] {
      assert done + [] == done;
    } else {
      var first, rest := Unsign(es[0]), es[1..];
      TreeMeans(es[0]);
      ItemsMeanValues(rest, done + [first]);
      var rs := Meanings(TreesOf(es));
      assert rs[0] == Ok(first) && rs[1..] == Meanings(TreesOf(rest));
      ConcatAssociative(done, [first], UnsignSeq(rest));
    }
  }

  lemma EntryMeans(m: Member)
    requires Ordered(m.value)
    ensures IsMember(EntryOf(m)) && MeaningOfEntry(EntryOf(m)) == Ok(Member(m.key, Unsign(m.value)))
    decreases m, 1
  {
    QuotedMeans(m.key);
    TreeMeans(m.value);
  }

  lemma {:induction false} EntriesMeanMembers(ms: seq<Member>, done: seq<Member>)
    requires Ordered(Obj(ms)) && AllBefore(done, ms)
    ensures AreMembers(EntriesOf(ms))
    ensures Gathered(EntryMeanings(EntriesOf(ms)), done) == Ok(Obj(done + UnsignMembers(ms)))
    decreases ms, 2
  {
    EntriesAreMembers(ms);
    if ms == [] {
      assert done + [] == done;
    } else {
      var first, rest := Member(ms[0].key, Unsign(ms[0].value)), ms[1..];
      EntryMeans(ms[0]);
      AllBeforeNext(done, ms, first.value);
      EntriesMeanMembers(rest, done + [first]);
      var rs := EntryMeanings(EntriesOf(ms));
      assert rs[0] == Ok(first) && rs[1..] == EntryMeanings(EntriesOf(rest));
      ConcatAssociative(done, [first], UnsignMembers(rest));
    }
  }

  //////// Scanning what dump has written ////////

  /** Scanning from i gives the tokens ls and leaves the cursor at k. */
  predicate Spells(v: Text, i: nat, k: nat, ls: seq<Lexeme>)
    decreases |ls|
  {
    i <= |v| &&
    if ls == [] then i == k else SpellsOne(v, i, ls[0]) && Spells(v, Lexer.Scanned(v, i).end, k, ls[1..])
  }

  predicate SpellsOne(v: Text, i: nat, l: Lexeme) {
    i <= |v| &&
    var t := Lexer.Scanned(v, i);
    !IsFinal(t.kind) && InText(v, t) && LexemeOf(v, t) == l
  }

  lemma SpellsCons(v: Text, i: nat, k: nat, l: Lexeme, ls: seq<Lexeme>)
    requires SpellsOne(v, i, l) && Spells(v, Lexer.Scanned(v, i).end, k, ls)
    ensures Spells(v, i, k, [l] + ls)
  {
    assert ([l] + ls)[1..] == ls;
  }

  lemma {:induction false} SpellsConcat(v: Text, i: nat, m: nat, k: nat, a: seq<Lexeme>, b: seq<Lexeme>)
    requires Spells(v, i, m, a) && Spells(v, m, k, b)
    ensures Spells(v, i, k, a + b)
    decreases |a|
  {
    if a == [] {
      assert a + b == b;
    } else {
      SpellsConcat(v, Lexer.Scanned(v, i).end, m, k, a[1..], b);
      SpellsCons(v, i, k, a[0], a[1..] + b);
      assert [a[0]] + a[1..] == a;
      ConcatAssociative([a[0]], a[1..], b);
    }
  }

  lemma SpellsToken(v: Text, i: nat, l: Lexeme, k: nat)
    requires i <= |v| && Lexer.Scanned(v, i).end == k && k <= |v| && SpellsOne(v, i, l)
    ensures Spells(v, i, k, [l])
  {
    assert Spells(v, k, k, []);
  }

  lemma SpellsMark(v: Text, i: nat)
    requires i < |v| && v[i] in {0x2c, 0x3a, 0x5b, 0x5d, 0x7b, 0x7d}
    ensures Spells(v, i, i + 1, [Mark(Lexer.Ending(Lexer.First(v[i])).value)])
  {
    ScanMark(v, i);
    SpellsToken(v, i, Mark(Lexer.Ending(Lexer.First(v[i])).value), i + 1);
  }

  /** Blanks in front do not matter. */
  lemma SpellsBehindBlanks(v: Text, i: nat, m: nat, k: nat, ls: seq<Lexeme>)
    requires Blanks(v, i, m) && ls != [] && Spells(v, m, k, ls)
    ensures Spells(v, i, k, ls)
  {
    ScanBlanks(v, i, m);
  }

  lemma BlankText(v: Text, i: nat, s: Text)
    requires At(v, i, s) && forall n | 0 <= n < |s| :: Lexer.IsBlank(s[n])
    ensures Blanks(v, i, i + |s|)
  {
    forall n | i <= n < i + |s| ensures Lexer.IsBlank(v[n]) {
      assert s[n - i] == v[n - i + i];
    }
  }

  lemma JoinBlanks(v: Text, i: nat, m: nat, k: nat)
    requires Blanks(v, i, m) && Blanks(v, m, k)
    ensures Blanks(v, i, k)
  {
  }

  lemma SpellsString(v: Text, i: nat, s: Text)
    requires IsUtf8(s) && At(v, i, Quoted(s))
    ensures Spells(v, i, i + |Quoted(s)|, [StringLexeme(s)])
  {
    EscapedIsString(s);
    AtSlice(v, i, Quoted(s));
    StringIsFound(v, i, i + |Quoted(s)|);
    SpellsToken(v, i, StringLexeme(s), i + |Quoted(s)|);
  }

  lemma SpellsNumber(v: Text, i: nat, x: int)
    requires At(v, i, NumberText(x)) && EndsInteger(Lexer.ByteAt(v, i + |NumberText(x)|))
    ensures Spells(v, i, i + |NumberText(x)|, [NumberLexeme(x)])
  {
    hide Lexer.Scanned, Spells;
    if x < 0 {
      ScanNegative(v, i, -x);
    } else {
      ScanUnsigned(v, i, x);
    }
    AtSlice(v, i, NumberText(x));
    SpellsToken(v, i, NumberLexeme(x), i + |NumberText(x)|);
  }

  lemma SpellsLiteral(v: Text, i: nat, j: Json)
    requires j.Null? || j.Bool?
    requires At(v, i, if j.Null? then Lexer.NULL_TEXT else if j.b then Lexer.TRUE_TEXT else Lexer.FALSE_TEXT)
    ensures Spells(v, i, i + (if j.Bool? && !j.b then 5 else 4), Yield(TreeOf(j)))
  {
    hide At, Lexer.Scanned;
    ByteOf(v, i, if j.Null? then Lexer.NULL_TEXT else if j.b then Lexer.TRUE_TEXT else Lexer.FALSE_TEXT, 0);
    if j.Null? {
      ScanNull(v, i);
      SpellsToken(v, i, Mark(Lexer.LiteralNull), i + 4);
    } else if j.b {
      ScanTrue(v, i);
      SpellsToken(v, i, Mark(Lexer.LiteralTrue), i + 4);
    } else {
      ScanFalse(v, i);
      SpellsToken(v, i, Mark(Lexer.LiteralFalse), i + 5);
    }
  }

  /** The text is scanned into the tokens ls wherever it stands in front of something that can end a number. */
  ghost predicate ScansAs(text: Text, ls: seq<Lexeme>) {
    forall v: Text, i: nat {:trigger At(v, i, text)} |
      At(v, i, text) && EndsInteger(Lexer.ByteAt(v, i + |text|)) :: Spells(v, i, i + |text|, ls)
  }

  ghost predicate AllScanAs(parts: seq<Text>, lists: seq<seq<Lexeme>>) {
    |parts| == |lists| && forall n | 0 <= n < |parts| :: ScansAs(parts[n], lists[n]) && lists[n] != []
  }

  predicate IsOpen(b: byte) {
    b in {0x5b, 0x7b}
  }

  predicate IsClose(b: byte) {
    b in {0x5d, 0x7d}
  }

  /** The token of a bracket, a comma or a colon. */
  function MarkOf(b: byte): Lexeme
    requires b in {0x2c, 0x3a, 0x5b, 0x5d, 0x7b, 0x7d}
  {
    Mark(Lexer.Ending(Lexer.First(b)).value)
  }

  lemma EmptyScans(open: byte, close: byte)
    requires IsOpen(open) && IsClose(close)
    ensures ScansAs([open, close], [MarkOf(open)] + [] + [MarkOf(close)])
  {
    forall v: Text, i: nat | At(v, i, [open, close])
      ensures Spells(v, i, i + 2, [MarkOf(open)] + [] + [MarkOf(close)])
    {
      assert [open, close] == [open] + [close];
      AtParts(v, i, [open], [close]);
      ByteIsThere(v, i, open);
      ByteIsThere(v, i + 1, close);
      SpellsMark(v, i);
      SpellsMark(v, i + 1);
      SpellsConcat(v, i, i + 1, i + 2, [MarkOf(open)], [MarkOf(close)]);
      assert [MarkOf(open)] + [MarkOf(close)] == [MarkOf(open)] + [] + [MarkOf(close)];
    }
  }

  /** Where the pieces of a block stand: the lines from k to n, the closing bracket at e. */
  lemma BlockStands(v: Text, i: nat, open: byte, lines: Text, f: Layout, indent: uint32, close: byte)
    requires At(v, i, [open] + Block(lines, f, indent) + [close])
    ensures var k := i + 1 + |f.Break()|;
            var n := k + |lines|;
            var e := n + |f.Break()| + indent;
            e < |v| && v[i] == open && Blanks(v, i + 1, k) && At(v, k, lines) && Blanks(v, n, e) && v[e] == close
  {
    hide SamePiece;
    var b, s := f.Break(), Spaces(indent);
    var n := i + 1 + |b| + |lines|;
    AtParts(v, i, [open] + Block(lines, f, indent), [close]);
    AtParts(v, i, [open], Block(lines, f, indent));
    AtParts(v, i + 1, b + lines + b, s);
    AtParts(v, i + 1, b + lines, b);
    AtParts(v, i + 1, b, lines);
    ByteIsThere(v, i, open);
    ByteIsThere(v, n + |b| + |s|, close);
    BlankText(v, i + 1, b);
    BlankText(v, n, b);
    BlankText(v, n + |b|, s);
    JoinBlanks(v, n, n + |b|, n + |b| + |s|);
  }

  /** Tokens between brackets, with blanks around them. */
  lemma EnclosedSpells(v: Text, i: nat, k: nat, n: nat, e: nat, ls: seq<Lexeme>)
    requires i < e < |v| && IsOpen(v[i]) && IsClose(v[e]) && Blanks(v, i + 1, k) && Blanks(v, n, e)
    requires ls != [] && Spells(v, k, n, ls)
    ensures Spells(v, i, e + 1, [MarkOf(v[i])] + ls + [MarkOf(v[e])])
  {
    MarkThenSpells(v, i, k, n, ls);
    SpellsMark(v, e);
    SpellsBehindBlanks(v, n, e, e + 1, [MarkOf(v[e])]);
    SpellsConcat(v, i, n, e + 1, [MarkOf(v[i])] + ls, [MarkOf(v[e])]);
  }

  /** A bracket, comma or colon, blanks, and the tokens behind them. */
  lemma MarkThenSpells(v: Text, i: nat, k: nat, n: nat, ls: seq<Lexeme>)
    requires i < |v| && v[i] in {0x2c, 0x3a, 0x5b, 0x5d, 0x7b, 0x7d} && Blanks(v, i + 1, k)
    requires ls != [] && Spells(v, k, n, ls)
    ensures Spells(v, i, n, [MarkOf(v[i])] + ls)
  {
    SpellsMark(v, i);
    SpellsBehindBlanks(v, i + 1, k, n, ls);
    SpellsConcat(v, i, i + 1, n, [MarkOf(v[i])], ls);
  }

  /** A blank or a bracket ends a number. */
  lemma NumberEnds(v: Text, n: nat, e: nat)
    requires Blanks(v, n, e) && e < |v| && IsClose(v[e])
    ensures EndsInteger(Lexer.ByteAt(v, n))
  {
  }

  lemma BlockScansAt(v: Text, i: nat, open: byte, lines: Text, f: Layout, indent: uint32, close: byte, ls: seq<Lexeme>)
    requires IsOpen(open) && IsClose(close) && ls != [] && ScansAs(lines, ls)
    requires At(v, i, [open] + Block(lines, f, indent) + [close])
    ensures Spells(v, i, i + |[open] + Block(lines, f, indent) + [close]|, [MarkOf(open)] + ls + [MarkOf(close)])
  {
    hide Spells, Blanks, At;
    var k := i + 1 + |f.Break()|;
    var n := k + |lines|;
    var e := n + |f.Break()| + indent;
    BlockStands(v, i, open, lines, f, indent, close);
    NumberEnds(v, n, e);
    assert Spells(v, k, n, ls);
    EnclosedSpells(v, i, k, n, e, ls);
  }

  /** Lines in brackets. */
  lemma BlockScans(open: byte, lines: Text, f: Layout, indent: uint32, close: byte, ls: seq<Lexeme>)
    requires IsOpen(open) && IsClose(close) && ls != [] && ScansAs(lines, ls)
    ensures ScansAs([open] + Block(lines, f, indent) + [close], [MarkOf(open)] + ls + [MarkOf(close)])
  {
    hide Spells, Block;
    var text := [open] + Block(lines, f, indent) + [close];
    forall v: Text, i: nat | At(v, i, text)
      ensures Spells(v, i, i + |text|, [MarkOf(open)] + ls + [MarkOf(close)])
    {
      BlockScansAt(v, i, open, lines, f, indent, close, ls);
    }
  }

  /** Where a part, the separator and the rest stand. */
  lemma ListPieces(v: Text, i: nat, part: Text, f: Layout, rest: Text)
    requires At(v, i, part + (f.Separator() + rest))
    ensures var c := i + |part|;
            var n := c + |f.Separator()|;
            At(v, i, part) && c < |v| && v[c] == COMMA && Blanks(v, c + 1, n) && At(v, n, rest) &&
            EndsInteger(Lexer.ByteAt(v, c)) && n + |rest| == i + |part + (f.Separator() + rest)|
  {
    var sep := f.Separator();
    var c := i + |part|;
    var b := f.Break();
    assert sep == [COMMA] + b;
    AtParts(v, i, part, sep + rest);
    AtParts(v, c, sep, rest);
    AtParts(v, c, [COMMA], b);
    ByteIsThere(v, c, COMMA);
    BlankText(v, c + 1, b);
  }

  lemma CommaSpells(v: Text, i: nat, c: nat, n: nat, k: nat, ls: seq<Lexeme>, more: seq<Lexeme>)
    requires Spells(v, i, c, ls) && c < |v| && v[c] == COMMA && Blanks(v, c + 1, n)
    requires Spells(v, n, k, more) && more != []
    ensures Spells(v, i, k, ls + ([Mark(Lexer.ValueSeparator)] + more))
  {
    MarkThenSpells(v, c, n, k, more);
    SpellsConcat(v, i, c, k, ls, [Mark(Lexer.ValueSeparator)] + more);
  }

  lemma {:induction false} ListScans(parts: seq<Text>, lists: seq<seq<Lexeme>>, f: Layout)
    requires AllScanAs(parts, lists) && parts != []
    ensures ScansAs(Listed(parts, f.Separator()), Separated(lists)) && Separated(lists) != []
  {
    if |parts| == 1 {
      assert Listed(parts, f.Separator()) == parts[0] && Separated(lists) == lists[0];
    } else {
      ListScans(parts[1..], lists[1..], f);
      ConsScans(parts[0], Listed(parts[1..], f.Separator()), f, lists[0], Separated(lists[1..]));
    }
  }

  lemma ConsScans(part: Text, rest: Text, f: Layout, ls: seq<Lexeme>, more: seq<Lexeme>)
    requires ScansAs(part, ls) && ScansAs(rest, more) && more != []
    ensures ScansAs(part + (f.Separator() + rest), ls + ([Mark(Lexer.ValueSeparator)] + more))
  {
    var text, sep := part + (f.Separator() + rest), f.Separator();
    forall v: Text, i: nat | At(v, i, text) && EndsInteger(Lexer.ByteAt(v, i + |text|))
      ensures Spells(v, i, i + |text|, ls + ([Mark(Lexer.ValueSeparator)] + more))
    {
      ListPieces(v, i, part, f, rest);
      CommaSpells(v, i, i + |part|, i + |part| + |sep|, i + |text|, ls, more);
    }
  }

  /** Indentation in front. */
  lemma IndentedScans(indent: uint32, text: Text, ls: seq<Lexeme>)
    requires ScansAs(text, ls) && ls != []
    ensures ScansAs(Spaces(indent) + text, ls)
  {
    var s := Spaces(indent);
    forall v: Text, i: nat | At(v, i, s + text) && EndsInteger(Lexer.ByteAt(v, i + |s + text|))
      ensures Spells(v, i, i + |s + text|, ls)
    {
      AtParts(v, i, s, text);
      BlankText(v, i, s);
      SpellsBehindBlanks(v, i, i + |s|, i + |s + text|, ls);
    }
  }

  /** Where the pieces of a member stand: the key at i, the colon at c, the value at n. */
  lemma MemberPieces(v: Text, i: nat, key: Text, blank: Text, text: Text)
    requires At(v, i, Quoted(key) + ([COLON] + (blank + text))) && blank in {[], [SPACE]}
    ensures var c := i + |Quoted(key)|;
            var n := c + 1 + |blank|;
            At(v, i, Quoted(key)) && c < |v| && v[c] == COLON && Blanks(v, c + 1, n) && At(v, n, text)
  {
    var q := Quoted(key);
    var c := i + |q|;
    AtParts(v, i, q, [COLON] + (blank + text));
    AtParts(v, c, [COLON], blank + text);
    AtParts(v, c + 1, blank, text);
    ByteIsThere(v, c, COLON);
    BlankText(v, c + 1, blank);
  }

  lemma MemberText(s: Text, e: Text, blank: Text, text: Text)
    ensures s + [QUOTE] + e + ([QUOTE, COLON] + blank) + text ==
            s + (([QUOTE] + e + [QUOTE]) + ([COLON] + (blank + text)))
  {
    assert [QUOTE, COLON] + blank == [QUOTE] + ([COLON] + blank);
    ConcatAssociative([COLON], blank, text);
    ConcatAssociative([QUOTE], [COLON] + blank, text);
    ConcatAssociative(s, [QUOTE], e);
    ConcatAssociative(s, [QUOTE] + e, [QUOTE] + ([COLON] + blank));
    ConcatAssociative([QUOTE] + e, [QUOTE], [COLON] + blank);
    ConcatAssociative(s, ([QUOTE] + e + [QUOTE]) + ([COLON] + blank), text);
    ConcatAssociative([QUOTE] + e + [QUOTE], [COLON] + blank, text);
  }

  lemma ColonSpells(v: Text, i: nat, c: nat, n: nat, k: nat, key: Lexeme, ls: seq<Lexeme>)
    requires Spells(v, i, c, [key]) && c < |v| && v[c] == COLON && Blanks(v, c + 1, n)
    requires Spells(v, n, k, ls) && ls != []
    ensures Spells(v, i, k, [key, Mark(Lexer.NameSeparator)] + ls)
  {
    MarkThenSpells(v, c, n, k, ls);
    SpellsConcat(v, i, c, k, [key], [Mark(Lexer.NameSeparator)] + ls);
    assert [key] + ([Mark(Lexer.NameSeparator)] + ls) == [key, Mark(Lexer.NameSeparator)] + ls;
  }

  lemma PairScansAt(v: Text, i: nat, key: Text, blank: Text, text: Text, ls: seq<Lexeme>)
    requires IsUtf8(key) && blank in {[], [SPACE]} && ScansAs(text, ls) && ls != []
    requires var whole := Quoted(key) + ([COLON] + (blank + text));
             At(v, i, whole) && EndsInteger(Lexer.ByteAt(v, i + |whole|))
    ensures Spells(v, i, i + |Quoted(key) + ([COLON] + (blank + text))|,
                   [StringLexeme(key), Mark(Lexer.NameSeparator)] + ls)
  {
    hide Spells, Blanks, At, Escaped;
    var c := i + |Quoted(key)|;
    var n := c + 1 + |blank|;
    MemberPieces(v, i, key, blank, text);
    SpellsString(v, i, key);
    assert Spells(v, n, n + |text|, ls);
    ColonSpells(v, i, c, n, n + |text|, StringLexeme(key), ls);
  }

  /** A key, a colon and a value. */
  lemma PairScans(key: Text, blank: Text, text: Text, ls: seq<Lexeme>)
    requires IsUtf8(key) && blank in {[], [SPACE]} && ScansAs(text, ls) && ls != []
    ensures ScansAs(Quoted(key) + ([COLON] + (blank + text)), [StringLexeme(key), Mark(Lexer.NameSeparator)] + ls)
  {
    var whole := Quoted(key) + ([COLON] + (blank + text));
    forall v: Text, i: nat | At(v, i, whole) && EndsInteger(Lexer.ByteAt(v, i + |whole|))
      ensures Spells(v, i, i + |whole|, [StringLexeme(key), Mark(Lexer.NameSeparator)] + ls)
    {
      PairScansAt(v, i, key, blank, text, ls);
    }
  }

  lemma {:induction false} MemberScans(m: Member, f: Layout, indent: uint32)
    requires IsUtf8(m.key) && HasUtf8(m.value)
    ensures ScansAs(DumpedMember(m, f, indent), YieldEntry(EntryOf(m)))
    decreases m, 2
  {
    var blank := if f.pretty then [SPACE] else [];
    var text := Dumped(m.value, f, indent);
    DumpScans(m.value, f, indent);
    PairScans(m.key, blank, text, Yield(TreeOf(m.value)));
    IndentedScans(indent, Quoted(m.key) + ([COLON] + (blank + text)), YieldEntry(EntryOf(m)));
    assert f.KeyEnd() == [QUOTE, COLON] + blank;
    MemberText(Spaces(indent), Escaped(m.key), blank, text);
  }

  lemma {:induction false} ItemsScan(es: seq<Json>, f: Layout, indent: uint32)
    requires HasUtf8(Arr(es))
    ensures AllScanAs(DumpedItems(es, f, indent), YieldItems(TreesOf(es)))
    decreases es, 0
  {
    if es == [] {
    } else {
      DumpScans(es[0], f, indent);
      IndentedScans(indent, Dumped(es[0], f, indent), Yield(TreeOf(es[0])));
      ItemsScan(es[1..], f, indent);
    }
  }

  lemma {:induction false} MembersScan(ms: seq<Member>, f: Layout, indent: uint32)
    requires HasUtf8(Obj(ms))
    ensures AllScanAs(DumpedMembers(ms, f, indent), YieldEntries(EntriesOf(ms)))
    decreases ms, 0
  {
    if ms == [] {
    } else {
      MemberScans(ms[0], f, indent);
      MembersScan(ms[1..], f, indent);
    }
  }

  lemma {:induction false} ArrayScans(es: seq<Json>, f: Layout, indent: uint32)
    requires HasUtf8(Arr(es))
    ensures ScansAs(Dumped(Arr(es), f, indent), Yield(TreeOf(Arr(es))))
    decreases es, 2
  {
    hide ScansAs, AllScanAs, DumpedItem;
    if es == [] {
      EmptyScans(0x5b, 0x5d);
    } else {
      var inner := f.Inner(indent);
      var parts, lists := DumpedItems(es, f, inner), YieldItems(TreesOf(es));
      ItemsScan(es, f, inner);
      ListScans(parts, lists, f);
      BlockScans(0x5b, Listed(parts, f.Separator()), f, indent, 0x5d, Separated(lists));
    }
  }

  lemma {:induction false} ObjectScans(ms: seq<Member>, f: Layout, indent: uint32)
    requires HasUtf8(Obj(ms))
    ensures ScansAs(Dumped(Obj(ms), f, indent), Yield(TreeOf(Obj(ms))))
    decreases ms, 2
  {
    hide ScansAs, AllScanAs, IsUtf8, DumpedMember;
    if ms == [] {
      EmptyScans(0x7b, 0x7d);
    } else {
      var inner := f.Inner(indent);
      var parts, lists := DumpedMembers(ms, f, inner), YieldEntries(EntriesOf(ms));
      MembersScan(ms, f, inner);
      ListScans(parts, lists, f);
      BlockScans(0x7b, Listed(parts, f.Separator()), f, indent, 0x7d, Separated(lists));
    }
  }

  /** The text of a value is scanned into the tokens of its derivation. */
  lemma {:induction false} DumpScans(j: Json, f: Layout, indent: uint32)
    requires HasUtf8(j)
    ensures ScansAs(Dumped(j, f, indent), Yield(TreeOf(j)))
    decreases j, 1
  {
    match j {
      case Arr(es) => ArrayScans(es, f, indent);
      case Obj(ms) => ObjectScans(ms, f, indent);
      case _ => ScalarScans(j, f, indent);
    }
  }

  lemma ScalarScans(j: Json, f: Layout, indent: uint32)
    requires HasUtf8(j) && IsPrimitive(j)
    ensures ScansAs(Dumped(j, f, indent), Yield(TreeOf(j)))
  {
    hide Spells, Escaped, NumberText;
    var text := Dumped(j, f, indent);
    forall v: Text, i: nat | At(v, i, text) && EndsInteger(Lexer.ByteAt(v, i + |text|))
      ensures Spells(v, i, i + |text|, Yield(TreeOf(j)))
    {
      match j {
        case Int(n) => SpellsNumber(v, i, n);
        case Uint(n) => SpellsNumber(v, i, n);
        case Str(s) => SpellsString(v, i, s);
        case _ => SpellsLiteral(v, i, j);
      }
    }
  }

  //////// Round trip ////////

  lemma {:induction false} SpelledLexemes(v: Text, i: nat, ls: seq<Lexeme>)
    requires Spells(v, i, |v|, ls)
    ensures Lexemes(v, i) == ls + [Mark(Lexer.EndOfInput)]
    decreases |ls|
  {
    if ls == [] {
      assert [] + [Mark(Lexer.EndOfInput)] == [Mark(Lexer.EndOfInput)];
    } else {
      var t := Lexer.Scanned(v, i);
      SpelledLexemes(v, t.end, ls[1..]);
      assert ls == [ls[0]] + ls[1..];
      ConcatAssociative([ls[0]], ls[1..], [Mark(Lexer.EndOfInput)]);
    }
  }

  /** parse(dump(j)) == j by operator==; only a non-negative signed integer becomes an unsigned one. */
  lemma ParseUndoesDump(j: Json, f: Layout, indent: uint32)
    requires Ordered(j) && HasUtf8(j)
    ensures ParseText(Dumped(j, f, indent)) == Ok(Unsign(j))
    ensures Eq(Unsign(j), j)
  {
    var v := Dumped(j, f, indent);
    assert At(v, 0, v);
    DumpScans(j, f, indent);
    SpelledLexemes(v, 0, Yield(TreeOf(j)));
    TreeMeans(j);
    DerivedIsParsed(Lexemes(v, 0), TreeOf(j));
    UnsignIsEqual(j);
  }
}
