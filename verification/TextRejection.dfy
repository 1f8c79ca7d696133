// A string that is not well-formed UTF-8 can be dumped, but not parsed: with TextRoundTrip, parsing undoes dumping
// for exactly the values whose strings and keys are UTF-8.

module TextRejection {
  import opened ByteStrings
  import opened JsonValue
  import opened Utf8
  import opened JsonString
  import opened StringGrammar
  import Lexer
  import opened LexerLaws
  import opened TokenGrammar
  import opened JsonGrammar
  import opened JsonGrammarLaws
  import opened JsonParser
  import opened JsonDump
  import opened TextRoundTrip

  //////// The automaton inside a string that is not UTF-8 ////////

  lemma EscapedHigh(c: byte)
    ensures if c >= 0x80 then EscapedChar(c) == [c] else EscapedChar(c)[0] < 0x80
  {
  }

  lemma FirstOfEscaped(v: Text, k: nat, s: Text)
    requires At(v, k, Escaped(s) + [QUOTE])
    ensures k < |v| && (v[k] >= 0x80 ==> s != [] && v[k] == s[0])
    ensures s != [] && s[0] >= 0x80 ==> v[k] == s[0] && At(v, k + 1, Escaped(s[1..]) + [QUOTE])
  {
    hide EscapedChar;
    var e := Escaped(s) + [QUOTE];
    assert e[0] == v[0 + k];
    if s != [] {
      EscapedHigh(s[0]);
      ConcatAssociative(EscapedChar(s[0]), Escaped(s[1..]), [QUOTE]);
      assert e == EscapedChar(s[0]) + (Escaped(s[1..]) + [QUOTE]);
      AtParts(v, k, EscapedChar(s[0]), Escaped(s[1..]) + [QUOTE]);
    }
  }

  /** Bytes beyond ASCII are copied. */
  lemma {:induction false} RawPrefix(v: Text, k: nat, n: nat, s: Text)
    requires At(v, k, Escaped(s) + [QUOTE]) && k + n <= |v| && forall i | k <= i < k + n :: v[i] >= 0x80
    ensures n <= |s| && v[k..k + n] == s[..n]
    decreases n
  {
    if n == 0 {
    } else {
      FirstOfEscaped(v, k, s);
      RawPrefix(v, k + 1, n - 1, s[1..]);
      assert v[k..k + n] == [v[k]] + v[k + 1..k + n];
      assert s[..n] == [s[0]] + s[1..][..n - 1];
    }
  }

  lemma HighCharAt(v: Text, k: nat, n: nat)
    requires CharAt(v, k, n) && v[k] >= 0x80
    ensures IsUtf8Char(v[k..k + n]) && forall i | k <= i < k + n :: v[i] >= 0x80
  {
    var c := v[k..k + n];
    assert forall i | k <= i < k + n :: v[i] == c[i - k];
    assert c[0] == v[k];
  }

  /** Where s does not begin with a character, the automaton is stuck. */
  lemma StuckAtByte(v: Text, k: nat, m: nat, s: Text)
    requires At(v, k, Escaped(s) + [QUOTE]) && m <= |v| && s != [] && s[0] >= 0x80
    requires forall n | 0 < n <= |s| :: !IsUtf8Char(s[..n])
    ensures StringRun(v, k, m) == (Lexer.ParseError, m)
  {
    hide IsUtf8Char, Escaped, At, StringRun, LengthFrom;
    FirstOfEscaped(v, k, s);
    var n := LengthFrom(v[k], Lexer.ByteAt(v, k + 1));
    if CharAt(v, k, n) {
      HighCharAt(v, k, n);
      RawPrefix(v, k, n, s);
    }
    Stuck(v, k, m);
  }

  lemma Utf8Front(s: Text, n: nat)
    requires 0 < n <= |s| && IsUtf8Char(s[..n]) && !IsUtf8(s)
    ensures !IsUtf8(s[n..])
  {
    assert s == s[..n] + s[n..];
    if IsUtf8(s[n..]) {
      Utf8Single(s[..n]);
      Utf8Concat(s[..n], s[n..]);
    }
  }

  lemma AsciiFront(s: Text)
    requires s != [] && s[0] < 0x80
    ensures IsUtf8Char(s[..1])
  {
  }

  lemma {:induction false} StuckInside(v: Text, k: nat, m: nat, s: Text)
    requires At(v, k, Escaped(s) + [QUOTE]) && m <= |v| && !IsUtf8(s)
    ensures StringRun(v, k, m) == (Lexer.ParseError, m)
    decreases |s|, 1
  {
    if s == [] {
      Utf8Empty();
    } else if s[0] < 0x80 {
      AsciiFront(s);
      StuckBehindChar(v, k, m, s, 1);
    } else if n: nat :| 0 < n <= |s| && IsUtf8Char(s[..n]) {
      StuckBehindChar(v, k, m, s, n);
    } else {
      StuckAtByte(v, k, m, s);
    }
  }

  lemma {:induction false} StuckBehindChar(v: Text, k: nat, m: nat, s: Text, n: nat)
    requires At(v, k, Escaped(s) + [QUOTE]) && m <= |v| && !IsUtf8(s)
    requires 0 < n <= |s| && IsUtf8Char(s[..n])
    ensures StringRun(v, k, m) == (Lexer.ParseError, m)
    decreases |s|, 0
  {
    hide IsUtf8, IsUtf8Char, Escaped, At, StringRun;
    var c, t := s[..n], s[n..];
    assert s == c + t;
    EscapedConcat(c, t);
    ConcatAssociative(Escaped(c), Escaped(t), [QUOTE]);
    AtParts(v, k, Escaped(c), Escaped(t) + [QUOTE]);
    EscapedIsChar(c);
    AtSlice(v, k, Escaped(c));
    EscapedCharAt(v, k, c);
    CharStep(v, k, m, |Escaped(c)|);
    Utf8Front(s, n);
    StuckInside(v, k + |Escaped(c)|, m, t);
  }

  lemma EscapedCharAt(v: Text, k: nat, c: Text)
    requires At(v, k, Escaped(c)) && c != [] && IsChar(Escaped(c))
    ensures CharAt(v, k, |Escaped(c)|)
  {
    AtSlice(v, k, Escaped(c));
  }

  //////// Scanning up to an error ////////

  /** The tokens from i on end in an error. */
  predicate Fails(v: Text, i: nat) {
    i <= |v| && Lexemes(v, i)[|Lexemes(v, i)| - 1].kind == Lexer.ParseError
  }

  /** Wherever the text stands, scanning ends in an error. */
  ghost predicate AlwaysFails(text: Text) {
    forall v: Text, i: nat {:trigger At(v, i, text)} | At(v, i, text) :: Fails(v, i)
  }

  lemma {:induction false} SpellsThenFails(v: Text, i: nat, k: nat, ls: seq<Lexeme>)
    requires Spells(v, i, k, ls) && Fails(v, k)
    ensures Fails(v, i)
    decreases |ls|
  {
    if ls == [] {
    } else {
      var t := Lexer.Scanned(v, i);
      SpellsThenFails(v, t.end, k, ls[1..]);
      assert Lexemes(v, i) == [LexemeOf(v, t)] + Lexemes(v, t.end);
    }
  }

  lemma BlanksThenFails(v: Text, i: nat, m: nat)
    requires Blanks(v, i, m) && Fails(v, m)
    ensures Fails(v, i)
  {
    ScanBlanks(v, i, m);
  }

  lemma StringFails(s: Text, rest: Text)
    requires !IsUtf8(s)
    ensures AlwaysFails(Quoted(s) + rest)
  {
    forall v: Text, i: nat | At(v, i, Quoted(s) + rest) ensures Fails(v, i) {
      AtParts(v, i, Quoted(s), rest);
      ConcatAssociative([QUOTE], Escaped(s), [QUOTE]);
      AtParts(v, i, [QUOTE], Escaped(s) + [QUOTE]);
      ByteIsThere(v, i, QUOTE);
      QuoteStarts(v, i);
      StuckInside(v, i + 1, i + 1, s);
    }
  }

  lemma FailsInFront(text: Text, rest: Text)
    requires AlwaysFails(text)
    ensures AlwaysFails(text + rest)
  {
    forall v: Text, i: nat | At(v, i, text + rest) ensures Fails(v, i) {
      AtParts(v, i, text, rest);
    }
  }

  lemma FailsBehindBlanks(s: Text, text: Text)
    requires AlwaysFails(text) && forall n | 0 <= n < |s| :: Lexer.IsBlank(s[n])
    ensures AlwaysFails(s + text)
  {
    hide At, Fails, Blanks;
    forall v: Text, i: nat | At(v, i, s + text) ensures Fails(v, i) {
      AtParts(v, i, s, text);
      BlankText(v, i, s);
      BlanksThenFails(v, i, i + |s|);
    }
  }

  lemma FailsBehindMark(b: byte, text: Text)
    requires b in {0x2c, 0x3a, 0x5b, 0x5d, 0x7b, 0x7d} && AlwaysFails(text)
    ensures AlwaysFails([b] + text)
  {
    hide At, Fails, Spells;
    forall v: Text, i: nat | At(v, i, [b] + text) ensures Fails(v, i) {
      AtParts(v, i, [b], text);
      ByteIsThere(v, i, b);
      SpellsMark(v, i);
      SpellsThenFails(v, i, i + 1, [MarkOf(b)]);
    }
  }

  /** Behind a text that is scanned into tokens, in front of a comma. */
  lemma FailsBehind(part: Text, ls: seq<Lexeme>, text: Text)
    requires ScansAs(part, ls) && AlwaysFails(text) && text != [] && EndsInteger(text[0])
    ensures AlwaysFails(part + text)
  {
    forall v: Text, i: nat | At(v, i, part + text) ensures Fails(v, i) {
      AtParts(v, i, part, text);
      assert text[0] == v[0 + (i + |part|)];
      SpellsThenFails(v, i, i + |part|, ls);
    }
  }

  //////// Dumped values ////////

  lemma BlockFails(open: byte, lines: Text, f: Layout, indent: uint32, close: byte)
    requires IsOpen(open) && AlwaysFails(lines)
    ensures AlwaysFails([open] + Block(lines, f, indent) + [close])
  {
    var b, s := f.Break(), Spaces(indent);
    FailsBehindBlanks(b, lines);
    FailsInFront(b + lines, b);
    FailsInFront(b + lines + b, s);
    FailsBehindMark(open, b + lines + b + s);
    FailsInFront([open] + Block(lines, f, indent), [close]);
  }

  /** The separator and the lines behind it. */
  lemma SeparatorFails(f: Layout, lines: Text)
    requires AlwaysFails(lines)
    ensures AlwaysFails(f.Separator() + lines)
  {
    FailsBehindBlanks(f.Break(), lines);
    FailsBehindMark(COMMA, f.Break() + lines);
    assert f.Separator() + lines == [COMMA] + (f.Break() + lines);
  }

  lemma FirstPartFails(parts: seq<Text>, sep: Text)
    requires parts != [] && AlwaysFails(parts[0])
    ensures AlwaysFails(Listed(parts, sep))
  {
    if |parts| > 1 {
      FailsInFront(parts[0], sep + Listed(parts[1..], sep));
    }
  }

  lemma LaterPartFails(parts: seq<Text>, f: Layout, ls: seq<Lexeme>)
    requires |parts| > 1 && ScansAs(parts[0], ls) && AlwaysFails(Listed(parts[1..], f.Separator()))
    ensures AlwaysFails(Listed(parts, f.Separator()))
  {
    var rest := Listed(parts[1..], f.Separator());
    SeparatorFails(f, rest);
    FailsBehind(parts[0], ls, f.Separator() + rest);
  }

  lemma HasUtf8NotEmpty(j: Json)
    requires !HasUtf8(j)
    ensures j.Arr? ==> j.es != []
    ensures j.Obj? ==> j.ms != []
  {
  }

  lemma HasUtf8Items(es: seq<Json>)
    requires es != []
    ensures HasUtf8(Arr(es)) <==> HasUtf8(es[0]) && HasUtf8(Arr(es[1..]))
  {
    assert forall i | 0 < i < |es| :: es[i] == es[1..][i - 1];
  }

  lemma HasUtf8Members(ms: seq<Member>)
    requires ms != []
    ensures HasUtf8(Obj(ms)) <==> IsUtf8(ms[0].key) && HasUtf8(ms[0].value) && HasUtf8(Obj(ms[1..]))
  {
    assert forall i | 0 < i < |ms| :: ms[i] == ms[1..][i - 1];
  }

  lemma {:induction false} ItemsFail(es: seq<Json>, f: Layout, indent: uint32)
    requires !HasUtf8(Arr(es))
    ensures AlwaysFails(Listed(DumpedItems(es, f, indent), f.Separator()))
    decreases es, 2
  {
    hide HasUtf8, AlwaysFails, ScansAs, Dumped, Listed;
    HasUtf8NotEmpty(Arr(es));
    HasUtf8Items(es);
    var parts := DumpedItems(es, f, indent);
    assert DumpedItem(es[0], f, indent) == Spaces(indent) + Dumped(es[0], f, indent);
    assert parts[0] == DumpedItem(es[0], f, indent) && parts[1..] == DumpedItems(es[1..], f, indent);
    if HasUtf8(es[0]) {
      HasUtf8NotEmpty(Arr(es[1..]));
      ItemsFail(es[1..], f, indent);
      DumpScans(es[0], f, indent);
      IndentedScans(indent, Dumped(es[0], f, indent), Yield(TreeOf(es[0])));
      LaterPartFails(parts, f, Yield(TreeOf(es[0])));
    } else {
      DumpFails(es[0], f, indent);
      FailsBehindBlanks(Spaces(indent), Dumped(es[0], f, indent));
      FirstPartFails(parts, f.Separator());
    }
  }

  /** A member whose key or value is not UTF-8. */
  lemma {:induction false} MemberFails(m: Member, f: Layout, indent: uint32)
    requires !(IsUtf8(m.key) && HasUtf8(m.value))
    ensures AlwaysFails(DumpedMember(m, f, indent))
    decreases m, 2
  {
    var blank := if f.pretty then [SPACE] else [];
    var text := Dumped(m.value, f, indent);
    assert f.KeyEnd() == [QUOTE, COLON] + blank;
    MemberText(Spaces(indent), Escaped(m.key), blank, text);
    var pair := [COLON] + (blank + text);
    if IsUtf8(m.key) {
      DumpFails(m.value, f, indent);
      FailsBehindBlanks(blank, text);
      FailsBehindMark(COLON, blank + text);
      QuotedScans(m.key);
      FailsBehind(Quoted(m.key), [StringLexeme(m.key)], pair);
    } else {
      StringFails(m.key, pair);
    }
    FailsBehindBlanks(Spaces(indent), Quoted(m.key) + pair);
  }

  lemma QuotedScans(s: Text)
    requires IsUtf8(s)
    ensures ScansAs(Quoted(s), [StringLexeme(s)])
  {
    forall v: Text, i: nat | At(v, i, Quoted(s)) ensures Spells(v, i, i + |Quoted(s)|, [StringLexeme(s)]) {
      SpellsString(v, i, s);
    }
  }

  lemma {:induction false} MembersFail(ms: seq<Member>, f: Layout, indent: uint32)
    requires !HasUtf8(Obj(ms))
    ensures AlwaysFails(Listed(DumpedMembers(ms, f, indent), f.Separator()))
    decreases ms, 3
  {
    hide HasUtf8, AlwaysFails, ScansAs, Dumped, DumpedMember, Listed;
    HasUtf8NotEmpty(Obj(ms));
    HasUtf8Members(ms);
    var parts := DumpedMembers(ms, f, indent);
    assert parts[0] == DumpedMember(ms[0], f, indent) && parts[1..] == DumpedMembers(ms[1..], f, indent);
    if IsUtf8(ms[0].key) && HasUtf8(ms[0].value) {
      HasUtf8NotEmpty(Obj(ms[1..]));
      MembersFail(ms[1..], f, indent);
      MemberScans(ms[0], f, indent);
      LaterPartFails(parts, f, YieldEntry(EntryOf(ms[0])));
    } else {
      MemberFails(ms[0], f, indent);
      FirstPartFails(parts, f.Separator());
    }
  }

  /** The text of a value that is not UTF-8 throughout ends in an error wherever it stands. */
  lemma {:induction false} DumpFails(j: Json, f: Layout, indent: uint32)
    requires !HasUtf8(j)
    ensures AlwaysFails(Dumped(j, f, indent))
    decreases j, 1
  {
    match j {
      case Str(s) =>
        StringFails(s, []);
        assert Quoted(s) + [] == Quoted(s);
      case Arr(es) =>
        ItemsFail(es, f, f.Inner(indent));
        BlockFails(0x5b, Listed(DumpedItems(es, f, f.Inner(indent)), f.Separator()), f, indent, 0x5d);
      case Obj(ms) =>
        MembersFail(ms, f, f.Inner(indent));
        BlockFails(0x7b, Listed(DumpedMembers(ms, f, f.Inner(indent)), f.Separator()), f, indent, 0x7d);
      case _ =>
    }
  }

  /** A text whose tokens end in an error is not parsed. */
  lemma FailedIsRejected(v: Text)
    requires Fails(v, 0)
    ensures ParseText(v).Err?
  {
    ParseTextIsGrammar(v);
    var ts := Lexemes(v, 0);
    assert forall t :: Derives(t, ts) ==> ts[|ts| - 1].kind == Lexer.EndOfInput;
  }

  /** parse(dump(j)) succeeds if and only if all strings and keys of j are well-formed UTF-8, and is then j by
      operator==. */
  lemma DumpIsParsedIffUtf8(j: Json, f: Layout, indent: uint32)
    requires Ordered(j)
    ensures ParseText(Dumped(j, f, indent)).Ok? <==> HasUtf8(j)
    ensures ParseText(Dumped(j, f, indent)).Ok? ==> Eq(ParseText(Dumped(j, f, indent)).value, j)
  {
    if HasUtf8(j) {
      ParseUndoesDump(j, f, indent);
    } else {
      var v := Dumped(j, f, indent);
      DumpFails(j, f, indent);
      assert At(v, 0, v);
      FailedIsRejected(v);
    }
  }

  /** The string of the one byte 0xff is dumped as it is, and refused. */
  lemma LoneByteIsRefused(f: Layout, indent: uint32)
    ensures ParseText(Dumped(Str([0xff]), f, indent)).Err?
  {
    assert !IsUtf8([0xff]) by {
      if IsUtf8([0xff]) {
        var cs: seq<Text> :| AllUtf8Chars(cs) && Joined(cs) == [0xff];
        assert cs != [] && IsUtf8Char(cs[0]);
        assert Joined(cs)[0] == cs[0][0];
      }
    }
    DumpIsParsedIffUtf8(Str([0xff]), f, indent);
  }
}
