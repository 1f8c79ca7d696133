// JSON texts as bytes (RFC 7159): blanks between the tokens of a derivation. The parser accepts exactly these texts,
// up to the end of the input or a null byte outside of strings.

module TextGrammar {
  import opened ByteStrings
  import opened JsonValue
  import Lexer
  import opened LexerLaws
  import opened NumberGrammar
  import opened TokenGrammar
  import opened JsonGrammar
  import opened JsonGrammarLaws
  import opened JsonParser

  //////// The grammar on bytes ////////

  /** The bytes from k to n are the token l. */
  ghost predicate LexemeAt(v: Text, k: nat, n: nat, l: Lexeme) {
    TokenAt(v, k, n, l.kind) && l == LexemeOf(v, Lexer.Token(l.kind, k, n))
  }

  /** The bytes from i to e are the tokens ls with blanks before, between and behind them. */
  ghost predicate Written(v: Text, i: nat, ls: seq<Lexeme>, e: nat)
    decreases |ls|
  {
    if ls == [] then Blanks(v, i, e)
    else exists k: nat, n: nat :: Blanks(v, i, k) && LexemeAt(v, k, n, ls[0]) && Written(v, n, ls[1..], e)
  }

  /** Nothing stands behind e, or a null byte. */
  predicate EndsText(v: Text, e: nat) {
    e <= |v| && Lexer.ByteAt(v, e) == 0
  }

  /** JSON-text = ws value ws (section 2 of RFC 7159), with the derivation t of the value. */
  ghost predicate IsText(v: Text, t: Tree) {
    IsValue(t) && exists e: nat :: Written(v, 0, Yield(t), e) && EndsText(v, e)
  }

  //////// What is scanned is written ////////

  lemma WrittenCons(v: Text, i: nat, k: nat, n: nat, l: Lexeme, ls: seq<Lexeme>, e: nat)
    requires Blanks(v, i, k) && LexemeAt(v, k, n, l) && Written(v, n, ls, e)
    ensures Written(v, i, [l] + ls, e)
  {
    hide LexemeAt, Blanks;
    assert ([l] + ls)[1..] == ls;
  }

  lemma {:induction false} ScannedIsWritten(v: Text, i: nat, ls: seq<Lexeme>) returns (e: nat)
    requires i <= |v| && Lexemes(v, i) == ls + [Mark(Lexer.EndOfInput)]
    ensures Written(v, i, ls, e) && EndsText(v, e)
    decreases |ls|
  {
    hide Lexer.Scanned, Lexemes, TokenAt, Blanks;
    var t := Lexer.Scanned(v, i);
    ScannedIsToken(v, i);
    if ls == [] {
      OnlyTheEnd(v, i);
      e := t.start;
    } else {
      FirstIsNotLast(v, i, ls);
      e := ScannedIsWritten(v, t.end, ls[1..]);
      WrittenCons(v, i, t.start, t.end, ls[0], ls[1..], e);
      assert ls == [ls[0]] + ls[1..];
    }
  }

  lemma FirstIsNotLast(v: Text, i: nat, ls: seq<Lexeme>)
    requires i <= |v| && ls != [] && Lexemes(v, i) == ls + [Mark(Lexer.EndOfInput)]
    ensures var t := Lexer.Scanned(v, i);
            !IsFinal(t.kind) && InText(v, t) && ls[0] == LexemeOf(v, t) &&
            Lexemes(v, t.end) == ls[1..] + [Mark(Lexer.EndOfInput)]
  {
    hide Lexer.Scanned, Lexemes;
    var t, all := Lexer.Scanned(v, i), Lexemes(v, i);
    LexemesUnfold(v, i);
    assert all[0] == ls[0] && |all| > 1;
    assert all[1..] == ls[1..] + [Mark(Lexer.EndOfInput)];
    assert all == [LexemeOf(v, t)] + Lexemes(v, t.end);
  }

  lemma LexemesUnfold(v: Text, i: nat)
    requires i <= |v|
    ensures var t := Lexer.Scanned(v, i);
            InText(v, t) && (!IsFinal(t.kind) ==> t.end <= |v|) &&
            Lexemes(v, i) == [LexemeOf(v, t)] + if IsFinal(t.kind) then [] else Lexemes(v, t.end)
  {
    TokenMoves(v, i);
  }

  lemma OnlyTheEnd(v: Text, i: nat)
    requires i <= |v| && Lexemes(v, i) == [] + [Mark(Lexer.EndOfInput)]
    ensures Lexer.Scanned(v, i).kind == Lexer.EndOfInput
  {
    LexemesUnfold(v, i);
    assert Lexemes(v, i)[0] == Mark(Lexer.EndOfInput);
  }

  //////// What is written is scanned ////////

  /** What may stand behind a number in a derivation. */
  predicate Closes(kind: Lexer.TokenType) {
    kind.ValueSeparator? || kind.EndArray? || kind.EndObject?
  }

  predicate NumbersEnd(ls: seq<Lexeme>) {
    forall n | 0 <= n < |ls| - 1 && IsNumber(ls[n].kind) :: Closes(ls[n + 1].kind)
  }

  /** A token or the end of the text ends a number in front of it, with or without blanks between. */
  lemma {:induction false} NumberIsEnded(v: Text, i: nat, ls: seq<Lexeme>, e: nat)
    requires Written(v, i, ls, e) && EndsText(v, e) && (ls != [] ==> Closes(ls[0].kind))
    ensures EndsNumber(Lexer.ByteAt(v, i))
  {
    hide NumberAt;
    if ls != [] {
      var k: nat, n: nat :| Blanks(v, i, k) && LexemeAt(v, k, n, ls[0]) && Written(v, n, ls[1..], e);
      assert EndsNumber(v[k]);
    }
  }

  /** The first of the written tokens is scanned. */
  lemma FirstIsScanned(v: Text, i: nat, k: nat, n: nat, ls: seq<Lexeme>, e: nat)
    requires ls != [] && NumbersEnd(ls) && EndsText(v, e)
    requires Blanks(v, i, k) && LexemeAt(v, k, n, ls[0]) && Written(v, n, ls[1..], e)
    ensures i <= |v| && n <= |v| && Lexer.Scanned(v, i) == Lexer.Token(ls[0].kind, k, n) && !IsFinal(ls[0].kind)
    ensures InText(v, Lexer.Scanned(v, i)) && ls[0] == LexemeOf(v, Lexer.Scanned(v, i))
    ensures NumbersEnd(ls[1..])
  {
    if IsNumber(ls[0].kind) {
      NumberIsEnded(v, n, ls[1..], e);
    }
    TokenIsScanned(v, k, n, ls[0].kind);
    ScanBlanks(v, i, k);
    FinalIsNoToken(v, k, n, ls[0].kind);
    var rest := ls[1..];
    assert forall m | 0 <= m < |rest| :: rest[m] == ls[m + 1];
  }

  lemma FinalIsNoToken(v: Text, i: nat, e: nat, kind: Lexer.TokenType)
    requires TokenAt(v, i, e, kind)
    ensures !IsFinal(kind)
  {
    if IsFinal(kind) {
      NumberKinds(v, i, e, kind);
    }
  }

  lemma OnlyBlanks(v: Text, i: nat, e: nat)
    requires Blanks(v, i, e) && EndsText(v, e)
    ensures Lexemes(v, i) == [] + [Mark(Lexer.EndOfInput)]
  {
    ScanBlanks(v, i, e);
    EndAtNull(v, e);
  }

  lemma {:induction false} WrittenIsScanned(v: Text, i: nat, ls: seq<Lexeme>, e: nat)
    requires Written(v, i, ls, e) && EndsText(v, e) && NumbersEnd(ls)
    ensures i <= |v| && Lexemes(v, i) == ls + [Mark(Lexer.EndOfInput)]
    decreases |ls|
  {
    hide LexemeAt, Lexer.Scanned, Lexemes, NumbersEnd;
    if ls == [] {
      OnlyBlanks(v, i, e);
    } else {
      var k: nat, n: nat :| Blanks(v, i, k) && LexemeAt(v, k, n, ls[0]) && Written(v, n, ls[1..], e);
      FirstIsScanned(v, i, k, n, ls, e);
      WrittenIsScanned(v, n, ls[1..], e);
      LexemesUnfold(v, i);
      assert Lexemes(v, i) == [ls[0]] + Lexemes(v, n);
      assert ls == [ls[0]] + ls[1..];
    }
  }

  //////// In a derivation, numbers are followed by closing tokens ////////

  lemma NumbersEndConcat(a: seq<Lexeme>, b: seq<Lexeme>)
    requires NumbersEnd(a) && NumbersEnd(b)
    requires a != [] && b != [] ==> IsNumber(a[|a| - 1].kind) ==> Closes(b[0].kind)
    ensures NumbersEnd(a + b)
  {
    var ls := a + b;
    forall n | 0 <= n < |ls| - 1 && IsNumber(ls[n].kind) ensures Closes(ls[n + 1].kind) {
      if n + 1 < |a| {
        assert ls[n] == a[n];
      } else if n + 1 > |a| {
        assert ls[n] == b[n - |a|] && ls[n + 1] == b[n + 1 - |a|];
      }
    }
  }

  lemma {:induction false} NumbersEndSeparated(parts: seq<seq<Lexeme>>)
    requires forall n | 0 <= n < |parts| :: NumbersEnd(parts[n])
    ensures NumbersEnd(Separated(parts))
    decreases |parts|
  {
    if |parts| > 1 {
      var rest := parts[1..];
      assert forall n | 0 <= n < |rest| :: rest[n] == parts[n + 1];
      NumbersEndSeparated(rest);
      NumbersEndConcat([Mark(Lexer.ValueSeparator)], Separated(rest));
      NumbersEndConcat(parts[0], [Mark(Lexer.ValueSeparator)] + Separated(rest));
    }
  }

  lemma NumbersEndEnclosed(open: Lexer.TokenType, ls: seq<Lexeme>, close: Lexer.TokenType)
    requires NumbersEnd(ls) && !IsNumber(open) && Closes(close)
    ensures NumbersEnd([Mark(open)] + ls + [Mark(close)])
  {
    NumbersEndConcat([Mark(open)], ls);
    NumbersEndConcat([Mark(open)] + ls, [Mark(close)]);
  }

  lemma {:induction false} NumbersEndYield(t: Tree)
    requires IsValue(t)
    ensures NumbersEnd(Yield(t))
    decreases t, 0
  {
    match t {
      case Leaf(l) =>
      case ArrayTree(items) =>
        NumbersEndItems(items);
        NumbersEndSeparated(YieldItems(items));
        NumbersEndEnclosed(Lexer.BeginArray, Separated(YieldItems(items)), Lexer.EndArray);
      case ObjectTree(entries) =>
        NumbersEndEntries(entries);
        NumbersEndSeparated(YieldEntries(entries));
        NumbersEndEnclosed(Lexer.BeginObject, Separated(YieldEntries(entries)), Lexer.EndObject);
    }
  }

  lemma {:induction false} NumbersEndItems(items: seq<Tree>)
    requires AreValues(items)
    ensures forall n | 0 <= n < |items| :: NumbersEnd(YieldItems(items)[n])
    decreases items, 1
  {
    if items == [] {
    } else {
      NumbersEndYield(items[0]);
      NumbersEndItems(items[1..]);
    }
  }

  lemma {:induction false} NumbersEndEntries(entries: seq<Entry>)
    requires AreMembers(entries)
    ensures forall n | 0 <= n < |entries| :: NumbersEnd(YieldEntries(entries)[n])
    decreases entries, 1
  {
    if entries == [] {
    } else {
      NumbersEndEntry(entries[0]);
      NumbersEndEntries(entries[1..]);
    }
  }

  lemma {:induction false} NumbersEndEntry(e: Entry)
    requires IsMember(e)
    ensures NumbersEnd(YieldEntry(e))
    decreases e, 1
  {
    NumbersEndYield(e.value);
    NumbersEndConcat([e.key, Mark(Lexer.NameSeparator)], Yield(e.value));
  }

  //////// The parser and the grammar ////////

  /** The tokens of a text are derived if and only if the text is. */
  lemma TextIsDerived(v: Text, t: Tree)
    ensures Derives(t, Lexemes(v, 0)) <==> IsText(v, t)
  {
    if Derives(t, Lexemes(v, 0)) {
      var e := ScannedIsWritten(v, 0, Yield(t));
    } else if IsText(v, t) {
      var e: nat :| Written(v, 0, Yield(t), e) && EndsText(v, e);
      NumbersEndYield(t);
      WrittenIsScanned(v, 0, Yield(t), e);
    }
  }

  /** Parsing a byte string succeeds if and only if it is a JSON text of RFC 7159, all of whose strings and numbers have
      values, and gives the value of its derivation. */
  lemma ParserAcceptsTexts(v: Text)
    ensures ParseText(v).Ok? <==> exists t :: IsText(v, t) && Meaning(t).Ok?
    ensures forall t :: IsText(v, t) ==> ParseText(v) == Meaning(t)
  {
    ParseTextIsGrammar(v);
    forall t ensures Derives(t, Lexemes(v, 0)) <==> IsText(v, t) {
      TextIsDerived(v, t);
    }
  }

  //////// Null bytes ////////

  lemma SameBytes(v: Text, w: Text, i: nat)
    requires i <= |v|
    ensures Lexer.ByteAt(v + [0] + w, i) == Lexer.ByteAt(v, i)
  {
    assert (v + [0] + w)[i] == if i < |v| then v[i] else 0;
  }

  lemma {:induction false} RunStopsAtNull(v: Text, w: Text, state: nat, i: nat, m: Option<nat>, a: nat)
    requires i <= |v| && Lexer.IsMarked(v, state, m) && (Lexer.Reads(state) ==> i < |v|)
    requires state != 2 && Lexer.Ending(state).Some? ==> i < |v|
    ensures Lexer.IsMarked(v + [0] + w, state, m)
    ensures Lexer.Run(v + [0] + w, state, i, m, a) == Lexer.Run(v, state, i, m, a)
    decreases |v| - i
  {
    hide Lexer.Run;
    if !Lexer.Reads(state) {
      Stop(v, state, i, m, a);
      Stop(v + [0] + w, state, i, m, a);
    } else {
      SameBytes(v, w, i + 1);
      Jump(v, state, i, m, a);
      Jump(v + [0] + w, state, i, m, a);
      RunStopsAtNull(v, w, Lexer.Goto(state, Lexer.ByteAt(v, i + 1)), i + 1,
                     if Lexer.Accept(state).Some? then Some(i + 1) else m,
                     if Lexer.Accept(state).Some? then Lexer.Accept(state).value else a);
    }
  }

  lemma {:induction false} ScannedStopsAtNull(v: Text, w: Text, pos: nat)
    requires pos <= |v|
    ensures Lexer.Scanned(v + [0] + w, pos) == Lexer.Scanned(v, pos)
    decreases |v| - pos
  {
    SameBytes(v, w, pos);
    if Lexer.IsBlank(Lexer.ByteAt(v, pos)) {
      ScannedStopsAtNull(v, w, pos + 1);
    } else {
      Start(v, pos);
      Start(v + [0] + w, pos);
      RunStopsAtNull(v, w, Lexer.First(Lexer.ByteAt(v, pos)), pos, None, 0);
    }
  }

  lemma {:induction false} LexemesStopAtNull(v: Text, w: Text, pos: nat)
    requires pos <= |v|
    ensures Lexemes(v + [0] + w, pos) == Lexemes(v, pos)
    decreases |v| - pos
  {
    hide Lexer.Scanned, Lexemes;
    var u, t := v + [0] + w, Lexer.Scanned(v, pos);
    LexemesUnfold(v, pos);
    LexemesUnfold(u, pos);
    ScannedStopsAtNull(v, w, pos);
    if KeepsText(t.kind) {
      assert u[t.start..t.end] == v[t.start..t.end];
    }
    if !IsFinal(t.kind) {
      TokenMoves(v, pos);
      LexemesStopAtNull(v, w, t.end);
    }
  }

  /** A null byte ends the text: whatever stands behind it is not looked at. */
  lemma NullEndsText(v: Text, w: Text)
    ensures ParseText(v + [0] + w) == ParseText(v)
  {
    LexemesStopAtNull(v, w, 0);
  }
}
