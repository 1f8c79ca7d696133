// What the automaton of lexer::scan recognises: exactly the strings of section 7 of RFC 7159 in well-formed
// UTF-8, numerals without leading zeros, and the other tokens that a serialized value needs.

module LexerLaws {
  import opened ByteStrings
  import opened Decimal
  import opened Utf8
  import opened JsonString
  import opened StringGrammar
  import opened Lexer
  import opened Numbers

  /** One jump. */
  lemma Jump(v: Text, state: nat, i: nat, m: Option<nat>, a: nat)
    requires i < |v| && IsMarked(v, state, m) && Reads(state)
    ensures var next := Goto(state, ByteAt(v, i + 1));
            var mark := if Accept(state).Some? then Some(i + 1) else m;
            var accept := if Accept(state).Some? then Accept(state).value else a;
            (Reads(next) ==> i + 1 < |v|) && (next != 2 && Ending(next).Some? ==> i + 1 < |v|) &&
            IsMarked(v, next, mark) && Run(v, state, i, m, a) == Run(v, next, i + 1, mark, accept)
  {
    NullEnds(state);
  }

  /** A label that reads no further byte. */
  lemma Stop(v: Text, state: nat, i: nat, m: Option<nat>, a: nat)
    requires i <= |v| && IsMarked(v, state, m) && !Reads(state)
    requires state != 2 && Ending(state).Some? ==> i < |v|
    ensures Run(v, state, i, m, a) ==
            if Ending(state).Some? then (Ending(state).value, i + 1)
            else if state == 32 then (Fallback(a), m.value)
            else (Stopping(state), i)
  {
  }

  /** The first label of a token. */
  lemma Start(v: Text, pos: nat)
    requires pos <= |v| && !IsBlank(ByteAt(v, pos))
    ensures var state := First(ByteAt(v, pos));
            (Reads(state) ==> pos < |v|) && (state != 2 && Ending(state).Some? ==> pos < |v|) &&
            IsMarked(v, state, None) && var (kind, e) := Run(v, state, pos, None, 0);
            Scanned(v, pos) == Token(kind, pos, e)
  {
  }

  //////// Strings ////////

  /** The automaton inside a string, at a byte that it has not looked at. */
  function StringRun(v: Text, i: nat, m: nat): (TokenType, nat)
    requires i <= |v| && m <= |v|
  {
    Run(v, InString(ByteAt(v, i)), i, Some(m), 0)
  }

  lemma OneByte(v: Text, i: nat, m: nat)
    requires i < |v| && m <= |v| && InString(v[i]) == 30
    ensures StringRun(v, i, m) == StringRun(v, i + 1, m)
  {
    Jump(v, 30, i, Some(m), 0);
  }

  lemma TwoBytes(v: Text, i: nat, m: nat)
    requires i + 2 <= |v| && m <= |v| && InString(v[i]) in {35, 36} && Goto(InString(v[i]), v[i + 1]) == 30
    ensures StringRun(v, i, m) == StringRun(v, i + 2, m)
  {
    Jump(v, InString(v[i]), i, Some(m), 0);
    Jump(v, 30, i + 1, Some(m), 0);
  }

  lemma ThreeBytes(v: Text, i: nat, m: nat)
    requires i + 3 <= |v| && m <= |v| && InString(v[i]) in {37, 38, 39}
    requires Goto(InString(v[i]), v[i + 1]) == 36 && Goto(36, v[i + 2]) == 30
    ensures StringRun(v, i, m) == StringRun(v, i + 3, m)
  {
    Jump(v, InString(v[i]), i, Some(m), 0);
    Jump(v, 36, i + 1, Some(m), 0);
    Jump(v, 30, i + 2, Some(m), 0);
  }

  lemma FourBytes(v: Text, i: nat, m: nat)
    requires i + 4 <= |v| && m <= |v| && InString(v[i]) in {40, 41, 42}
    requires Goto(InString(v[i]), v[i + 1]) == 38 && Goto(38, v[i + 2]) == 36 && Goto(36, v[i + 3]) == 30
    ensures StringRun(v, i, m) == StringRun(v, i + 4, m)
  {
    Jump(v, InString(v[i]), i, Some(m), 0);
    Jump(v, 38, i + 1, Some(m), 0);
    Jump(v, 36, i + 2, Some(m), 0);
    Jump(v, 30, i + 3, Some(m), 0);
  }

  /** A hexadecimal digit takes the automaton on, and anything else back to its marker. */
  lemma HexStep(v: Text, state: nat, i: nat, m: nat)
    requires i < |v| && m <= |v| && state in {55, 65, 71, 74}
    ensures var next := Goto(state, ByteAt(v, i + 1));
            if IsHex(ByteAt(v, i + 1))
            then
              next in {65, 71, 74, 30} && i + 1 < |v| && Run(v, state, i, Some(m), 0) == Run(v, next, i + 1, Some(m), 0)
            else Run(v, state, i, Some(m), 0) == (ParseError, m)
  {
    hide Run;
    Jump(v, state, i, Some(m), 0);
    if !IsHex(ByteAt(v, i + 1)) {
      Stop(v, 32, i + 1, Some(m), 0);
    }
  }

  lemma SixBytes(v: Text, i: nat, m: nat)
    requires i + 6 <= |v| && m <= |v| && v[i] == BACKSLASH && v[i + 1] == LETTER_U
    requires IsHex(v[i + 2]) && IsHex(v[i + 3]) && IsHex(v[i + 4]) && IsHex(v[i + 5])
    ensures StringRun(v, i, m) == StringRun(v, i + 6, m)
  {
    hide Run, IsHex;
    Jump(v, 35, i, Some(m), 0);
    Jump(v, 55, i + 1, Some(m), 0);
    Jump(v, 65, i + 2, Some(m), 0);
    Jump(v, 71, i + 3, Some(m), 0);
    Jump(v, 74, i + 4, Some(m), 0);
    Jump(v, 30, i + 5, Some(m), 0);
  }

  /** The length that a character with these first bytes has, if it is one. */
  function LengthFrom(b: byte, next: byte): (n: nat)
    ensures n <= 6
  {
    var state := InString(b);
    if state == 30 then 1
    else if state == 35 then (if next == LETTER_U then 6 else 2)
    else if state == 36 then 2
    else if state in {37, 38, 39} then 3
    else if state in {40, 41, 42} then 4
    else 0
  }

  /** The next n bytes are one character of a string. */
  predicate CharAt(v: Text, i: nat, n: nat) {
    n > 0 && i + n <= |v| && IsChar(v[i..i + n])
  }

  lemma LengthOfChar(v: Text, i: nat, n: nat)
    requires CharAt(v, i, n)
    ensures v[i] != QUOTE && n == LengthFrom(v[i], ByteAt(v, i + 1))
  {
    var c := v[i..i + n];
    assert c[0] == v[i];
    if n > 1 { assert c[1] == v[i + 1]; }
  }

  /** The automaton passes over a character. */
  lemma CharStep(v: Text, i: nat, m: nat, n: nat)
    requires m <= |v| && CharAt(v, i, n)
    ensures StringRun(v, i, m) == StringRun(v, i + n, m)
  {
    LengthOfChar(v, i, n);
    var c := v[i..i + n];
    assert forall k | 0 <= k < n :: c[k] == v[i + k];
    if n == 1 {
      OneByte(v, i, m);
    } else if n == 2 {
      TwoBytes(v, i, m);
    } else if n == 3 {
      ThreeBytes(v, i, m);
    } else if n == 4 {
      FourBytes(v, i, m);
    } else {
      assert c[2..6] == [v[i + 2], v[i + 3], v[i + 4], v[i + 5]];
      SixBytes(v, i, m);
    }
  }

  // Bytes that take the automaton through a whole character are one.

  lemma OneIsChar(v: Text, i: nat)
    requires i < |v| && InString(v[i]) == 30
    ensures CharAt(v, i, 1)
  {
    assert v[i..i + 1] == [v[i]];
  }

  lemma TwoAreChar(v: Text, i: nat)
    requires i + 2 <= |v| && InString(v[i]) in {35, 36} && Goto(InString(v[i]), v[i + 1]) == 30
    ensures CharAt(v, i, 2)
  {
    assert v[i..i + 2] == [v[i], v[i + 1]];
  }

  lemma ThreeAreChar(v: Text, i: nat)
    requires i + 3 <= |v| && InString(v[i]) in {37, 38, 39}
    requires Goto(InString(v[i]), v[i + 1]) == 36 && Goto(36, v[i + 2]) == 30
    ensures CharAt(v, i, 3)
  {
    assert v[i..i + 3] == [v[i], v[i + 1], v[i + 2]];
  }

  lemma FourAreChar(v: Text, i: nat)
    requires i + 4 <= |v| && InString(v[i]) in {40, 41, 42}
    requires Goto(InString(v[i]), v[i + 1]) == 38 && Goto(38, v[i + 2]) == 36 && Goto(36, v[i + 3]) == 30
    ensures CharAt(v, i, 4)
  {
    assert v[i..i + 4] == [v[i], v[i + 1], v[i + 2], v[i + 3]];
  }

  lemma SixAreChar(v: Text, i: nat)
    requires i + 6 <= |v| && v[i] == BACKSLASH && v[i + 1] == LETTER_U
    requires IsHex(v[i + 2]) && IsHex(v[i + 3]) && IsHex(v[i + 4]) && IsHex(v[i + 5])
    ensures CharAt(v, i, 6)
  {
    SliceOfSlice(v, i, i + 6, 2, 6);
    assert v[i + 2..i + 6] == [v[i + 2], v[i + 3], v[i + 4], v[i + 5]];
  }

  lemma StuckAtTwo(v: Text, i: nat, m: nat)
    requires i < |v| && m <= |v| && LengthFrom(v[i], ByteAt(v, i + 1)) == 2 && !CharAt(v, i, 2)
    ensures StringRun(v, i, m) == (ParseError, m)
  {
    hide Run, CharAt;
    var s := Goto(InString(v[i]), ByteAt(v, i + 1));
    Jump(v, InString(v[i]), i, Some(m), 0);
    if s == 30 {
      TwoAreChar(v, i);
    } else {
      Stop(v, s, i + 1, Some(m), 0);
    }
  }

  lemma StuckAtThree(v: Text, i: nat, m: nat)
    requires i < |v| && m <= |v| && LengthFrom(v[i], ByteAt(v, i + 1)) == 3 && !CharAt(v, i, 3)
    ensures StringRun(v, i, m) == (ParseError, m)
  {
    hide Run, CharAt;
    var s := Goto(InString(v[i]), ByteAt(v, i + 1));
    Jump(v, InString(v[i]), i, Some(m), 0);
    if s != 36 {
      Stop(v, s, i + 1, Some(m), 0);
    } else {
      Jump(v, 36, i + 1, Some(m), 0);
      if Goto(36, ByteAt(v, i + 2)) == 30 {
        ThreeAreChar(v, i);
      } else {
        Stop(v, 32, i + 2, Some(m), 0);
      }
    }
  }

  lemma StuckAtFour(v: Text, i: nat, m: nat)
    requires i < |v| && m <= |v| && LengthFrom(v[i], ByteAt(v, i + 1)) == 4 && !CharAt(v, i, 4)
    ensures StringRun(v, i, m) == (ParseError, m)
  {
    hide Run, CharAt;
    var s := Goto(InString(v[i]), ByteAt(v, i + 1));
    Jump(v, InString(v[i]), i, Some(m), 0);
    if s != 38 {
      Stop(v, s, i + 1, Some(m), 0);
    } else {
      Jump(v, 38, i + 1, Some(m), 0);
      if Goto(38, ByteAt(v, i + 2)) != 36 {
        Stop(v, 32, i + 2, Some(m), 0);
      } else {
        Jump(v, 36, i + 2, Some(m), 0);
        if Goto(36, ByteAt(v, i + 3)) == 30 {
          FourAreChar(v, i);
        } else {
          Stop(v, 32, i + 3, Some(m), 0);
        }
      }
    }
  }

  lemma StuckAtSix(v: Text, i: nat, m: nat)
    requires i < |v| && m <= |v| && v[i] == BACKSLASH && ByteAt(v, i + 1) == LETTER_U && !CharAt(v, i, 6)
    ensures StringRun(v, i, m) == (ParseError, m)
  {
    hide Run, CharAt, IsHex;
    Jump(v, 35, i, Some(m), 0);
    HexStep(v, 55, i + 1, m);
    if IsHex(ByteAt(v, i + 2)) {
      HexStep(v, 65, i + 2, m);
      if IsHex(ByteAt(v, i + 3)) {
        HexStep(v, 71, i + 3, m);
        if IsHex(ByteAt(v, i + 4)) {
          HexStep(v, 74, i + 4, m);
          if IsHex(ByteAt(v, i + 5)) {
            SixAreChar(v, i);
          }
        }
      }
    }
  }

  /** Where neither a character nor the closing quote comes, the automaton goes back to its marker. */
  lemma Stuck(v: Text, i: nat, m: nat)
    requires i <= |v| && m <= |v| && ByteAt(v, i) != QUOTE
    requires !CharAt(v, i, LengthFrom(ByteAt(v, i), ByteAt(v, i + 1)))
    ensures StringRun(v, i, m) == (ParseError, m)
  {
    var n := LengthFrom(ByteAt(v, i), ByteAt(v, i + 1));
    if n == 1 {
      OneIsChar(v, i);
    } else if n == 2 {
      StuckAtTwo(v, i, m);
    } else if n == 3 {
      StuckAtThree(v, i, m);
    } else if n == 4 {
      StuckAtFour(v, i, m);
    } else if n == 6 {
      StuckAtSix(v, i, m);
    }
  }

  /** From the middle of a string, the automaton collects characters up to a quote or goes back. */
  lemma {:induction false} StringForward(v: Text, i: nat, m: nat) returns (cs: seq<Text>)
    requires i <= |v| && m <= |v|
    ensures var (kind, e) := StringRun(v, i, m);
            if kind == ValueString
            then AllChars(cs) && i < e <= |v| && v[e - 1] == QUOTE && v[i..e - 1] == Joined(cs)
            else (kind, e) == (ParseError, m)
    decreases |v| - i
  {
    hide Run, IsChar, LengthFrom;
    cs := [];
    var n := LengthFrom(ByteAt(v, i), ByteAt(v, i + 1));
    if ByteAt(v, i) == QUOTE {
      Stop(v, 33, i, Some(m), 0);
      assert v[i..i] == [];
    } else if CharAt(v, i, n) {
      CharStep(v, i, m, n);
      var rest := StringForward(v, i + n, m);
      cs := [v[i..i + n]] + rest;
      assert cs[1..] == rest;
      var e := StringRun(v, i, m).1;
      if StringRun(v, i, m).0 == ValueString {
        assert v[i..e - 1] == v[i..i + n] + v[i + n..e - 1];
      }
    } else {
      Stuck(v, i, m);
    }
  }

  /** And it finds every string that stands there. */
  lemma {:induction false} StringBackward(v: Text, i: nat, m: nat, cs: seq<Text>)
    requires i <= |v| && m <= |v| && AllChars(cs) && At(v, i, Joined(cs)) && ByteAt(v, i + |Joined(cs)|) == QUOTE
    ensures StringRun(v, i, m) == (ValueString, i + |Joined(cs)| + 1)
    decreases |cs|
  {
    hide Run;
    if cs == [] {
      Stop(v, 33, i, Some(m), 0);
    } else {
      var c := cs[0];
      AtParts(v, i, c, Joined(cs[1..]));
      AtSlice(v, i, c);
      CharStep(v, i, m, |c|);
      StringBackward(v, i + |c|, m, cs[1..]);
    }
  }

  lemma QuoteStarts(v: Text, pos: nat)
    requires pos < |v| && v[pos] == QUOTE
    ensures var (kind, e) := StringRun(v, pos + 1, pos + 1);
            Scanned(v, pos) == Token(kind, pos, e)
  {
    NullEnds(9);
    var next := Goto(9, ByteAt(v, pos + 1));
    assert Run(v, 9, pos, None, 0) == Run(v, next, pos + 1, Some(pos + 1), 0);
  }

  lemma BodyOf(v: Text, pos: nat, e: nat)
    requires pos + 2 <= e <= |v|
    ensures IsString(v[pos..e]) <==> v[pos] == QUOTE && v[e - 1] == QUOTE && IsBody(v[pos + 1..e - 1])
  {
    SliceOfSlice(v, pos, e, 1, e - pos - 1);
  }

  lemma QuotedChars(v: Text, pos: nat, e: nat, cs: seq<Text>)
    requires pos + 2 <= e <= |v| && v[pos] == QUOTE && v[e - 1] == QUOTE
    requires AllChars(cs) && v[pos + 1..e - 1] == Joined(cs)
    ensures IsString(v[pos..e])
  {
    BodyOf(v, pos, e);
  }

  lemma StringIsFound(v: Text, pos: nat, e: nat)
    requires pos <= e <= |v| && IsString(v[pos..e])
    ensures Scanned(v, pos) == Token(ValueString, pos, e)
  {
    BodyOf(v, pos, e);
    QuoteStarts(v, pos);
    var body := v[pos + 1..e - 1];
    var cs :| AllChars(cs) && Joined(cs) == body;
    StringBackward(v, pos + 1, pos + 1, cs);
  }

  /** A string token is a string of the grammar; without one, the quote alone is an error. */
  lemma ScannedIsString(v: Text, pos: nat)
    requires pos < |v| && v[pos] == QUOTE
    ensures var t := Scanned(v, pos);
            if t.kind == ValueString then t.start == pos <= t.end && IsString(v[pos..t.end])
            else t == Token(ParseError, pos, pos + 1)
  {
    QuoteStarts(v, pos);
    var (kind, e) := StringRun(v, pos + 1, pos + 1);
    var cs := StringForward(v, pos + 1, pos + 1);
    if kind == ValueString {
      QuotedChars(v, pos, e, cs);
    }
  }

  /** The strings that begin at pos. */
  ghost predicate StringStands(v: Text, pos: nat, e: nat) {
    pos <= e <= |v| && IsString(v[pos..e])
  }

  /** From an opening quote, scan returns a string token if and only if a string of RFC 7159 stands there, and
      the token is exactly that string; otherwise the quote alone is an error. */
  lemma ScanString(v: Text, pos: nat)
    requires pos < |v| && v[pos] == QUOTE
    ensures var t := Scanned(v, pos);
            (forall e: nat :: StringStands(v, pos, e) <==> t == Token(ValueString, pos, e)) &&
            (t.kind == ValueString <==> exists e: nat :: StringStands(v, pos, e)) &&
            (t.kind == ValueString || t == Token(ParseError, pos, pos + 1))
  {
    ScannedIsString(v, pos);
    var t := Scanned(v, pos);
    forall e: nat | StringStands(v, pos, e) ensures t == Token(ValueString, pos, e) {
      StringIsFound(v, pos, e);
    }
    assert t.kind == ValueString ==> StringStands(v, pos, t.end);
  }

  //////// Numbers ////////

  /** A byte that ends an integer. */
  predicate EndsInteger(c: byte) {
    !IsDigit(c) && c !in {0x2e, 0x45, 0x65}
  }

  /** The label at which a numeral without and with a sign ends. */
  function WholeState(state: nat): nat {
    if state in {13, 15} then 14 else 44
  }

  /** Over the digits of a numeral. */
  lemma {:induction false} DigitsRun(v: Text, state: nat, i: nat, m: Option<nat>, a: nat, k: nat)
    requires state in {15, 45} && i < k <= |v| && IsMarked(v, state, m) && EndsInteger(ByteAt(v, k))
    requires forall n | i < n < k :: IsDigit(v[n])
    ensures Run(v, state, i, m, a) == (Stopping(WholeState(state)), k)
    decreases k - i
  {
    NullEnds(state);
    if i + 1 < k {
      DigitsRun(v, state, i + 1, Some(i + 1), Accept(state).value, k);
    }
  }

  /** A numeral, at the state that its first digit leads to. */
  lemma NumeralRun(v: Text, i: nat, n: nat, state: nat, m: Option<nat>, a: nat)
    requires At(v, i, Numeral(n)) && EndsInteger(ByteAt(v, i + |Numeral(n)|)) && IsMarked(v, state, m)
    requires state in (if n == 0 then {13, 43} else {15, 45})
    ensures i < |v| && Run(v, state, i, m, a) == (Stopping(WholeState(state)), i + |Numeral(n)|)
  {
    NoLeadingZero(n);
    if n == 0 {
      NullEnds(state);
    } else {
      AtSlice(v, i, Numeral(n));
      forall k | i < k < i + |Numeral(n)| ensures IsDigit(v[k]) {
        assert IsDigit(Numeral(n)[k - i]) && v[i..i + |Numeral(n)|][k - i] == v[k];
      }
      DigitsRun(v, state, i, m, a, i + |Numeral(n)|);
    }
  }

  lemma ScanUnsigned(v: Text, pos: nat, n: nat)
    requires At(v, pos, Numeral(n)) && EndsInteger(ByteAt(v, pos + |Numeral(n)|))
    ensures Scanned(v, pos) == Token(ValueUnsigned, pos, pos + |Numeral(n)|)
  {
    NoLeadingZero(n);
    assert IsDigit(Numeral(n)[0]) && v[0 + pos] == Numeral(n)[0];
    NumeralRun(v, pos, n, First(v[pos]), None, 0);
  }

  lemma ScanNegative(v: Text, pos: nat, n: nat)
    requires At(v, pos, [0x2d] + Numeral(n)) && EndsInteger(ByteAt(v, pos + 1 + |Numeral(n)|))
    ensures Scanned(v, pos) == Token(ValueInteger, pos, pos + 1 + |Numeral(n)|)
  {
    AtParts(v, pos, [0x2d], Numeral(n));
    NoLeadingZero(n);
    assert [0x2d][0] == v[0 + pos];
    assert IsDigit(Numeral(n)[0]) && v[0 + (pos + 1)] == Numeral(n)[0];
    Jump(v, 12, pos, None, 0);
    NumeralRun(v, pos + 1, n, Goto(12, v[pos + 1]), None, 0);
  }

  lemma {:induction false} ZerosRun(v: Text, i: nat, m: nat, a: nat)
    requires i < |v| && m <= |v|
    ensures Run(v, 48, i, Some(m), a).0 == ParseError
    decreases |v| - i
  {
    NullEnds(48);
    if Goto(48, ByteAt(v, i + 1)) == 48 {
      ZerosRun(v, i + 1, m, a);
    }
  }

  //////// Literals and punctuation ////////

  lemma ByteOf(v: Text, pos: nat, s: Text, n: nat)
    requires At(v, pos, s) && n < |s|
    ensures pos + n < |v| && v[pos + n] == s[n]
  {
    assert s[n] == v[n + pos];
  }

  /** A text without null bytes stands where its bytes are. */
  lemma FourStand(v: Text, pos: nat, s: Text)
    requires |s| >= 4 && s[1] != 0 && s[2] != 0 && s[3] != 0 && pos < |v| && v[pos] == s[0]
    ensures At(v, pos, s[..4]) <==>
            ByteAt(v, pos + 1) == s[1] && ByteAt(v, pos + 2) == s[2] && ByteAt(v, pos + 3) == s[3]
  {
    if At(v, pos, s[..4]) {
      ByteOf(v, pos, s[..4], 1);
      ByteOf(v, pos, s[..4], 2);
      ByteOf(v, pos, s[..4], 3);
    }
  }

  lemma FiveStand(v: Text, pos: nat, s: Text)
    requires |s| == 5 && pos + 4 <= |v| && s[4] != 0
    ensures At(v, pos, s) <==> At(v, pos, s[..4]) && ByteAt(v, pos + 4) == s[4]
  {
    assert s == s[..4] + [s[4]];
    if At(v, pos, s) {
      AtParts(v, pos, s[..4], [s[4]]);
      ByteOf(v, pos, s, 4);
    } else if At(v, pos, s[..4]) && ByteAt(v, pos + 4) == s[4] {
      forall x | 0 <= x < 5 ensures s[x] == v[x + pos] {
        assert x < 4 ==> s[..4][x] == s[x];
      }
    }
  }

  /** From the first letter of a literal, scan returns the literal if it stands there, and an error otherwise. */
  lemma ScanTrue(v: Text, pos: nat)
    requires pos < |v| && v[pos] == 0x74
    ensures At(v, pos, TRUE_TEXT) ==> Scanned(v, pos) == Token(LiteralTrue, pos, pos + 4)
    ensures !At(v, pos, TRUE_TEXT) ==> Scanned(v, pos).kind == ParseError
  {
    hide Run, Scanned, At;
    FourStand(v, pos, TRUE_TEXT);
    assert TRUE_TEXT[..4] == TRUE_TEXT;
    Start(v, pos);
    Jump(v, 25, pos, None, 0);
    if ByteAt(v, pos + 1) != 0x72 {
      Stop(v, 5, pos + 1, Some(pos + 1), 0);
    } else {
      Jump(v, 54, pos + 1, Some(pos + 1), 0);
      if ByteAt(v, pos + 2) != 0x75 {
        Stop(v, 32, pos + 2, Some(pos + 1), 0);
      } else {
        Jump(v, 64, pos + 2, Some(pos + 1), 0);
        Stop(v, if ByteAt(v, pos + 3) == 0x65 then 69 else 32, pos + 3, Some(pos + 1), 0);
      }
    }
  }

  lemma ScanNull(v: Text, pos: nat)
    requires pos < |v| && v[pos] == 0x6e
    ensures At(v, pos, NULL_TEXT) ==> Scanned(v, pos) == Token(LiteralNull, pos, pos + 4)
    ensures !At(v, pos, NULL_TEXT) ==> Scanned(v, pos).kind == ParseError
  {
    hide Run, Scanned, At;
    FourStand(v, pos, NULL_TEXT);
    assert NULL_TEXT[..4] == NULL_TEXT;
    Start(v, pos);
    Jump(v, 24, pos, None, 0);
    if ByteAt(v, pos + 1) != 0x75 {
      Stop(v, 5, pos + 1, Some(pos + 1), 0);
    } else {
      Jump(v, 53, pos + 1, Some(pos + 1), 0);
      if ByteAt(v, pos + 2) != 0x6c {
        Stop(v, 32, pos + 2, Some(pos + 1), 0);
      } else {
        Jump(v, 63, pos + 2, Some(pos + 1), 0);
        Stop(v, if ByteAt(v, pos + 3) == 0x6c then 67 else 32, pos + 3, Some(pos + 1), 0);
      }
    }
  }

  lemma FalseNeedsFour(v: Text, pos: nat)
    ensures At(v, pos, FALSE_TEXT) ==> At(v, pos, FALSE_TEXT[..4])
  {
    if At(v, pos, FALSE_TEXT) {
      assert FALSE_TEXT == FALSE_TEXT[..4] + FALSE_TEXT[4..];
      AtParts(v, pos, FALSE_TEXT[..4], FALSE_TEXT[4..]);
    }
  }

  /** The last two letters of "false". */
  lemma FalseEnds(v: Text, i: nat, m: nat)
    requires i < |v| && m <= |v|
    ensures Run(v, 62, i, Some(m), 0) ==
            if ByteAt(v, i + 1) == 0x73 && ByteAt(v, i + 2) == 0x65 then (LiteralFalse, i + 3) else (ParseError, m)
  {
    hide Run;
    Jump(v, 62, i, Some(m), 0);
    if ByteAt(v, i + 1) != 0x73 {
      Stop(v, 32, i + 1, Some(m), 0);
    } else {
      Jump(v, 66, i + 1, Some(m), 0);
      Stop(v, if ByteAt(v, i + 2) == 0x65 then 72 else 32, i + 2, Some(m), 0);
    }
  }

  lemma ScanFalse(v: Text, pos: nat)
    requires pos < |v| && v[pos] == 0x66
    ensures At(v, pos, FALSE_TEXT) ==> Scanned(v, pos) == Token(LiteralFalse, pos, pos + 5)
    ensures !At(v, pos, FALSE_TEXT) ==> Scanned(v, pos).kind == ParseError
  {
    hide Run, Scanned, At;
    FourStand(v, pos, FALSE_TEXT);
    FalseNeedsFour(v, pos);
    Start(v, pos);
    Jump(v, 23, pos, None, 0);
    if ByteAt(v, pos + 1) != 0x61 {
      Stop(v, 5, pos + 1, Some(pos + 1), 0);
    } else {
      Jump(v, 52, pos + 1, Some(pos + 1), 0);
      if ByteAt(v, pos + 2) != 0x6c {
        Stop(v, 32, pos + 2, Some(pos + 1), 0);
      } else {
        FalseEnds(v, pos + 2, pos + 1);
        if ByteAt(v, pos + 3) == 0x73 {
          FiveStand(v, pos, FALSE_TEXT);
        }
      }
    }
  }

  lemma ScanMark(v: Text, pos: nat)
    requires pos < |v| && v[pos] in {0x2c, 0x3a, 0x5b, 0x5d, 0x7b, 0x7d}
    ensures Scanned(v, pos) == Token(Ending(First(v[pos])).value, pos, pos + 1)
  {
  }

  lemma {:induction false} ScanBlanks(v: Text, pos: nat, k: nat)
    requires pos <= k <= |v| && forall i | pos <= i < k :: IsBlank(v[i])
    ensures Scanned(v, pos) == Scanned(v, k)
    decreases k - pos
  {
    if pos >= k {
    } else {
      ScanBlanks(v, pos + 1, k);
    }
  }

  //////// Every token ////////

  /** A token of any type other than an error moves the cursor on. */
  lemma {:induction false} RunMoves(v: Text, state: nat, cursor: nat, marker: Option<nat>, accept: nat, begin: nat)
    requires cursor <= |v| && IsMarked(v, state, marker) && (Reads(state) ==> cursor < |v|)
    requires state != 2 && Ending(state).Some? ==> cursor < |v|
    requires begin <= cursor && (state in {14, 44, 58} ==> begin < cursor)
    requires accept > 0 ==> marker.Some? && begin < marker.value
    ensures Run(v, state, cursor, marker, accept).0 != ParseError ==> begin < Run(v, state, cursor, marker, accept).1
    decreases |v| - cursor
  {
    if Reads(state) {
      NullEnds(state);
      RunMoves(v, Goto(state, ByteAt(v, cursor + 1)), cursor + 1,
               if Accept(state).Some? then Some(cursor + 1) else marker,
               if Accept(state).Some? then Accept(state).value else accept, begin);
    }
  }

  lemma {:induction false} TokenMoves(v: Text, pos: nat)
    requires pos <= |v|
    ensures Scanned(v, pos).kind != ParseError ==> Scanned(v, pos).start < Scanned(v, pos).end
    decreases |v| - pos
  {
    if IsBlank(ByteAt(v, pos)) {
      TokenMoves(v, pos + 1);
    } else {
      RunMoves(v, First(ByteAt(v, pos)), pos, None, 0, pos);
    }
  }
}
