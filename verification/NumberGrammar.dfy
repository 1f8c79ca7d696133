// Numbers (section 6 of RFC 7159): number = [ minus ] int [ frac ] [ exp ], and what the automaton makes of them, with
// fraction and exponent, in both directions.

module NumberGrammar {
  import opened ByteStrings
  import opened Decimal
  import opened JsonValue
  import opened Lexer
  import opened LexerLaws
  import opened Numbers

  //////// The grammar, on the bytes of a text from one position to another ////////

  predicate DigitsAt(v: Text, i: nat, k: nat) {
    i <= k <= |v| && forall n | i <= n < k :: IsDigit(v[n])
  }

  /** int = zero / ( digit1-9 *DIGIT ) */
  predicate IntAt(v: Text, i: nat, k: nat) {
    i < k && DigitsAt(v, i, k) && (v[i] == DIGIT_0 ==> k == i + 1)
  }

  /** frac = decimal-point 1*DIGIT */
  predicate FractionAt(v: Text, i: nat, k: nat) {
    i + 1 < k && DigitsAt(v, i + 1, k) && v[i] == 0x2e
  }

  predicate IsE(c: byte) {
    c in {0x45, 0x65}
  }

  predicate IsSign(c: byte) {
    c in {0x2b, 0x2d}
  }

  /** Behind the sign of an exponent, if it has one. */
  function BehindSign(v: Text, i: nat): nat {
    if IsSign(ByteAt(v, i)) then i + 1 else i
  }

  /** exp = e [ minus / plus ] 1*DIGIT */
  predicate ExponentAt(v: Text, i: nat, k: nat) {
    var d := BehindSign(v, i + 1);
    d < k && DigitsAt(v, d, k) && IsE(v[i])
  }

  /** [ frac ] [ exp ], with m between the two */
  predicate TailAt(v: Text, i: nat, m: nat, k: nat) {
    (m == i || FractionAt(v, i, m)) && (k == m || ExponentAt(v, m, k))
  }

  /** The bytes from pos to e are a number that get_number takes for one of this type; the digits in front of
      fraction and exponent end at k. */
  predicate NumberEndsAt(v: Text, pos: nat, k: nat, m: nat, e: nat, kind: TokenType) {
    var negative := ByteAt(v, pos) == MINUS;
    IntAt(v, if negative then pos + 1 else pos, k) && TailAt(v, k, m, e) &&
    kind == if e > k then ValueFloat else if negative then ValueInteger else ValueUnsigned
  }

  ghost predicate NumberAt(v: Text, pos: nat, e: nat, kind: TokenType) {
    exists k: nat, m: nat :: NumberEndsAt(v, pos, k, m, e, kind)
  }

  /** A byte that cannot continue a number. */
  predicate EndsNumber(c: byte) {
    !IsDigit(c) && c != 0x2e && !IsE(c)
  }

  //////// What the automaton finds, as a function ////////

  /** The end of the digits from i on. */
  function DigitsEnd(v: Text, i: nat): (k: nat)
    requires i <= |v|
    ensures DigitsAt(v, i, k) && !IsDigit(ByteAt(v, k))
    decreases |v| - i
  {
    if IsDigit(ByteAt(v, i)) then DigitsEnd(v, i + 1) else i
  }

  lemma {:induction false} DigitsEndUnique(v: Text, i: nat, k: nat)
    requires DigitsAt(v, i, k) && !IsDigit(ByteAt(v, k))
    ensures DigitsEnd(v, i) == k
    decreases k - i
  {
    if i == k {
    } else {
      DigitsEndUnique(v, i + 1, k);
    }
  }

  /** The end of the exponent at i, if there is one. */
  function ExponentEnd(v: Text, i: nat): (k: Option<nat>)
    requires i < |v| && IsE(v[i])
    ensures k.Some? ==> ExponentAt(v, i, k.value)
  {
    var d := BehindSign(v, i + 1);
    if IsDigit(ByteAt(v, d)) then Some(DigitsEnd(v, d)) else None
  }

  /** The end of what follows the digits of a fraction. */
  function FractionEnd(v: Text, k: nat): (e: nat)
    requires k <= |v|
    ensures e == k || ExponentAt(v, k, e)
  {
    if k < |v| && IsE(v[k]) && ExponentEnd(v, k).Some? then ExponentEnd(v, k).value else k
  }

  /** The token whose integer digits end at k. */
  function NumberToken(v: Text, k: nat, whole: TokenType): (TokenType, nat)
    requires k <= |v|
  {
    if ByteAt(v, k) == 0x2e && IsDigit(ByteAt(v, k + 1)) then (ValueFloat, FractionEnd(v, DigitsEnd(v, k + 1)))
    else if IsE(ByteAt(v, k)) && ExponentEnd(v, k).Some? then (ValueFloat, ExponentEnd(v, k).value)
    else (whole, k)
  }

  //////// The automaton computes it ////////

  lemma {:induction false} ExponentDigitsRun(v: Text, i: nat, m: nat, a: nat)
    requires i < |v| && m <= |v|
    ensures Run(v, 60, i, Some(m), a) == (ValueFloat, DigitsEnd(v, i + 1))
    decreases |v| - i
  {
    Jump(v, 60, i, Some(m), a);
    if !IsDigit(ByteAt(v, i + 1)) {
    } else {
      ExponentDigitsRun(v, i + 1, m, a);
    }
  }

  lemma ExponentRun(v: Text, i: nat, m: nat, a: nat)
    requires i < |v| && m <= |v| && IsE(v[i])
    ensures Run(v, 51, i, Some(m), a) ==
            if ExponentEnd(v, i).Some? then (ValueFloat, ExponentEnd(v, i).value) else (Fallback(a), m)
  {
    hide Run;
    var d := BehindSign(v, i + 1);
    Jump(v, 51, i, Some(m), a);
    if d == i + 2 {
      Jump(v, 59, i + 1, Some(m), a);
    }
    if IsDigit(ByteAt(v, d)) {
      ExponentDigitsRun(v, d, m, a);
    } else {
      Stop(v, 32, d, Some(m), a);
    }
  }

  lemma {:induction false} FractionDigitsRun(v: Text, i: nat, m: Option<nat>, a: nat)
    requires i < |v| && IsMarked(v, 56, m)
    ensures Run(v, 56, i, m, a) == (ValueFloat, FractionEnd(v, DigitsEnd(v, i + 1)))
    decreases |v| - i
  {
    hide ExponentEnd;
    NullEnds(56);
    var next := Goto(56, ByteAt(v, i + 1));
    assert Run(v, 56, i, m, a) == Run(v, next, i + 1, Some(i + 1), 3);
    if IsDigit(ByteAt(v, i + 1)) {
      FractionDigitsRun(v, i + 1, Some(i + 1), 3);
    } else if IsE(ByteAt(v, i + 1)) {
      ExponentRun(v, i + 1, i + 1, 3);
    }
  }

  /** At the byte behind the integer digits. */
  lemma WholeRun(v: Text, k: nat, whole: nat, a: nat)
    requires k <= |v| && whole in {14, 44} && Fallback(a) == Stopping(whole)
    requires AfterInteger(ByteAt(v, k), whole) != whole ==> k < |v|
    ensures Run(v, AfterInteger(ByteAt(v, k), whole), k, Some(k), a) == NumberToken(v, k, Stopping(whole))
  {
    hide Run, ExponentEnd, FractionEnd;
    if ByteAt(v, k) == 0x2e {
      Jump(v, 47, k, Some(k), a);
      if IsDigit(ByteAt(v, k + 1)) {
        FractionDigitsRun(v, k + 1, Some(k), a);
      } else {
        Stop(v, 32, k + 1, Some(k), a);
      }
    } else if IsE(ByteAt(v, k)) {
      ExponentRun(v, k, k, a);
    } else {
      Stop(v, whole, k, Some(k), a);
    }
  }

  /** The digits of the integer. */
  lemma {:induction false} IntegerDigitsRun(v: Text, state: nat, i: nat, m: Option<nat>, a: nat)
    requires state in {15, 45} && i < |v| && IsMarked(v, state, m)
    ensures Run(v, state, i, m, a) == NumberToken(v, DigitsEnd(v, i + 1), Stopping(WholeState(state)))
    decreases |v| - i
  {
    NullEnds(state);
    var next, accept := Goto(state, ByteAt(v, i + 1)), Accept(state).value;
    assert Run(v, state, i, m, a) == Run(v, next, i + 1, Some(i + 1), accept);
    if IsDigit(ByteAt(v, i + 1)) {
      IntegerDigitsRun(v, state, i + 1, Some(i + 1), accept);
    } else {
      WholeRun(v, i + 1, WholeState(state), accept);
    }
  }

  /** A zero, which no digit may follow. */
  lemma ZeroRun(v: Text, state: nat, i: nat, m: Option<nat>, a: nat)
    requires state in {13, 43} && i < |v| && IsMarked(v, state, m)
    ensures if IsDigit(ByteAt(v, i + 1)) then Run(v, state, i, m, a).0 == ParseError
            else Run(v, state, i, m, a) == NumberToken(v, i + 1, Stopping(WholeState(state)))
  {
    NullEnds(state);
    var next, accept := Goto(state, ByteAt(v, i + 1)), Accept(state).value;
    assert Run(v, state, i, m, a) == Run(v, next, i + 1, Some(i + 1), accept);
    if IsDigit(ByteAt(v, i + 1)) {
      ZerosRun(v, i + 1, i + 1, accept);
    } else {
      WholeRun(v, i + 1, WholeState(state), accept);
    }
  }

  /** The first digit of a number. */
  function DigitState(c: byte, negative: bool): nat {
    if c == DIGIT_0 then (if negative then 43 else 13) else if negative then 45 else 15
  }

  /** From the first digit on: a leading zero before another digit is an error. */
  lemma DigitRun(v: Text, i: nat, negative: bool)
    requires i < |v| && IsDigit(v[i])
    ensures var r := Run(v, DigitState(v[i], negative), i, None, 0);
            if v[i] == DIGIT_0 && IsDigit(ByteAt(v, i + 1)) then r.0 == ParseError
            else r == NumberToken(v, DigitsEnd(v, i + 1), if negative then ValueInteger else ValueUnsigned)
  {
    var state := DigitState(v[i], negative);
    if v[i] == DIGIT_0 {
      ZeroRun(v, state, i, None, 0);
    } else {
      IntegerDigitsRun(v, state, i, None, 0);
    }
  }

  predicate StartsNumber(c: byte) {
    IsDigit(c) || c == MINUS
  }

  /** What scan returns where a number may begin. */
  lemma ScanFromDigit(v: Text, pos: nat)
    requires pos < |v| && StartsNumber(v[pos])
    ensures var negative := v[pos] == MINUS;
            var i := if negative then pos + 1 else pos;
            var t := Scanned(v, pos);
            if !IsDigit(ByteAt(v, i)) || (v[i] == DIGIT_0 && IsDigit(ByteAt(v, i + 1))) then t.kind == ParseError
            else
              t.start == pos &&
              (t.kind, t.end) == NumberToken(v, DigitsEnd(v, i + 1), if negative then ValueInteger else ValueUnsigned)
  {
    hide Run, NumberToken, Scanned;
    Start(v, pos);
    if v[pos] == MINUS {
      Jump(v, 12, pos, None, 0);
      if IsDigit(ByteAt(v, pos + 1)) {
        DigitRun(v, pos + 1, true);
      } else {
        Stop(v, 5, pos + 1, None, 0);
      }
    } else {
      DigitRun(v, pos, false);
    }
  }

  //////// Both directions ////////

  lemma TokenIsNumber(v: Text, pos: nat, k: nat)
    requires pos < |v| && IntAt(v, if v[pos] == MINUS then pos + 1 else pos, k) && !IsDigit(ByteAt(v, k))
    ensures var (kind, e) := NumberToken(v, k, if v[pos] == MINUS then ValueInteger else ValueUnsigned);
            NumberAt(v, pos, e, kind)
  {
    var (kind, e) := NumberToken(v, k, if v[pos] == MINUS then ValueInteger else ValueUnsigned);
    if ByteAt(v, k) == 0x2e && IsDigit(ByteAt(v, k + 1)) {
      var m := DigitsEnd(v, k + 1);
      assert FractionAt(v, k, m);
      assert NumberEndsAt(v, pos, k, m, e, kind);
    } else {
      assert NumberEndsAt(v, pos, k, k, e, kind);
    }
  }

  lemma TailToken(v: Text, k: nat, m: nat, e: nat, whole: TokenType)
    requires TailAt(v, k, m, e) && e <= |v| && k <= |v| && EndsNumber(ByteAt(v, e))
    ensures NumberToken(v, k, whole) == if e > k then (ValueFloat, e) else (whole, e)
  {
    if e > m {
      DigitsEndUnique(v, BehindSign(v, m + 1), e);
    }
    if m > k {
      DigitsEndUnique(v, k + 1, m);
    }
  }

  /** Every number token of scan is a number of the grammar. */
  lemma ScannedIsNumber(v: Text, pos: nat)
    requires pos < |v| && StartsNumber(v[pos]) && Scanned(v, pos).kind != ParseError
    ensures var t := Scanned(v, pos); t.start == pos && NumberAt(v, pos, t.end, t.kind)
  {
    hide Scanned, NumberToken, NumberAt;
    ScanFromDigit(v, pos);
    var i := if v[pos] == MINUS then pos + 1 else pos;
    TokenIsNumber(v, pos, DigitsEnd(v, i + 1));
  }

  /** And every number of the grammar that nothing continues is a token. */
  lemma NumberIsScanned(v: Text, pos: nat, e: nat, kind: TokenType)
    requires NumberAt(v, pos, e, kind) && e <= |v| && EndsNumber(ByteAt(v, e))
    ensures pos < |v| && StartsNumber(v[pos]) && Scanned(v, pos) == Token(kind, pos, e)
  {
    hide NumberToken, Scanned;
    var k: nat, m: nat :| NumberEndsAt(v, pos, k, m, e, kind);
    var i := if ByteAt(v, pos) == MINUS then pos + 1 else pos;
    ScanFromDigit(v, pos);
    DigitsEndUnique(v, i + 1, k);
    TailToken(v, k, m, e, if v[pos] == MINUS then ValueInteger else ValueUnsigned);
  }

  lemma IntegerDigits(v: Text, pos: nat, e: nat, kind: TokenType)
    requires NumberAt(v, pos, e, kind) && kind != ValueFloat
    ensures kind == ValueUnsigned || kind == ValueInteger
    ensures IntAt(v, if kind == ValueInteger then pos + 1 else pos, e)
    ensures kind == ValueInteger ==> pos < e && v[pos] == MINUS
  {
    var k: nat, m: nat :| NumberEndsAt(v, pos, k, m, e, kind);
  }

  /** get_number of an integer token: its digits have no leading zero, and their number is the value if it fits into
      64 bits. */
  lemma IntegerValue(v: Text, pos: nat, e: nat, kind: TokenType) returns (n: nat)
    requires NumberAt(v, pos, e, kind) && kind != ValueFloat
    ensures pos < e <= |v| && (kind == ValueUnsigned || kind == ValueInteger)
    ensures v[pos..e] == if kind == ValueInteger then [MINUS] + Numeral(n) else Numeral(n)
    ensures GetNumber(v[pos..e], kind) ==
            if kind == ValueInteger then
              (if n <= 0x8000_0000_0000_0000 then Ok(Int(-(n as int))) else Err(Unmodelled))
            else if n < 0x1_0000_0000_0000_0000 then Ok(Uint(n)) else Err(Unmodelled)
  {
    hide NumberAt, ValueOf;
    IntegerDigits(v, pos, e, kind);
    var i := if kind == ValueInteger then pos + 1 else pos;
    var digits := v[i..e];
    NumeralOfValue(digits);
    n := ValueOf(digits);
    assert kind == ValueInteger ==> v[pos..e] == [MINUS] + digits && v[pos..e][1..] == digits;
  }
}
