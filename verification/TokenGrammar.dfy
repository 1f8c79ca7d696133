// Every token of scan, in both directions: what stands at a token is what the grammar of RFC 7159 asks for, and what
// the grammar asks for is scanned as that token.

module TokenGrammar {
  import opened ByteStrings
  import opened Decimal
  import opened JsonString
  import opened StringGrammar
  import opened Lexer
  import opened LexerLaws
  import opened NumberGrammar

  predicate Blanks(v: Text, i: nat, m: nat) {
    i <= m <= |v| && forall n | i <= n < m :: v[n] in {0x20, 0x09, 0x0a, 0x0d}
  }

  /** The byte of a structural token. */
  function MarkByte(kind: TokenType): Option<byte> {
    match kind
    case BeginArray => Some(0x5b)
    case BeginObject => Some(0x7b)
    case EndArray => Some(0x5d)
    case EndObject => Some(0x7d)
    case NameSeparator => Some(0x3a)
    case ValueSeparator => Some(0x2c)
    case _ => None
  }

  function LiteralText(kind: TokenType): Option<Text> {
    match kind
    case LiteralTrue => Some([0x74, 0x72, 0x75, 0x65])
    case LiteralFalse => Some([0x66, 0x61, 0x6c, 0x73, 0x65])
    case LiteralNull => Some([0x6e, 0x75, 0x6c, 0x6c])
    case _ => None
  }

  /** The bytes from i to e are a token of this type: a structural character, a literal name, a string or a number
      (sections 2, 3, 6 and 7 of RFC 7159). */
  ghost predicate TokenAt(v: Text, i: nat, e: nat, kind: TokenType) {
    i < e <= |v| &&
    if MarkByte(kind).Some? then e == i + 1 && v[i] == MarkByte(kind).value
    else if LiteralText(kind).Some? then v[i..e] == LiteralText(kind).value
    else if kind.ValueString? then IsString(v[i..e])
    else NumberAt(v, i, e, kind)
  }

  //////// What stands at a token ////////

  lemma NumberKinds(v: Text, i: nat, e: nat, kind: TokenType)
    requires NumberAt(v, i, e, kind)
    ensures i < e <= |v| && kind in {ValueUnsigned, ValueInteger, ValueFloat} && StartsNumber(v[i])
  {
  }

  lemma LiteralAt(v: Text, i: nat, kind: TokenType)
    requires LiteralText(kind).Some? && At(v, i, LiteralText(kind).value)
    ensures TokenAt(v, i, i + |LiteralText(kind).value|, kind)
  {
    AtSlice(v, i, LiteralText(kind).value);
  }

  lemma NothingStarts(v: Text, i: nat)
    requires i < |v| && !IsBlank(v[i]) && v[i] != 0 && v[i] != QUOTE && !StartsNumber(v[i])
    requires v[i] !in {0x66, 0x6e, 0x74, 0x2c, 0x3a, 0x5b, 0x5d, 0x7b, 0x7d}
    ensures Scanned(v, i).kind == ParseError
  {
  }

  /** A token at a byte that is neither a blank nor the end. */
  lemma TokenAtByte(v: Text, i: nat)
    requires i < |v| && !IsBlank(v[i]) && v[i] != 0 && Scanned(v, i).kind != ParseError
    ensures var t := Scanned(v, i); t.start == i && t.kind != EndOfInput && TokenAt(v, i, t.end, t.kind)
  {
    hide Run, Scanned, NumberAt, IsString;
    var c := v[i];
    if c == QUOTE {
      ScannedIsString(v, i);
    } else if StartsNumber(c) {
      ScannedIsNumber(v, i);
      NumberKinds(v, i, Scanned(v, i).end, Scanned(v, i).kind);
    } else if c == 0x74 {
      ScanTrue(v, i);
      LiteralAt(v, i, LiteralTrue);
    } else if c == 0x6e {
      ScanNull(v, i);
      LiteralAt(v, i, LiteralNull);
    } else if c == 0x66 {
      ScanFalse(v, i);
      LiteralAt(v, i, LiteralFalse);
    } else if c in {0x2c, 0x3a, 0x5b, 0x5d, 0x7b, 0x7d} {
      ScanMark(v, i);
    } else {
      NothingStarts(v, i);
    }
  }

  lemma EndAtNull(v: Text, i: nat)
    requires i <= |v| && ByteAt(v, i) == 0
    ensures Scanned(v, i) == Token(EndOfInput, i, i + 1)
  {
  }

  /** Every token of scan stands behind blanks and is one of the grammar; the end of the input is the end of the text or
      a null byte. */
  lemma {:induction false} ScannedIsToken(v: Text, pos: nat)
    requires pos <= |v|
    ensures var t := Scanned(v, pos);
            Blanks(v, pos, t.start) &&
            (t.kind == EndOfInput ==> ByteAt(v, t.start) == 0) &&
            (t.kind !in {EndOfInput, ParseError} ==> TokenAt(v, t.start, t.end, t.kind))
    decreases |v| - pos
  {
    if IsBlank(ByteAt(v, pos)) {
      ScannedIsToken(v, pos + 1);
    } else if ByteAt(v, pos) == 0 {
      EndAtNull(v, pos);
    } else if Scanned(v, pos).kind != ParseError {
      TokenAtByte(v, pos);
    }
  }

  /** In particular, every string token is a string of the grammar. */
  lemma StringTokens(v: Text, pos: nat)
    requires pos <= |v| && Scanned(v, pos).kind == ValueString
    ensures var t := Scanned(v, pos); t.start <= t.end && IsString(v[t.start..t.end])
  {
    ScannedIsToken(v, pos);
  }

  //////// What is scanned at a token of the grammar ////////

  lemma SliceStands(v: Text, i: nat, e: nat, s: Text)
    requires i <= e <= |v| && v[i..e] == s
    ensures At(v, i, s)
  {
    assert forall n | 0 <= n < |s| :: s[n] == v[i..e][n] == v[n + i];
  }

  /** A number is a token only if nothing continues it. */
  lemma TokenIsScanned(v: Text, i: nat, e: nat, kind: TokenType)
    requires TokenAt(v, i, e, kind)
    requires kind in {ValueUnsigned, ValueInteger, ValueFloat} ==> EndsNumber(ByteAt(v, e))
    ensures Scanned(v, i) == Token(kind, i, e)
  {
    if MarkByte(kind).Some? {
      ScanMark(v, i);
    } else if LiteralText(kind).Some? {
      SliceStands(v, i, e, LiteralText(kind).value);
      ByteOf(v, i, LiteralText(kind).value, 0);
      if kind == LiteralTrue {
        ScanTrue(v, i);
      } else if kind == LiteralNull {
        ScanNull(v, i);
      } else {
        ScanFalse(v, i);
      }
    } else if kind.ValueString? {
      StringIsFound(v, i, e);
    } else {
      NumberKinds(v, i, e, kind);
      NumberIsScanned(v, i, e, kind);
    }
  }
}
