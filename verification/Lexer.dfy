// lexer::scan: the automaton that re2c has generated, label by label, and the pointers that it moves.

module Lexer {
  import opened ByteStrings
  import opened Decimal
  import opened JsonString

  datatype TokenType =
    | LiteralTrue
    | LiteralFalse
    | LiteralNull
    | ValueString
    | ValueUnsigned
    | ValueInteger
    | ValueFloat
    | BeginArray
    | BeginObject
    | EndArray
    | EndObject
    | NameSeparator
    | ValueSeparator
    | ParseError
    | EndOfInput

  // The literals.
  const TRUE_TEXT: Text := [0x74, 0x72, 0x75, 0x65]
  const FALSE_TEXT: Text := [0x66, 0x61, 0x6c, 0x73, 0x65]
  const NULL_TEXT: Text := [0x6e, 0x75, 0x6c, 0x6c]

  /** A token: its type and the range [m_start, m_cursor) in the input. */
  datatype Token = Token(kind: TokenType, start: nat, end: nat)

  /** The buffer is followed by a null byte. */
  function ByteAt(v: Text, i: nat): byte {
    if i < |v| then v[i] else 0
  }

  //////// The labels basic_json_parser_N, as states ////////

  predicate IsBlank(c: byte) {
    c in {0x09, 0x0a, 0x0d, 0x20}
  }

  /** The dispatch on the first byte of a token. */
  function First(c: byte): nat {
    if IsBlank(c) then 6
    else if c == 0x00 then 2
    else if c == 0x22 then 9
    else if c == 0x2c then 10
    else if c == 0x2d then 12
    else if c == 0x30 then 13
    else if 0x31 <= c <= 0x39 then 15
    else if c == 0x3a then 17
    else if c == 0x5b then 19
    else if c == 0x5d then 21
    else if c == 0x66 then 23
    else if c == 0x6e then 24
    else if c == 0x74 then 25
    else if c == 0x7b then 26
    else if c == 0x7d then 28
    else 4
  }

  /** Label 31: the next byte inside a string. */
  function InString(c: byte): nat {
    if c <= 0x1f then 32
    else if c == 0x22 then 33
    else if c == 0x5c then 35
    else if c <= 0x7f then 30
    else if c <= 0xc1 then 32
    else if c <= 0xdf then 36
    else if c == 0xe0 then 37
    else if c == 0xed then 39
    else if c <= 0xef then 38
    else if c == 0xf0 then 40
    else if c <= 0xf3 then 41
    else if c == 0xf4 then 42
    else 32
  }

  /** Behind a number without fraction and exponent; whole is the label of the token if nothing follows. */
  function AfterInteger(c: byte, whole: nat): nat {
    if c == 0x2e then 47 else if c in {0x45, 0x65} then 51 else whole
  }

  function OnHex(c: byte, state: nat): nat {
    if IsHex(c) then state else 32
  }

  function Between(low: byte, c: byte, high: byte, state: nat): nat {
    if low <= c <= high then state else 32
  }

  /** The labels that move the cursor on and dispatch on the byte there. */
  predicate Reads(state: nat) {
    state in {9, 12, 13, 15, 23, 24, 25, 30, 35, 36, 37, 38, 39, 40, 41, 42, 43, 45, 47, 48, 51, 52, 53, 54,
              55, 56, 59, 60, 62, 63, 64, 65, 66, 71, 74}
  }

  /** The label that such a label goes to. */
  function Goto(state: nat, c: byte): nat
    requires Reads(state)
  {
    match state
    case 9 => if InString(c) == 32 then 5 else InString(c)
    case 12 => if c == 0x30 then 43 else if IsDigit(c) then 45 else 5
    case 13 => if IsDigit(c) then 48 else AfterInteger(c, 14)
    case 15 => if IsDigit(c) then 15 else AfterInteger(c, 14)
    case 23 => if c == 0x61 then 52 else 5
    case 24 => if c == 0x75 then 53 else 5
    case 25 => if c == 0x72 then 54 else 5
    case 30 => InString(c)
    case 35 => if c == LETTER_U then 55 else if Unletter(c).Some? then 30 else 32
    case 36 => Between(0x80, c, 0xbf, 30)
    case 37 => Between(0xa0, c, 0xbf, 36)
    case 38 => Between(0x80, c, 0xbf, 36)
    case 39 => Between(0x80, c, 0x9f, 36)
    case 40 => Between(0x90, c, 0xbf, 38)
    case 41 => Between(0x80, c, 0xbf, 38)
    case 42 => Between(0x80, c, 0x8f, 38)
    case 43 => if IsDigit(c) then 48 else AfterInteger(c, 44)
    case 45 => if IsDigit(c) then 45 else AfterInteger(c, 44)
    case 47 => if IsDigit(c) then 56 else 32
    case 48 => if IsDigit(c) then 48 else 50
    case 51 => if c in {0x2b, 0x2d} then 59 else if IsDigit(c) then 60 else 32
    case 52 => if c == 0x6c then 62 else 32
    case 53 => if c == 0x6c then 63 else 32
    case 54 => if c == 0x75 then 64 else 32
    case 55 => OnHex(c, 65)
    case 56 => if IsDigit(c) then 56 else if c in {0x45, 0x65} then 51 else 58
    case 59 => if IsDigit(c) then 60 else 32
    case 60 => if IsDigit(c) then 60 else 58
    case 62 => if c == 0x73 then 66 else 32
    case 63 => if c == 0x6c then 67 else 32
    case 64 => if c == 0x65 then 69 else 32
    case 65 => OnHex(c, 71)
    case 66 => if c == 0x65 then 72 else 32
    case 71 => OnHex(c, 74)
    case 74 => OnHex(c, 30)
  }

  /** The labels that set m_marker, and the value of yyaccept that they set. */
  function Accept(state: nat): Option<nat> {
    if state in {9, 23, 24, 25} then Some(0)
    else if state in {13, 15} then Some(1)
    else if state in {43, 45} then Some(2)
    else if state == 56 then Some(3)
    else None
  }

  /** The labels that move the cursor on and end the token. */
  function Ending(state: nat): Option<TokenType> {
    if state == 2 then Some(EndOfInput)
    else if state == 4 then Some(ParseError)
    else if state == 10 then Some(ValueSeparator)
    else if state == 17 then Some(NameSeparator)
    else if state == 19 then Some(BeginArray)
    else if state == 21 then Some(EndArray)
    else if state == 26 then Some(BeginObject)
    else if state == 28 then Some(EndObject)
    else if state == 33 then Some(ValueString)
    else if state == 67 then Some(LiteralNull)
    else if state == 69 then Some(LiteralTrue)
    else if state == 72 then Some(LiteralFalse)
    else None
  }

  /** The labels that end the token at the cursor. */
  function Stopping(state: nat): TokenType {
    if state == 14 then ValueUnsigned
    else if state == 44 then ValueInteger
    else if state == 58 then ValueFloat
    else ParseError
  }

  /** Label 32: back to the marker, to the label that yyaccept selects. */
  function Fallback(accept: nat): TokenType {
    Stopping(if accept == 0 then 5 else if accept == 1 then 14 else if accept == 2 then 44 else 58)
  }

  /** A null byte never takes the automaton further. */
  lemma NullEnds(state: nat)
    requires Reads(state)
    ensures !Reads(Goto(state, 0)) && Ending(Goto(state, 0)).None?
  {
  }

  /** The labels from which no jump back to the marker comes before one that sets it. */
  predicate SetsMarkerFirst(state: nat) {
    state in {9, 12, 13, 15, 23, 24, 25, 43, 45} || (!Reads(state) && state != 32)
  }

  /** The marker, which begins as a null pointer, is set where it may be needed. */
  predicate IsMarked(v: Text, state: nat, marker: Option<nat>) {
    match marker
    case Some(m) => m <= |v|
    case None => SetsMarkerFirst(state)
  }

  /** The token that the automaton finds from a label on, and where it leaves the cursor. */
  function Run(v: Text, state: nat, cursor: nat, marker: Option<nat>, accept: nat): (r: (TokenType, nat))
    requires cursor <= |v| && IsMarked(v, state, marker) && (Reads(state) ==> cursor < |v|)
    requires state != 2 && Ending(state).Some? ==> cursor < |v|
    ensures r.1 <= |v| + 1 && (r.0 != EndOfInput ==> r.1 <= |v|)
    decreases |v| - cursor
  {
    if Reads(state) then
      NullEnds(state);
      var mark := if Accept(state).Some? then Some(cursor + 1) else marker;
      var yyaccept := if Accept(state).Some? then Accept(state).value else accept;
      Run(v, Goto(state, ByteAt(v, cursor + 1)), cursor + 1, mark, yyaccept)
    else if Ending(state).Some? then (Ending(state).value, cursor + 1)
    else if state == 32 then (Fallback(accept), marker.value)
    else (Stopping(state), cursor)
  }

  /** The next token from pos on, behind blanks. */
  function Scanned(v: Text, pos: nat): (t: Token)
    requires pos <= |v|
    ensures pos <= t.start <= |v| && t.end <= |v| + 1 && (t.kind != EndOfInput ==> t.end <= |v|)
    decreases |v| - pos
  {
    if IsBlank(ByteAt(v, pos)) then Scanned(v, pos + 1)
    else
      var (kind, end) := Run(v, First(ByteAt(v, pos)), pos, None, 0);
      Token(kind, pos, end)
  }

  class Lexer {
    const content: Text
    // where the current token begins
    var start: nat
    // where label 32 puts the cursor back to; none before a label has set it
    var marker: Option<nat>
    // how far the automaton has come
    var cursor: nat
    var lastTokenType: TokenType

    constructor (buff: Text)
      ensures content == buff && cursor == 0
    {
      content := buff;
      start := 0;
      marker := None;
      cursor := 0;
      lastTokenType := EndOfInput;
    }

    /** Label 6: over the blanks. */
    method SkipBlanks()
      requires cursor < |content| && IsBlank(content[cursor])
      modifies `cursor
      ensures old(cursor) < cursor <= |content|
      ensures Scanned(content, cursor) == Scanned(content, old(cursor))
    {
      cursor := cursor + 1;
      while IsBlank(ByteAt(content, cursor))
        invariant old(cursor) < cursor <= |content|
        invariant Scanned(content, cursor) == Scanned(content, old(cursor))
        decreases |content| - cursor
      {
        cursor := cursor + 1;
      }
    }

    /** scan */
    method Scan() returns (kind: TokenType)
      requires cursor <= |content|
      modifies `start, `marker, `cursor, `lastTokenType
      ensures Token(kind, start, cursor) == Scanned(content, old(cursor))
      ensures lastTokenType == kind
    {
      hide Run;
      while true
        invariant cursor <= |content|
        invariant Scanned(content, cursor) == Scanned(content, old(cursor))
        decreases |content| - cursor
      {
        marker := None;
        start := cursor;
        var state := First(ByteAt(content, cursor));
        if state == 6 {
          SkipBlanks();
          continue;
        }
        kind := FollowLabels(state);
        lastTokenType := kind;
        return;
      }
    }

    /** The jumps from the first label of a token on. That label 32 can use the marker is part of the proof. */
    method FollowLabels(first: nat) returns (kind: TokenType)
      requires cursor <= |content| && marker == None && SetsMarkerFirst(first)
      requires Reads(first) ==> cursor < |content|
      requires first != 2 && Ending(first).Some? ==> cursor < |content|
      modifies `marker, `cursor
      ensures (kind, cursor) == Run(content, first, old(cursor), None, 0)
    {
      var state := first;
      var yyaccept := 0;
      while Reads(state)
        invariant old(cursor) <= cursor <= |content| && IsMarked(content, state, marker)
        invariant Reads(state) ==> cursor < |content|
        invariant state != 2 && Ending(state).Some? ==> cursor < |content|
        invariant Run(content, first, old(cursor), None, 0) == Run(content, state, cursor, marker, yyaccept)
        decreases |content| - cursor
      {
        NullEnds(state);
        cursor := cursor + 1;
        if Accept(state).Some? {
          marker := Some(cursor);
          yyaccept := Accept(state).value;
        }
        state := Goto(state, ByteAt(content, cursor));
      }
      if Ending(state).Some? {
        cursor := cursor + 1;
        kind := Ending(state).value;
      } else if state == 32 {
        cursor := marker.value;
        kind := Fallback(yyaccept);
      } else {
        kind := Stopping(state);
      }
    }
  }
}
