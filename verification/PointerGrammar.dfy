// The grammar of JSON Pointers, section 3 of RFC 6901, byte by byte: a pointer is a sequence of reference tokens, each
// behind a "/", and a token is a sequence of characters, each with the byte that it denotes (section 4).

module PointerGrammar {
  import opened ByteStrings
  import opened JsonPointer

  /** `Plain` is an unescaped character; the two others are written "~0" and "~1". */
  datatype PointerChar = Plain(b: byte) | WrittenTilde | WrittenSlash

  predicate IsPointerChar(c: PointerChar) {
    c.Plain? ==> c.b != 0x2f && c.b != 0x7e
  }

  function WrittenChar(c: PointerChar): Text {
    match c
    case Plain(b) => [b]
    case WrittenTilde => [0x7e, 0x30]
    case WrittenSlash => [0x7e, 0x31]
  }

  function DenotedByte(c: PointerChar): byte {
    match c
    case Plain(b) => b
    case WrittenTilde => 0x7e
    case WrittenSlash => 0x2f
  }

  type TokenChars = seq<PointerChar>

  predicate IsToken(cs: TokenChars) {
    forall i | 0 <= i < |cs| :: IsPointerChar(cs[i])
  }

  function WrittenToken(cs: TokenChars): Text {
    if cs == [] then [] else WrittenChar(cs[0]) + WrittenToken(cs[1..])
  }

  function DenotedToken(cs: TokenChars): (t: Text)
    ensures |t| == |cs| && forall i | 0 <= i < |cs| :: t[i] == DenotedByte(cs[i])
  {
    if cs == [] then [] else [DenotedByte(cs[0])] + DenotedToken(cs[1..])
  }

  function WrittenPointer(ts: seq<TokenChars>): Text {
    if ts == [] then [] else [0x2f] + (WrittenToken(ts[0]) + WrittenPointer(ts[1..]))
  }

  function DenotedTokens(ts: seq<TokenChars>): (tokens: seq<Text>)
    ensures |tokens| == |ts| && forall i | 0 <= i < |ts| :: tokens[i] == DenotedToken(ts[i])
  {
    if ts == [] then [] else [DenotedToken(ts[0])] + DenotedTokens(ts[1..])
  }

  /** ts is a derivation of the text by the grammar, and it denotes the tokens. */
  predicate Derives(ts: seq<TokenChars>, text: Text, tokens: seq<Text>) {
    (forall i | 0 <= i < |ts| :: IsToken(ts[i])) && WrittenPointer(ts) == text && DenotedTokens(ts) == tokens
  }

  //////// The one derivation of given tokens ////////

  function CharOf(b: byte): (c: PointerChar)
    ensures IsPointerChar(c) && DenotedByte(c) == b
  {
    if b == 0x7e then WrittenTilde else if b == 0x2f then WrittenSlash else Plain(b)
  }

  function CharsOf(token: Text): (cs: TokenChars)
    ensures |cs| == |token| && forall i | 0 <= i < |cs| :: cs[i] == CharOf(token[i])
  {
    if token == [] then [] else [CharOf(token[0])] + CharsOf(token[1..])
  }

  function DerivationOf(tokens: seq<Text>): (ts: seq<TokenChars>)
    ensures |ts| == |tokens| && forall i | 0 <= i < |ts| :: ts[i] == CharsOf(tokens[i])
  {
    if tokens == [] then [] else [CharsOf(tokens[0])] + DerivationOf(tokens[1..])
  }

  lemma CharsAreOnly(cs: TokenChars)
    requires IsToken(cs)
    ensures CharsOf(DenotedToken(cs)) == cs
  {
    forall i | 0 <= i < |cs| ensures CharsOf(DenotedToken(cs))[i] == cs[i] {
    }
  }

  /** escape writes the characters of the token. */
  lemma {:induction false} EscapeWritesChars(token: Text)
    ensures IsToken(CharsOf(token)) && DenotedToken(CharsOf(token)) == token
    ensures WrittenToken(CharsOf(token)) == Escaped(token)
  {
    if token == [] {
    } else {
      EscapeWritesChars(token[1..]);
      assert CharsOf(token)[1..] == CharsOf(token[1..]);
      assert WrittenChar(CharOf(token[0])) == EscapedByte(token[0]);
    }
  }

  lemma {:induction false} ToStringWritesDerivation(tokens: seq<Text>)
    ensures Derives(DerivationOf(tokens), PointerText(tokens), tokens)
  {
    hide Escaped, CharsOf, WrittenToken, DenotedToken;
    if tokens == [] {
    } else {
      EscapeWritesChars(tokens[0]);
      ToStringWritesDerivation(tokens[1..]);
      var ts := DerivationOf(tokens);
      assert ts[1..] == DerivationOf(tokens[1..]);
      forall i | 0 <= i < |ts| ensures IsToken(ts[i]) {
        EscapeWritesChars(tokens[i]);
      }
      assert [tokens[0]] + tokens[1..] == tokens;
    }
  }

  /** Tokens have one derivation, and to_string writes it. */
  lemma TextIsOneDerivation(tokens: seq<Text>, ts: seq<TokenChars>, text: Text)
    ensures Derives(ts, text, tokens) <==> ts == DerivationOf(tokens) && text == PointerText(tokens)
  {
    hide CharsOf, DenotedToken, IsToken;
    ToStringWritesDerivation(tokens);
    if Derives(ts, text, tokens) {
      forall i | 0 <= i < |ts| ensures ts[i] == DerivationOf(tokens)[i] {
        CharsAreOnly(ts[i]);
      }
    }
  }

  /** split succeeds on exactly the pointers of the grammar, and returns the tokens that they denote. */
  lemma SplitIsGrammar(text: Text, tokens: seq<Text>)
    ensures SplitSpec(text) == Ok(tokens) <==> exists ts :: Derives(ts, text, tokens)
  {
    hide Derives, SplitSpec;
    ToStringWritesDerivation(tokens);
    SplitUndoesToString(tokens);
    SplitAcceptsExactlyPointers(text);
    if SplitSpec(text) == Ok(tokens) {
      assert IsTextOf(text, tokens);
      assert Derives(DerivationOf(tokens), text, tokens);
    }
    if ts :| Derives(ts, text, tokens) {
      TextIsOneDerivation(tokens, ts, text);
    }
  }

  lemma {:induction false} SplitRestFails(s: Text)
    ensures SplitRest(s).Err? ==> SplitRest(s).error == DomainError
  {
    if SlashAt(s) < |s| {
      SplitRestFails(s[SlashAt(s) + 1..]);
    }
  }

  /** On every other text it throws std::domain_error. */
  lemma OtherTextsAreRefused(text: Text)
    ensures SplitSpec(text) == Err(DomainError) <==> forall tokens, ts :: !Derives(ts, text, tokens)
  {
    hide Derives;
    if SplitSpec(text).Ok? {
      SplitIsGrammar(text, SplitSpec(text).value);
    } else {
      if text != [] { SplitRestFails(text[1..]); }
      forall tokens, ts ensures !Derives(ts, text, tokens) {
        SplitIsGrammar(text, tokens);
      }
    }
  }
}
