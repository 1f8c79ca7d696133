// class parser, which pulls its tokens from the lexer, without callback and stream input.

module JsonParser {
  import opened ByteStrings
  import opened JsonValue
  import Utf8
  import opened JsonString
  import opened StringGrammar
  import Lexer
  import opened LexerLaws
  import opened TokenGrammar
  import opened Numbers
  import opened JsonGrammar
  import opened JsonGrammarLaws

  type Token = Lexer.Token
  type TokenType = Lexer.TokenType

  //////// The tokens of a text ////////

  predicate IsFinal(kind: TokenType) {
    kind.EndOfInput? || kind.ParseError?
  }

  predicate KeepsText(kind: TokenType) {
    kind.ValueString? || IsNumber(kind)
  }

  predicate InText(v: Text, t: Token) {
    (t.kind.EndOfInput? || t.end <= |v|) && (t.kind.ParseError? || t.start < t.end)
  }

  function LexemeOf(v: Text, t: Token): Lexeme
    requires InText(v, t)
  {
    Lexeme(t.kind, if KeepsText(t.kind) then v[t.start..t.end] else [])
  }

  /** The tokens from pos on, up to the end of the input or the first error. */
  function Lexemes(v: Text, pos: nat): (ls: seq<Lexeme>)
    requires pos <= |v|
    ensures ls != []
    decreases |v| - pos
  {
    var t := Lexer.Scanned(v, pos);
    TokenMoves(v, pos);
    [LexemeOf(v, t)] + if IsFinal(t.kind) then [] else Lexemes(v, t.end)
  }

  lemma {:induction false} LexemesArePlain(v: Text, pos: nat)
    requires pos <= |v|
    ensures Plain(Lexemes(v, pos)) && EndsOnce(Lexemes(v, pos))
    decreases |v| - pos
  {
    var t := Lexer.Scanned(v, pos);
    TokenMoves(v, pos);
    if !IsFinal(t.kind) {
      LexemesArePlain(v, t.end);
    }
  }

  /** What parsing a text gives. */
  function ParseText(v: Text): Result<Json> {
    ParseTokens(Lexemes(v, 0))
  }

  /** Parsing a text succeeds if and only if the grammar derives its tokens and every string and number has a
      value; the result is the value of the derivation. */
  lemma ParseTextIsGrammar(v: Text)
    ensures ParseText(v).Ok? <==> exists t :: Derives(t, Lexemes(v, 0)) && Meaning(t).Ok?
    ensures forall t :: Derives(t, Lexemes(v, 0)) ==> ParseText(v) == Meaning(t)
  {
    LexemesArePlain(v, 0);
    ParserAcceptsGrammar(Lexemes(v, 0));
  }

  //////// The parser ////////

  /** A token that scan has returned. */
  ghost predicate IsToken(v: Text, t: Token) {
    exists pos: nat :: pos <= |v| && t == Lexer.Scanned(v, pos)
  }

  lemma StringFacts(v: Text, s: nat, e: nat)
    requires s <= e <= |v| && IsString(v[s..e])
    ensures e - s >= 2 && v[e - 1] == QUOTE && WellEscaped(v[s + 1..e - 1])
  {
    BodyOf(v, s, e);
    var cs :| AllChars(cs) && Joined(cs) == v[s + 1..e - 1];
    BodyIsWellEscaped(cs);
  }

  /** The value of a string of the grammar: an error, exactly if an escaped surrogate is alone, or UTF-8. */
  lemma StringOfChars(s: Text, cs: seq<Text>)
    requires AllChars(cs) && s == [QUOTE] + Joined(cs) + [QUOTE]
    ensures StringOf(s).Ok? <==> Paired(cs)
    ensures StringOf(s).Ok? ==> Utf8.IsUtf8(StringOf(s).value)
  {
    assert s[1..|s| - 1] == Joined(cs);
    StringValue(cs);
  }

  /** For every string token that scan accepts, get_string throws or returns well-formed UTF-8; it throws if and
      only if an escaped surrogate is not half of a pair. */
  lemma ScannedStringsAreUtf8(v: Text, pos: nat) returns (cs: seq<Text>)
    requires pos <= |v| && Lexer.Scanned(v, pos).kind.ValueString?
    ensures var t := Lexer.Scanned(v, pos);
            t.start <= t.end <= |v| && AllChars(cs) && v[t.start..t.end] == [QUOTE] + Joined(cs) + [QUOTE] &&
            (StringOf(v[t.start..t.end]).Ok? <==> Paired(cs)) &&
            (StringOf(v[t.start..t.end]).Ok? ==> Utf8.IsUtf8(StringOf(v[t.start..t.end]).value))
  {
    var t := Lexer.Scanned(v, pos);
    StringTokens(v, pos);
    cs := CharsOf(v[t.start..t.end]);
    StringOfChars(v[t.start..t.end], cs);
  }

  lemma CharsOf(s: Text) returns (cs: seq<Text>)
    requires IsString(s)
    ensures AllChars(cs) && s == [QUOTE] + Joined(cs) + [QUOTE]
  {
    cs :| AllChars(cs) && Joined(cs) == s[1..|s| - 1];
    assert s == [s[0]] + s[1..|s| - 1] + [s[|s| - 1]];
  }

  lemma TokenValue(v: Text, s: nat, e: nat)
    requires s + 2 <= e <= |v| && WellEscaped(v[s + 1..e - 1])
    ensures StringOf(v[s..e]) == Unescaped(v[s + 1..e - 1])
  {
    SliceOfSlice(v, s, e, 1, e - s - 1);
  }

  lemma NoCommaExpected(ts: seq<Lexeme>, k: nat)
    requires KindAt(ts, k) == Lexer.ValueSeparator
    ensures ParseItems(ts, k, []) == Err(InvalidArgument) && ParseMembers(ts, k, []) == Err(InvalidArgument)
  {
    assert ParseValue(ts, k) == Err(InvalidArgument);
    assert ParseMember(ts, k) == Err(InvalidArgument);
  }

  lemma ItemsFromValue(ts: seq<Lexeme>, k: nat, es: seq<Json>)
    ensures var v := ParseValue(ts, k);
            ParseItems(ts, k, es) == if v.Ok? then AfterItem(ts, v.value.1, es + [v.value.0]) else Err(v.error)
  {
  }

  lemma MembersFromPair(ts: seq<Lexeme>, k: nat, ms: seq<Member>)
    ensures var p := ParseMember(ts, k);
            ParseMembers(ts, k, ms) ==
            if p.Ok? then AfterMember(ts, p.value.1, Put(ms, p.value.0.key, p.value.0.value)) else Err(p.error)
  {
  }

  lemma TokenIsInText(v: Text, t: Token)
    requires IsToken(v, t)
    ensures InText(v, t)
  {
    var pos: nat :| pos <= |v| && t == Lexer.Scanned(v, pos);
    TokenMoves(v, pos);
  }

  /** The bytes from s to e are a string token. */
  predicate IsQuoted(v: Text, s: nat, e: nat) {
    s + 2 <= e <= |v| && v[e - 1] == QUOTE && WellEscaped(v[s + 1..e - 1])
  }

  lemma StringTokenIsQuoted(v: Text, t: Token)
    requires IsToken(v, t) && t.kind.ValueString?
    ensures IsQuoted(v, t.start, t.end)
  {
    hide Lexer.Scanned, IsString, WellEscaped;
    var pos: nat :| pos <= |v| && t == Lexer.Scanned(v, pos);
    StringTokens(v, pos);
    StringFacts(v, t.start, t.end);
  }

  lemma LexemeValue(v: Text, t: Token)
    requires InText(v, t) && t.kind.ValueString? && IsQuoted(v, t.start, t.end)
    ensures StringOf(LexemeOf(v, t).text) == Unescaped(v[t.start + 1..t.end - 1])
  {
    TokenValue(v, t.start, t.end);
  }

  class Parser {
    const lexer: Lexer.Lexer
    var lastToken: TokenType
    ghost const ts: seq<Lexeme>
    ghost var k: nat

    /** last_token is token k of the text. */
    ghost predicate Valid()
      reads this, lexer
    {
      IsToken(lexer.content, Current()) && InText(lexer.content, Current()) &&
      k < |ts| && ts[k..] == Remaining()
    }

    ghost function Current(): Token
      reads this, lexer
    {
      Lexer.Token(lastToken, lexer.start, lexer.cursor)
    }

    ghost function Remaining(): seq<Lexeme>
      reads this, lexer
      requires InText(lexer.content, Current())
    {
      [LexemeOf(lexer.content, Current())] +
      if IsFinal(lastToken) then [] else Lexemes(lexer.content, lexer.cursor)
    }

    constructor (buff: Text)
      ensures fresh(lexer) && lexer.content == buff && lexer.cursor == 0 && ts == Lexemes(buff, 0)
    {
      lexer := new Lexer.Lexer(buff);
      lastToken := Lexer.EndOfInput;
      ts := Lexemes(buff, 0);
      k := 0;
    }

    /** get_token for the first time. */
    method FirstToken()
      requires lexer.cursor == 0 && ts == Lexemes(lexer.content, 0)
      modifies this, lexer
      ensures Valid() && k == 0
    {
      lastToken := lexer.Scan();
      k := 0;
      assert Current() == Lexer.Scanned(lexer.content, 0);
      TokenIsInText(lexer.content, Current());
    }

    /** get_token */
    method GetToken()
      requires Valid() && !IsFinal(lastToken)
      modifies this, lexer
      ensures Valid() && k == old(k) + 1
    {
      ghost var pos := lexer.cursor;
      lastToken := lexer.Scan();
      k := k + 1;
      assert Current() == Lexer.Scanned(lexer.content, pos);
      TokenIsInText(lexer.content, Current());
      assert ts[k..] == old(ts[k..])[1..];
    }

    lemma CurrentIsToken()
      requires Valid()
      ensures KindAt(ts, k) == lastToken && ts[k] == LexemeOf(lexer.content, Current())
      ensures IsFinal(lastToken) <==> k == |ts| - 1
    {
      assert ts[k] == ts[k..][0];
    }

    lemma CurrentString()
      requires Valid() && lastToken.ValueString?
      ensures IsQuoted(lexer.content, lexer.start, lexer.cursor)
      ensures StringOf(ts[k].text) == Unescaped(lexer.content[lexer.start + 1..lexer.cursor - 1])
    {
      hide IsToken, Lexemes;
      CurrentIsToken();
      StringTokenIsQuoted(lexer.content, Current());
      LexemeValue(lexer.content, Current());
    }

    /** m_lexer.get_string() */
    method StringValue() returns (s: Result<Text>)
      requires Valid() && lastToken.ValueString?
      ensures s == StringOf(ts[k].text)
    {
      CurrentString();
      s := GetString(lexer.content, lexer.start, lexer.cursor);
    }

    /** parse_internal */
    method ParseInternal() returns (r: Result<Json>)
      requires Valid()
      modifies this, lexer
      ensures ParseValue(ts, old(k)) == Ended(r, k)
      ensures r.Ok? ==> Valid() && old(k) < k
      decreases |ts| - k, 1
    {
      hide Valid;
      CurrentIsToken();
      if lastToken.BeginObject? {
        r := ParseObject();
      } else if lastToken.BeginArray? {
        r := ParseArray();
      } else if IsScalar(lastToken) {
        r := ParseScalar();
      } else {
        // no value begins with this token
        r := Err(InvalidArgument);
      }
    }

    /** The cases of the literals, strings and numbers. */
    method ParseScalar() returns (r: Result<Json>)
      requires Valid() && IsScalar(lastToken)
      modifies this, lexer
      ensures r == ScalarValue(ts[old(k)]) && k == old(k) + 1 && Valid()
    {
      hide IsToken, Lexemes;
      CurrentIsToken();
      if lastToken.ValueString? {
        var s := StringValue();
        r := if s.Ok? then Ok(Str(s.value)) else Err(s.error);
      } else if IsNumber(lastToken) {
        r := GetNumber(lexer.content[lexer.start..lexer.cursor], lastToken);
      } else {
        r := Ok(if lastToken.LiteralNull? then Null else Bool(lastToken.LiteralTrue?));
      }
      GetToken();
    }

    /** case begin_array */
    method ParseArray() returns (r: Result<Json>)
      requires Valid() && lastToken.BeginArray?
      modifies this, lexer
      ensures ParseValue(ts, old(k)) == Ended(r, k)
      ensures r.Ok? ==> Valid() && old(k) < k
      decreases |ts| - k, 0
    {
      hide Valid;
      CurrentIsToken();
      GetToken();
      CurrentIsToken();
      // an empty array
      if lastToken.EndArray? {
        GetToken();
        return Ok(Arr([]));
      }
      // a list that begins with a comma fails like one that begins with any other mark
      if lastToken.ValueSeparator? {
        NoCommaExpected(ts, k);
        return Err(InvalidArgument);
      }
      r := ParseItemsLoop();
    }

    /** The values of an array, with commas between them, and the closing bracket. */
    method ParseItemsLoop() returns (r: Result<Json>)
      requires Valid()
      modifies this, lexer
      ensures ParseItems(ts, old(k), []) == Ended(r, k)
      ensures r.Ok? ==> Valid() && old(k) < k
      decreases |ts| - k, 4
    {
      hide IsToken, Lexemes;
      ghost var goal := ParseItems(ts, k, []);
      var first := ParseItem([]);
      if first.Err? {
        return Err(first.error);
      }
      var result := first.value;
      while lastToken.ValueSeparator?
        invariant Valid() && old(k) < k && goal == AfterItem(ts, k, result)
        decreases |ts| - k
      {
        var next := ParseNextItem(result);
        if next.Err? {
          return Err(next.error);
        }
        result := next.value;
      }
      // behind the last element
      r := Close(Lexer.EndArray, Arr(result));
    }

    /** The comma and the value behind it. */
    method ParseNextItem(es: seq<Json>) returns (r: Result<seq<Json>>)
      requires Valid() && lastToken.ValueSeparator?
      modifies this, lexer
      ensures AfterItem(ts, old(k), es) == if r.Ok? then AfterItem(ts, k, r.value) else Err(r.error)
      ensures r.Ok? ==> Valid() && old(k) < k
      decreases |ts| - k, 3
    {
      hide Valid;
      CurrentIsToken();
      GetToken();
      r := ParseItem(es);
    }

    /** The comma and the member behind it. */
    method ParseNextPairInto(ms: seq<Member>) returns (r: Result<seq<Member>>)
      requires Valid() && lastToken.ValueSeparator?
      modifies this, lexer
      ensures AfterMember(ts, old(k), ms) == if r.Ok? then AfterMember(ts, k, r.value) else Err(r.error)
      ensures r.Ok? ==> Valid() && old(k) < k
      decreases |ts| - k, 3
    {
      hide Valid;
      CurrentIsToken();
      GetToken();
      r := ParsePairInto(ms);
    }

    /** expect(end) and get_token behind a list. */
    method Close(end: TokenType, j: Json) returns (r: Result<Json>)
      requires Valid() && !lastToken.ValueSeparator?
      requires if j.Arr? then end.EndArray? else j.Obj? && end.EndObject?
      modifies this, lexer
      ensures r.Ok? ==> Valid() && k == old(k) + 1
      ensures j.Arr? ==> AfterItem(ts, old(k), j.es) == Ended(r, k)
      ensures j.Obj? ==> AfterMember(ts, old(k), j.ms) == Ended(r, k)
    {
      hide Valid;
      CurrentIsToken();
      if lastToken != end {
        return Err(InvalidArgument);
      }
      GetToken();
      r := Ok(j);
    }

    /** result.push_back(std::move(value)) for the next value. */
    method ParseItem(es: seq<Json>) returns (r: Result<seq<Json>>)
      requires Valid()
      modifies this, lexer
      ensures ParseItems(ts, old(k), es) == if r.Ok? then AfterItem(ts, k, r.value) else Err(r.error)
      ensures r.Ok? ==> Valid() && old(k) < k
      decreases |ts| - k, 3
    {
      hide Valid;
      ItemsFromValue(ts, k, es);
      var value := ParseInternal();
      r := if value.Ok? then Ok(es + [value.value]) else Err(value.error);
    }

    /** A key, the colon and the value. */
    method ParsePair() returns (r: Result<Member>)
      requires Valid()
      modifies this, lexer
      ensures ParseMember(ts, old(k)) == Ended(r, k)
      ensures r.Ok? ==> Valid() && old(k) < k
      decreases |ts| - k, 2
    {
      hide Valid;
      CurrentIsToken();
      if !lastToken.ValueString? {
        return Err(InvalidArgument);
      }
      var key := StringValue();
      if key.Err? {
        return Err(key.error);
      }
      // the colon
      GetToken();
      CurrentIsToken();
      if !lastToken.NameSeparator? {
        return Err(InvalidArgument);
      }
      // the value, from the token behind the colon
      GetToken();
      var value := ParseInternal();
      if value.Err? {
        return Err(value.error);
      }
      r := Ok(Member(key.value, value.value));
    }

    /** case begin_object */
    method ParseObject() returns (r: Result<Json>)
      requires Valid() && lastToken.BeginObject?
      modifies this, lexer
      ensures ParseValue(ts, old(k)) == Ended(r, k)
      ensures r.Ok? ==> Valid() && old(k) < k
      decreases |ts| - k, 0
    {
      hide Valid;
      CurrentIsToken();
      GetToken();
      CurrentIsToken();
      // an empty object
      if lastToken.EndObject? {
        GetToken();
        return Ok(Obj([]));
      }
      // a list that begins with a comma fails like one that begins with any other mark
      if lastToken.ValueSeparator? {
        NoCommaExpected(ts, k);
        return Err(InvalidArgument);
      }
      r := ParsePairsLoop();
    }

    /** The members of an object, with commas between them, and the closing brace. */
    method ParsePairsLoop() returns (r: Result<Json>)
      requires Valid()
      modifies this, lexer
      ensures ParseMembers(ts, old(k), []) == Ended(r, k)
      ensures r.Ok? ==> Valid() && old(k) < k
      decreases |ts| - k, 4
    {
      hide IsToken, Lexemes;
      ghost var goal := ParseMembers(ts, k, []);
      var first := ParsePairInto([]);
      if first.Err? {
        return Err(first.error);
      }
      var result := first.value;
      while lastToken.ValueSeparator?
        invariant Valid() && old(k) < k && goal == AfterMember(ts, k, result)
        decreases |ts| - k
      {
        var next := ParseNextPairInto(result);
        if next.Err? {
          return Err(next.error);
        }
        result := next.value;
      }
      // behind the last member
      r := Close(Lexer.EndObject, Obj(result));
    }

    /** result[key] = std::move(value) for the next key and value. */
    method ParsePairInto(ms: seq<Member>) returns (r: Result<seq<Member>>)
      requires Valid()
      modifies this, lexer
      ensures ParseMembers(ts, old(k), ms) ==
              if r.Ok? then AfterMember(ts, k, r.value) else Err(r.error)
      ensures r.Ok? ==> Valid() && old(k) < k
      decreases |ts| - k, 3
    {
      hide Valid;
      MembersFromPair(ts, k, ms);
      var m := ParsePair();
      r := if m.Ok? then Ok(Put(ms, m.value.key, m.value.value)) else Err(m.error);
    }

    /** parse */
    method Parse() returns (r: Result<Json>)
      requires lexer.cursor == 0 && ts == Lexemes(lexer.content, 0)
      modifies this, lexer
      ensures r == ParseText(lexer.content)
    {
      FirstToken();
      r := ParseInternal();
      if r.Ok? {
        CurrentIsToken();
        if !lastToken.EndOfInput? {
          r := Err(InvalidArgument);
        }
      }
    }
  }

  /** json::parse of a text. */
  method ParseJson(v: Text) returns (r: Result<Json>)
    ensures r == ParseText(v)
  {
    var parser := new Parser(v);
    r := parser.Parse();
  }
}
