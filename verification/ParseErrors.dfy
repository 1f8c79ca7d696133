// How parse fails: with std::invalid_argument, whatever the bytes are, and the assertions in get_string never fail.

module ParseErrors {
  import opened ByteStrings
  import opened JsonValue
  import opened JsonString
  import opened StringMeaning
  import opened JsonGrammar
  import opened JsonParser
  import opened LexerLaws
  import opened TokenGrammar
  import Lexer

  /** std::invalid_argument, or a number that is left out of the model. */
  predicate IsParseError(e: Error) {
    e == InvalidArgument || e == Unmodelled
  }

  /** get_string can read the token. */
  predicate HasBody(l: Lexeme) {
    l.kind.ValueString? ==> StringOf(l.text).Ok? || StringOf(l.text) == Err(InvalidArgument)
  }

  predicate HaveBodies(ts: seq<Lexeme>) {
    forall i | 0 <= i < |ts| :: HasBody(ts[i])
  }

  predicate FailsWell<T>(r: Result<T>) {
    r.Err? ==> IsParseError(r.error)
  }

  lemma ScalarFailsWell(l: Lexeme)
    requires HasBody(l) && IsScalar(l.kind)
    ensures FailsWell(ScalarValue(l))
  {
    hide StringOf;
  }

  lemma {:induction false} ValueFailsWell(ts: seq<Lexeme>, k: nat)
    requires HaveBodies(ts)
    ensures FailsWell(ParseValue(ts, k))
    decreases |ts| - k, 0
  {
    hide ScalarValue, HasBody, ParseMembers, ParseItems;
    var kind := KindAt(ts, k);
    if kind.BeginObject? {
      MembersFailWell(ts, k + 1, []);
    } else if kind.BeginArray? {
      ItemsFailWell(ts, k + 1, []);
    } else if k < |ts| && IsScalar(kind) {
      ScalarFailsWell(ts[k]);
    }
  }

  lemma {:induction false} ItemsFailWell(ts: seq<Lexeme>, k: nat, es: seq<Json>)
    requires HaveBodies(ts)
    ensures FailsWell(ParseItems(ts, k, es))
    decreases |ts| - k, 1
  {
    hide HasBody, ParseValue;
    ValueFailsWell(ts, k);
    var first := ParseValue(ts, k);
    if first.Ok? {
      var (e, n) := first.value;
      if KindAt(ts, n).ValueSeparator? {
        ItemsFailWell(ts, n + 1, es + [e]);
      }
    }
  }

  lemma {:induction false} MemberFailsWell(ts: seq<Lexeme>, k: nat)
    requires HaveBodies(ts)
    ensures FailsWell(ParseMember(ts, k))
    decreases |ts| - k, 1
  {
    hide ParseValue, StringOf;
    if KindAt(ts, k).ValueString? {
      assert HasBody(ts[k]);
      if KindAt(ts, k + 1).NameSeparator? {
        ValueFailsWell(ts, k + 2);
      }
    }
  }

  lemma {:induction false} MembersFailWell(ts: seq<Lexeme>, k: nat, ms: seq<Member>)
    requires HaveBodies(ts)
    ensures FailsWell(ParseMembers(ts, k, ms))
    decreases |ts| - k, 2
  {
    hide HasBody, ParseMember, Put;
    MemberFailsWell(ts, k);
    var first := ParseMember(ts, k);
    if first.Ok? {
      var (m, n) := first.value;
      if KindAt(ts, n).ValueSeparator? {
        MembersFailWell(ts, n + 1, Put(ms, m.key, m.value));
      }
    }
  }

  lemma {:induction false} LexemesHaveBodies(v: Text, pos: nat)
    requires pos <= |v|
    ensures HaveBodies(Lexemes(v, pos))
    decreases |v| - pos
  {
    hide Lexer.Scanned, StringOf;
    var t := Lexer.Scanned(v, pos);
    TokenMoves(v, pos);
    if t.kind.ValueString? {
      StringHasBody(v, pos);
    }
    if !IsFinal(t.kind) {
      LexemesHaveBodies(v, t.end);
    }
  }

  lemma StringHasBody(v: Text, pos: nat)
    requires pos <= |v| && Lexer.Scanned(v, pos).kind.ValueString? && InText(v, Lexer.Scanned(v, pos))
    ensures HasBody(LexemeOf(v, Lexer.Scanned(v, pos)))
  {
    hide Lexer.Scanned, StringMeaning.Meaning, Quotes, Unescaped, WellEscaped;
    var t := Lexer.Scanned(v, pos);
    StringTokens(v, pos);
    StringIsQuoted(v[t.start..t.end]);
    var ps :| Quotes(v[t.start..t.end], ps);
    TokenMeaning(v[t.start..t.end], ps);
    QuotedIsLong(v[t.start..t.end], ps);
    MeaningFails(ps);
  }

  lemma QuotedIsLong(t: Text, ps: seq<Piece>)
    requires Quotes(t, ps)
    ensures |t| >= 2 && AllPieces(ps)
  {
  }

  lemma {:induction false} MeaningFails(ps: seq<Piece>)
    requires AllPieces(ps)
    ensures StringMeaning.Meaning(ps).Err? ==> StringMeaning.Meaning(ps).error == InvalidArgument
    decreases |ps|
  {
    hide IsPiece, Utf8.Utf8Of;
    if ps == [] {
    } else if IsHighUnit(ps[0]) {
      if |ps| > 1 && IsLowUnit(ps[1]) { MeaningFails(ps[2..]); }
    } else if !IsLowUnit(ps[0]) {
      MeaningFails(ps[1..]);
    }
  }

  /** parse of any bytes returns a value or throws std::invalid_argument; the one other outcome is a number that the
      model leaves out. */
  lemma ParseFailsWell(v: Text)
    ensures ParseText(v).Err? ==> ParseText(v).error == InvalidArgument || ParseText(v).error == Unmodelled
  {
    hide HaveBodies, ParseValue, Lexemes;
    LexemesHaveBodies(v, 0);
    ValueFailsWell(Lexemes(v, 0), 0);
  }
}
