// The grammar of JSON texts (sections 2 to 5 of RFC 7159) over the tokens of the lexer, and the recursive descent
// of parser::parse_internal without a callback: it accepts exactly what the grammar derives.

module JsonGrammar {
  import opened ByteStrings
  import opened JsonValue
  import opened JsonString
  import opened Lexer
  import opened Numbers

  /** A token as the parser sees it; only strings and numbers keep their text. */
  datatype Lexeme = Lexeme(kind: TokenType, text: Text)

  function Mark(kind: TokenType): Lexeme {
    Lexeme(kind, [])
  }

  predicate IsLiteral(kind: TokenType) {
    kind.LiteralTrue? || kind.LiteralFalse? || kind.LiteralNull?
  }

  predicate IsNumber(kind: TokenType) {
    kind.ValueUnsigned? || kind.ValueInteger? || kind.ValueFloat?
  }

  predicate IsScalar(kind: TokenType) {
    IsLiteral(kind) || IsNumber(kind) || kind.ValueString?
  }

  /** get_string of a string token. */
  function StringOf(text: Text): Result<Text> {
    if |text| >= 2 && WellEscaped(text[1..|text| - 1]) then Unescaped(text[1..|text| - 1]) else Err(AssertFailure)
  }

  /** The value of a literal, a string or a number. */
  function ScalarValue(l: Lexeme): Result<Json>
    requires IsScalar(l.kind)
  {
    match l.kind
    case LiteralTrue => Ok(Bool(true))
    case LiteralFalse => Ok(Bool(false))
    case LiteralNull => Ok(Null)
    case ValueString =>
      var s :- StringOf(l.text);
      Ok(Str(s))
    case _ => GetNumber(l.text, l.kind)
  }

  //////// Derivations ////////

  datatype Tree =
    | Leaf(l: Lexeme)
    | ArrayTree(items: seq<Tree>)
    | ObjectTree(entries: seq<Entry>)

  datatype Entry = Entry(key: Lexeme, value: Tree)

  /** value = false / null / true / object / array / number / string */
  predicate IsValue(t: Tree) {
    match t
    case Leaf(l) => IsScalar(l.kind)
    case ArrayTree(items) => AreValues(items)
    case ObjectTree(entries) => AreMembers(entries)
  }

  predicate AreValues(items: seq<Tree>) {
    forall i | 0 <= i < |items| :: IsValue(items[i])
  }

  predicate IsMember(e: Entry) {
    e.key.kind.ValueString? && IsValue(e.value)
  }

  predicate AreMembers(entries: seq<Entry>) {
    forall i | 0 <= i < |entries| :: IsMember(entries[i])
  }

  /** [ part *( value-separator part ) ] */
  function Separated(parts: seq<seq<Lexeme>>): seq<Lexeme> {
    if parts == [] then []
    else if |parts| == 1 then parts[0]
    else parts[0] + ([Mark(ValueSeparator)] + Separated(parts[1..]))
  }

  /** The tokens that a derivation spells. */
  function Yield(t: Tree): (ls: seq<Lexeme>)
    ensures ls != []
  {
    match t
    case Leaf(l) => [l]
    case ArrayTree(items) => [Mark(BeginArray)] + Separated(YieldItems(items)) + [Mark(EndArray)]
    case ObjectTree(entries) => [Mark(BeginObject)] + Separated(YieldEntries(entries)) + [Mark(EndObject)]
  }

  function YieldItems(items: seq<Tree>): (parts: seq<seq<Lexeme>>)
    ensures |parts| == |items|
  {
    if items == [] then [] else [Yield(items[0])] + YieldItems(items[1..])
  }

  /** member = string name-separator value */
  function YieldEntry(e: Entry): seq<Lexeme> {
    [e.key, Mark(NameSeparator)] + Yield(e.value)
  }

  function YieldEntries(entries: seq<Entry>): (parts: seq<seq<Lexeme>>)
    ensures |parts| == |entries|
  {
    if entries == [] then [] else [YieldEntry(entries[0])] + YieldEntries(entries[1..])
  }

  /** The value of a derivation. */
  function Meaning(t: Tree): Result<Json>
    requires IsValue(t)
  {
    match t
    case Leaf(l) => ScalarValue(l)
    case ArrayTree(items) => Collected(Meanings(items), [])
    case ObjectTree(entries) => Gathered(EntryMeanings(entries), [])
  }

  function Meanings(items: seq<Tree>): (rs: seq<Result<Json>>)
    requires AreValues(items)
    ensures |rs| == |items|
  {
    if items == [] then [] else [Meaning(items[0])] + Meanings(items[1..])
  }

  function MeaningOfEntry(e: Entry): Result<Member>
    requires IsMember(e)
  {
    var key :- StringOf(e.key.text);
    var value :- Meaning(e.value);
    Ok(Member(key, value))
  }

  function EntryMeanings(entries: seq<Entry>): (rs: seq<Result<Member>>)
    requires AreMembers(entries)
    ensures |rs| == |entries|
  {
    if entries == [] then [] else [MeaningOfEntry(entries[0])] + EntryMeanings(entries[1..])
  }

  /** The elements in order, or the first error. */
  function Collected(rs: seq<Result<Json>>, es: seq<Json>): Result<Json> {
    if rs == [] then Ok(Arr(es))
    else
      var e :- rs[0];
      Collected(rs[1..], es + [e])
  }

  /** The members, put into an object in order, so that the last one of a key wins; or the first error. */
  function Gathered(rs: seq<Result<Member>>, ms: seq<Member>): Result<Json> {
    if rs == [] then Ok(Obj(ms))
    else
      var m :- rs[0];
      Gathered(rs[1..], Put(ms, m.key, m.value))
  }

  /** JSON-text = value, and nothing behind it. */
  predicate Derives(t: Tree, ts: seq<Lexeme>) {
    IsValue(t) && ts == Yield(t) + [Mark(EndOfInput)]
  }

  //////// Recursive descent ////////

  function KindAt(ts: seq<Lexeme>, k: nat): TokenType {
    if k < |ts| then ts[k].kind else ParseError
  }

  /** The outcome of parsing something that ends at position n. */
  function Ended<T>(r: Result<T>, n: nat): Result<(T, nat)> {
    if r.Ok? then Ok((r.value, n)) else Err(r.error)
  }

  /** parse_internal, with last_token at position k: the value, and the position of the token behind it. */
  function ParseValue(ts: seq<Lexeme>, k: nat): (r: Result<(Json, nat)>)
    ensures r.Ok? ==> k < r.value.1 <= |ts|
    decreases |ts| - k, 0
  {
    var kind := KindAt(ts, k);
    if kind == BeginObject then
      if KindAt(ts, k + 1) == EndObject then Ok((Obj([]), k + 2)) else ParseMembers(ts, k + 1, [])
    else if kind == BeginArray then
      if KindAt(ts, k + 1) == EndArray then Ok((Arr([]), k + 2)) else ParseItems(ts, k + 1, [])
    else if k < |ts| && IsScalar(kind) then
      var j :- ScalarValue(ts[k]);
      Ok((j, k + 1))
    else Err(InvalidArgument)
  }

  function ParseItems(ts: seq<Lexeme>, k: nat, es: seq<Json>): (r: Result<(Json, nat)>)
    ensures r.Ok? ==> k < r.value.1 <= |ts|
    decreases |ts| - k, 1
  {
    var (e, n) :- ParseValue(ts, k);
    AfterItem(ts, n, es + [e])
  }

  /** Behind an element: another one or the end of the array. */
  function AfterItem(ts: seq<Lexeme>, n: nat, es: seq<Json>): (r: Result<(Json, nat)>)
    ensures r.Ok? ==> n < r.value.1 <= |ts|
    decreases |ts| - n, 2
  {
    if KindAt(ts, n) == ValueSeparator then ParseItems(ts, n + 1, es)
    else if KindAt(ts, n) == EndArray then Ok((Arr(es), n + 1))
    else Err(InvalidArgument)
  }

  /** A key, the colon and the value. */
  function ParseMember(ts: seq<Lexeme>, k: nat): (r: Result<(Member, nat)>)
    ensures r.Ok? ==> k + 2 < r.value.1 <= |ts|
    decreases |ts| - k, 1
  {
    if KindAt(ts, k) != ValueString then Err(InvalidArgument)
    else
      var key :- StringOf(ts[k].text);
      if KindAt(ts, k + 1) != NameSeparator then Err(InvalidArgument)
      else
        var (j, n) :- ParseValue(ts, k + 2);
        Ok((Member(key, j), n))
  }

  function ParseMembers(ts: seq<Lexeme>, k: nat, ms: seq<Member>): (r: Result<(Json, nat)>)
    ensures r.Ok? ==> k < r.value.1 <= |ts|
    decreases |ts| - k, 2
  {
    var (m, n) :- ParseMember(ts, k);
    AfterMember(ts, n, Put(ms, m.key, m.value))
  }

  /** Behind a member: another one or the end of the object. */
  function AfterMember(ts: seq<Lexeme>, n: nat, ms: seq<Member>): (r: Result<(Json, nat)>)
    ensures r.Ok? ==> n < r.value.1 <= |ts|
    decreases |ts| - n, 3
  {
    if KindAt(ts, n) == ValueSeparator then ParseMembers(ts, n + 1, ms)
    else if KindAt(ts, n) == EndObject then Ok((Obj(ms), n + 1))
    else Err(InvalidArgument)
  }

  /** parse */
  function ParseTokens(ts: seq<Lexeme>): Result<Json> {
    var (j, n) :- ParseValue(ts, 0);
    if KindAt(ts, n) == EndOfInput then Ok(j) else Err(InvalidArgument)
  }

  //////// Tokens in a row ////////

  predicate Stands(ts: seq<Lexeme>, k: nat, ls: seq<Lexeme>) {
    k + |ls| <= |ts| && ts[k..k + |ls|] == ls
  }

  lemma StandsParts(ts: seq<Lexeme>, k: nat, a: seq<Lexeme>, b: seq<Lexeme>)
    ensures Stands(ts, k, a + b) <==> Stands(ts, k, a) && Stands(ts, k + |a|, b)
  {
    if k + |a| + |b| <= |ts| {
      var s := ts[k..k + |a + b|];
      SliceOfSlice(ts, k, k + |a + b|, 0, |a|);
      SliceOfSlice(ts, k, k + |a + b|, |a|, |a + b|);
      assert s == s[0..|a|] + s[|a|..|a + b|];
      assert (a + b)[0..|a|] == a && (a + b)[|a|..|a + b|] == b;
    }
  }

  lemma StandsOne(ts: seq<Lexeme>, k: nat, l: Lexeme)
    ensures Stands(ts, k, [l]) <==> k < |ts| && ts[k] == l
  {
    if k < |ts| {
      assert ts[k..k + 1] == [ts[k]];
    }
  }

  /** Text is kept only where it matters, so that a mark is determined by its kind. */
  predicate Plain(ts: seq<Lexeme>) {
    forall i | 0 <= i < |ts| :: ts[i].kind.ValueString? || IsNumber(ts[i].kind) || ts[i] == Mark(ts[i].kind)
  }

  lemma MarkStands(ts: seq<Lexeme>, k: nat, kind: TokenType)
    requires Plain(ts) && kind != ValueString && !IsNumber(kind)
    ensures Stands(ts, k, [Mark(kind)]) ==> KindAt(ts, k) == kind
    ensures kind != ParseError && KindAt(ts, k) == kind ==> Stands(ts, k, [Mark(kind)])
  {
    StandsOne(ts, k, Mark(kind));
  }
}
