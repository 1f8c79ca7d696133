// The parser accepts a sequence of tokens if and only if the grammar derives it, and returns the value of the
// derivation.

module JsonGrammarLaws {
  import opened ByteStrings
  import opened JsonValue
  import opened Lexer
  import opened JsonGrammar

  //////// What the grammar derives is parsed ////////

  lemma FirstOfYield(t: Tree)
    requires IsValue(t)
    ensures Yield(t)[0].kind in {BeginObject, BeginArray} || IsScalar(Yield(t)[0].kind)
  {
  }

  /** A list of which one part, a comma and the rest are known. */
  lemma CommaBetween(ts: seq<Lexeme>, k: nat, first: seq<Lexeme>, rest: seq<Lexeme>, close: Lexeme)
    ensures Stands(ts, k, (first + ([Mark(ValueSeparator)] + rest)) + [close]) <==>
            Stands(ts, k, first) && Stands(ts, k + |first|, [Mark(ValueSeparator)]) &&
            Stands(ts, k + |first| + 1, rest + [close])
  {
    var comma := [Mark(ValueSeparator)];
    ConcatAssociative(first, comma + rest, [close]);
    ConcatAssociative(comma, rest, [close]);
    StandsParts(ts, k, first, comma + (rest + [close]));
    StandsParts(ts, k + |first|, comma, rest + [close]);
  }

  /** What stands behind one part of a list: the closing mark, or a comma and the rest. */
  predicate RestStands(ts: seq<Lexeme>, n: nat, rest: seq<seq<Lexeme>>, close: Lexeme) {
    if rest == [] then Stands(ts, n, [close])
    else Stands(ts, n, [Mark(ValueSeparator)]) && Stands(ts, n + 1, Separated(rest) + [close])
  }

  /** A list stands where its first part stands and behind that the closing mark, or a comma and the rest. */
  lemma ListStands(ts: seq<Lexeme>, k: nat, parts: seq<seq<Lexeme>>, close: Lexeme)
    requires parts != []
    ensures Stands(ts, k, Separated(parts) + [close]) <==>
            Stands(ts, k, parts[0]) && RestStands(ts, k + |parts[0]|, parts[1..], close)
    ensures |Separated(parts)| == |parts[0]| + if |parts| == 1 then 0 else 1 + |Separated(parts[1..])|
  {
    if |parts| == 1 {
      assert Separated(parts) == parts[0] && parts[1..] == [];
      StandsParts(ts, k, parts[0], [close]);
    } else {
      assert Separated(parts) == parts[0] + ([Mark(ValueSeparator)] + Separated(parts[1..]));
      CommaBetween(ts, k, parts[0], Separated(parts[1..]), close);
    }
  }

  lemma FirstOfList(parts: seq<seq<Lexeme>>, close: Lexeme)
    requires parts != [] && parts[0] != []
    ensures (Separated(parts) + [close])[0] == parts[0][0]
  {
  }

  /** The opening mark, the list and the closing mark. */
  lemma Enclosed(ts: seq<Lexeme>, k: nat, open: TokenType, inner: seq<Lexeme>, close: TokenType)
    ensures Stands(ts, k, [Mark(open)] + inner + [Mark(close)]) <==>
            Stands(ts, k, [Mark(open)]) && Stands(ts, k + 1, inner + [Mark(close)])
    ensures Stands(ts, k + 1, inner + [Mark(close)]) ==> ts[k + 1] == (inner + [Mark(close)])[0]
  {
    ConcatAssociative([Mark(open)], inner, [Mark(close)]);
    StandsParts(ts, k, [Mark(open)], inner + [Mark(close)]);
    var rest := inner + [Mark(close)];
    if Stands(ts, k + 1, rest) {
      assert ts[k + 1..k + 1 + |rest|][0] == ts[k + 1];
    }
  }

  /** Wherever the tokens ls stand, the parser finds a value with this outcome there. */
  ghost predicate ParsesAs(ls: seq<Lexeme>, r: Result<Json>) {
    forall ts: seq<Lexeme>, k: nat {:trigger Stands(ts, k, ls)} |
      Stands(ts, k, ls) :: ParseValue(ts, k) == Ended(r, k + |ls|)
  }

  ghost predicate MemberParsesAs(ls: seq<Lexeme>, r: Result<Member>) {
    forall ts: seq<Lexeme>, k: nat {:trigger Stands(ts, k, ls)} |
      Stands(ts, k, ls) :: ParseMember(ts, k) == Ended(r, k + |ls|)
  }

  ghost predicate AllParseAs(lists: seq<seq<Lexeme>>, rs: seq<Result<Json>>) {
    |lists| == |rs| && forall n | 0 <= n < |rs| :: ParsesAs(lists[n], rs[n])
  }

  ghost predicate AllMembersParseAs(lists: seq<seq<Lexeme>>, rs: seq<Result<Member>>) {
    |lists| == |rs| && forall n | 0 <= n < |rs| :: MemberParsesAs(lists[n], rs[n])
  }

  lemma AllParseTail(lists: seq<seq<Lexeme>>, rs: seq<Result<Json>>)
    requires AllParseAs(lists, rs) && rs != []
    ensures AllParseAs(lists[1..], rs[1..])
  {
    var ls, ss := lists[1..], rs[1..];
    forall n | 0 <= n < |ss| ensures ParsesAs(ls[n], ss[n]) {
      assert ParsesAs(lists[n + 1], rs[n + 1]);
    }
  }

  lemma AllMembersParseTail(lists: seq<seq<Lexeme>>, rs: seq<Result<Member>>)
    requires AllMembersParseAs(lists, rs) && rs != []
    ensures AllMembersParseAs(lists[1..], rs[1..])
  {
    var ls, ss := lists[1..], rs[1..];
    forall n | 0 <= n < |ss| ensures MemberParsesAs(ls[n], ss[n]) {
      assert MemberParsesAs(lists[n + 1], rs[n + 1]);
    }
  }

  // The turns of the two loops: the last one, one that goes on, and one that fails.

  lemma LastItem(ts: seq<Lexeme>, k: nat, es: seq<Json>, e: Json, n: nat)
    requires ParseValue(ts, k) == Ok((e, n)) && KindAt(ts, n) == EndArray
    ensures ParseItems(ts, k, es) == Ok((Arr(es + [e]), n + 1))
  {
  }

  lemma NextItem(ts: seq<Lexeme>, k: nat, es: seq<Json>, e: Json, n: nat)
    requires ParseValue(ts, k) == Ok((e, n)) && KindAt(ts, n) == ValueSeparator
    ensures ParseItems(ts, k, es) == ParseItems(ts, n + 1, es + [e])
  {
  }

  lemma LastMember(ts: seq<Lexeme>, k: nat, ms: seq<Member>, m: Member, n: nat)
    requires ParseMember(ts, k) == Ok((m, n)) && KindAt(ts, n) == EndObject
    ensures ParseMembers(ts, k, ms) == Ok((Obj(Put(ms, m.key, m.value)), n + 1))
  {
  }

  lemma NextMember(ts: seq<Lexeme>, k: nat, ms: seq<Member>, m: Member, n: nat)
    requires ParseMember(ts, k) == Ok((m, n)) && KindAt(ts, n) == ValueSeparator
    ensures ParseMembers(ts, k, ms) == ParseMembers(ts, n + 1, Put(ms, m.key, m.value))
  {
  }

  lemma FailedTurn(ts: seq<Lexeme>, k: nat, es: seq<Json>, ms: seq<Member>)
    ensures ParseValue(ts, k).Err? ==> ParseItems(ts, k, es) == Err(ParseValue(ts, k).error)
    ensures ParseMember(ts, k).Err? ==> ParseMembers(ts, k, ms) == Err(ParseMember(ts, k).error)
  {
  }

  /** The first element of a list, and what stands behind it. */
  lemma FirstItemStands(ts: seq<Lexeme>, k: nat, lists: seq<seq<Lexeme>>, rs: seq<Result<Json>>)
    requires AllParseAs(lists, rs) && rs != [] && Stands(ts, k, Separated(lists) + [Mark(EndArray)])
    ensures ParseValue(ts, k) == Ended(rs[0], k + |lists[0]|)
    ensures |rs| == 1 ==> KindAt(ts, k + |lists[0]|) == EndArray && |Separated(lists)| == |lists[0]|
    ensures |rs| > 1 ==>
              KindAt(ts, k + |lists[0]|) == ValueSeparator && AllParseAs(lists[1..], rs[1..]) &&
              Stands(ts, k + |lists[0]| + 1, Separated(lists[1..]) + [Mark(EndArray)]) &&
              |Separated(lists)| == |lists[0]| + 1 + |Separated(lists[1..])|
  {
    var n := k + |lists[0]|;
    ListStands(ts, k, lists, Mark(EndArray));
    assert ParsesAs(lists[0], rs[0]);
    StandsOne(ts, n, Mark(EndArray));
    StandsOne(ts, n, Mark(ValueSeparator));
    AllParseTail(lists, rs);
  }

  lemma {:induction false} ListParses(ts: seq<Lexeme>, k: nat, lists: seq<seq<Lexeme>>, rs: seq<Result<Json>>,
                                      es: seq<Json>)
    requires AllParseAs(lists, rs) && rs != [] && Stands(ts, k, Separated(lists) + [Mark(EndArray)])
    ensures ParseItems(ts, k, es) == Ended(Collected(rs, es), k + |Separated(lists)| + 1)
    decreases |rs|
  {
    FirstItemStands(ts, k, lists, rs);
    if rs[0].Err? {
      FailedTurn(ts, k, es, []);
    } else {
      var n, done := k + |lists[0]|, es + [rs[0].value];
      assert Collected(rs, es) == Collected(rs[1..], done);
      if |rs| == 1 {
        LastItem(ts, k, es, rs[0].value, n);
        assert Collected(rs[1..], done) == Ok(Arr(done));
      } else {
        NextItem(ts, k, es, rs[0].value, n);
        ListParses(ts, n + 1, lists[1..], rs[1..], done);
      }
    }
  }

  /** The first member of a list, and what stands behind it. */
  lemma FirstMemberStands(ts: seq<Lexeme>, k: nat, lists: seq<seq<Lexeme>>, rs: seq<Result<Member>>)
    requires AllMembersParseAs(lists, rs) && rs != [] && Stands(ts, k, Separated(lists) + [Mark(EndObject)])
    ensures ParseMember(ts, k) == Ended(rs[0], k + |lists[0]|)
    ensures |rs| == 1 ==> KindAt(ts, k + |lists[0]|) == EndObject && |Separated(lists)| == |lists[0]|
    ensures |rs| > 1 ==>
              KindAt(ts, k + |lists[0]|) == ValueSeparator && AllMembersParseAs(lists[1..], rs[1..]) &&
              Stands(ts, k + |lists[0]| + 1, Separated(lists[1..]) + [Mark(EndObject)]) &&
              |Separated(lists)| == |lists[0]| + 1 + |Separated(lists[1..])|
  {
    var n := k + |lists[0]|;
    ListStands(ts, k, lists, Mark(EndObject));
    assert MemberParsesAs(lists[0], rs[0]);
    StandsOne(ts, n, Mark(EndObject));
    StandsOne(ts, n, Mark(ValueSeparator));
    AllMembersParseTail(lists, rs);
  }

  lemma {:induction false} MembersParse(ts: seq<Lexeme>, k: nat, lists: seq<seq<Lexeme>>, rs: seq<Result<Member>>,
                                        ms: seq<Member>)
    requires AllMembersParseAs(lists, rs) && rs != [] && Stands(ts, k, Separated(lists) + [Mark(EndObject)])
    ensures ParseMembers(ts, k, ms) == Ended(Gathered(rs, ms), k + |Separated(lists)| + 1)
    decreases |rs|
  {
    hide Separated, Put, ParseMembers, Stands;
    FirstMemberStands(ts, k, lists, rs);
    if rs[0].Err? {
      FailedTurn(ts, k, [], ms);
    } else {
      var m, n := rs[0].value, k + |lists[0]|;
      var done := Put(ms, m.key, m.value);
      assert Gathered(rs, ms) == Gathered(rs[1..], done);
      if |rs| == 1 {
        LastMember(ts, k, ms, m, n);
        assert Gathered(rs[1..], done) == Ok(Obj(done));
      } else {
        NextMember(ts, k, ms, m, n);
        MembersParse(ts, n + 1, lists[1..], rs[1..], done);
      }
    }
  }

  lemma ArrayParses(lists: seq<seq<Lexeme>>, rs: seq<Result<Json>>)
    requires AllParseAs(lists, rs)
    requires lists != [] ==> lists[0] != [] && lists[0][0].kind != EndArray
    ensures ParsesAs([Mark(BeginArray)] + Separated(lists) + [Mark(EndArray)], Collected(rs, []))
  {
    var ls := [Mark(BeginArray)] + Separated(lists) + [Mark(EndArray)];
    forall ts: seq<Lexeme>, k: nat | Stands(ts, k, ls)
      ensures ParseValue(ts, k) == Ended(Collected(rs, []), k + |ls|)
    {
      Enclosed(ts, k, BeginArray, Separated(lists), EndArray);
      StandsOne(ts, k, Mark(BeginArray));
      if lists != [] {
        FirstOfList(lists, Mark(EndArray));
        ListParses(ts, k + 1, lists, rs, []);
      }
    }
  }

  lemma ObjectParses(lists: seq<seq<Lexeme>>, rs: seq<Result<Member>>)
    requires AllMembersParseAs(lists, rs)
    requires lists != [] ==> lists[0] != [] && lists[0][0].kind != EndObject
    ensures ParsesAs([Mark(BeginObject)] + Separated(lists) + [Mark(EndObject)], Gathered(rs, []))
  {
    var ls := [Mark(BeginObject)] + Separated(lists) + [Mark(EndObject)];
    forall ts: seq<Lexeme>, k: nat | Stands(ts, k, ls)
      ensures ParseValue(ts, k) == Ended(Gathered(rs, []), k + |ls|)
    {
      Enclosed(ts, k, BeginObject, Separated(lists), EndObject);
      StandsOne(ts, k, Mark(BeginObject));
      if lists != [] {
        FirstOfList(lists, Mark(EndObject));
        MembersParse(ts, k + 1, lists, rs, []);
      }
    }
  }

  lemma EntryParses(key: Lexeme, ls: seq<Lexeme>, r: Result<Json>)
    requires key.kind.ValueString? && ParsesAs(ls, r)
    ensures var s := StringOf(key.text);
            MemberParsesAs([key, Mark(NameSeparator)] + ls,
                           if s.Err? then Err(s.error)
                           else if r.Err? then Err(r.error)
                           else Ok(Member(s.value, r.value)))
  {
    hide StringOf;
    var front := [key, Mark(NameSeparator)];
    forall ts: seq<Lexeme>, k: nat | Stands(ts, k, front + ls)
      ensures KindAt(ts, k) == ValueString && ts[k] == key && KindAt(ts, k + 1) == NameSeparator
      ensures ParseValue(ts, k + 2) == Ended(r, k + |front + ls|)
    {
      StandsParts(ts, k, front, ls);
      assert front == [key] + [Mark(NameSeparator)];
      StandsParts(ts, k, [key], [Mark(NameSeparator)]);
      StandsOne(ts, k, key);
      StandsOne(ts, k + 1, Mark(NameSeparator));
    }
  }

  /** Where a derivation stands, the parser finds its value, or fails as its value does. */
  lemma {:induction false} ParseDerived(t: Tree)
    requires IsValue(t)
    ensures ParsesAs(Yield(t), Meaning(t))
    decreases t, 0
  {
    match t {
      case Leaf(l) =>
        forall ts: seq<Lexeme>, k: nat | Stands(ts, k, [l]) ensures ParseValue(ts, k) == Ended(Meaning(t), k + 1) {
          StandsOne(ts, k, l);
        }
      case ArrayTree(items) =>
        ItemsDerived(items);
        if items != [] {
          FirstOfYield(items[0]);
        }
        ArrayParses(YieldItems(items), Meanings(items));
      case ObjectTree(entries) =>
        EntriesDerived(entries);
        if entries != [] {
          assert IsMember(entries[0]) && YieldEntries(entries)[0] == YieldEntry(entries[0]);
          assert YieldEntry(entries[0])[0] == entries[0].key;
        }
        ObjectParses(YieldEntries(entries), EntryMeanings(entries));
    }
  }

  lemma {:induction false} ItemsDerived(items: seq<Tree>)
    requires AreValues(items)
    ensures AllParseAs(YieldItems(items), Meanings(items))
    decreases items, 1
  {
    if items == [] {
    } else {
      ParseDerived(items[0]);
      ItemsDerived(items[1..]);
    }
  }

  lemma {:induction false} EntriesDerived(entries: seq<Entry>)
    requires AreMembers(entries)
    ensures AllMembersParseAs(YieldEntries(entries), EntryMeanings(entries))
    decreases entries, 1
  {
    if entries == [] {
    } else {
      EntryDerived(entries[0]);
      EntriesDerived(entries[1..]);
    }
  }

  lemma {:induction false} EntryDerived(e: Entry)
    requires IsMember(e)
    ensures MemberParsesAs(YieldEntry(e), MeaningOfEntry(e))
    decreases e, 1
  {
    ParseDerived(e.value);
    EntryParses(e.key, Yield(e.value), Meaning(e.value));
  }

  //////// What is parsed, the grammar derives ////////

  /** get_string has a value for every string in the derivation. */
  predicate StringsHaveValues(t: Tree) {
    match t
    case Leaf(l) => l.kind.ValueString? ==> StringOf(l.text).Ok?
    case ArrayTree(items) => forall i | 0 <= i < |items| :: StringsHaveValues(items[i])
    case ObjectTree(entries) =>
      forall i | 0 <= i < |entries| :: KeyHasValue(entries[i]) && StringsHaveValues(entries[i].value)
  }

  predicate KeyHasValue(e: Entry) {
    StringOf(e.key.text).Ok?
  }

  /** The same tokens, except that a number may stand for another number. */
  predicate SameShape(ts: seq<Lexeme>, zs: seq<Lexeme>) {
    |ts| == |zs| && forall i | 0 <= i < |ts| :: ts[i] == zs[i] || (IsNumber(ts[i].kind) && IsNumber(zs[i].kind))
  }

  lemma KindOfShape(ts: seq<Lexeme>, zs: seq<Lexeme>, k: nat)
    requires SameShape(ts, zs)
    ensures KindAt(ts, k) == KindAt(zs, k) || (IsNumber(KindAt(ts, k)) && IsNumber(KindAt(zs, k)))
  {
  }

  /** A value that the parser accepts has a derivation, which ends where the parser stops; its tokens can be those with
      other numbers. */
  lemma {:induction false} AcceptedDerives(ts: seq<Lexeme>, zs: seq<Lexeme>, k: nat) returns (t: Tree)
    requires Plain(ts) && SameShape(ts, zs) && ParseValue(zs, k).Ok?
    ensures IsValue(t) && StringsHaveValues(t) && Stands(ts, k, Yield(t)) && ParseValue(zs, k).value.1 == k + |Yield(t)|
    decreases |zs| - k, 0
  {
    hide Stands, Yield, SameShape, Plain, ItemsStand, MembersStand;
    var kind := KindAt(zs, k);
    KindOfShape(ts, zs, k);
    KindOfShape(ts, zs, k + 1);
    if kind == BeginObject {
      MarkStands(ts, k, BeginObject);
      if KindAt(zs, k + 1) == EndObject {
        MarkStands(ts, k + 1, EndObject);
        t := EmptyStands(ts, k, BeginObject, EndObject);
      } else {
        var entries := MembersDerive(ts, zs, k + 1, []);
        t := ObjectStands(ts, k, entries, ParseValue(zs, k).value.1);
      }
    } else if kind == BeginArray {
      MarkStands(ts, k, BeginArray);
      if KindAt(zs, k + 1) == EndArray {
        MarkStands(ts, k + 1, EndArray);
        t := EmptyStands(ts, k, BeginArray, EndArray);
      } else {
        var items := ItemsDerive(ts, zs, k + 1, []);
        t := ArrayStands(ts, k, items, ParseValue(zs, k).value.1);
      }
    } else {
      t := LeafStands(ts, zs, k);
    }
  }

  lemma LeafStands(ts: seq<Lexeme>, zs: seq<Lexeme>, k: nat) returns (t: Tree)
    requires SameShape(ts, zs) && ParseValue(zs, k).Ok? && KindAt(zs, k) !in {BeginObject, BeginArray}
    ensures IsValue(t) && StringsHaveValues(t) && Stands(ts, k, Yield(t)) && ParseValue(zs, k).value.1 == k + |Yield(t)|
  {
    t := Leaf(ts[k]);
    StandsOne(ts, k, ts[k]);
  }

  lemma EmptyStands(ts: seq<Lexeme>, k: nat, open: TokenType, close: TokenType) returns (t: Tree)
    requires (open == BeginObject && close == EndObject) || (open == BeginArray && close == EndArray)
    requires Stands(ts, k, [Mark(open)]) && Stands(ts, k + 1, [Mark(close)])
    ensures t == if open == BeginArray then ArrayTree([]) else ObjectTree([])
    ensures IsValue(t) && StringsHaveValues(t) && Stands(ts, k, Yield(t)) && |Yield(t)| == 2
  {
    t := if open == BeginArray then ArrayTree([]) else ObjectTree([]);
    assert [] + [Mark(close)] == [Mark(close)];
    Enclosed(ts, k, open, [], close);
  }

  lemma ArrayStands(ts: seq<Lexeme>, k: nat, items: seq<Tree>, e: nat) returns (t: Tree)
    requires Stands(ts, k, [Mark(BeginArray)]) && ItemsStand(ts, k + 1, items, e)
    ensures IsValue(t) && StringsHaveValues(t) && Stands(ts, k, Yield(t)) && e == k + |Yield(t)|
  {
    t := ArrayTree(items);
    Enclosed(ts, k, BeginArray, Separated(YieldItems(items)), EndArray);
  }

  lemma ObjectStands(ts: seq<Lexeme>, k: nat, entries: seq<Entry>, e: nat) returns (t: Tree)
    requires Stands(ts, k, [Mark(BeginObject)]) && MembersStand(ts, k + 1, entries, e)
    ensures IsValue(t) && StringsHaveValues(t) && Stands(ts, k, Yield(t)) && e == k + |Yield(t)|
  {
    t := ObjectTree(entries);
    Enclosed(ts, k, BeginObject, Separated(YieldEntries(entries)), EndObject);
  }

  lemma PrependPart(ts: seq<Lexeme>, k: nat, part: seq<Lexeme>, rest: seq<seq<Lexeme>>, close: Lexeme)
    requires Stands(ts, k, part) && RestStands(ts, k + |part|, rest, close)
    ensures Stands(ts, k, Separated([part] + rest) + [close])
    ensures |Separated([part] + rest)| == |part| + if rest == [] then 0 else 1 + |Separated(rest)|
  {
    assert ([part] + rest)[1..] == rest;
    ListStands(ts, k, [part] + rest, close);
  }

  lemma YieldCons(t: Tree, rest: seq<Tree>)
    ensures YieldItems([t] + rest) == [Yield(t)] + YieldItems(rest)
  {
    assert ([t] + rest)[1..] == rest;
  }

  lemma PrependItem(ts: seq<Lexeme>, k: nat, t: Tree, rest: seq<Tree>)
    requires Stands(ts, k, Yield(t)) && RestStands(ts, k + |Yield(t)|, YieldItems(rest), Mark(EndArray))
    ensures var parts := YieldItems([t] + rest);
            Stands(ts, k, Separated(parts) + [Mark(EndArray)]) &&
            |Separated(parts)| == |Yield(t)| + if rest == [] then 0 else 1 + |Separated(YieldItems(rest))|
  {
    YieldCons(t, rest);
    PrependPart(ts, k, Yield(t), YieldItems(rest), Mark(EndArray));
  }

  lemma PrependEntry(ts: seq<Lexeme>, k: nat, e: Entry, rest: seq<Entry>)
    requires Stands(ts, k, YieldEntry(e)) && RestStands(ts, k + |YieldEntry(e)|, YieldEntries(rest), Mark(EndObject))
    ensures var parts := YieldEntries([e] + rest);
            Stands(ts, k, Separated(parts) + [Mark(EndObject)]) &&
            |Separated(parts)| == |YieldEntry(e)| + if rest == [] then 0 else 1 + |Separated(YieldEntries(rest))|
  {
    assert ([e] + rest)[1..] == rest;
    PrependPart(ts, k, YieldEntry(e), YieldEntries(rest), Mark(EndObject));
  }

  /** The elements of an array stand at k, and behind them the closing bracket in front of e. */
  predicate ItemsStand(ts: seq<Lexeme>, k: nat, items: seq<Tree>, e: nat) {
    items != [] && AreValues(items) && (forall i | 0 <= i < |items| :: StringsHaveValues(items[i])) &&
    Stands(ts, k, Separated(YieldItems(items)) + [Mark(EndArray)]) && e == k + |Separated(YieldItems(items))| + 1
  }

  lemma {:induction false} LastItemStands(ts: seq<Lexeme>, k: nat, t: Tree)
    requires IsValue(t) && StringsHaveValues(t) && Stands(ts, k, Yield(t))
    requires Stands(ts, k + |Yield(t)|, [Mark(EndArray)])
    ensures ItemsStand(ts, k, [t], k + |Yield(t)| + 1)
  {
    PrependItem(ts, k, t, []);
    assert [t] + [] == [t];
  }

  lemma {:induction false} NextItemStands(ts: seq<Lexeme>, k: nat, t: Tree, rest: seq<Tree>, e: nat)
    requires IsValue(t) && StringsHaveValues(t) && Stands(ts, k, Yield(t))
    requires Stands(ts, k + |Yield(t)|, [Mark(ValueSeparator)]) && ItemsStand(ts, k + |Yield(t)| + 1, rest, e)
    ensures ItemsStand(ts, k, [t] + rest, e)
  {
    PrependItem(ts, k, t, rest);
  }

  lemma ItemsTurn(zs: seq<Lexeme>, k: nat, es: seq<Json>)
    requires ParseItems(zs, k, es).Ok?
    ensures ParseValue(zs, k).Ok?
    ensures var (e, n) := ParseValue(zs, k).value;
            if KindAt(zs, n) == ValueSeparator then ParseItems(zs, k, es) == ParseItems(zs, n + 1, es + [e])
            else KindAt(zs, n) == EndArray && ParseItems(zs, k, es).value.1 == n + 1
  {
  }

  lemma {:induction false} ItemsDerive(ts: seq<Lexeme>, zs: seq<Lexeme>, k: nat, es: seq<Json>)
    returns (items: seq<Tree>)
    requires Plain(ts) && SameShape(ts, zs) && ParseItems(zs, k, es).Ok?
    ensures ItemsStand(ts, k, items, ParseItems(zs, k, es).value.1)
    decreases |zs| - k, 1
  {
    hide ItemsStand, ParseItems, Stands, Yield, Plain, SameShape;
    ItemsTurn(zs, k, es);
    var (e, n) := ParseValue(zs, k).value;
    var t := AcceptedDerives(ts, zs, k);
    KindOfShape(ts, zs, n);
    if KindAt(zs, n) == ValueSeparator {
      var rest := ItemsDerive(ts, zs, n + 1, es + [e]);
      MarkStands(ts, n, ValueSeparator);
      NextItemStands(ts, k, t, rest, ParseItems(zs, k, es).value.1);
      items := [t] + rest;
    } else {
      MarkStands(ts, n, EndArray);
      LastItemStands(ts, k, t);
      items := [t];
    }
  }

  lemma {:induction false} MemberDerives(ts: seq<Lexeme>, zs: seq<Lexeme>, k: nat) returns (e: Entry)
    requires Plain(ts) && SameShape(ts, zs) && ParseMember(zs, k).Ok?
    ensures IsMember(e) && KeyHasValue(e) && StringsHaveValues(e.value) && Stands(ts, k, YieldEntry(e))
    ensures ParseMember(zs, k).value.1 == k + |YieldEntry(e)|
    decreases |zs| - k, 1
  {
    KindOfShape(ts, zs, k);
    KindOfShape(ts, zs, k + 1);
    var t := AcceptedDerives(ts, zs, k + 2);
    e := Entry(ts[k], t);
    StandsOne(ts, k, e.key);
    MarkStands(ts, k + 1, NameSeparator);
    StandsParts(ts, k, [e.key], [Mark(NameSeparator)]);
    assert [e.key] + [Mark(NameSeparator)] == [e.key, Mark(NameSeparator)];
    StandsParts(ts, k, [e.key, Mark(NameSeparator)], Yield(t));
  }

  /** The members of an object stand at k, and behind them the closing brace in front of e. */
  predicate MembersStand(ts: seq<Lexeme>, k: nat, entries: seq<Entry>, e: nat) {
    entries != [] && AreMembers(entries) &&
    (forall i | 0 <= i < |entries| :: KeyHasValue(entries[i]) && StringsHaveValues(entries[i].value)) &&
    Stands(ts, k, Separated(YieldEntries(entries)) + [Mark(EndObject)]) &&
    e == k + |Separated(YieldEntries(entries))| + 1
  }

  lemma {:induction false} LastMemberStands(ts: seq<Lexeme>, k: nat, m: Entry)
    requires IsMember(m) && KeyHasValue(m) && StringsHaveValues(m.value) && Stands(ts, k, YieldEntry(m))
    requires Stands(ts, k + |YieldEntry(m)|, [Mark(EndObject)])
    ensures MembersStand(ts, k, [m], k + |YieldEntry(m)| + 1)
  {
    PrependEntry(ts, k, m, []);
    assert [m] + [] == [m];
  }

  lemma {:induction false} NextMemberStands(ts: seq<Lexeme>, k: nat, m: Entry, rest: seq<Entry>, e: nat)
    requires IsMember(m) && KeyHasValue(m) && StringsHaveValues(m.value) && Stands(ts, k, YieldEntry(m))
    requires Stands(ts, k + |YieldEntry(m)|, [Mark(ValueSeparator)])
    requires MembersStand(ts, k + |YieldEntry(m)| + 1, rest, e)
    ensures MembersStand(ts, k, [m] + rest, e)
  {
    PrependEntry(ts, k, m, rest);
  }

  lemma MembersTurn(zs: seq<Lexeme>, k: nat, ms: seq<Member>)
    requires ParseMembers(zs, k, ms).Ok?
    ensures ParseMember(zs, k).Ok?
    ensures var (m, n) := ParseMember(zs, k).value;
            if KindAt(zs, n) == ValueSeparator
            then ParseMembers(zs, k, ms) == ParseMembers(zs, n + 1, Put(ms, m.key, m.value))
            else KindAt(zs, n) == EndObject && ParseMembers(zs, k, ms).value.1 == n + 1
  {
  }

  lemma {:induction false} MembersDerive(ts: seq<Lexeme>, zs: seq<Lexeme>, k: nat, ms: seq<Member>)
    returns (entries: seq<Entry>)
    requires Plain(ts) && SameShape(ts, zs) && ParseMembers(zs, k, ms).Ok?
    ensures MembersStand(ts, k, entries, ParseMembers(zs, k, ms).value.1)
    decreases |zs| - k, 2
  {
    hide MembersStand, ParseMembers, ParseMember, Stands, Yield, YieldEntry, Plain, SameShape;
    MembersTurn(zs, k, ms);
    var (m, n) := ParseMember(zs, k).value;
    var e := MemberDerives(ts, zs, k);
    KindOfShape(ts, zs, n);
    if KindAt(zs, n) == ValueSeparator {
      var rest := MembersDerive(ts, zs, n + 1, Put(ms, m.key, m.value));
      MarkStands(ts, n, ValueSeparator);
      NextMemberStands(ts, k, e, rest, ParseMembers(zs, k, ms).value.1);
      entries := [e] + rest;
    } else {
      MarkStands(ts, n, EndObject);
      LastMemberStands(ts, k, e);
      entries := [e];
    }
  }

  //////// Both directions ////////

  /** The tokens of a text: nothing behind the end of the input. */
  predicate EndsOnce(ts: seq<Lexeme>) {
    forall i | 0 <= i < |ts| - 1 :: ts[i].kind != EndOfInput
  }

  /** Parsing a derived sequence of tokens gives the value of its derivation, or fails as that does. */
  lemma DerivedIsParsed(ts: seq<Lexeme>, t: Tree)
    requires Derives(t, ts)
    ensures ParseTokens(ts) == Meaning(t)
  {
    StandsParts(ts, 0, Yield(t), [Mark(EndOfInput)]);
    assert ts[0..0 + |ts|] == ts;
    ParseDerived(t);
    StandsOne(ts, |Yield(t)|, Mark(EndOfInput));
  }

  /** The parser accepts the tokens of a text if and only if the grammar derives them and every string and number
      in them has a value. */
  lemma ParserAcceptsGrammar(ts: seq<Lexeme>)
    requires Plain(ts) && EndsOnce(ts)
    ensures ParseTokens(ts).Ok? <==> exists t :: Derives(t, ts) && Meaning(t).Ok?
    ensures forall t :: Derives(t, ts) ==> ParseTokens(ts) == Meaning(t)
  {
    forall t | Derives(t, ts) ensures ParseTokens(ts) == Meaning(t) {
      DerivedIsParsed(ts, t);
    }
    if ParseTokens(ts).Ok? {
      var t := AcceptedDerives(ts, ts, 0);
      var n := |Yield(t)|;
      assert ts[n].kind == EndOfInput;
      assert n == |ts| - 1;
      assert ts == ts[0..n] + [ts[n]];
      assert Derives(t, ts);
    }
  }
}
