// Which sequences of tokens the parser accepts does not depend on their numbers: with any number read as 0, it
// accepts exactly what the grammar derives with strings that have values. So floating-point numbers, which have no
// value here, do not restrict what is proved about acceptance.

module JsonAcceptance {
  import opened ByteStrings
  import opened Decimal
  import opened JsonValue
  import opened Lexer
  import opened Numbers
  import opened JsonGrammar
  import opened JsonGrammarLaws

  /** The token of the number 0. */
  const ZERO_LEXEME: Lexeme := Lexeme(ValueUnsigned, [DIGIT_0])

  function ZeroedOne(l: Lexeme): Lexeme {
    if IsNumber(l.kind) then ZERO_LEXEME else l
  }

  /** The tokens with 0 for every number. */
  function Zeroed(ls: seq<Lexeme>): (zs: seq<Lexeme>)
    ensures |zs| == |ls| && forall i | 0 <= i < |ls| :: zs[i] == ZeroedOne(ls[i])
  {
    if ls == [] then [] else [ZeroedOne(ls[0])] + Zeroed(ls[1..])
  }

  function ZeroedParts(parts: seq<seq<Lexeme>>): (zs: seq<seq<Lexeme>>)
    ensures |zs| == |parts|
  {
    if parts == [] then [] else [Zeroed(parts[0])] + ZeroedParts(parts[1..])
  }

  function ZeroedTree(t: Tree): Tree {
    match t
    case Leaf(l) => Leaf(ZeroedOne(l))
    case ArrayTree(items) => ArrayTree(ZeroedTrees(items))
    case ObjectTree(entries) => ObjectTree(ZeroedEntries(entries))
  }

  function ZeroedTrees(items: seq<Tree>): (zs: seq<Tree>)
    ensures |zs| == |items|
  {
    if items == [] then [] else [ZeroedTree(items[0])] + ZeroedTrees(items[1..])
  }

  function ZeroedEntry(e: Entry): Entry {
    Entry(e.key, ZeroedTree(e.value))
  }

  function ZeroedEntries(entries: seq<Entry>): (zs: seq<Entry>)
    ensures |zs| == |entries|
  {
    if entries == [] then [] else [ZeroedEntry(entries[0])] + ZeroedEntries(entries[1..])
  }

  //////// Zeroing the tokens is zeroing the derivation ////////

  lemma ZeroedConcat(a: seq<Lexeme>, b: seq<Lexeme>)
    ensures Zeroed(a + b) == Zeroed(a) + Zeroed(b)
  {
  }

  lemma ZeroedMark(kind: TokenType)
    requires !IsNumber(kind)
    ensures Zeroed([Mark(kind)]) == [Mark(kind)]
  {
  }

  lemma ZeroedEnclosed(open: TokenType, ls: seq<Lexeme>, close: TokenType)
    requires !IsNumber(open) && !IsNumber(close)
    ensures Zeroed([Mark(open)] + ls + [Mark(close)]) == [Mark(open)] + Zeroed(ls) + [Mark(close)]
  {
    hide Zeroed;
    ZeroedConcat([Mark(open)] + ls, [Mark(close)]);
    ZeroedConcat([Mark(open)], ls);
    ZeroedMark(open);
    ZeroedMark(close);
  }

  lemma {:induction false} ZeroedSeparated(parts: seq<seq<Lexeme>>)
    ensures Separated(ZeroedParts(parts)) == Zeroed(Separated(parts))
    decreases |parts|
  {
    hide Zeroed;
    if parts == [] {
      assert Zeroed([]) == [];
    } else if |parts| == 1 {
      assert ZeroedParts(parts)[0] == Zeroed(parts[0]);
    } else {
      var rest := parts[1..];
      ZeroedSeparated(rest);
      assert ZeroedParts(parts)[0] == Zeroed(parts[0]) && ZeroedParts(parts)[1..] == ZeroedParts(rest);
      ZeroedConcat(parts[0], [Mark(ValueSeparator)] + Separated(rest));
      ZeroedConcat([Mark(ValueSeparator)], Separated(rest));
      ZeroedMark(ValueSeparator);
    }
  }

  lemma {:induction false} CollectedIsOk(rs: seq<Result<Json>>, es: seq<Json>)
    requires forall i | 0 <= i < |rs| :: rs[i].Ok?
    ensures Collected(rs, es).Ok?
    decreases |rs|
  {
    if rs == [] {
    } else {
      CollectedIsOk(rs[1..], es + [rs[0].value]);
    }
  }

  lemma {:induction false} GatheredIsOk(rs: seq<Result<Member>>, ms: seq<Member>)
    requires forall i | 0 <= i < |rs| :: rs[i].Ok?
    ensures Gathered(rs, ms).Ok?
    decreases |rs|
  {
    if rs == [] {
    } else {
      GatheredIsOk(rs[1..], Put(ms, rs[0].value.key, rs[0].value.value));
    }
  }

  lemma ZeroHasValue(l: Lexeme)
    requires IsScalar(l.kind) && (l.kind.ValueString? ==> StringOf(l.text).Ok?)
    ensures IsScalar(ZeroedOne(l).kind) && ScalarValue(ZeroedOne(l)).Ok?
  {
    GetNumberText(0);
  }

  /** The derivation with 0 for every number derives the tokens with 0 for every number, and has a value. */
  lemma {:induction false} ZeroedYield(t: Tree)
    requires IsValue(t) && StringsHaveValues(t)
    ensures IsValue(ZeroedTree(t)) && Yield(ZeroedTree(t)) == Zeroed(Yield(t)) && Meaning(ZeroedTree(t)).Ok?
    decreases t, 0
  {
    match t {
      case Leaf(l) => ZeroHasValue(l);
      case ArrayTree(items) =>
        ZeroedItems(items);
        ZeroedSeparated(YieldItems(items));
        ZeroedEnclosed(BeginArray, Separated(YieldItems(items)), EndArray);
        CollectedIsOk(Meanings(ZeroedTrees(items)), []);
      case ObjectTree(entries) =>
        ZeroedMembers(entries);
        ZeroedSeparated(YieldEntries(entries));
        ZeroedEnclosed(BeginObject, Separated(YieldEntries(entries)), EndObject);
        GatheredIsOk(EntryMeanings(ZeroedEntries(entries)), []);
    }
  }

  lemma {:induction false} ZeroedItems(items: seq<Tree>)
    requires AreValues(items) && forall i | 0 <= i < |items| :: StringsHaveValues(items[i])
    ensures AreValues(ZeroedTrees(items)) && YieldItems(ZeroedTrees(items)) == ZeroedParts(YieldItems(items))
    ensures forall i | 0 <= i < |items| :: Meanings(ZeroedTrees(items))[i].Ok?
    decreases items, 1
  {
    if items == [] {
    } else {
      ZeroedYield(items[0]);
      ZeroedItems(items[1..]);
      assert ZeroedTrees(items)[1..] == ZeroedTrees(items[1..]);
    }
  }

  lemma {:induction false} ZeroedMember(e: Entry)
    requires IsMember(e) && KeyHasValue(e) && StringsHaveValues(e.value)
    ensures IsMember(ZeroedEntry(e)) && YieldEntry(ZeroedEntry(e)) == Zeroed(YieldEntry(e))
    ensures MeaningOfEntry(ZeroedEntry(e)).Ok?
    decreases e, 1
  {
    ZeroedYield(e.value);
    ZeroedConcat([e.key, Mark(NameSeparator)], Yield(e.value));
    assert Zeroed([e.key, Mark(NameSeparator)]) == [e.key, Mark(NameSeparator)];
  }

  lemma {:induction false} ZeroedMembers(entries: seq<Entry>)
    requires AreMembers(entries)
    requires forall i | 0 <= i < |entries| :: KeyHasValue(entries[i]) && StringsHaveValues(entries[i].value)
    ensures AreMembers(ZeroedEntries(entries))
    ensures YieldEntries(ZeroedEntries(entries)) == ZeroedParts(YieldEntries(entries))
    ensures forall i | 0 <= i < |entries| :: EntryMeanings(ZeroedEntries(entries))[i].Ok?
    decreases entries, 1
  {
    if entries == [] {
    } else {
      ZeroedMember(entries[0]);
      ZeroedMembers(entries[1..]);
      assert ZeroedEntries(entries)[1..] == ZeroedEntries(entries[1..]);
    }
  }

  //////// Numbers that have values ////////

  predicate NumbersHaveValues(ls: seq<Lexeme>) {
    forall i | 0 <= i < |ls| && IsNumber(ls[i].kind) :: ScalarValue(ls[i]).Ok?
  }

  lemma ValuesOfParts(a: seq<Lexeme>, b: seq<Lexeme>)
    requires NumbersHaveValues(a + b)
    ensures NumbersHaveValues(a) && NumbersHaveValues(b)
  {
    assert forall i | 0 <= i < |a| :: a[i] == (a + b)[i];
    assert forall i | 0 <= i < |b| :: b[i] == (a + b)[|a| + i];
  }

  lemma {:induction false} ValuesOfList(parts: seq<seq<Lexeme>>)
    requires NumbersHaveValues(Separated(parts))
    ensures forall i | 0 <= i < |parts| :: NumbersHaveValues(parts[i])
    decreases |parts|
  {
    if |parts| <= 1 {
    } else {
      var rest := Separated(parts[1..]);
      ValuesOfParts(parts[0], [Mark(ValueSeparator)] + rest);
      ValuesOfParts([Mark(ValueSeparator)], rest);
      ValuesOfList(parts[1..]);
      assert forall i | 0 < i < |parts| :: parts[i] == parts[1..][i - 1];
    }
  }

  lemma {:induction false} MeaningIsOk(t: Tree)
    requires IsValue(t) && StringsHaveValues(t) && NumbersHaveValues(Yield(t))
    ensures Meaning(t).Ok?
    decreases t, 0
  {
    match t {
      case Leaf(l) => assert Yield(t)[0] == l;
      case ArrayTree(items) =>
        ValuesOfParts([Mark(BeginArray)] + Separated(YieldItems(items)), [Mark(EndArray)]);
        ValuesOfParts([Mark(BeginArray)], Separated(YieldItems(items)));
        ValuesOfList(YieldItems(items));
        ItemsAreOk(items);
        CollectedIsOk(Meanings(items), []);
      case ObjectTree(entries) =>
        ValuesOfParts([Mark(BeginObject)] + Separated(YieldEntries(entries)), [Mark(EndObject)]);
        ValuesOfParts([Mark(BeginObject)], Separated(YieldEntries(entries)));
        ValuesOfList(YieldEntries(entries));
        MembersAreOk(entries);
        GatheredIsOk(EntryMeanings(entries), []);
    }
  }

  lemma {:induction false} ItemsAreOk(items: seq<Tree>)
    requires AreValues(items) && forall i | 0 <= i < |items| :: StringsHaveValues(items[i])
    requires forall i | 0 <= i < |items| :: NumbersHaveValues(YieldItems(items)[i])
    ensures forall i | 0 <= i < |items| :: Meanings(items)[i].Ok?
    decreases items, 1
  {
    if items == [] {
    } else {
      assert YieldItems(items)[0] == Yield(items[0]);
      assert forall i | 0 <= i < |items[1..]| :: YieldItems(items[1..])[i] == YieldItems(items)[i + 1];
      MeaningIsOk(items[0]);
      ItemsAreOk(items[1..]);
    }
  }

  lemma {:induction false} MemberIsOk(e: Entry)
    requires IsMember(e) && KeyHasValue(e) && StringsHaveValues(e.value) && NumbersHaveValues(YieldEntry(e))
    ensures MeaningOfEntry(e).Ok?
    decreases e, 1
  {
    ValuesOfParts([e.key, Mark(NameSeparator)], Yield(e.value));
    MeaningIsOk(e.value);
  }

  lemma {:induction false} MembersAreOk(entries: seq<Entry>)
    requires AreMembers(entries)
    requires forall i | 0 <= i < |entries| :: KeyHasValue(entries[i]) && StringsHaveValues(entries[i].value)
    requires forall i | 0 <= i < |entries| :: NumbersHaveValues(YieldEntries(entries)[i])
    ensures forall i | 0 <= i < |entries| :: EntryMeanings(entries)[i].Ok?
    decreases entries, 1
  {
    if entries == [] {
    } else {
      assert YieldEntries(entries)[0] == YieldEntry(entries[0]);
      assert forall i | 0 <= i < |entries[1..]| :: YieldEntries(entries[1..])[i] == YieldEntries(entries)[i + 1];
      MemberIsOk(entries[0]);
      MembersAreOk(entries[1..]);
    }
  }

  //////// Acceptance ////////

  /** An accepted sequence of tokens is derived, also with other numbers. */
  lemma AcceptedIsDerived(ts: seq<Lexeme>, zs: seq<Lexeme>) returns (t: Tree)
    requires Plain(ts) && EndsOnce(ts) && SameShape(ts, zs) && ParseTokens(zs).Ok?
    ensures Derives(t, ts) && StringsHaveValues(t)
  {
    hide StringsHaveValues, Plain, Yield, ParseValue;
    t := AcceptedDerives(ts, zs, 0);
    var n := |Yield(t)|;
    assert n < |zs| && zs[n].kind == EndOfInput;
    MarkStands(ts, n, EndOfInput);
    assert n == |ts| - 1;
    StandsOne(ts, n, Mark(EndOfInput));
    assert ts == ts[0..n] + [ts[n]];
  }

  /** Whatever the numbers in them are, tokens are accepted if and only if the grammar derives them with strings that
      have values. */
  lemma AcceptanceIgnoresNumbers(ts: seq<Lexeme>)
    requires Plain(ts) && EndsOnce(ts)
    ensures ParseTokens(Zeroed(ts)).Ok? <==> exists t :: Derives(t, ts) && StringsHaveValues(t)
  {
    hide StringsHaveValues, Yield, ParseValue, Plain;
    var zs := Zeroed(ts);
    assert SameShape(ts, zs);
    if ParseTokens(zs).Ok? {
      var t := AcceptedIsDerived(ts, zs);
    }
    forall t | Derives(t, ts) && StringsHaveValues(t) ensures ParseTokens(zs).Ok? {
      ZeroedYield(t);
      ZeroedConcat(Yield(t), [Mark(EndOfInput)]);
      ZeroedMark(EndOfInput);
      DerivedIsParsed(zs, ZeroedTree(t));
    }
  }

  /** Where all numbers have values, zeroing them changes nothing about acceptance. */
  lemma ZeroedIsAcceptedAlike(ts: seq<Lexeme>)
    requires Plain(ts) && EndsOnce(ts) && NumbersHaveValues(ts)
    ensures ParseTokens(Zeroed(ts)).Ok? <==> ParseTokens(ts).Ok?
  {
    hide StringsHaveValues, Yield, ParseTokens, Plain, NumbersHaveValues, Meaning;
    AcceptanceIgnoresNumbers(ts);
    if ParseTokens(Zeroed(ts)).Ok? {
      var t :| Derives(t, ts) && StringsHaveValues(t);
      ValuesOfParts(Yield(t), [Mark(EndOfInput)]);
      MeaningIsOk(t);
      DerivedIsParsed(ts, t);
    }
    if ParseTokens(ts).Ok? {
      var t := AcceptedIsDerived(ts, ts);
    }
  }
}
