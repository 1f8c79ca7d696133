// What a joiner reads from any reply, told by what stands in its table afterwards.

module ReplyLaws {
  import opened ByteStrings
  import opened Decimal
  import opened JsonValue
  import opened HostAndPort
  import opened Cluster

  /** The strings that a loop over a value visits: none in null, the string itself, and the elements or values of an
      array or an object, which all have to be strings. */
  predicate ListsTexts(j: Json, texts: seq<Text>) {
    (j.Null? && texts == []) || (j.Str? && texts == [j.s]) ||
    (j.Arr? && |j.es| == |texts| && forall i | 0 <= i < |texts| :: j.es[i] == Str(texts[i])) ||
    (j.Obj? && |j.ms| == |texts| && forall i | 0 <= i < |texts| :: j.ms[i].value == Str(texts[i]))
  }

  predicate IsAddressText(s: Text) {
    |s| <= MAX_SIZE && FromString(s).Ok?
  }

  /** An entry has been read: its key is an index, modulo 2^32, its value lists texts of addresses, and the last one
      stands in that slot, which has to be in the table; without texts, nothing has changed. */
  predicate EntryIsRead(t: seq<HostAndPort>, m: Member, texts: seq<Text>, r: seq<HostAndPort>) {
    Stoi(m.key).Ok? && ListsTexts(m.value, texts) && (forall i | 0 <= i < |texts| :: IsAddressText(texts[i])) &&
    var idx := Stoi(m.key).value % 0x1_0000_0000;
    if texts == [] then r == t else idx < |t| && r == t[idx := FromString(texts[|texts| - 1]).value]
  }

  function Texts(es: seq<Json>): (texts: seq<Text>)
    ensures |texts| == |es| && forall i | 0 <= i < |es| :: es[i].Str? ==> texts[i] == es[i].s
  {
    if es == [] then [] else [if es[0].Str? then es[0].s else []] + Texts(es[1..])
  }

  lemma {:induction false} ValueAt(ms: seq<Member>, i: nat)
    requires i < |ms|
    ensures Values(ms)[i] == ms[i].value
  {
    if i > 0 {
      ValueAt(ms[1..], i - 1);
    }
  }

  predicate AllTexts(es: seq<Json>, texts: seq<Text>) {
    |es| == |texts| && forall i | 0 <= i < |texts| :: es[i] == Str(texts[i])
  }

  lemma ElementsAreTexts(j: Json, texts: seq<Text>)
    ensures ListsTexts(j, texts) <==> AllTexts(Elements(j), texts)
  {
    match j
    case Obj(ms) =>
      forall i | 0 <= i < |ms| ensures Values(ms)[i] == ms[i].value {
        ValueAt(ms, i);
      }
      assert AllTexts(Values(ms), texts) ==> forall i | 0 <= i < |texts| :: ms[i].value == Values(ms)[i];
    case Str(s) =>
      assert |texts| == 1 ==> texts == [texts[0]];
      assert AllTexts([j], texts) ==> j == Str(texts[0]);
    case Arr(es) =>
    case Null =>
    case _ => assert [j][0] == j;
  }

  lemma {:induction false} AddressesAreRead(t: seq<HostAndPort>, idx: nat, es: seq<Json>, texts: seq<Text>)
    requires AllTexts(es, texts)
    ensures WithAddresses(t, idx, es).error.None? <==>
            (forall i | 0 <= i < |texts| :: IsAddressText(texts[i])) && (texts != [] ==> idx < |t|)
    ensures WithAddresses(t, idx, es).error.None? ==>
              WithAddresses(t, idx, es).table ==
              if texts == [] then t else t[idx := FromString(texts[|texts| - 1]).value]
    decreases |es|
  {
    hide FromString;
    if es == [] {
    } else {
      assert es[0] == Str(texts[0]);
      if IsAddressText(texts[0]) && idx < |t| {
        var next := t[idx := FromString(texts[0]).value];
        AddressesAreRead(next, idx, es[1..], texts[1..]);
        if IsAddressText(texts[|texts| - 1]) {
          assert next[idx := FromString(texts[|texts| - 1]).value] == t[idx := FromString(texts[|texts| - 1]).value];
        }
        if forall i | 0 <= i < |texts[1..]| :: IsAddressText(texts[1..][i]) {
          forall i | 0 <= i < |texts| ensures IsAddressText(texts[i]) {
            if i > 0 { assert IsAddressText(texts[1..][i - 1]); }
          }
        }
      }
    }
  }

  lemma {:induction false} OnlyTextsAreRead(t: seq<HostAndPort>, idx: nat, es: seq<Json>)
    requires WithAddresses(t, idx, es).error.None?
    ensures AllTexts(es, Texts(es))
    decreases |es|
  {
    hide FromString;
    if es == [] {
    } else {
      var a := FromString(es[0].s).value;
      OnlyTextsAreRead(t[idx := a], idx, es[1..]);
      forall i | 0 <= i < |es| ensures es[i] == Str(Texts(es)[i]) {
        if i > 0 { assert es[1..][i - 1] == Str(Texts(es[1..])[i - 1]); }
      }
    }
  }

  /** Reading an entry succeeds exactly like that. */
  lemma EntryLaw(t: seq<HostAndPort>, m: Member, r: seq<HostAndPort>)
    ensures WithEntry(t, m) == Merge(r, None) <==> exists texts :: EntryIsRead(t, m, texts, r)
  {
    hide Stoi, FromString, WithAddresses, Elements, ListsTexts, AllTexts;
    var es := Elements(m.value);
    if WithEntry(t, m) == Merge(r, None) {
      var idx := Stoi(m.key).value % 0x1_0000_0000;
      OnlyTextsAreRead(t, idx, es);
      ElementsAreTexts(m.value, Texts(es));
      AddressesAreRead(t, idx, es, Texts(es));
      assert EntryIsRead(t, m, Texts(es), r);
    }
    if texts :| EntryIsRead(t, m, texts, r) {
      var idx := Stoi(m.key).value % 0x1_0000_0000;
      ElementsAreTexts(m.value, texts);
      AddressesAreRead(t, idx, es, texts);
    }
  }

  /** The tables that the joiner passes through, one entry after the other. */
  predicate AreReads(ms: seq<Member>, tables: seq<seq<HostAndPort>>) {
    |tables| == |ms| + 1 &&
    forall i | 0 <= i < |ms| :: WithEntry(tables[i], ms[i]) == Merge(tables[i + 1], None)
  }

  lemma {:induction false} ReadsOfEntries(t: seq<HostAndPort>, ms: seq<Member>) returns (tables: seq<seq<HostAndPort>>)
    requires WithEntries(t, ms).error.None?
    ensures AreReads(ms, tables) && tables[0] == t && WithEntries(t, ms) == Merge(tables[|ms|], None)
    decreases |ms|
  {
    hide WithEntry;
    if ms == [] {
      tables := [t];
    } else {
      var next := WithEntry(t, ms[0]).table;
      var rest := ReadsOfEntries(next, ms[1..]);
      tables := [t] + rest;
      forall i | 0 <= i < |ms| ensures WithEntry(tables[i], ms[i]) == Merge(tables[i + 1], None) {
        if i > 0 { assert WithEntry(rest[i - 1], ms[1..][i - 1]) == Merge(rest[i - 1 + 1], None); }
      }
    }
  }

  lemma {:induction false} EntriesOfReads(t: seq<HostAndPort>, ms: seq<Member>, tables: seq<seq<HostAndPort>>)
    requires AreReads(ms, tables) && tables[0] == t
    ensures WithEntries(t, ms) == Merge(tables[|ms|], None)
    decreases |ms|
  {
    hide WithEntry;
    if ms == [] {
    } else {
      assert WithEntry(tables[0], ms[0]) == Merge(tables[0 + 1], None);
      forall i | 0 <= i < |ms[1..]| ensures WithEntry(tables[1..][i], ms[1..][i]) == Merge(tables[1..][i + 1], None) {
        assert WithEntry(tables[i + 1], ms[i + 1]) == Merge(tables[i + 1 + 1], None);
      }
      EntriesOfReads(tables[1], ms[1..], tables[1..]);
    }
  }

  /** "nodes" is missing, null or an empty array. */
  predicate HasNoNodes(reply: Json) {
    reply.Null? ||
    (reply.Obj? &&
     var nodes := Find(reply.ms, [0x6e, 0x6f, 0x64, 0x65, 0x73]);
     nodes.None? || nodes == Some(Null) || nodes == Some(Arr([])))
  }

  predicate HasNodes(reply: Json, ms: seq<Member>) {
    reply.Obj? && Find(reply.ms, [0x6e, 0x6f, 0x64, 0x65, 0x73]) == Some(Obj(ms))
  }

  /** A reply is read to its end if and only if it has no nodes, and then the table stays, or its "nodes" are an object
      whose entries can be read one after the other. */
  lemma ReplyLaw(t: seq<HostAndPort>, reply: Json, r: seq<HostAndPort>)
    ensures WithReply(t, reply) == Merge(r, None) <==>
            (HasNoNodes(reply) && r == t) ||
            exists ms, tables :: HasNodes(reply, ms) && AreReads(ms, tables) && tables[0] == t && tables[|ms|] == r
  {
    hide AreReads, WithEntries, Find;
    if WithReply(t, reply) == Merge(r, None) && !HasNoNodes(reply) {
      var ms := NodesOf(reply).value.ms;
      var tables := ReadsOfEntries(t, ms);
      assert HasNodes(reply, ms);
    }
    forall ms, tables | AreReads(ms, tables) ensures |tables| == |ms| + 1 { ReadsLength(ms, tables); }
    if ms, tables :| HasNodes(reply, ms) && AreReads(ms, tables) && tables[0] == t && tables[|ms|] == r {
      EntriesOfReads(t, ms, tables);
    }
  }

  lemma ReadsLength(ms: seq<Member>, tables: seq<seq<HostAndPort>>)
    requires AreReads(ms, tables)
    ensures |tables| == |ms| + 1
  {
  }
}
