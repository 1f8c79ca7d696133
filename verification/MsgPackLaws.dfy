// What the MessagePack codec is for: decoding undoes encoding wherever the encoding stands, for exactly the
// values whose strings, arrays and objects have a size below 2^32, and a decoded value depends on its own
// bytes only.

module MsgPackLaws {
  import opened ByteStrings
  import opened JsonValue
  import opened BinaryFormat
  import opened MsgPack
  import opened MsgPackFormat

  //////// Round trip ////////

  /** Wherever the encoding of a value stands, the decoder reads that value and stops right behind it. */
  lemma DecodeEncoded(v: Text, idx: nat, j: Json)
    requires Ordered(j) && Small(j) && At(v, idx, Encoded(j))
    ensures Decoded(v, idx) == Ok((Unsign(j), idx + |Encoded(j)|))
  {
    EncodesShortestItem(j);
    ItemMeansValue(j);
    ItemIsDecoded(v, idx, ItemOf(j));
  }

  //////// The sizes that can come out ////////

  lemma {:induction false} PutSize(ms: seq<Member>, key: Text, value: Json)
    requires SmallMembers(ms) && |key| <= 0xffff_ffff && Small(value)
    ensures |Put(ms, key, value)| <= |ms| + 1 && SmallMembers(Put(ms, key, value))
  {
    if ms != [] && !Before(key, ms[0].key) && ms[0].key != key {
      PutSize(ms[1..], key, value);
    }
  }

  lemma {:induction false} ItemIsSmall(item: Item)
    requires IsItem(item)
    ensures Small(Meaning(item))
    decreases item, 0
  {
    hide Entries, Meanings;
    match item {
      case List(_, items) => ItemsAreSmall(items);
      case Table(_, pairs) => PairsAreSmall(pairs, []);
      case _ =>
    }
  }

  lemma {:induction false} ItemsAreSmall(items: seq<Item>)
    requires AreItems(items)
    ensures |Meanings(items)| == |items| && forall i | 0 <= i < |items| :: Small(Meanings(items)[i])
    decreases items, 1
  {
    hide Small, IsItem, Meaning;
    if items == [] {
    } else {
      ItemIsSmall(items[0]);
      ItemsAreSmall(items[1..]);
    }
  }

  lemma {:induction false} PairIsSmall(p: Pair)
    requires IsPair(p)
    ensures |p.key.s| <= 0xffff_ffff && Small(Meaning(p.value))
    decreases p, 0
  {
    ItemIsSmall(p.key);
    ItemIsSmall(p.value);
  }

  lemma {:induction false} PairsAreSmall(pairs: seq<Pair>, ms: seq<Member>)
    requires ArePairs(pairs) && SmallMembers(ms)
    ensures |Entries(ms, pairs)| <= |ms| + |pairs| && SmallMembers(Entries(ms, pairs))
    decreases pairs, 1
  {
    hide Small, IsItem, Meaning, Put;
    if pairs == [] {
    } else {
      PairIsSmall(pairs[0]);
      PutSize(ms, pairs[0].key.s, Meaning(pairs[0].value));
      PairsAreSmall(pairs[1..], WithEntry(ms, pairs[0]));
    }
  }

  /** Whatever the decoder accepts has sizes below 2^32. */
  lemma DecodedIsSmall(v: Text, idx: nat)
    requires Decoded(v, idx).Ok?
    ensures Small(Decoded(v, idx).value.0)
  {
    hide Decoded, Bytes, IsItem, Meaning;
    var item := DecodedItem(v, idx);
    ItemIsSmall(item);
  }

  lemma {:induction false} EqualIsSmall(a: Json, b: Json)
    requires Eq(a, b) && Small(a)
    ensures Small(b)
  {
    match a
    case Arr(es) => forall i | 0 <= i < |es| ensures Small(b.es[i]) { EqualIsSmall(es[i], b.es[i]); }
    case Obj(ms) =>
      forall i | 0 <= i < |ms| ensures SmallMember(b.ms[i]) {
        assert SmallMember(ms[i]);
        EqualIsSmall(ms[i].value, b.ms[i].value);
      }
    case _ =>
  }

  /** from_msgpack at |front| in front + to_msgpack(j) + back. */
  function Reread(front: Text, j: Json, back: Text): Result<(Json, nat)> {
    Decoded(front + Encoded(j) + back, |front|)
  }

  /** The value comes back, and the decoder stops before what follows, if and only if all sizes are below
      2^32. */
  lemma MsgPackRoundTripIff(front: Text, j: Json, back: Text)
    requires Ordered(j)
    ensures Small(j) <==> Reread(front, j, back).Ok? && Eq(Reread(front, j, back).value.0, j)
    ensures Small(j) ==> Reread(front, j, back) == Ok((Unsign(j), |front + Encoded(j)|))
  {
    hide Decoded, Encoded, Small, Eq, At;
    if Small(j) {
      AtMiddle(front, Encoded(j), back);
      DecodeEncoded(front + Encoded(j) + back, |front|, j);
      UnsignIsEqual(j);
    } else if Reread(front, j, back).Ok? && Eq(Reread(front, j, back).value.0, j) {
      DecodedIsSmall(front + Encoded(j) + back, |front|);
      EqualIsSmall(Reread(front, j, back).value.0, j);
    }
  }

  /** A string of 2^32 null bytes is written without a header and read back as the number 0. */
  lemma LongStringComesBackAsZero()
    ensures var s: Text := seq(0x1_0000_0000, _ => 0);
            Reread([], Str(s), []) == Ok((Uint(0), 1))
  {
    var s: Text := seq(0x1_0000_0000, _ => 0);
    assert Encoded(Str(s)) == s;
    assert [] + s + [] == s && s[0] == 0;
  }

  /** An encoding that begins with another one is the same, and so is the value by operator==. */
  lemma NoEncodingExtendsAnother(a: Json, b: Json)
    requires Ordered(a) && Small(a) && Ordered(b) && Small(b) && Encoded(a) <= Encoded(b)
    ensures Encoded(a) == Encoded(b) && Eq(a, b)
  {
    ReadsAs(a, Encoded(b));
    ReadsAs(b, Encoded(b));
    UnsignIsEqual(a);
    UnsignIsEqual(b);
    EqSymmetric(Unsign(a), a);
    EqTransitive(a, Unsign(a), b);
  }

  lemma ReadsAs(a: Json, v: Text)
    requires Ordered(a) && Small(a) && Encoded(a) <= v
    ensures Decoded(v, 0) == Ok((Unsign(a), |Encoded(a)|))
  {
    assert At(v, 0, Encoded(a));
    DecodeEncoded(v, 0, a);
  }

  //////// Locality ////////

  /** A decoded value depends only on its own bytes. */
  lemma DecodedIsLocal(v: Text, i: nat, w: Text, d: int)
    requires Covers(v, i, Decoded(v, i), w, d)
    ensures Shifted(Decoded(v, i), Decoded(w, i + d), d)
  {
    hide Decoded, Bytes, IsItem, Meaning;
    var item := DecodedItem(v, i);
    AtElsewhere(v, i, w, d, Bytes(item));
    ItemIsDecoded(w, i + d, item);
  }

  /** Cutting the vector behind the value, or putting other bytes there, changes nothing. */
  lemma MsgPackIgnoresWhatFollows(v: Text, i: nat, back: Text)
    requires Decoded(v, i).Ok?
    ensures var k := Decoded(v, i).value.1; i < k <= |v| && Decoded(v[..k] + back, i) == Decoded(v, i)
  {
    DecodedIsLocal(v, i, v[..Decoded(v, i).value.1] + back, 0);
  }
}
