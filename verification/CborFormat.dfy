// The format of section 2.1 and 2.2 of RFC 7049, written down with literal numbers and without the codec: data items as
// trees, the bytes of each item, and the value it means. The decoder accepts exactly these items (without
// floating-point numbers, byte strings and tags), and the encoder writes the shortest one.

module CborFormat {
  import opened ByteStrings
  import opened JsonValue
  import opened BinaryFormat
  import opened Cbor

  /** w is the number of bytes that the argument takes behind the initial byte, 0 if it stands in the low five bits. */
  datatype Item =
    | Number(negative: bool, w: nat, n: nat)
    | Chars(w: nat, s: Text)
    | Chunks(chunks: seq<Item>)
    | List(w: nat, items: seq<Item>)
    | OpenList(items: seq<Item>)
    | Table(w: nat, pairs: seq<Pair>)
    | OpenTable(pairs: seq<Pair>)
    | Simple(j: Json)

  datatype Pair = Pair(key: Item, value: Item)

  predicate IsArgument(w: nat, n: nat) {
    if w == 0 then n <= 23 else IsPlaced(w, n)
  }

  /** The initial byte, with the major type in its upper three bits, and the argument. */
  function Initial(major: nat, w: nat, n: nat): (h: Text)
    requires major < 8 && IsArgument(w, n)
    ensures h != []
  {
    if w == 0 then [major * 32 + n]
    else [major * 32 + (if w == 1 then 24 else if w == 2 then 25 else if w == 4 then 26 else 27)] + Places(w, n)
  }

  predicate IsText(item: Item) {
    item.Chars? || item.Chunks?
  }

  predicate IsItem(item: Item) {
    match item
    case Number(_, w, n) => IsArgument(w, n)
    case Chars(w, s) => IsArgument(w, |s|)
    case Chunks(chunks) => forall i | 0 <= i < |chunks| :: IsText(chunks[i]) && IsItem(chunks[i])
    case List(w, items) => IsArgument(w, |items|) && AreItems(items)
    case OpenList(items) => AreItems(items)
    case Table(w, pairs) => IsArgument(w, |pairs|) && ArePairs(pairs)
    case OpenTable(pairs) => ArePairs(pairs)
    case Simple(j) => j in {Bool(false), Bool(true), Null}
  }

  predicate AreItems(items: seq<Item>) {
    forall i | 0 <= i < |items| :: IsItem(items[i])
  }

  predicate ArePairs(pairs: seq<Pair>) {
    forall i | 0 <= i < |pairs| :: IsPair(pairs[i])
  }

  predicate IsPair(p: Pair) {
    IsText(p.key) && IsItem(p.key) && IsItem(p.value)
  }

  function Bytes(item: Item): (bs: Text)
    requires IsItem(item)
    ensures bs != []
    decreases item, 0
  {
    match item
    case Number(negative, w, n) => Initial(if negative then 1 else 0, w, n)
    case Chars(w, s) => Initial(3, w, |s|) + s
    case Chunks(chunks) => [0x7f] + BytesOfItems(chunks) + [0xff]
    case List(w, items) => Initial(4, w, |items|) + BytesOfItems(items)
    case OpenList(items) => [0x9f] + BytesOfItems(items) + [0xff]
    case Table(w, pairs) => Initial(5, w, |pairs|) + BytesOfPairs(pairs)
    case OpenTable(pairs) => [0xbf] + BytesOfPairs(pairs) + [0xff]
    case Simple(j) => if j == Null then [0xf6] else if j == Bool(true) then [0xf5] else [0xf4]
  }

  function BytesOfItems(items: seq<Item>): Text
    requires AreItems(items)
    decreases items, 1
  {
    if items == [] then [] else Bytes(items[0]) + BytesOfItems(items[1..])
  }

  function BytesOfPairs(pairs: seq<Pair>): Text
    requires ArePairs(pairs)
    decreases pairs, 1
  {
    if pairs == [] then [] else BytesOfPair(pairs[0]) + BytesOfPairs(pairs[1..])
  }

  function BytesOfPair(p: Pair): Text
    requires IsPair(p)
    decreases p, 0
  {
    Bytes(p.key) + Bytes(p.value)
  }

  /** The characters of a text item, chunk by chunk. */
  function Characters(item: Item): Text {
    match item
    case Chars(_, s) => s
    case Chunks(chunks) => AllCharacters(chunks)
    case _ => []
  }

  function AllCharacters(chunks: seq<Item>): Text {
    if chunks == [] then [] else Characters(chunks[0]) + AllCharacters(chunks[1..])
  }

  /** -1 - n, cut to 64 bits. */
  function Below(n: nat): Json
    requires n < 0x1_0000_0000_0000_0000
  {
    Int(if n < 0x8000_0000_0000_0000 then -1 - n else 0xffff_ffff_ffff_ffff - n)
  }

  function Meaning(item: Item): Json
    requires IsItem(item)
    decreases item, 0
  {
    match item
    case Number(negative, _, n) => if negative then Below(n) else Uint(n)
    case Chars(_, _) => Str(Characters(item))
    case Chunks(_) => Str(Characters(item))
    case List(_, items) => Arr(Meanings(items))
    case OpenList(items) => Arr(Meanings(items))
    case Table(_, pairs) => Obj(Entries([], pairs))
    case OpenTable(pairs) => Obj(Entries([], pairs))
    case Simple(j) => j
  }

  function Meanings(items: seq<Item>): seq<Json>
    requires AreItems(items)
    decreases items, 1
  {
    if items == [] then [] else [Meaning(items[0])] + Meanings(items[1..])
  }

  /** The last of equal keys wins. */
  function Entries(ms: seq<Member>, pairs: seq<Pair>): seq<Member>
    requires ArePairs(pairs)
    decreases pairs, 1
  {
    if pairs == [] then ms
    else Entries(WithEntry(ms, pairs[0]), pairs[1..])
  }

  function WithEntry(ms: seq<Member>, p: Pair): seq<Member>
    requires IsPair(p)
    decreases p, 0
  {
    Put(ms, Characters(p.key), Meaning(p.value))
  }

  //////// Initial bytes ////////

  predicate Counted(major: nat) {
    major in {0, 1, 3, 4, 5}
  }

  lemma InitialIsRead(v: Text, idx: nat, major: nat, w: nat, n: nat)
    requires Counted(major) && IsArgument(w, n) && At(v, idx, Initial(major, w, n))
    ensures idx < |v| && IsCounted(v[idx]) && v[idx] - v[idx] % 0x20 == major * 32 && n < 0x1_0000_0000_0000_0000
    ensures Count(v, idx) == Ok((n, idx + |Initial(major, w, n)|))
  {
    hide BigEndian, Unsigned, Capacity, Places;
    var h := Initial(major, w, n);
    assert h[0] == v[0 + idx];
    Capacities();
    if w != 0 {
      var bs := Places(w, n);
      PlacesAreBigEndian(w, n);
      AtParts(v, idx, [h[0]], bs);
      AtSlice(v, idx + 1, bs);
      UnsignedOfBigEndian(w, n);
      assert Width(v[idx] % 0x20) == w;
    }
  }

  lemma InitialIsThere(v: Text, idx: nat) returns (major: nat, w: nat)
    requires idx < |v| && IsCounted(v[idx]) && Count(v, idx).Ok?
    ensures var (n, start) := Count(v, idx).value;
            Counted(major) && IsArgument(w, n) && At(v, idx, Initial(major, w, n)) &&
            start == idx + |Initial(major, w, n)| && v[idx] - v[idx] % 0x20 == major * 32
  {
    hide BigEndian, Unsigned, Capacity, Places;
    var low := v[idx] % 0x20;
    major := v[idx] / 0x20;
    Capacities();
    if low <= 0x17 {
      w := 0;
    } else {
      w := Width(low);
      var bs := v[idx + 1..idx + 1 + w];
      BigEndianOfUnsigned(bs);
      PlacesAreBigEndian(w, Unsigned(bs));
      assert Initial(major, w, Unsigned(bs)) == [v[idx]] + bs;
    }
  }

  //////// Every item is decoded ////////

  lemma FirstByte(v: Text, idx: nat, item: Item)
    requires IsItem(item) && At(v, idx, Bytes(item))
    ensures idx < |v| && v[idx] == Bytes(item)[0] && v[idx] != 0xff
  {
    hide Places;
    assert Bytes(item)[0] == v[0 + idx];
  }

  /** Wherever the bytes of an item stand, the decoder returns its meaning and stops right behind it. */
  lemma {:induction false} ItemIsDecoded(v: Text, idx: nat, item: Item)
    requires IsItem(item) && At(v, idx, Bytes(item))
    ensures Decoded(v, idx) == Ok((Meaning(item), idx + |Bytes(item)|))
    decreases item, 2
  {
    hide At, DecodedItems, DecodedPairs, DecodedChunks, DecodedItemsToBreak, DecodedPairsToBreak, Places, Initial;
    hide Count;
    hide Entries, Meanings, BytesOfItems, BytesOfPairs, IsArgument, Decoded, AllCharacters;
    match item {
      case Number(negative, w, n) => NumberIsDecoded(v, idx, negative, w, n);
      case Chars(w, s) => CharsAreDecoded(v, idx, w, s);
      case List(w, items) =>
        var h := Initial(4, w, |items|);
        CollectionIsDecoded(v, idx, 4, w, |items|, BytesOfItems(items));
        ItemsAreDecoded(v, idx + |h|, items, []);
        assert [] + Meanings(items) == Meanings(items);
      case Table(w, pairs) =>
        var h := Initial(5, w, |pairs|);
        CollectionIsDecoded(v, idx, 5, w, |pairs|, BytesOfPairs(pairs));
        PairsAreDecoded(v, idx + |h|, pairs, []);
      case Chunks(chunks) =>
        OpenParts(v, idx, 0x7f, BytesOfItems(chunks));
        ChunksAreDecoded(v, idx + 1, chunks, []);
        assert [] + AllCharacters(chunks) == AllCharacters(chunks);
        UncountedByte(v, idx);
      case OpenList(items) =>
        OpenParts(v, idx, 0x9f, BytesOfItems(items));
        ItemsAreDecodedToBreak(v, idx + 1, items, []);
        assert [] + Meanings(items) == Meanings(items);
        UncountedByte(v, idx);
      case OpenTable(pairs) =>
        OpenParts(v, idx, 0xbf, BytesOfPairs(pairs));
        PairsAreDecodedToBreak(v, idx + 1, pairs, []);
        UncountedByte(v, idx);
      case Simple(_) =>
        FirstByte(v, idx, item);
        UncountedByte(v, idx);
    }
  }

  lemma OpenParts(v: Text, idx: nat, lead: byte, middle: Text)
    requires At(v, idx, [lead] + middle + [0xff])
    ensures idx < |v| && v[idx] == lead && At(v, idx + 1, middle) && At(v, idx + 1 + |middle|, [0xff])
    ensures idx + 1 + |middle| < |v| && v[idx + 1 + |middle|] == 0xff
  {
    AtParts(v, idx, [lead] + middle, [0xff]);
    AtParts(v, idx, [lead], middle);
    assert [lead][0] == v[0 + idx] && [0xff][0] == v[0 + (idx + 1 + |middle|)];
  }

  lemma UncountedByte(v: Text, idx: nat)
    requires idx < |v| && v[idx] in {0x7f, 0x9f, 0xbf, 0xf4, 0xf5, 0xf6}
    ensures Decoded(v, idx) == DecodedUncounted(v, v[idx], idx + 1)
  {
  }

  lemma NumberIsDecoded(v: Text, idx: nat, negative: bool, w: nat, n: nat)
    requires IsArgument(w, n) && At(v, idx, Initial(if negative then 1 else 0, w, n))
    ensures n < 0x1_0000_0000_0000_0000
    ensures Decoded(v, idx) ==
            Ok((if negative then Below(n) else Uint(n), idx + |Initial(if negative then 1 else 0, w, n)|))
  {
    hide Initial, IsArgument, IsCounted, Count;
    if negative {
      InitialIsRead(v, idx, 1, w, n);
    } else {
      InitialIsRead(v, idx, 0, w, n);
    }
  }

  /** An array or a map of definite length. */
  lemma CollectionIsDecoded(v: Text, idx: nat, major: nat, w: nat, n: nat, content: Text)
    requires major in {4, 5} && IsArgument(w, n) && At(v, idx, Initial(major, w, n) + content)
    ensures At(v, idx + |Initial(major, w, n)|, content) && idx + |Initial(major, w, n)| <= |v|
    ensures var start := idx + |Initial(major, w, n)|;
            Decoded(v, idx) == if major == 4 then DecodedItems(v, start, n, []) else DecodedPairs(v, start, n, [])
  {
    hide Initial, IsArgument, IsCounted, Count, DecodedItems, DecodedPairs;
    AtParts(v, idx, Initial(major, w, n), content);
    InitialIsRead(v, idx, major, w, n);
  }

  lemma CharsAreDecoded(v: Text, idx: nat, w: nat, s: Text)
    requires IsArgument(w, |s|) && At(v, idx, Initial(3, w, |s|) + s)
    ensures Decoded(v, idx) == Ok((Str(s), idx + |Initial(3, w, |s|) + s|))
  {
    hide Initial, IsArgument, IsCounted, Count;
    var h := Initial(3, w, |s|);
    AtParts(v, idx, h, s);
    InitialIsRead(v, idx, 3, w, |s|);
    AtSlice(v, idx + |h|, s);
  }

  lemma {:induction false} ItemsAreDecoded(v: Text, idx: nat, items: seq<Item>, es: seq<Json>)
    requires AreItems(items) && At(v, idx, BytesOfItems(items))
    ensures DecodedItems(v, idx, |items|, es) == Ok((Arr(es + Meanings(items)), idx + |BytesOfItems(items)|))
    decreases items, 1
  {
    hide At, Bytes, Decoded, Meaning, IsItem;
    if items == [] {
      assert es + [] == es;
    } else {
      AtParts(v, idx, Bytes(items[0]), BytesOfItems(items[1..]));
      ItemIsDecoded(v, idx, items[0]);
      ItemsAreDecoded(v, idx + |Bytes(items[0])|, items[1..], es + [Meaning(items[0])]);
      ConcatAssociative(es, [Meaning(items[0])], Meanings(items[1..]));
    }
  }

  lemma {:induction false} ItemsAreDecodedToBreak(v: Text, idx: nat, items: seq<Item>, es: seq<Json>)
    requires AreItems(items) && At(v, idx, BytesOfItems(items))
    requires idx + |BytesOfItems(items)| < |v| && v[idx + |BytesOfItems(items)|] == 0xff
    ensures DecodedItemsToBreak(v, idx, es) == Ok((Arr(es + Meanings(items)), idx + |BytesOfItems(items)| + 1))
    decreases items, 1
  {
    hide At, Bytes, Decoded, Meaning, IsItem;
    if items == [] {
      assert es + [] == es;
    } else {
      AtParts(v, idx, Bytes(items[0]), BytesOfItems(items[1..]));
      FirstByte(v, idx, items[0]);
      ItemIsDecoded(v, idx, items[0]);
      ItemsAreDecodedToBreak(v, idx + |Bytes(items[0])|, items[1..], es + [Meaning(items[0])]);
      ConcatAssociative(es, [Meaning(items[0])], Meanings(items[1..]));
    }
  }

  lemma {:induction false} PairIsDecoded(v: Text, idx: nat, p: Pair)
    requires IsPair(p) && At(v, idx, BytesOfPair(p))
    ensures DecodedMember(v, idx) == Ok((Member(Characters(p.key), Meaning(p.value)), idx + |BytesOfPair(p)|))
    ensures idx < |v| && v[idx] != 0xff
    decreases p, 1
  {
    hide At, Bytes, Decoded, IsItem, Characters;
    AtParts(v, idx, Bytes(p.key), Bytes(p.value));
    FirstByte(v, idx, p.key);
    ItemIsDecoded(v, idx, p.key);
    ItemIsDecoded(v, idx + |Bytes(p.key)|, p.value);
  }

  lemma {:induction false} PairsAreDecoded(v: Text, idx: nat, pairs: seq<Pair>, ms: seq<Member>)
    requires ArePairs(pairs) && At(v, idx, BytesOfPairs(pairs))
    ensures DecodedPairs(v, idx, |pairs|, ms) == Ok((Obj(Entries(ms, pairs)), idx + |BytesOfPairs(pairs)|))
    decreases pairs, 1
  {
    hide At, BytesOfPair, IsPair, DecodedMember, Meaning, Put;
    if pairs == [] {
    } else {
      AtParts(v, idx, BytesOfPair(pairs[0]), BytesOfPairs(pairs[1..]));
      PairIsDecoded(v, idx, pairs[0]);
      PairsAreDecoded(v, idx + |BytesOfPair(pairs[0])|, pairs[1..], WithEntry(ms, pairs[0]));
    }
  }

  lemma {:induction false} PairsAreDecodedToBreak(v: Text, idx: nat, pairs: seq<Pair>, ms: seq<Member>)
    requires ArePairs(pairs) && At(v, idx, BytesOfPairs(pairs))
    requires idx + |BytesOfPairs(pairs)| < |v| && v[idx + |BytesOfPairs(pairs)|] == 0xff
    ensures DecodedPairsToBreak(v, idx, ms) == Ok((Obj(Entries(ms, pairs)), idx + |BytesOfPairs(pairs)| + 1))
    decreases pairs, 1
  {
    hide At, BytesOfPair, IsPair, DecodedMember, Meaning, Put;
    if pairs == [] {
    } else {
      AtParts(v, idx, BytesOfPair(pairs[0]), BytesOfPairs(pairs[1..]));
      PairIsDecoded(v, idx, pairs[0]);
      PairsAreDecodedToBreak(v, idx + |BytesOfPair(pairs[0])|, pairs[1..], WithEntry(ms, pairs[0]));
    }
  }

  lemma {:induction false} ChunksAreDecoded(v: Text, idx: nat, chunks: seq<Item>, s: Text)
    requires AreItems(chunks) && (forall i | 0 <= i < |chunks| :: IsText(chunks[i])) && At(v, idx, BytesOfItems(chunks))
    requires idx + |BytesOfItems(chunks)| < |v| && v[idx + |BytesOfItems(chunks)|] == 0xff
    ensures DecodedChunks(v, idx, s) == Ok((Str(s + AllCharacters(chunks)), idx + |BytesOfItems(chunks)| + 1))
    decreases chunks, 1
  {
    hide At, Bytes, Decoded, IsItem, Characters;
    if chunks == [] {
      assert s + [] == s;
    } else {
      AtParts(v, idx, Bytes(chunks[0]), BytesOfItems(chunks[1..]));
      FirstByte(v, idx, chunks[0]);
      ItemIsDecoded(v, idx, chunks[0]);
      ChunksAreDecoded(v, idx + |Bytes(chunks[0])|, chunks[1..], s + Characters(chunks[0]));
      ConcatAssociative(s, Characters(chunks[0]), AllCharacters(chunks[1..]));
    }
  }

  //////// Whatever is decoded is an item ////////

  /** The item stands at idx in v. */
  predicate StandsAt(item: Item, v: Text, idx: nat) {
    IsItem(item) && At(v, idx, Bytes(item))
  }

  lemma {:induction false} DecodedItem(v: Text, idx: nat) returns (item: Item)
    requires Decoded(v, idx).Ok?
    ensures StandsAt(item, v, idx) && Decoded(v, idx) == Ok((Meaning(item), idx + |Bytes(item)|))
    decreases |v| - idx, 0
  {
    hide At, DecodedCounted, DecodedUncounted, Initial, Count, Bytes, IsItem, Meaning;
    if IsCounted(v[idx]) {
      var major, w := InitialIsThere(v, idx);
      item := CountedItem(v, idx, major, w, Count(v, idx).value.0);
    } else {
      item := UncountedItem(v, idx);
    }
  }

  lemma {:induction false} CountedItem(v: Text, idx: nat, major: nat, w: nat, n: nat) returns (item: Item)
    requires Counted(major) && IsArgument(w, n) && n < 0x1_0000_0000_0000_0000 && At(v, idx, Initial(major, w, n))
    requires var start := idx + |Initial(major, w, n)|;
             start <= |v| && DecodedCounted(v, major * 32, n, start).Ok?
    ensures StandsAt(item, v, idx)
    ensures var start := idx + |Initial(major, w, n)|;
            DecodedCounted(v, major * 32, n, start) == Ok((Meaning(item), idx + |Bytes(item)|))
    decreases |v| - (idx + |Initial(major, w, n)|), 5
  {
    hide At, DecodedItems, DecodedPairs, Initial, IsArgument, Put, BytesOfItems, BytesOfPairs, Meanings, Entries;
    var h := Initial(major, w, n);
    var start := idx + |h|;
    if major == 0 {
      item := Number(false, w, n);
    } else if major == 1 {
      item := Number(true, w, n);
    } else if major == 3 {
      item := Chars(w, v[start..start + n]);
      SliceStands(v, start, n);
      AtJoin(v, idx, h, v[start..start + n]);
    } else if major == 4 {
      var items := ItemsThere(v, start, n, []);
      item := List(w, items);
      AtJoin(v, idx, h, BytesOfItems(items));
      assert [] + Meanings(items) == Meanings(items);
    } else {
      var pairs := PairsThere(v, start, n, []);
      item := Table(w, pairs);
      AtJoin(v, idx, h, BytesOfPairs(pairs));
    }
  }

  lemma {:induction false} UncountedItem(v: Text, idx: nat) returns (item: Item)
    requires idx < |v| && DecodedUncounted(v, v[idx], idx + 1).Ok?
    ensures StandsAt(item, v, idx)
    ensures DecodedUncounted(v, v[idx], idx + 1) == Ok((Meaning(item), idx + |Bytes(item)|))
    decreases |v| - idx - 1, 5
  {
    hide At, DecodedChunks, DecodedItemsToBreak, DecodedPairsToBreak, BytesOfItems, BytesOfPairs, Meanings, Entries;
    if v[idx] == 0x7f {
      var chunks := ChunksThere(v, idx + 1, []);
      item := Chunks(chunks);
      OpenStands(v, idx, BytesOfItems(chunks));
      assert [] + AllCharacters(chunks) == AllCharacters(chunks);
    } else if v[idx] == 0x9f {
      var items := ItemsThereToBreak(v, idx + 1, []);
      item := OpenList(items);
      OpenStands(v, idx, BytesOfItems(items));
      assert [] + Meanings(items) == Meanings(items);
    } else if v[idx] == 0xbf {
      var pairs := PairsThereToBreak(v, idx + 1, []);
      item := OpenTable(pairs);
      OpenStands(v, idx, BytesOfPairs(pairs));
    } else {
      item := Simple(DecodedUncounted(v, v[idx], idx + 1).value.0);
      ByteStands(v, idx);
    }
  }

  lemma OpenStands(v: Text, idx: nat, middle: Text)
    requires idx < |v| && At(v, idx + 1, middle)
    requires idx + 1 + |middle| < |v| && v[idx + 1 + |middle|] == 0xff
    ensures At(v, idx, [v[idx]] + middle + [0xff])
  {
    ByteStands(v, idx);
    ByteStands(v, idx + 1 + |middle|);
    AtJoin(v, idx, [v[idx]], middle);
    AtJoin(v, idx, [v[idx]] + middle, [0xff]);
  }

  lemma {:induction false} ItemsThere(v: Text, idx: nat, n: nat, es: seq<Json>) returns (items: seq<Item>)
    requires idx <= |v| && DecodedItems(v, idx, n, es).Ok?
    ensures AreItems(items) && |items| == n && At(v, idx, BytesOfItems(items))
    ensures DecodedItems(v, idx, n, es) == Ok((Arr(es + Meanings(items)), idx + |BytesOfItems(items)|))
    decreases |v| - idx, 1
  {
    hide At, Bytes, Decoded, Meaning, IsItem;
    if n == 0 {
      items := [];
      NothingStands(v, idx);
      assert es + [] == es;
    } else {
      var item := DecodedItem(v, idx);
      var rest := ItemsThere(v, idx + |Bytes(item)|, n - 1, es + [Meaning(item)]);
      items := [item] + rest;
      assert items[1..] == rest;
      AtJoin(v, idx, Bytes(item), BytesOfItems(rest));
      ConcatAssociative(es, [Meaning(item)], Meanings(rest));
    }
  }

  lemma {:induction false} ItemsThereToBreak(v: Text, idx: nat, es: seq<Json>) returns (items: seq<Item>)
    requires idx <= |v| && DecodedItemsToBreak(v, idx, es).Ok?
    ensures AreItems(items) && At(v, idx, BytesOfItems(items))
    ensures var end := idx + |BytesOfItems(items)|;
            end < |v| && v[end] == 0xff && DecodedItemsToBreak(v, idx, es) == Ok((Arr(es + Meanings(items)), end + 1))
    decreases |v| - idx, 1
  {
    hide At, Bytes, Decoded, Meaning, IsItem;
    if v[idx] == 0xff {
      items := [];
      NothingStands(v, idx);
      assert es + [] == es;
    } else {
      var item := DecodedItem(v, idx);
      var rest := ItemsThereToBreak(v, idx + |Bytes(item)|, es + [Meaning(item)]);
      items := [item] + rest;
      assert items[1..] == rest;
      AtJoin(v, idx, Bytes(item), BytesOfItems(rest));
      ConcatAssociative(es, [Meaning(item)], Meanings(rest));
    }
  }

  /** Only text items decode to strings. */
  lemma TextMeaning(item: Item)
    requires IsItem(item)
    ensures Meaning(item).Str? <==> IsText(item)
    ensures Meaning(item).Str? ==> Meaning(item).s == Characters(item)
  {
  }

  lemma {:induction false} PairThere(v: Text, idx: nat) returns (p: Pair)
    requires DecodedMember(v, idx).Ok?
    ensures IsPair(p) && At(v, idx, BytesOfPair(p))
    ensures DecodedMember(v, idx) == Ok((Member(Characters(p.key), Meaning(p.value)), idx + |BytesOfPair(p)|))
    decreases |v| - idx, 2
  {
    hide At, Bytes, Decoded, Meaning, IsItem, Characters;
    var key := DecodedItem(v, idx);
    TextMeaning(key);
    var value := DecodedItem(v, idx + |Bytes(key)|);
    p := Pair(key, value);
    AtJoin(v, idx, Bytes(key), Bytes(value));
  }

  lemma {:induction false} PairsThere(v: Text, idx: nat, n: nat, ms: seq<Member>) returns (pairs: seq<Pair>)
    requires idx <= |v| && DecodedPairs(v, idx, n, ms).Ok?
    ensures ArePairs(pairs) && |pairs| == n && At(v, idx, BytesOfPairs(pairs))
    ensures DecodedPairs(v, idx, n, ms) == Ok((Obj(Entries(ms, pairs)), idx + |BytesOfPairs(pairs)|))
    decreases |v| - idx, 3
  {
    hide At, BytesOfPair, DecodedMember, IsPair, Put;
    if n == 0 {
      pairs := [];
      NothingStands(v, idx);
    } else {
      var p := PairThere(v, idx);
      var rest := PairsThere(v, idx + |BytesOfPair(p)|, n - 1, WithEntry(ms, p));
      pairs := [p] + rest;
      assert pairs[1..] == rest;
      AtJoin(v, idx, BytesOfPair(p), BytesOfPairs(rest));
    }
  }

  lemma {:induction false} PairsThereToBreak(v: Text, idx: nat, ms: seq<Member>) returns (pairs: seq<Pair>)
    requires idx <= |v| && DecodedPairsToBreak(v, idx, ms).Ok?
    ensures ArePairs(pairs) && At(v, idx, BytesOfPairs(pairs))
    ensures var end := idx + |BytesOfPairs(pairs)|;
            end < |v| && v[end] == 0xff && DecodedPairsToBreak(v, idx, ms) == Ok((Obj(Entries(ms, pairs)), end + 1))
    decreases |v| - idx, 3
  {
    hide At, BytesOfPair, DecodedMember, IsPair, Put;
    if v[idx] == 0xff {
      pairs := [];
      NothingStands(v, idx);
    } else {
      var p := PairThere(v, idx);
      var rest := PairsThereToBreak(v, idx + |BytesOfPair(p)|, WithEntry(ms, p));
      pairs := [p] + rest;
      assert pairs[1..] == rest;
      AtJoin(v, idx, BytesOfPair(p), BytesOfPairs(rest));
    }
  }

  lemma {:induction false} ChunksThere(v: Text, idx: nat, s: Text) returns (chunks: seq<Item>)
    requires idx <= |v| && DecodedChunks(v, idx, s).Ok?
    ensures AreItems(chunks) && (forall i | 0 <= i < |chunks| :: IsText(chunks[i])) && At(v, idx, BytesOfItems(chunks))
    ensures var end := idx + |BytesOfItems(chunks)|;
            end < |v| && v[end] == 0xff && DecodedChunks(v, idx, s) == Ok((Str(s + AllCharacters(chunks)), end + 1))
    decreases |v| - idx, 3
  {
    hide At, Bytes, Decoded, IsItem, Characters, Meaning;
    if v[idx] == 0xff {
      chunks := [];
      NothingStands(v, idx);
      assert s + [] == s;
    } else {
      var chunk := DecodedItem(v, idx);
      TextMeaning(chunk);
      var rest := ChunksThere(v, idx + |Bytes(chunk)|, s + Characters(chunk));
      chunks := [chunk] + rest;
      assert chunks[1..] == rest;
      AtJoin(v, idx, Bytes(chunk), BytesOfItems(rest));
      ConcatAssociative(s, Characters(chunk), AllCharacters(rest));
    }
  }

  /** The decoder accepts exactly the items of the format, and returns what they mean. */
  lemma DecodesExactlyItems(v: Text, idx: nat, j: Json, end: nat)
    ensures Decoded(v, idx) == Ok((j, end)) <==>
            exists item :: StandsAt(item, v, idx) && Meaning(item) == j && end == idx + |Bytes(item)|
  {
    hide At, IsItem, Bytes, Decoded, Meaning;
    if Decoded(v, idx) == Ok((j, end)) {
      var item := DecodedItem(v, idx);
    }
    if item :| StandsAt(item, v, idx) && Meaning(item) == j && end == idx + |Bytes(item)| {
      ItemIsDecoded(v, idx, item);
    }
  }

  //////// Which initial bytes begin an item ////////

  predicate BeginsItem(b: byte) {
    b <= 0x1b || 0x20 <= b <= 0x3b || 0x60 <= b <= 0x7b || b == 0x7f || 0x80 <= b <= 0x9b || b == 0x9f ||
    0xa0 <= b <= 0xbb || b == 0xbf || 0xf4 <= b <= 0xf6
  }

  /** Half, single and double precision numbers are not modelled. */
  lemma OtherBytesAreRefused(v: Text, idx: nat)
    requires idx < |v| && !BeginsItem(v[idx])
    ensures Decoded(v, idx) == Err(if v[idx] in {0xf9, 0xfa, 0xfb} then Unmodelled else InvalidArgument)
  {
  }

  lemma SomeArgument(b: byte) returns (w: nat, n: nat)
    requires b % 32 <= 27
    ensures IsArgument(w, n) && Initial(b / 32, w, n)[0] == b
  {
    hide Places;
    var low := b % 32;
    w := if low == 24 then 1 else if low == 25 then 2 else if low == 26 then 4 else if low == 27 then 8 else 0;
    n := if low < 24 then low else 0;
  }

  lemma BytesBeginItems(b: byte) returns (item: Item)
    requires BeginsItem(b)
    ensures IsItem(item) && Bytes(item)[0] == b
  {
    hide Initial, IsArgument, BytesOfItems, BytesOfPairs;
    var w, n := 0, 0;
    if b % 32 <= 27 {
      w, n := SomeArgument(b);
    }
    if b / 32 <= 1 {
      item := Number(b / 32 == 1, w, n);
    } else if b == 0x7f {
      item := Chunks([]);
    } else if b == 0x9f {
      item := OpenList([]);
    } else if b == 0xbf {
      item := OpenTable([]);
    } else if b / 32 == 3 {
      var s: Text := seq(n, _ => 0x20);
      item := Chars(w, s);
    } else if b / 32 == 4 {
      assert IsItem(Simple(Null));
      item := List(w, seq(n, _ => Simple(Null)));
    } else if b / 32 == 5 {
      var p := Pair(Chunks([]), Simple(Null));
      assert IsPair(p);
      item := Table(w, seq(n, _ => p));
    } else {
      item := Simple(if b == 0xf4 then Bool(false) else if b == 0xf5 then Bool(true) else Null);
    }
  }

  /** The decoder reads a value from some vector that begins with b exactly for these bytes. */
  lemma AcceptedInitialBytes(b: byte)
    ensures BeginsItem(b) <==> exists v: Text :: |v| > 0 && v[0] == b && Decoded(v, 0).Ok?
  {
    if BeginsItem(b) {
      var item := BytesBeginItems(b);
      assert At(Bytes(item), 0, Bytes(item));
      ItemIsDecoded(Bytes(item), 0, item);
      assert Decoded(Bytes(item), 0).Ok?;
    }
    if v: Text :| |v| > 0 && v[0] == b && Decoded(v, 0).Ok? {
      if !BeginsItem(b) { OtherBytesAreRefused(v, 0); }
    }
  }

  //////// What the encoder writes ////////

  /** The fewest bytes for an argument. */
  function Shortest(n: nat): (w: nat)
    requires n < 0x1_0000_0000_0000_0000
    ensures IsArgument(w, n)
  {
    if n <= 23 then 0 else if n < 0x100 then 1 else if n < 0x1_0000 then 2 else if n < 0x1_0000_0000 then 4 else 8
  }

  lemma ShortestIsShortest(n: nat, w: nat)
    requires n < 0x1_0000_0000_0000_0000 && IsArgument(w, n)
    ensures Shortest(n) <= w && |Initial(0, Shortest(n), n)| <= |Initial(0, w, n)|
  {
  }

  /** The item that stands for a value: definite lengths and shortest arguments throughout. */
  function ItemOf(j: Json): Item
    requires Fits(j)
    decreases j, 0
  {
    match j
    case Int(i) => if i >= 0 then Number(false, Shortest(i), i) else Number(true, Shortest(-1 - i), -1 - i)
    case Uint(u) => Number(false, Shortest(u), u)
    case Str(s) => Chars(Shortest(|s|), s)
    case Arr(es) => List(Shortest(|es|), ItemsOf(es))
    case Obj(ms) => Table(Shortest(|ms|), PairsOf(ms))
    case _ => Simple(j)
  }

  function ItemsOf(es: seq<Json>): (items: seq<Item>)
    requires forall i | 0 <= i < |es| :: Fits(es[i])
    ensures |items| == |es|
    decreases es, 1
  {
    if es == [] then [] else [ItemOf(es[0])] + ItemsOf(es[1..])
  }

  predicate FittingMember(m: Member) {
    |m.key| <= MAX_SIZE && Fits(m.value)
  }

  function PairOf(m: Member): Pair
    requires FittingMember(m)
    decreases m, 0
  {
    Pair(Chars(Shortest(|m.key|), m.key), ItemOf(m.value))
  }

  function PairsOf(ms: seq<Member>): (pairs: seq<Pair>)
    requires forall i | 0 <= i < |ms| :: FittingMember(ms[i])
    ensures |pairs| == |ms|
    decreases ms, 1
  {
    if ms == [] then [] else [PairOf(ms[0])] + PairsOf(ms[1..])
  }

  lemma HeadIsInitial(major: nat, n: nat)
    requires Counted(major) && n < 0x1_0000_0000_0000_0000
    ensures MajorType(major * 32) && Head(major * 32, n) == Initial(major, Shortest(n), n)
  {
    hide BigEndian, Places, Capacity;
    if n > 23 {
      PlacesAreBigEndian(Shortest(n), n);
    }
  }

  /** The encoder writes the item that stands for the value. */
  lemma {:induction false} EncodesShortestItem(j: Json)
    requires Fits(j)
    ensures IsItem(ItemOf(j)) && Bytes(ItemOf(j)) == Encoded(j)
    decreases j, 0
  {
    hide Head, Initial, Shortest, IsArgument;
    match j {
      case Int(i) =>
        if i >= 0 {
          HeadIsInitial(0, i);
        } else {
          HeadIsInitial(1, -1 - i);
        }
      case Uint(u) => HeadIsInitial(0, u);
      case Str(s) => HeadIsInitial(3, |s|);
      case Arr(es) =>
        HeadIsInitial(4, |es|);
        EncodesItems(es);
      case Obj(ms) =>
        HeadIsInitial(5, |ms|);
        EncodesPairs(ms);
      case _ =>
    }
  }

  lemma {:induction false} EncodesItems(es: seq<Json>)
    requires forall i | 0 <= i < |es| :: Fits(es[i])
    ensures AreItems(ItemsOf(es)) && BytesOfItems(ItemsOf(es)) == EncodedSeq(es)
    decreases es, 1
  {
    hide Fits, ItemOf, IsItem, Bytes, Encoded;
    if es == [] {
    } else {
      EncodesShortestItem(es[0]);
      EncodesItems(es[1..]);
      assert ItemsOf(es)[1..] == ItemsOf(es[1..]);
    }
  }

  lemma {:induction false} EncodesPair(m: Member)
    requires FittingMember(m)
    ensures IsPair(PairOf(m)) && BytesOfPair(PairOf(m)) == EncodedMember(m)
    decreases m, 0
  {
    hide ItemOf, Encoded, Head, Initial;
    EncodesShortestItem(m.value);
    HeadIsInitial(3, |m.key|);
  }

  lemma {:induction false} EncodesPairs(ms: seq<Member>)
    requires forall i | 0 <= i < |ms| :: FittingMember(ms[i])
    ensures ArePairs(PairsOf(ms)) && BytesOfPairs(PairsOf(ms)) == EncodedMembers(ms)
    decreases ms, 1
  {
    hide FittingMember, PairOf, IsPair, BytesOfPair, EncodedMember;
    if ms == [] {
    } else {
      EncodesPair(ms[0]);
      EncodesPairs(ms[1..]);
      assert PairsOf(ms)[1..] == PairsOf(ms[1..]);
    }
  }

  lemma {:induction false} ItemMeansValue(j: Json)
    requires Fits(j) && Ordered(j) && IsItem(ItemOf(j))
    ensures Meaning(ItemOf(j)) == Unsign(j)
    decreases j, 0
  {
    hide Shortest, IsArgument, Sorted;
    match j {
      case Arr(es) => ItemsMeanValues(es);
      case Obj(ms) =>
        PairsMeanMembers([], ms);
        assert [] + UnsignMembers(ms) == UnsignMembers(ms);
      case _ =>
    }
  }

  lemma {:induction false} ItemsMeanValues(es: seq<Json>)
    requires (forall i | 0 <= i < |es| :: Fits(es[i]) && Ordered(es[i])) && AreItems(ItemsOf(es))
    ensures Meanings(ItemsOf(es)) == UnsignSeq(es)
    decreases es, 1
  {
    hide Fits, Ordered, ItemOf, IsItem, Meaning, Unsign;
    if es == [] {
    } else {
      assert ItemsOf(es)[1..] == ItemsOf(es[1..]) && ItemsOf(es)[0] == ItemOf(es[0]);
      ItemMeansValue(es[0]);
      ItemsMeanValues(es[1..]);
    }
  }

  lemma {:induction false} PairsMeanMembers(before: seq<Member>, ms: seq<Member>)
    requires (forall i | 0 <= i < |ms| :: FittingMember(ms[i]) && Ordered(ms[i].value)) && Sorted(ms)
    requires AllBefore(before, ms) && ArePairs(PairsOf(ms))
    ensures Entries(before, PairsOf(ms)) == before + UnsignMembers(ms)
    decreases ms, 1
  {
    hide Ordered, ItemOf, IsItem, Meaning, Unsign, Put, Before, AllBefore;
    if ms == [] {
      assert before + [] == before;
    } else {
      var done := Member(ms[0].key, Unsign(ms[0].value));
      assert PairsOf(ms)[1..] == PairsOf(ms[1..]) && PairsOf(ms)[0] == PairOf(ms[0]);
      assert IsPair(PairsOf(ms)[0]);
      ItemMeansValue(ms[0].value);
      AllBeforeNext(before, ms, done.value);
      assert WithEntry(before, PairOf(ms[0])) == before + [done];
      assert UnsignMembers(ms) == [done] + UnsignMembers(ms[1..]);
      PairsMeanMembers(before + [done], ms[1..]);
      ConcatAssociative(before, [done], UnsignMembers(ms[1..]));
    }
  }
}
