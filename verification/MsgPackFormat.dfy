// The MessagePack format, written down with literal numbers and without the codec: items as trees, the bytes of each
// item, and the value it means. The decoder accepts exactly these items (without floating-point numbers, binary data
// and extensions), and the encoder writes the shortest one for every value whose sizes fit in 32 bits.

module MsgPackFormat {
  import opened ByteStrings
  import opened JsonValue
  import opened BinaryFormat
  import opened MsgPack

  /** w is the number of bytes that a number or a size takes behind the first byte; a fixint stands in the first byte,
      and so does a size with w == 0. */
  datatype Item =
    | Fixint(i: int)
    | Natural(w: nat, n: nat)
    | Integer(w: nat, i: int)
    | Chars(w: nat, s: Text)
    | List(w: nat, items: seq<Item>)
    | Table(w: nat, pairs: seq<Pair>)
    | Simple(j: Json)

  datatype Pair = Pair(key: Item, value: Item)

  /** The numbers that w bytes hold in two's complement. */
  predicate IsSigned(w: nat, i: int) {
    (w == 1 && -0x80 <= i < 0x80) || (w == 2 && -0x8000 <= i < 0x8000) || (w == 4 && -0x8000_0000 <= i < 0x8000_0000) ||
    (w == 8 && -0x8000_0000_0000_0000 <= i < 0x8000_0000_0000_0000)
  }

  function Complement(w: nat, i: int): (n: nat)
    requires IsSigned(w, i)
    ensures IsPlaced(w, n)
  {
    if i >= 0 then i
    else if w == 1 then 0x100 + i
    else if w == 2 then 0x1_0000 + i
    else if w == 4 then 0x1_0000_0000 + i
    else 0x1_0000_0000_0000_0000 + i
  }

  predicate IsSize(kind: Kind, w: nat, n: nat) {
    if w == 0 then n <= (if kind == TextKind then 31 else 15)
    else w <= 4 && (w == 1 ==> kind == TextKind) && IsPlaced(w, n)
  }

  /** The bytes in front of the content of a string, an array or a map. */
  function Front(kind: Kind, w: nat, n: nat): (h: Text)
    requires IsSize(kind, w, n)
    ensures |h| == 1 + w
  {
    match kind
    case TextKind =>
      if w == 0 then [0xa0 + n] else [if w == 1 then 0xd9 else if w == 2 then 0xda else 0xdb] + Places(w, n)
    case ArrayKind =>
      if w == 0 then [0x90 + n] else [if w == 2 then 0xdc else 0xdd] + Places(w, n)
    case MapKind =>
      if w == 0 then [0x80 + n] else [if w == 2 then 0xde else 0xdf] + Places(w, n)
  }

  predicate IsItem(item: Item) {
    match item
    case Fixint(i) => -32 <= i <= 127
    case Natural(w, n) => IsPlaced(w, n)
    case Integer(w, i) => IsSigned(w, i)
    case Chars(w, s) => IsSize(TextKind, w, |s|)
    case List(w, items) => IsSize(ArrayKind, w, |items|) && AreItems(items)
    case Table(w, pairs) => IsSize(MapKind, w, |pairs|) && ArePairs(pairs)
    case Simple(j) => j in {Null, Bool(false), Bool(true)}
  }

  predicate AreItems(items: seq<Item>) {
    forall i | 0 <= i < |items| :: IsItem(items[i])
  }

  predicate IsPair(p: Pair) {
    p.key.Chars? && IsItem(p.key) && IsItem(p.value)
  }

  predicate ArePairs(pairs: seq<Pair>) {
    forall i | 0 <= i < |pairs| :: IsPair(pairs[i])
  }

  function Bytes(item: Item): (bs: Text)
    requires IsItem(item)
    ensures bs != []
    decreases item, 0
  {
    match item
    case Fixint(i) => if i >= 0 then [i] else [0x100 + i]
    case Natural(w, n) =>
      [if w == 1 then 0xcc else if w == 2 then 0xcd else if w == 4 then 0xce else 0xcf] + Places(w, n)
    case Integer(w, i) =>
      [if w == 1 then 0xd0 else if w == 2 then 0xd1 else if w == 4 then 0xd2 else 0xd3] + Places(w, Complement(w, i))
    case Chars(w, s) => Front(TextKind, w, |s|) + s
    case List(w, items) => Front(ArrayKind, w, |items|) + BytesOfItems(items)
    case Table(w, pairs) => Front(MapKind, w, |pairs|) + BytesOfPairs(pairs)
    case Simple(j) => if j == Null then [0xc0] else if j == Bool(true) then [0xc3] else [0xc2]
  }

  function BytesOfItems(items: seq<Item>): Text
    requires AreItems(items)
    decreases items, 1
  {
    if items == [] then [] else Bytes(items[0]) + BytesOfItems(items[1..])
  }

  function BytesOfPairs(pairs: seq<Pair>): Text
    requires ArePairs(pairs)
    decreases pairs, 1
  {
    if pairs == [] then [] else BytesOfPair(pairs[0]) + BytesOfPairs(pairs[1..])
  }

  function BytesOfPair(p: Pair): Text
    requires IsPair(p)
    decreases p, 0
  {
    Bytes(p.key) + Bytes(p.value)
  }

  function Meaning(item: Item): Json
    requires IsItem(item)
    decreases item, 0
  {
    match item
    case Fixint(i) => if i >= 0 then Uint(i) else Int(i)
    case Natural(_, n) => Uint(n)
    case Integer(_, i) => Int(i)
    case Chars(_, s) => Str(s)
    case List(_, items) => Arr(Meanings(items))
    case Table(_, pairs) => Obj(Entries([], pairs))
    case Simple(j) => j
  }

  function Meanings(items: seq<Item>): seq<Json>
    requires AreItems(items)
    decreases items, 1
  {
    if items == [] then [] else [Meaning(items[0])] + Meanings(items[1..])
  }

  /** The last of equal keys wins. */
  function Entries(ms: seq<Member>, pairs: seq<Pair>): seq<Member>
    requires ArePairs(pairs)
    decreases pairs, 1
  {
    if pairs == [] then ms
    else Entries(WithEntry(ms, pairs[0]), pairs[1..])
  }

  function WithEntry(ms: seq<Member>, p: Pair): seq<Member>
    requires IsPair(p)
    decreases p, 0
  {
    Put(ms, p.key.s, Meaning(p.value))
  }

  //////// First bytes ////////

  /** A first byte and the bytes of a number. */
  lemma PlacesAreRead(v: Text, idx: nat, lead: byte, w: nat, n: nat)
    requires IsPlaced(w, n) && At(v, idx, [lead] + Places(w, n))
    ensures idx + 1 + w <= |v| && v[idx] == lead
    ensures GetFromVector(v, idx, w) == Ok(Places(w, n)) && Unsigned(Places(w, n)) == n
  {
    hide BigEndian, Unsigned, Capacity, Places;
    var bs := Places(w, n);
    PlacesAreBigEndian(w, n);
    AtParts(v, idx, [lead], bs);
    assert [lead][0] == v[0 + idx];
    AtSlice(v, idx + 1, bs);
    UnsignedOfBigEndian(w, n);
  }

  lemma PlacesAreThere(v: Text, idx: nat, w: nat)
    requires idx < |v| && w in {1, 2, 4, 8} && GetFromVector(v, idx, w).Ok?
    ensures var n := Unsigned(GetFromVector(v, idx, w).value);
            IsPlaced(w, n) && At(v, idx, [v[idx]] + Places(w, n))
  {
    hide BigEndian, Unsigned, Capacity, Places;
    var bs := v[idx + 1..idx + 1 + w];
    Capacities();
    BigEndianOfUnsigned(bs);
    PlacesAreBigEndian(w, Unsigned(bs));
    assert [v[idx]] + bs == v[idx..idx + 1 + w];
  }

  lemma FrontIsRead(v: Text, idx: nat, kind: Kind, w: nat, n: nat, content: Text)
    requires IsSize(kind, w, n) && At(v, idx, Front(kind, w, n) + content)
    ensures var start := idx + |Front(kind, w, n)|;
            start <= |v| && At(v, start, content) && Decoded(v, idx) == DecodedBody(v, kind, n, start)
  {
    hide Unsigned, Places, DecodedBody, GetFromVector;
    var h := Front(kind, w, n);
    AtParts(v, idx, h, content);
    assert h[0] == v[0 + idx];
    if w != 0 {
      PlacesAreRead(v, idx, h[0], w, n);
      assert FormatOf(h[0]) == Sized(kind, w);
    } else {
      assert FormatOf(h[0]) == Fixed(kind, n);
    }
  }

  /** Two's complement, read as Signed does. */
  lemma ComplementIsSigned(w: nat, i: int, bs: Text)
    requires IsSigned(w, i) && |bs| == w
    ensures Unsigned(bs) == Complement(w, i) <==> Signed(bs) == i
  {
    hide Unsigned, Capacity;
    Capacities();
  }

  lemma NaturalIsDecoded(v: Text, idx: nat, w: nat, n: nat)
    requires IsPlaced(w, n) && At(v, idx, Bytes(Natural(w, n)))
    ensures n < 0x1_0000_0000_0000_0000 && Decoded(v, idx) == Ok((Uint(n), idx + |Bytes(Natural(w, n))|))
  {
    hide Unsigned, Places;
    PlacesAreRead(v, idx, Bytes(Natural(w, n))[0], w, n);
    assert FormatOf(v[idx]) == UnsignedOf(w);
  }

  lemma IntegerIsDecoded(v: Text, idx: nat, w: nat, i: int)
    requires IsSigned(w, i) && At(v, idx, Bytes(Integer(w, i)))
    ensures -0x8000_0000_0000_0000 <= i < 0x8000_0000_0000_0000
    ensures Decoded(v, idx) == Ok((Int(i), idx + |Bytes(Integer(w, i))|))
  {
    hide Unsigned, Places, Signed, Complement;
    var n := Complement(w, i);
    PlacesAreRead(v, idx, Bytes(Integer(w, i))[0], w, n);
    ComplementIsSigned(w, i, Places(w, n));
    assert FormatOf(v[idx]) == SignedOf(w);
  }

  //////// Every item is decoded ////////

  /** Wherever the bytes of an item stand, the decoder returns its meaning and stops right behind it. */
  lemma {:induction false} ItemIsDecoded(v: Text, idx: nat, item: Item)
    requires IsItem(item) && At(v, idx, Bytes(item))
    ensures Decoded(v, idx) == Ok((Meaning(item), idx + |Bytes(item)|))
    decreases item, 2
  {
    hide At, DecodedItems, DecodedPairs, Places, Front, FormatOf, Entries, Meanings, BytesOfItems, BytesOfPairs;
    hide IsSize, IsPlaced, Decoded, Put;
    match item {
      case Natural(w, n) => NaturalIsDecoded(v, idx, w, n);
      case Integer(w, i) => IntegerIsDecoded(v, idx, w, i);
      case Chars(w, s) => CharsAreDecoded(v, idx, w, s);
      case List(w, items) =>
        FrontIsRead(v, idx, ArrayKind, w, |items|, BytesOfItems(items));
        ItemsAreDecoded(v, idx + |Front(ArrayKind, w, |items|)|, items, []);
        assert [] + Meanings(items) == Meanings(items);
      case Table(w, pairs) =>
        FrontIsRead(v, idx, MapKind, w, |pairs|, BytesOfPairs(pairs));
        PairsAreDecoded(v, idx + |Front(MapKind, w, |pairs|)|, pairs, []);
      case _ => WholeIsDecoded(v, idx, item);
    }
  }

  lemma CharsAreDecoded(v: Text, idx: nat, w: nat, s: Text)
    requires IsSize(TextKind, w, |s|) && At(v, idx, Front(TextKind, w, |s|) + s)
    ensures Decoded(v, idx) == Ok((Str(s), idx + |Front(TextKind, w, |s|) + s|))
  {
    hide IsSize, Front, Decoded;
    FrontIsRead(v, idx, TextKind, w, |s|, s);
    AtSlice(v, idx + |Front(TextKind, w, |s|)|, s);
  }

  lemma WholeIsDecoded(v: Text, idx: nat, item: Item)
    requires IsItem(item) && (item.Fixint? || item.Simple?) && At(v, idx, Bytes(item))
    ensures Decoded(v, idx) == Ok((Meaning(item), idx + 1)) && |Bytes(item)| == 1
  {
    assert Bytes(item)[0] == v[0 + idx];
  }

  lemma {:induction false} ItemsAreDecoded(v: Text, idx: nat, items: seq<Item>, es: seq<Json>)
    requires AreItems(items) && At(v, idx, BytesOfItems(items))
    ensures DecodedItems(v, idx, |items|, es) == Ok((Arr(es + Meanings(items)), idx + |BytesOfItems(items)|))
    decreases items, 1
  {
    hide At, Bytes, Decoded, Meaning, IsItem;
    if items == [] {
      assert es + [] == es;
    } else {
      AtParts(v, idx, Bytes(items[0]), BytesOfItems(items[1..]));
      ItemIsDecoded(v, idx, items[0]);
      ItemsAreDecoded(v, idx + |Bytes(items[0])|, items[1..], es + [Meaning(items[0])]);
      ConcatAssociative(es, [Meaning(items[0])], Meanings(items[1..]));
    }
  }

  lemma {:induction false} PairIsDecoded(v: Text, idx: nat, p: Pair)
    requires IsPair(p) && At(v, idx, BytesOfPair(p))
    ensures DecodedMember(v, idx) == Ok((Member(p.key.s, Meaning(p.value)), idx + |BytesOfPair(p)|))
    decreases p, 1
  {
    hide At, Bytes, Decoded, IsItem;
    AtParts(v, idx, Bytes(p.key), Bytes(p.value));
    ItemIsDecoded(v, idx, p.key);
    ItemIsDecoded(v, idx + |Bytes(p.key)|, p.value);
  }

  lemma {:induction false} PairsAreDecoded(v: Text, idx: nat, pairs: seq<Pair>, ms: seq<Member>)
    requires ArePairs(pairs) && At(v, idx, BytesOfPairs(pairs))
    ensures DecodedPairs(v, idx, |pairs|, ms) == Ok((Obj(Entries(ms, pairs)), idx + |BytesOfPairs(pairs)|))
    decreases pairs, 1
  {
    hide At, BytesOfPair, IsPair, DecodedMember, Meaning, Put;
    if pairs == [] {
    } else {
      AtParts(v, idx, BytesOfPair(pairs[0]), BytesOfPairs(pairs[1..]));
      PairIsDecoded(v, idx, pairs[0]);
      PairsAreDecoded(v, idx + |BytesOfPair(pairs[0])|, pairs[1..], WithEntry(ms, pairs[0]));
    }
  }

  //////// Whatever is decoded is an item ////////

  /** The item stands at idx in v. */
  predicate StandsAt(item: Item, v: Text, idx: nat) {
    IsItem(item) && At(v, idx, Bytes(item))
  }

  lemma {:induction false} DecodedItem(v: Text, idx: nat) returns (item: Item)
    requires Decoded(v, idx).Ok?
    ensures StandsAt(item, v, idx) && Decoded(v, idx) == Ok((Meaning(item), idx + |Bytes(item)|))
    decreases |v| - idx, 0
  {
    hide At, DecodedBody, DecodedNumber, Front, Bytes, IsItem, Meaning, FormatOf, IsSize;
    match FormatOf(v[idx]) {
      case Fixed(kind, n) =>
        FixedIsThere(v, idx);
        item := BodyThere(v, idx, kind, 0, n);
      case Sized(kind, k) =>
        SizedIsThere(v, idx);
        item := BodyThere(v, idx, kind, k, Unsigned(GetFromVector(v, idx, k).value));
      case Whole(_) => item := WholeItem(v, idx);
      case UnsignedOf(_) => item := NumberItem(v, idx);
      case SignedOf(_) => item := NumberItem(v, idx);
    }
  }

  lemma FixedIsThere(v: Text, idx: nat)
    requires idx < |v| && FormatOf(v[idx]).Fixed?
    ensures var f := FormatOf(v[idx]); IsSize(f.kind, 0, f.n) && At(v, idx, Front(f.kind, 0, f.n))
  {
    var f := FormatOf(v[idx]);
    assert Front(f.kind, 0, f.n) == [v[idx]];
  }

  lemma SizedIsThere(v: Text, idx: nat)
    requires idx < |v| && FormatOf(v[idx]).Sized? && GetFromVector(v, idx, FormatOf(v[idx]).k).Ok?
    ensures var f := FormatOf(v[idx]);
            var n := Unsigned(GetFromVector(v, idx, f.k).value);
            IsSize(f.kind, f.k, n) && At(v, idx, Front(f.kind, f.k, n))
  {
    hide At, Places, Unsigned, GetFromVector;
    PlacesAreThere(v, idx, FormatOf(v[idx]).k);
  }

  lemma WholeItem(v: Text, idx: nat) returns (item: Item)
    requires idx < |v| && FormatOf(v[idx]).Whole?
    ensures StandsAt(item, v, idx) && Meaning(item) == FormatOf(v[idx]).j && |Bytes(item)| == 1
  {
    var b := v[idx];
    var i := b as int - if b <= 0x7f then 0 else 0x100;
    item := if -32 <= i then Fixint(i) else Simple(FormatOf(b).j);
    assert Bytes(item) == [b];
  }

  lemma NumberItem(v: Text, idx: nat) returns (item: Item)
    requires idx < |v| && (FormatOf(v[idx]).UnsignedOf? || FormatOf(v[idx]).SignedOf?)
    requires DecodedNumber(v, idx, FormatOf(v[idx])).Ok?
    ensures StandsAt(item, v, idx)
    ensures DecodedNumber(v, idx, FormatOf(v[idx])) == Ok((Meaning(item), idx + |Bytes(item)|))
  {
    hide At, Places, Unsigned, Capacity, Signed;
    var f := FormatOf(v[idx]);
    var bs := GetFromVector(v, idx, f.k).value;
    PlacesAreThere(v, idx, f.k);
    if f.UnsignedOf? {
      item := Natural(f.k, Unsigned(bs));
    } else {
      Capacities();
      ComplementIsSigned(f.k, Signed(bs), bs);
      item := Integer(f.k, Signed(bs));
    }
  }

  lemma {:induction false} BodyThere(v: Text, idx: nat, kind: Kind, w: nat, n: nat) returns (item: Item)
    requires IsSize(kind, w, n) && At(v, idx, Front(kind, w, n))
    requires idx + |Front(kind, w, n)| <= |v| && DecodedBody(v, kind, n, idx + |Front(kind, w, n)|).Ok?
    ensures StandsAt(item, v, idx)
    ensures DecodedBody(v, kind, n, idx + |Front(kind, w, n)|) == Ok((Meaning(item), idx + |Bytes(item)|))
    decreases |v| - (idx + |Front(kind, w, n)|), 5
  {
    hide At, DecodedItems, DecodedPairs, Front, IsSize, Put, BytesOfItems, BytesOfPairs, Meanings, Entries;
    var h := Front(kind, w, n);
    var start := idx + |h|;
    match kind {
      case TextKind =>
        item := Chars(w, v[start..start + n]);
        SliceStands(v, start, n);
        AtJoin(v, idx, h, v[start..start + n]);
      case ArrayKind =>
        var items := ItemsThere(v, start, n, []);
        item := List(w, items);
        AtJoin(v, idx, h, BytesOfItems(items));
        assert [] + Meanings(items) == Meanings(items);
      case MapKind =>
        var pairs := PairsThere(v, start, n, []);
        item := Table(w, pairs);
        AtJoin(v, idx, h, BytesOfPairs(pairs));
    }
  }

  lemma {:induction false} ItemsThere(v: Text, idx: nat, n: nat, es: seq<Json>) returns (items: seq<Item>)
    requires idx <= |v| && DecodedItems(v, idx, n, es).Ok?
    ensures AreItems(items) && |items| == n && At(v, idx, BytesOfItems(items))
    ensures DecodedItems(v, idx, n, es) == Ok((Arr(es + Meanings(items)), idx + |BytesOfItems(items)|))
    decreases |v| - idx, 1
  {
    hide At, Bytes, Decoded, Meaning, IsItem;
    if n == 0 {
      items := [];
      NothingStands(v, idx);
      assert es + [] == es;
    } else {
      var item := DecodedItem(v, idx);
      var rest := ItemsThere(v, idx + |Bytes(item)|, n - 1, es + [Meaning(item)]);
      items := [item] + rest;
      assert items[1..] == rest;
      AtJoin(v, idx, Bytes(item), BytesOfItems(rest));
      ConcatAssociative(es, [Meaning(item)], Meanings(rest));
    }
  }

  /** Only strings decode to strings. */
  lemma TextMeaning(item: Item)
    requires IsItem(item)
    ensures Meaning(item).Str? <==> item.Chars?
    ensures Meaning(item).Str? ==> Meaning(item).s == item.s
  {
  }

  lemma {:induction false} PairThere(v: Text, idx: nat) returns (p: Pair)
    requires DecodedMember(v, idx).Ok?
    ensures IsPair(p) && At(v, idx, BytesOfPair(p))
    ensures DecodedMember(v, idx) == Ok((Member(p.key.s, Meaning(p.value)), idx + |BytesOfPair(p)|))
    decreases |v| - idx, 2
  {
    hide At, Bytes, Decoded, Meaning, IsItem;
    var key := DecodedItem(v, idx);
    TextMeaning(key);
    var value := DecodedItem(v, idx + |Bytes(key)|);
    p := Pair(key, value);
    AtJoin(v, idx, Bytes(key), Bytes(value));
  }

  lemma {:induction false} PairsThere(v: Text, idx: nat, n: nat, ms: seq<Member>) returns (pairs: seq<Pair>)
    requires idx <= |v| && DecodedPairs(v, idx, n, ms).Ok?
    ensures ArePairs(pairs) && |pairs| == n && At(v, idx, BytesOfPairs(pairs))
    ensures DecodedPairs(v, idx, n, ms) == Ok((Obj(Entries(ms, pairs)), idx + |BytesOfPairs(pairs)|))
    decreases |v| - idx, 3
  {
    hide At, BytesOfPair, DecodedMember, IsPair, Put;
    if n == 0 {
      pairs := [];
      NothingStands(v, idx);
    } else {
      var p := PairThere(v, idx);
      var rest := PairsThere(v, idx + |BytesOfPair(p)|, n - 1, WithEntry(ms, p));
      pairs := [p] + rest;
      assert pairs[1..] == rest;
      AtJoin(v, idx, BytesOfPair(p), BytesOfPairs(rest));
    }
  }

  /** The decoder accepts exactly the items of the format, and returns what they mean. */
  lemma DecodesExactlyItems(v: Text, idx: nat, j: Json, end: nat)
    ensures Decoded(v, idx) == Ok((j, end)) <==>
            exists item :: StandsAt(item, v, idx) && Meaning(item) == j && end == idx + |Bytes(item)|
  {
    hide At, IsItem, Bytes, Decoded, Meaning;
    if Decoded(v, idx) == Ok((j, end)) {
      var item := DecodedItem(v, idx);
    }
    if item :| StandsAt(item, v, idx) && Meaning(item) == j && end == idx + |Bytes(item)| {
      ItemIsDecoded(v, idx, item);
    }
  }

  /** Only 0xc1 is unused; binary data, extensions and floating-point numbers are refused or left out. */
  predicate BeginsItem(b: byte) {
    b <= 0xc0 || 0xc2 <= b <= 0xc3 || 0xcc <= b <= 0xd3 || 0xd9 <= b
  }

  lemma OtherBytesAreRefused(v: Text, idx: nat)
    requires idx < |v| && !BeginsItem(v[idx])
    ensures Decoded(v, idx) == Err(if v[idx] in {0xca, 0xcb} then Unmodelled else InvalidArgument)
  {
  }

  /** A vector that begins with b and that the decoder reads: behind b, there are only nulls and zeros. */
  lemma BytesBeginItems(b: byte) returns (item: Item)
    requires BeginsItem(b)
    ensures IsItem(item) && Bytes(item)[0] == b
  {
    hide BytesOfItems, BytesOfPairs, Places;
    if b <= 0x7f || b >= 0xe0 {
      item := Fixint(if b <= 0x7f then b else b - 0x100);
    } else if b in {0xc0, 0xc2, 0xc3} {
      item := Simple(if b == 0xc0 then Null else Bool(b == 0xc3));
    } else if 0xcc <= b <= 0xcf {
      item := Natural(if b == 0xcc then 1 else if b == 0xcd then 2 else if b == 0xce then 4 else 8, 0);
    } else if 0xd0 <= b <= 0xd3 {
      item := Integer(if b == 0xd0 then 1 else if b == 0xd1 then 2 else if b == 0xd2 then 4 else 8, 0);
    } else {
      item := SizedItem(b);
    }
  }

  lemma SizedItem(b: byte) returns (item: Item)
    requires 0x80 <= b <= 0xbf || 0xd9 <= b <= 0xdf
    ensures IsItem(item) && Bytes(item)[0] == b
  {
    hide BytesOfItems, BytesOfPairs, Places;
    var w := if b <= 0xbf then 0 else if b == 0xd9 then 1 else if b in {0xda, 0xdc, 0xde} then 2 else 4;
    if b <= 0x8f || b in {0xde, 0xdf} {
      var p := Pair(Chars(0, []), Simple(Null));
      assert IsPair(p);
      item := Table(w, seq(if w == 0 then b - 0x80 else 0, _ => p));
    } else if b <= 0x9f || b in {0xdc, 0xdd} {
      assert IsItem(Simple(Null));
      item := List(w, seq(if w == 0 then b - 0x90 else 0, _ => Simple(Null)));
    } else {
      var s: Text := seq(if w == 0 then b - 0xa0 else 0, _ => 0x20);
      item := Chars(w, s);
    }
  }

  /** The decoder reads a value from some vector that begins with b exactly for these bytes. */
  lemma AcceptedFirstBytes(b: byte)
    ensures BeginsItem(b) <==> exists v: Text :: |v| > 0 && v[0] == b && Decoded(v, 0).Ok?
  {
    if BeginsItem(b) {
      var item := BytesBeginItems(b);
      assert At(Bytes(item), 0, Bytes(item));
      ItemIsDecoded(Bytes(item), 0, item);
      assert Decoded(Bytes(item), 0).Ok?;
    }
    if v: Text :| |v| > 0 && v[0] == b && Decoded(v, 0).Ok? {
      if !BeginsItem(b) { OtherBytesAreRefused(v, 0); }
    }
  }

  //////// What the encoder writes ////////

  /** Sizes that MessagePack can write. */
  predicate Small(j: Json) {
    match j
    case Str(s) => |s| <= 0xffff_ffff
    case Arr(es) => |es| <= 0xffff_ffff && forall i | 0 <= i < |es| :: Small(es[i])
    case Obj(ms) => |ms| <= 0xffff_ffff && SmallMembers(ms)
    case _ => true
  }

  predicate SmallMembers(ms: seq<Member>) {
    forall i | 0 <= i < |ms| :: SmallMember(ms[i])
  }

  predicate SmallMember(m: Member) {
    |m.key| <= 0xffff_ffff && Small(m.value)
  }

  /** The fewest bytes for a size. */
  function ShortestSize(kind: Kind, n: nat): (w: nat)
    requires n <= 0xffff_ffff
    ensures IsSize(kind, w, n)
  {
    if n <= (if kind == TextKind then 31 else 15) then 0
    else if n < 0x100 && kind == TextKind then 1
    else if n < 0x1_0000 then 2
    else 4
  }

  lemma ShortestSizeIsShortest(kind: Kind, n: nat, w: nat)
    requires IsSize(kind, w, n)
    ensures n <= 0xffff_ffff && ShortestSize(kind, n) <= w
  {
  }

  /** The shortest item for a number; non-negative numbers are written as unsigned ones. */
  function NumberOf(i: int): (item: Item)
    requires -0x8000_0000_0000_0000 <= i < 0x1_0000_0000_0000_0000
    ensures IsItem(item)
  {
    if -32 <= i <= 127 then Fixint(i)
    else if i >= 0 then
      Natural(if i < 0x100 then 1 else if i < 0x1_0000 then 2 else if i < 0x1_0000_0000 then 4 else 8, i)
    else Integer(if i >= -0x80 then 1 else if i >= -0x8000 then 2 else if i >= -0x8000_0000 then 4 else 8, i)
  }

  /** No item that means the same number is shorter. */
  lemma NumberOfIsShortest(i: int, item: Item)
    requires IsItem(item) && -0x8000_0000_0000_0000 <= i < 0x1_0000_0000_0000_0000
    requires Meaning(item) == Meaning(NumberOf(i))
    ensures |Bytes(NumberOf(i))| <= |Bytes(item)|
  {
    hide Places, BytesOfItems, BytesOfPairs, Meanings, Entries;
  }

  function ItemOf(j: Json): Item
    requires Small(j)
    decreases j, 0
  {
    match j
    case Int(i) => NumberOf(i)
    case Uint(u) => NumberOf(u)
    case Str(s) => Chars(ShortestSize(TextKind, |s|), s)
    case Arr(es) => List(ShortestSize(ArrayKind, |es|), ItemsOf(es))
    case Obj(ms) => Table(ShortestSize(MapKind, |ms|), PairsOf(ms))
    case _ => Simple(j)
  }

  function ItemsOf(es: seq<Json>): (items: seq<Item>)
    requires forall i | 0 <= i < |es| :: Small(es[i])
    ensures |items| == |es|
    decreases es, 1
  {
    if es == [] then [] else [ItemOf(es[0])] + ItemsOf(es[1..])
  }

  function PairOf(m: Member): Pair
    requires SmallMember(m)
    decreases m, 0
  {
    Pair(Chars(ShortestSize(TextKind, |m.key|), m.key), ItemOf(m.value))
  }

  function PairsOf(ms: seq<Member>): (pairs: seq<Pair>)
    requires SmallMembers(ms)
    ensures |pairs| == |ms|
    decreases ms, 1
  {
    if ms == [] then [] else [PairOf(ms[0])] + PairsOf(ms[1..])
  }

  lemma HeadIsFront(kind: Kind, n: nat)
    requires n <= 0xffff_ffff
    ensures Head(kind, n) == Front(kind, ShortestSize(kind, n), n)
  {
    hide BigEndian, Places, Capacity;
    if ShortestSize(kind, n) != 0 {
      PlacesAreBigEndian(ShortestSize(kind, n), n);
    }
  }

  /** Beyond 32 bits, the content of a string, an array or a map follows no head at all. */
  lemma NoHeadBeyond32Bits(kind: Kind, n: nat)
    requires n > 0xffff_ffff
    ensures Head(kind, n) == []
  {
  }

  lemma NumberIsWritten(i: int)
    requires -0x8000_0000_0000_0000 <= i < 0x1_0000_0000_0000_0000
    ensures i >= 0 ==> EncodedUnsigned(i) == Bytes(NumberOf(i))
    ensures i < 0 ==> EncodedNegative(i) == Bytes(NumberOf(i))
  {
    hide BigEndian, Places, Capacity;
    var item := NumberOf(i);
    if item.Natural? {
      PlacesAreBigEndian(item.w, i);
    } else if item.Integer? {
      Capacities();
      PlacesAreBigEndian(item.w, Complement(item.w, i));
      Remainder(i, Capacity(item.w), -1, Complement(item.w, i));
    }
  }

  /** The encoder writes the item that stands for the value. */
  lemma {:induction false} EncodesShortestItem(j: Json)
    requires Small(j)
    ensures IsItem(ItemOf(j)) && Bytes(ItemOf(j)) == Encoded(j)
    decreases j, 0
  {
    hide Head, Front, ShortestSize, IsSize, EncodedUnsigned, EncodedNegative, NumberOf;
    match j {
      case Int(i) => NumberIsWritten(i);
      case Uint(u) => NumberIsWritten(u);
      case Str(s) => HeadIsFront(TextKind, |s|);
      case Arr(es) =>
        HeadIsFront(ArrayKind, |es|);
        EncodesItems(es);
      case Obj(ms) =>
        HeadIsFront(MapKind, |ms|);
        EncodesPairs(ms);
      case _ =>
    }
  }

  lemma {:induction false} EncodesItems(es: seq<Json>)
    requires forall i | 0 <= i < |es| :: Small(es[i])
    ensures AreItems(ItemsOf(es)) && BytesOfItems(ItemsOf(es)) == EncodedSeq(es)
    decreases es, 1
  {
    hide Small, ItemOf, IsItem, Bytes, Encoded;
    if es == [] {
    } else {
      EncodesShortestItem(es[0]);
      EncodesItems(es[1..]);
      assert ItemsOf(es)[1..] == ItemsOf(es[1..]);
    }
  }

  lemma {:induction false} EncodesPair(m: Member)
    requires SmallMember(m)
    ensures IsPair(PairOf(m)) && BytesOfPair(PairOf(m)) == EncodedMember(m)
    decreases m, 0
  {
    hide ItemOf, Encoded, Head, Front;
    EncodesShortestItem(m.value);
    HeadIsFront(TextKind, |m.key|);
  }

  lemma {:induction false} EncodesPairs(ms: seq<Member>)
    requires SmallMembers(ms)
    ensures ArePairs(PairsOf(ms)) && BytesOfPairs(PairsOf(ms)) == EncodedMembers(ms)
    decreases ms, 1
  {
    hide SmallMember, PairOf, IsPair, BytesOfPair, EncodedMember;
    if ms == [] {
    } else {
      EncodesPair(ms[0]);
      EncodesPairs(ms[1..]);
      assert PairsOf(ms)[1..] == PairsOf(ms[1..]);
    }
  }

  lemma {:induction false} ItemMeansValue(j: Json)
    requires Small(j) && Ordered(j) && IsItem(ItemOf(j))
    ensures Meaning(ItemOf(j)) == Unsign(j)
    decreases j, 0
  {
    hide ShortestSize, IsSize, Sorted;
    match j {
      case Arr(es) => ItemsMeanValues(es);
      case Obj(ms) =>
        PairsMeanMembers([], ms);
        assert [] + UnsignMembers(ms) == UnsignMembers(ms);
      case _ =>
    }
  }

  lemma {:induction false} ItemsMeanValues(es: seq<Json>)
    requires (forall i | 0 <= i < |es| :: Small(es[i]) && Ordered(es[i])) && AreItems(ItemsOf(es))
    ensures Meanings(ItemsOf(es)) == UnsignSeq(es)
    decreases es, 1
  {
    hide Small, Ordered, ItemOf, IsItem, Meaning, Unsign;
    if es == [] {
    } else {
      assert ItemsOf(es)[1..] == ItemsOf(es[1..]) && ItemsOf(es)[0] == ItemOf(es[0]);
      ItemMeansValue(es[0]);
      ItemsMeanValues(es[1..]);
    }
  }

  lemma {:induction false} PairsMeanMembers(before: seq<Member>, ms: seq<Member>)
    requires SmallMembers(ms) && (forall i | 0 <= i < |ms| :: Ordered(ms[i].value)) && Sorted(ms)
    requires AllBefore(before, ms) && ArePairs(PairsOf(ms))
    ensures Entries(before, PairsOf(ms)) == before + UnsignMembers(ms)
    decreases ms, 1
  {
    hide Ordered, ItemOf, IsItem, Meaning, Unsign, Put, Before, AllBefore;
    if ms == [] {
      assert before + [] == before;
    } else {
      var done := Member(ms[0].key, Unsign(ms[0].value));
      assert PairsOf(ms)[1..] == PairsOf(ms[1..]) && PairsOf(ms)[0] == PairOf(ms[0]);
      assert IsPair(PairsOf(ms)[0]);
      ItemMeansValue(ms[0].value);
      AllBeforeNext(before, ms, done.value);
      assert WithEntry(before, PairOf(ms[0])) == before + [done];
      assert UnsignMembers(ms) == [done] + UnsignMembers(ms[1..]);
      PairsMeanMembers(before + [done], ms[1..]);
      ConcatAssociative(before, [done], UnsignMembers(ms[1..]));
    }
  }
}
