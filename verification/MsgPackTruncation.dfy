// from_msgpack of a vector that ends within an item throws std::out_of_range, wherever the end is.

module MsgPackTruncation {
  import opened ByteStrings
  import opened JsonValue
  import opened BinaryFormat
  import opened MsgPack
  import opened MsgPackFormat

  predicate IsCut<T>(r: Result<T>) {
    r == Err(OutOfRange)
  }

  lemma CutPlaces(v: Text, idx: nat, lead: byte, w: nat, n: nat)
    requires IsPlaced(w, n) && CutOff(v, idx, [lead] + Places(w, n))
    ensures idx < |v| ==> v[idx] == lead && IsCut(GetFromVector(v, idx, w))
  {
    hide Places;
    if idx < |v| {
      assert v[idx] == ([lead] + Places(w, n))[idx - idx];
    }
  }

  lemma CutFront(v: Text, idx: nat, kind: Kind, w: nat, n: nat)
    requires IsSize(kind, w, n) && CutOff(v, idx, Front(kind, w, n))
    ensures IsCut(Decoded(v, idx))
  {
    hide Places, DecodedBody, GetFromVector, DecodedNumber;
    if w != 0 {
      CutPlaces(v, idx, Front(kind, w, n)[0], w, n);
      assert FormatOf(Front(kind, w, n)[0]) == Sized(kind, w);
    }
  }

  lemma CutNumber(v: Text, idx: nat, item: Item)
    requires IsItem(item) && (item.Natural? || item.Integer?) && CutOff(v, idx, Bytes(item))
    ensures IsCut(Decoded(v, idx))
  {
    hide Places, GetFromVector, Complement;
    CutPlaces(v, idx, Bytes(item)[0], item.w, if item.Natural? then item.n else Complement(item.w, item.i));
    assert FormatOf(Bytes(item)[0]) == if item.Natural? then UnsignedOf(item.w) else SignedOf(item.w);
  }

  lemma CutByte(v: Text, idx: nat, bs: Text)
    requires CutOff(v, idx, bs) && |bs| == 1
    ensures idx == |v| && IsCut(Decoded(v, idx))
  {
  }

  /** Wherever the bytes of an item end too early, the decoder throws std::out_of_range. */
  lemma {:induction false} CutItem(v: Text, idx: nat, item: Item)
    requires IsItem(item) && CutOff(v, idx, Bytes(item))
    ensures IsCut(Decoded(v, idx))
    decreases item, 2
  {
    hide At, CutOff, Decoded, Front, IsSize, IsPlaced, BytesOfItems, BytesOfPairs, IsCut;
    match item {
      case Natural(_, _) => CutNumber(v, idx, item);
      case Integer(_, _) => CutNumber(v, idx, item);
      case Chars(w, s) => CutChars(v, idx, w, s);
      case List(w, items) => CutList(v, idx, w, items);
      case Table(w, pairs) => CutTable(v, idx, w, pairs);
      case _ => CutByte(v, idx, Bytes(item));
    }
  }

  lemma CutChars(v: Text, idx: nat, w: nat, s: Text)
    requires IsSize(TextKind, w, |s|) && CutOff(v, idx, Front(TextKind, w, |s|) + s)
    ensures IsCut(Decoded(v, idx))
  {
    hide Front, IsSize, At;
    var h := Front(TextKind, w, |s|);
    CutParts(v, idx, h, s);
    if CutOff(v, idx, h) {
      CutFront(v, idx, TextKind, w, |s|);
    } else {
      FrontStands(v, idx, TextKind, w, |s|);
    }
  }

  /** A complete head leads to the content, whether that is complete or not. */
  lemma FrontStands(v: Text, idx: nat, kind: Kind, w: nat, n: nat)
    requires IsSize(kind, w, n) && At(v, idx, Front(kind, w, n))
    ensures var start := idx + |Front(kind, w, n)|; start <= |v| && Decoded(v, idx) == DecodedBody(v, kind, n, start)
  {
    hide Front, IsSize, DecodedBody, Decoded;
    var nothing: Text := [];
    assert Front(kind, w, n) + nothing == Front(kind, w, n);
    FrontIsRead(v, idx, kind, w, n, nothing);
  }

  lemma {:induction false} CutList(v: Text, idx: nat, w: nat, items: seq<Item>)
    requires IsSize(ArrayKind, w, |items|) && AreItems(items)
    requires CutOff(v, idx, Front(ArrayKind, w, |items|) + BytesOfItems(items))
    ensures IsCut(Decoded(v, idx))
    decreases items, 2
  {
    hide Front, IsSize, At, CutOff, DecodedItems, BytesOfItems, Decoded;
    var h := Front(ArrayKind, w, |items|);
    CutParts(v, idx, h, BytesOfItems(items));
    if CutOff(v, idx, h) {
      CutFront(v, idx, ArrayKind, w, |items|);
    } else {
      FrontStands(v, idx, ArrayKind, w, |items|);
      CutItems(v, idx + |h|, items, []);
    }
  }

  lemma {:induction false} CutTable(v: Text, idx: nat, w: nat, pairs: seq<Pair>)
    requires IsSize(MapKind, w, |pairs|) && ArePairs(pairs)
    requires CutOff(v, idx, Front(MapKind, w, |pairs|) + BytesOfPairs(pairs))
    ensures IsCut(Decoded(v, idx))
    decreases pairs, 2
  {
    hide Front, IsSize, At, CutOff, DecodedPairs, BytesOfPairs, Decoded;
    var h := Front(MapKind, w, |pairs|);
    CutParts(v, idx, h, BytesOfPairs(pairs));
    if CutOff(v, idx, h) {
      CutFront(v, idx, MapKind, w, |pairs|);
    } else {
      FrontStands(v, idx, MapKind, w, |pairs|);
      CutPairs(v, idx + |h|, pairs, []);
    }
  }

  lemma {:induction false} CutItems(v: Text, idx: nat, items: seq<Item>, es: seq<Json>)
    requires AreItems(items) && CutOff(v, idx, BytesOfItems(items))
    ensures IsCut(DecodedItems(v, idx, |items|, es))
    decreases items, 1
  {
    hide At, Bytes, Decoded, Meaning, IsItem;
    var first, rest := Bytes(items[0]), BytesOfItems(items[1..]);
    CutParts(v, idx, first, rest);
    if CutOff(v, idx, first) {
      CutItem(v, idx, items[0]);
    } else {
      ItemIsDecoded(v, idx, items[0]);
      CutItems(v, idx + |first|, items[1..], es + [Meaning(items[0])]);
    }
  }

  lemma {:induction false} CutPair(v: Text, idx: nat, p: Pair)
    requires IsPair(p) && CutOff(v, idx, BytesOfPair(p))
    ensures IsCut(DecodedMember(v, idx))
    decreases p, 1
  {
    hide At, Bytes, Decoded, IsItem, Meaning, CutOff;
    CutParts(v, idx, Bytes(p.key), Bytes(p.value));
    if CutOff(v, idx, Bytes(p.key)) {
      CutItem(v, idx, p.key);
    } else {
      ItemIsDecoded(v, idx, p.key);
      TextMeaning(p.key);
      CutItem(v, idx + |Bytes(p.key)|, p.value);
    }
  }

  lemma {:induction false} CutPairs(v: Text, idx: nat, pairs: seq<Pair>, ms: seq<Member>)
    requires ArePairs(pairs) && CutOff(v, idx, BytesOfPairs(pairs))
    ensures IsCut(DecodedPairs(v, idx, |pairs|, ms))
    decreases pairs, 1
  {
    hide At, BytesOfPair, IsPair, DecodedMember, Put, Meaning;
    var first, rest := BytesOfPair(pairs[0]), BytesOfPairs(pairs[1..]);
    CutParts(v, idx, first, rest);
    if CutOff(v, idx, first) {
      CutPair(v, idx, pairs[0]);
    } else {
      PairIsDecoded(v, idx, pairs[0]);
      CutPairs(v, idx + |first|, pairs[1..], WithEntry(ms, pairs[0]));
    }
  }
}
