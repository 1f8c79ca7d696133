// from_cbor of a vector that ends within a data item throws std::out_of_range, wherever the end is.

module CborTruncation {
  import opened ByteStrings
  import opened JsonValue
  import opened BinaryFormat
  import opened Cbor
  import opened CborFormat

  predicate IsCut<T>(r: Result<T>) {
    r == Err(OutOfRange)
  }

  lemma CutInitial(v: Text, idx: nat, major: nat, w: nat, n: nat)
    requires Counted(major) && IsArgument(w, n) && CutOff(v, idx, Initial(major, w, n))
    ensures IsCut(Decoded(v, idx))
  {
    hide Places;
    var h := Initial(major, w, n);
    if idx < |v| {
      assert v[idx] == h[idx - idx];
      assert Width(v[idx] % 0x20) == w;
      assert IsCut(Count(v, idx));
    }
  }

  lemma CutByte(v: Text, idx: nat, b: byte)
    requires CutOff(v, idx, [b])
    ensures idx == |v| && IsCut(Decoded(v, idx))
  {
  }

  /** Wherever the bytes of an item end too early, the decoder throws std::out_of_range. */
  lemma {:induction false} CutItem(v: Text, idx: nat, item: Item)
    requires IsItem(item) && CutOff(v, idx, Bytes(item))
    ensures IsCut(Decoded(v, idx))
    decreases item, 2
  {
    hide At, CutOff, Decoded, Initial, IsArgument, BytesOfItems, BytesOfPairs, IsCut;
    match item {
      case Number(negative, w, n) => CutInitial(v, idx, if negative then 1 else 0, w, n);
      case Chars(w, s) => CutChars(v, idx, w, s);
      case List(w, items) => CutList(v, idx, w, items);
      case Table(w, pairs) => CutTable(v, idx, w, pairs);
      case Chunks(chunks) => CutOpen(v, idx, item, 0x7f, BytesOfItems(chunks));
      case OpenList(items) => CutOpen(v, idx, item, 0x9f, BytesOfItems(items));
      case OpenTable(pairs) => CutOpen(v, idx, item, 0xbf, BytesOfPairs(pairs));
      case Simple(_) => CutByte(v, idx, Bytes(item)[0]);
    }
  }

  lemma CutChars(v: Text, idx: nat, w: nat, s: Text)
    requires IsArgument(w, |s|) && CutOff(v, idx, Initial(3, w, |s|) + s)
    ensures IsCut(Decoded(v, idx))
  {
    hide Initial, IsArgument, IsCounted, Count, At;
    var h := Initial(3, w, |s|);
    CutParts(v, idx, h, s);
    if CutOff(v, idx, h) {
      CutInitial(v, idx, 3, w, |s|);
    } else {
      InitialIsRead(v, idx, 3, w, |s|);
    }
  }

  lemma {:induction false} CutList(v: Text, idx: nat, w: nat, items: seq<Item>)
    requires IsArgument(w, |items|) && AreItems(items) && CutOff(v, idx, Initial(4, w, |items|) + BytesOfItems(items))
    ensures IsCut(Decoded(v, idx))
    decreases items, 2
  {
    hide Initial, IsArgument, IsCounted, Count, At, CutOff, DecodedItems, BytesOfItems;
    var h := Initial(4, w, |items|);
    CutParts(v, idx, h, BytesOfItems(items));
    if CutOff(v, idx, h) {
      CutInitial(v, idx, 4, w, |items|);
    } else {
      InitialIsRead(v, idx, 4, w, |items|);
      CutItems(v, idx + |h|, items, []);
    }
  }

  lemma {:induction false} CutTable(v: Text, idx: nat, w: nat, pairs: seq<Pair>)
    requires IsArgument(w, |pairs|) && ArePairs(pairs) && CutOff(v, idx, Initial(5, w, |pairs|) + BytesOfPairs(pairs))
    ensures IsCut(Decoded(v, idx))
    decreases pairs, 2
  {
    hide Initial, IsArgument, IsCounted, Count, At, CutOff, DecodedPairs, BytesOfPairs;
    var h := Initial(5, w, |pairs|);
    CutParts(v, idx, h, BytesOfPairs(pairs));
    if CutOff(v, idx, h) {
      CutInitial(v, idx, 5, w, |pairs|);
    } else {
      InitialIsRead(v, idx, 5, w, |pairs|);
      CutPairs(v, idx + |h|, pairs, []);
    }
  }

  /** An item of indefinite length: the cut is at its first byte, or within its content and the break. */
  lemma {:induction false} CutOpen(v: Text, idx: nat, item: Item, lead: byte, content: Text)
    requires IsItem(item) && (item.Chunks? || item.OpenList? || item.OpenTable?)
    requires Bytes(item) == [lead] + content + [0xff] && CutOff(v, idx, Bytes(item))
    requires item.Chunks? ==> lead == 0x7f && content == BytesOfItems(item.chunks)
    requires item.OpenList? ==> lead == 0x9f && content == BytesOfItems(item.items)
    requires item.OpenTable? ==> lead == 0xbf && content == BytesOfPairs(item.pairs)
    ensures IsCut(Decoded(v, idx))
    decreases item, 1
  {
    hide At, CutOff, BytesOfItems, BytesOfPairs, DecodedChunks, DecodedItemsToBreak, DecodedPairsToBreak, Decoded;
    hide IsCut, IsText;
    ConcatAssociative([lead], content, [0xff]);
    CutParts(v, idx, [lead], content + [0xff]);
    if CutOff(v, idx, [lead]) {
      CutByte(v, idx, lead);
    } else {
      ByteIsThere(v, idx, lead);
      UncountedByte(v, idx);
      match item {
        case Chunks(chunks) => CutChunks(v, idx + 1, chunks, []);
        case OpenList(items) => CutItemsToBreak(v, idx + 1, items, []);
        case OpenTable(pairs) => CutPairsToBreak(v, idx + 1, pairs, []);
      }
    }
  }

  lemma {:induction false} CutItems(v: Text, idx: nat, items: seq<Item>, es: seq<Json>)
    requires AreItems(items) && CutOff(v, idx, BytesOfItems(items))
    ensures IsCut(DecodedItems(v, idx, |items|, es))
    decreases items, 1
  {
    hide At, Bytes, Decoded, Meaning, IsItem;
    var first, rest := Bytes(items[0]), BytesOfItems(items[1..]);
    CutParts(v, idx, first, rest);
    if CutOff(v, idx, first) {
      CutItem(v, idx, items[0]);
    } else {
      ItemIsDecoded(v, idx, items[0]);
      CutItems(v, idx + |first|, items[1..], es + [Meaning(items[0])]);
    }
  }

  lemma NothingCut(v: Text, idx: nat)
    requires CutOff(v, idx, [0xff])
    ensures idx == |v|
  {
  }

  lemma {:induction false} CutItemsToBreak(v: Text, idx: nat, items: seq<Item>, es: seq<Json>)
    requires AreItems(items) && CutOff(v, idx, BytesOfItems(items) + [0xff])
    ensures IsCut(DecodedItemsToBreak(v, idx, es))
    decreases items, 1
  {
    hide At, Bytes, Decoded, Meaning, IsItem;
    if items == [] {
      assert BytesOfItems(items) + [0xff] == [0xff];
      NothingCut(v, idx);
    } else {
      var first, rest := Bytes(items[0]), BytesOfItems(items[1..]);
      ConcatAssociative(first, rest, [0xff]);
      CutParts(v, idx, first, rest + [0xff]);
      if CutOff(v, idx, first) {
        CutItem(v, idx, items[0]);
        FirstOfCut(v, idx, items[0]);
      } else {
        FirstByte(v, idx, items[0]);
        ItemIsDecoded(v, idx, items[0]);
        CutItemsToBreak(v, idx + |first|, items[1..], es + [Meaning(items[0])]);
      }
    }
  }

  /** The first byte of a cut item is not the break. */
  lemma FirstOfCut(v: Text, idx: nat, item: Item)
    requires IsItem(item) && CutOff(v, idx, Bytes(item))
    ensures idx < |v| ==> v[idx] != 0xff
  {
    hide Places;
    if idx < |v| {
      assert v[idx] == Bytes(item)[idx - idx];
      ItemStandsAlone(item);
    }
  }

  lemma ItemStandsAlone(item: Item)
    requires IsItem(item)
    ensures Bytes(item)[0] != 0xff
  {
    hide Bytes;
    SliceStands(Bytes(item), 0, |Bytes(item)|);
    assert Bytes(item)[0..|Bytes(item)|] == Bytes(item);
    FirstByte(Bytes(item), 0, item);
  }

  lemma {:induction false} CutPair(v: Text, idx: nat, p: Pair)
    requires IsPair(p) && CutOff(v, idx, BytesOfPair(p))
    ensures IsCut(DecodedMember(v, idx))
    ensures idx < |v| ==> v[idx] != 0xff
    decreases p, 1
  {
    hide At, Bytes, Decoded, IsItem, Meaning, CutOff;
    CutParts(v, idx, Bytes(p.key), Bytes(p.value));
    if CutOff(v, idx, Bytes(p.key)) {
      CutItem(v, idx, p.key);
      FirstOfCut(v, idx, p.key);
    } else {
      FirstByte(v, idx, p.key);
      ItemIsDecoded(v, idx, p.key);
      TextMeaning(p.key);
      CutItem(v, idx + |Bytes(p.key)|, p.value);
    }
  }

  lemma {:induction false} CutPairs(v: Text, idx: nat, pairs: seq<Pair>, ms: seq<Member>)
    requires ArePairs(pairs) && CutOff(v, idx, BytesOfPairs(pairs))
    ensures IsCut(DecodedPairs(v, idx, |pairs|, ms))
    decreases pairs, 1
  {
    hide At, BytesOfPair, IsPair, DecodedMember, Put, Meaning;
    var first, rest := BytesOfPair(pairs[0]), BytesOfPairs(pairs[1..]);
    CutParts(v, idx, first, rest);
    if CutOff(v, idx, first) {
      CutPair(v, idx, pairs[0]);
    } else {
      PairIsDecoded(v, idx, pairs[0]);
      CutPairs(v, idx + |first|, pairs[1..], WithEntry(ms, pairs[0]));
    }
  }

  lemma {:induction false} CutPairsToBreak(v: Text, idx: nat, pairs: seq<Pair>, ms: seq<Member>)
    requires ArePairs(pairs) && CutOff(v, idx, BytesOfPairs(pairs) + [0xff])
    ensures IsCut(DecodedPairsToBreak(v, idx, ms))
    decreases pairs, 1
  {
    hide At, BytesOfPair, IsPair, DecodedMember, Put, Meaning;
    if pairs == [] {
      assert BytesOfPairs(pairs) + [0xff] == [0xff];
      NothingCut(v, idx);
    } else {
      var first, rest := BytesOfPair(pairs[0]), BytesOfPairs(pairs[1..]);
      ConcatAssociative(first, rest, [0xff]);
      CutParts(v, idx, first, rest + [0xff]);
      if CutOff(v, idx, first) {
        CutPair(v, idx, pairs[0]);
      } else {
        PairIsDecoded(v, idx, pairs[0]);
        CutPairsToBreak(v, idx + |first|, pairs[1..], WithEntry(ms, pairs[0]));
      }
    }
  }

  lemma {:induction false} CutChunks(v: Text, idx: nat, chunks: seq<Item>, s: Text)
    requires AreItems(chunks) && (forall i | 0 <= i < |chunks| :: IsText(chunks[i]))
    requires CutOff(v, idx, BytesOfItems(chunks) + [0xff])
    ensures IsCut(DecodedChunks(v, idx, s))
    decreases chunks, 1
  {
    hide At, Bytes, Decoded, IsItem, Characters, Meaning;
    if chunks == [] {
      assert BytesOfItems(chunks) + [0xff] == [0xff];
      NothingCut(v, idx);
    } else {
      var first, rest := Bytes(chunks[0]), BytesOfItems(chunks[1..]);
      ConcatAssociative(first, rest, [0xff]);
      CutParts(v, idx, first, rest + [0xff]);
      if CutOff(v, idx, first) {
        CutItem(v, idx, chunks[0]);
        FirstOfCut(v, idx, chunks[0]);
      } else {
        FirstByte(v, idx, chunks[0]);
        ItemIsDecoded(v, idx, chunks[0]);
        TextMeaning(chunks[0]);
        CutChunks(v, idx + |first|, chunks[1..], s + Characters(chunks[0]));
      }
    }
  }
}
