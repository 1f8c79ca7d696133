// What the CBOR codec is for: decoding undoes encoding wherever the encoding stands, no encoding is a proper
// prefix of another one, a decoded value depends on its own bytes only, and values of indefinite length
// (sections 2.2.1 and 2.2.2 of RFC 7049) mean the same as those of definite length.

module CborLaws {
  import opened ByteStrings
  import opened JsonValue
  import opened BinaryFormat
  import opened Cbor
  import opened CborFormat

  //////// Round trip ////////

  /** Wherever the encoding of a value stands, the decoder reads that value and stops right behind it. */
  lemma DecodeEncoded(v: Text, idx: nat, j: Json)
    requires Ordered(j) && Fits(j) && At(v, idx, Encoded(j))
    ensures Decoded(v, idx) == Ok((Unsign(j), idx + |Encoded(j)|))
  {
    EncodesShortestItem(j);
    ItemMeansValue(j);
    ItemIsDecoded(v, idx, ItemOf(j));
  }

  /** from_cbor at |front| in front + to_cbor(j) + back gives a value == j and stops before back. */
  lemma CborRoundTrip(front: Text, j: Json, back: Text)
    requires Ordered(j) && Fits(j)
    ensures Decoded(front + Encoded(j) + back, |front|) == Ok((Unsign(j), |front + Encoded(j)|))
    ensures Eq(Unsign(j), j)
  {
    AtMiddle(front, Encoded(j), back);
    DecodeEncoded(front + Encoded(j) + back, |front|, j);
    UnsignIsEqual(j);
  }

  /** An encoding that begins with another one is the same, and so is the value by operator==. */
  lemma NoEncodingExtendsAnother(a: Json, b: Json)
    requires Ordered(a) && Fits(a) && Ordered(b) && Fits(b) && Encoded(a) <= Encoded(b)
    ensures Encoded(a) == Encoded(b) && Eq(a, b)
  {
    ReadsAs(a, Encoded(b));
    ReadsAs(b, Encoded(b));
    UnsignIsEqual(a);
    UnsignIsEqual(b);
    EqSymmetric(Unsign(a), a);
    EqTransitive(a, Unsign(a), b);
  }

  lemma ReadsAs(a: Json, v: Text)
    requires Ordered(a) && Fits(a) && Encoded(a) <= v
    ensures Decoded(v, 0) == Ok((Unsign(a), |Encoded(a)|))
  {
    assert At(v, 0, Encoded(a));
    DecodeEncoded(v, 0, a);
  }

  //////// Negative numbers ////////

  /** A negative number -1 - n is read as that number exactly if it fits into int64_t. Beyond, it wraps around and comes
      out as a non-negative one. */
  lemma NegativeIsRead(v: Text, idx: nat, w: nat, n: nat)
    requires IsArgument(w, n) && At(v, idx, Initial(1, w, n))
    ensures Decoded(v, idx).Ok? && Decoded(v, idx).value.0.Int?
    ensures Decoded(v, idx).value.0.i == -1 - n <==> n < 0x8000_0000_0000_0000
    ensures n >= 0x8000_0000_0000_0000 ==> Decoded(v, idx).value.0.i >= 0
  {
    hide Decoded, Initial, IsArgument;
    NumberIsDecoded(v, idx, true, w, n);
  }

  //////// Locality ////////

  /** A decoded value depends only on its own bytes: any vector with the same bytes at any place gives the
      same value there, whatever stands around them. */
  lemma DecodedIsLocal(v: Text, i: nat, w: Text, d: int)
    requires Covers(v, i, Decoded(v, i), w, d)
    ensures Shifted(Decoded(v, i), Decoded(w, i + d), d)
  {
    hide Decoded, Bytes, IsItem, Meaning;
    var item := DecodedItem(v, i);
    AtElsewhere(v, i, w, d, Bytes(item));
    ItemIsDecoded(w, i + d, item);
  }

  /** Cutting the vector behind the value, or putting other bytes there, changes nothing. */
  lemma CborIgnoresWhatFollows(v: Text, i: nat, back: Text)
    requires Decoded(v, i).Ok?
    ensures var k := Decoded(v, i).value.1; i < k <= |v| && Decoded(v[..k] + back, i) == Decoded(v, i)
  {
    DecodedIsLocal(v, i, v[..Decoded(v, i).value.1] + back, 0);
  }

  //////// Indefinite lengths ////////

  lemma WholeItem(item: Item)
    requires IsItem(item)
    ensures Decoded(Bytes(item), 0) == Ok((Meaning(item), |Bytes(item)|))
  {
    assert At(Bytes(item), 0, Bytes(item));
    ItemIsDecoded(Bytes(item), 0, item);
  }

  /** An array of indefinite length is the array of definite length with the same items. */
  lemma IndefiniteArray(w: nat, items: seq<Item>)
    requires AreItems(items) && IsArgument(w, |items|)
    ensures Decoded(Initial(4, w, |items|) + BytesOfItems(items), 0).Ok?
    ensures Decoded([0x9f] + BytesOfItems(items) + [0xff], 0).Ok?
    ensures Decoded([0x9f] + BytesOfItems(items) + [0xff], 0).value.0
            == Decoded(Initial(4, w, |items|) + BytesOfItems(items), 0).value.0
  {
    hide Decoded;
    WholeItem(List(w, items));
    WholeItem(OpenList(items));
  }

  /** A map of indefinite length is the map of definite length with the same entries. */
  lemma IndefiniteMap(w: nat, pairs: seq<Pair>)
    requires ArePairs(pairs) && IsArgument(w, |pairs|)
    ensures Decoded(Initial(5, w, |pairs|) + BytesOfPairs(pairs), 0).Ok?
    ensures Decoded([0xbf] + BytesOfPairs(pairs) + [0xff], 0).Ok?
    ensures Decoded([0xbf] + BytesOfPairs(pairs) + [0xff], 0).value.0
            == Decoded(Initial(5, w, |pairs|) + BytesOfPairs(pairs), 0).value.0
  {
    hide Decoded;
    WholeItem(Table(w, pairs));
    WholeItem(OpenTable(pairs));
  }

  /** A chunked string, whose chunks may be chunked again, is the string of all chunks. */
  lemma IndefiniteText(w: nat, chunks: seq<Item>)
    requires IsItem(Chunks(chunks)) && IsArgument(w, |AllCharacters(chunks)|)
    ensures Decoded(Initial(3, w, |AllCharacters(chunks)|) + AllCharacters(chunks), 0).Ok?
    ensures Decoded([0x7f] + BytesOfItems(chunks) + [0xff], 0).Ok?
    ensures Decoded([0x7f] + BytesOfItems(chunks) + [0xff], 0).value.0
            == Decoded(Initial(3, w, |AllCharacters(chunks)|) + AllCharacters(chunks), 0).value.0
  {
    hide Decoded;
    WholeItem(Chunks(chunks));
    WholeItem(Chars(w, AllCharacters(chunks)));
  }
}
