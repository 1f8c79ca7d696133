// The CBOR encoder and decoder (RFC 7049), without floating-point numbers.

module Cbor {
  import opened ByteStrings
  import opened JsonValue
  import opened BinaryFormat

  //////// Encoding ////////

  // The major types of section 2.1 of RFC 7049, as the initial byte holds them.
  const UNSIGNED: byte := 0x00
  const NEGATIVE: byte := 0x20
  const TEXT: byte := 0x60
  const ARRAY: byte := 0x80
  const MAP: byte := 0xa0
  const BREAK: byte := 0xff

  predicate MajorType(major: byte) {
    major in {UNSIGNED, NEGATIVE, TEXT, ARRAY, MAP}
  }

  /** The initial byte and the length bytes for a number n. */
  function Head(major: byte, n: nat): (h: Text)
    requires MajorType(major)
    ensures h != []
  {
    if n <= 0x17 then [major + n]
    else if n <= 0xff then [major + 0x18] + BigEndian(1, n)
    else if n <= 0xffff then [major + 0x19] + BigEndian(2, n)
    else if n <= 0xffff_ffff then [major + 0x1a] + BigEndian(4, n)
    else [major + 0x1b] + BigEndian(8, n)
  }

  /** The encoding of a value. */
  function Encoded(j: Json): (bs: Text)
    ensures bs != []
  {
    match j
    case Null => [0xf6]
    case Bool(b) => if b then [0xf5] else [0xf4]
    case Int(i) => if i >= 0 then Head(UNSIGNED, i) else Head(NEGATIVE, -1 - i)
    case Uint(u) => Head(UNSIGNED, u)
    case Str(s) => Head(TEXT, |s|) + s
    case Arr(es) => Head(ARRAY, |es|) + EncodedSeq(es)
    case Obj(ms) => Head(MAP, |ms|) + EncodedMembers(ms)
  }

  function EncodedSeq(es: seq<Json>): Text {
    if es == [] then [] else Encoded(es[0]) + EncodedSeq(es[1..])
  }

  function EncodedKey(key: Text): Text {
    Head(TEXT, |key|) + key
  }

  function EncodedMember(m: Member): Text {
    EncodedKey(m.key) + Encoded(m.value)
  }

  function EncodedMembers(ms: seq<Member>): Text {
    if ms == [] then [] else EncodedMember(ms[0]) + EncodedMembers(ms[1..])
  }

  lemma {:induction false} EncodedSeqSnoc(es: seq<Json>, e: Json)
    ensures EncodedSeq(es + [e]) == EncodedSeq(es) + Encoded(e)
  {
    if es == [] {
      assert es + [e] == [e];
      assert EncodedSeq([e]) == Encoded(e) + EncodedSeq([]);
    } else {
      assert (es + [e])[1..] == es[1..] + [e];
      EncodedSeqSnoc(es[1..], e);
      ConcatAssociative(Encoded(es[0]), EncodedSeq(es[1..]), Encoded(e));
    }
  }

  lemma {:induction false} EncodedMembersSnoc(ms: seq<Member>, m: Member)
    ensures EncodedMembers(ms + [m]) == EncodedMembers(ms) + EncodedMember(m)
  {
    if ms == [] {
      assert ms + [m] == [m];
      assert EncodedMembers([m]) == EncodedMember(m) + EncodedMembers([]);
    } else {
      assert (ms + [m])[1..] == ms[1..] + [m];
      EncodedMembersSnoc(ms[1..], m);
      ConcatAssociative(EncodedMember(ms[0]), EncodedMembers(ms[1..]), EncodedMember(m));
    }
  }

  /** The head of a value, as each case of to_cbor_internal writes it. */
  method AddHead(v: ByteVector, major: byte, n: nat)
    requires MajorType(major) && n <= 0xffff_ffff_ffff_ffff
    modifies v
    ensures v.data == old(v.data) + Head(major, n)
  {
    Capacities();
    if n <= 0x17 {
      v.PushBack(major + n);
    } else if n <= 0xff {
      AddWithLead(v, major + 0x18, 1, n);
    } else if n <= 0xffff {
      AddWithLead(v, major + 0x19, 2, n);
    } else if n <= 0xffff_ffff {
      AddWithLead(v, major + 0x1a, 4, n);
    } else {
      AddWithLead(v, major + 0x1b, 8, n);
    }
  }

  /** to_cbor_internal */
  method ToCborInternal(j: Json, v: ByteVector)
    requires Fits(j)
    modifies v
    ensures v.data == old(v.data) + Encoded(j)
    decreases j
  {
    ghost var before := v.data;
    match j {
      case Null => v.PushBack(0xf6);
      case Bool(b) => v.PushBack(if b then 0xf5 else 0xf4);
      case Int(i) =>
        if i >= 0 {
          AddHead(v, UNSIGNED, i);
        } else {
          var positiveNumber := -1 - i;
          AddHead(v, NEGATIVE, positiveNumber);
        }
      case Uint(u) => AddHead(v, UNSIGNED, u);
      case Str(s) =>
        AddHead(v, TEXT, |s|);
        v.Append(s);
        ConcatAssociative(before, Head(TEXT, |s|), s);
      case Arr(es) =>
        AddHead(v, ARRAY, |es|);
        AppendElements(es, v);
        ConcatAssociative(before, Head(ARRAY, |es|), EncodedSeq(es));
      case Obj(ms) =>
        AddHead(v, MAP, |ms|);
        AppendMembers(ms, v);
        ConcatAssociative(before, Head(MAP, |ms|), EncodedMembers(ms));
    }
  }

  /** "append each element" for arrays. */
  method AppendElements(es: seq<Json>, v: ByteVector)
    requires forall i | 0 <= i < |es| :: Fits(es[i])
    modifies v
    ensures v.data == old(v.data) + EncodedSeq(es)
    decreases es
  {
    ghost var before := v.data;
    for i := 0 to |es|
      invariant v.data == before + EncodedSeq(es[..i])
    {
      ToCborInternal(es[i], v);
      EncodedSeqSnoc(es[..i], es[i]);
      assert es[..i + 1] == es[..i] + [es[i]];
      ConcatAssociative(before, EncodedSeq(es[..i]), Encoded(es[i]));
    }
    assert es[..|es|] == es;
  }

  /** "append each element" for objects. */
  method AppendMembers(ms: seq<Member>, v: ByteVector)
    requires forall i | 0 <= i < |ms| :: |ms[i].key| <= MAX_SIZE && Fits(ms[i].value)
    modifies v
    ensures v.data == old(v.data) + EncodedMembers(ms)
    decreases ms
  {
    ghost var before := v.data;
    for i := 0 to |ms|
      invariant v.data == before + EncodedMembers(ms[..i])
    {
      ghost var done := v.data;
      AddHead(v, TEXT, |ms[i].key|);
      v.Append(ms[i].key);
      ConcatAssociative(done, Head(TEXT, |ms[i].key|), ms[i].key);
      ToCborInternal(ms[i].value, v);
      ConcatAssociative(done, EncodedKey(ms[i].key), Encoded(ms[i].value));
      EncodedMembersSnoc(ms[..i], ms[i]);
      assert ms[..i + 1] == ms[..i] + [ms[i]];
      ConcatAssociative(before, EncodedMembers(ms[..i]), EncodedMember(ms[i]));
    }
    assert ms[..|ms|] == ms;
  }

  //////// Decoding ////////

  /** How many length bytes follow an initial byte with these low five bits. */
  function Width(low: nat): (k: nat)
    requires 0x18 <= low <= 0x1b
    ensures k in {1, 2, 4, 8}
  {
    if low == 0x18 then 1 else if low == 0x19 then 2 else if low == 0x1a then 4 else 8
  }

  /** The number in an initial byte and its length bytes, and where what follows begins. */
  function Count(v: Text, idx: nat): (r: Result<(uint64, nat)>)
    requires idx < |v| && v[idx] % 0x20 <= 0x1b
    ensures r.Ok? ==> idx < r.value.1 <= |v|
  {
    var low := v[idx] % 0x20;
    if low <= 0x17 then Ok((low, idx + 1))
    else
      Capacities();
      var bs :- GetFromVector(v, idx, Width(low));
      CapacityMonotonic(Width(low));
      Ok((Unsigned(bs), idx + 1 + Width(low)))
  }

  lemma CapacityMonotonic(k: nat)
    requires k in {1, 2, 4, 8}
    ensures Capacity(k) <= 0x1_0000_0000_0000_0000
  {
    Capacities();
  }

  /** static_cast<number_integer_t>(-1) - static_cast<number_integer_t>(n), which does not overflow. */
  function Negated(n: uint64): int64 {
    -1 - ToSigned(n)
  }

  /** The initial bytes that carry a number: a value or a length. */
  predicate IsCounted(b: byte) {
    MajorType(b - b % 0x20) && b % 0x20 <= 0x1b
  }

  /** from_cbor_internal: the value that starts at idx and the index behind it. */
  function Decoded(v: Text, idx: nat): (r: Result<(Json, nat)>)
    ensures r.Ok? ==> idx < r.value.1 <= |v|
    decreases |v| - idx, 0
  {
    if idx >= |v| then Err(OutOfRange)
    else if IsCounted(v[idx]) then
      var (n, start) :- Count(v, idx);
      DecodedCounted(v, v[idx] - v[idx] % 0x20, n, start)
    else DecodedUncounted(v, v[idx], idx + 1)
  }

  /** A value whose initial byte and length bytes have been read. */
  function DecodedCounted(v: Text, major: byte, n: uint64, start: nat): (r: Result<(Json, nat)>)
    requires start <= |v|
    ensures r.Ok? ==> start <= r.value.1 <= |v|
    decreases |v| - start, 5
  {
    if major == UNSIGNED then Ok((Uint(n), start))
    else if major == NEGATIVE then Ok((Int(Negated(n)), start))
    else if major == TEXT then
      var s :- TextAt(v, start, n);
      Ok((Str(s), start + n))
    else if major == ARRAY then DecodedItems(v, start, n, [])
    else DecodedPairs(v, start, n, [])
  }

  /** A value of indefinite length, or a simple one. */
  function DecodedUncounted(v: Text, b: byte, start: nat): (r: Result<(Json, nat)>)
    requires start <= |v|
    ensures r.Ok? ==> start <= r.value.1 <= |v|
    decreases |v| - start, 5
  {
    if b == TEXT + 0x1f then DecodedChunks(v, start, [])
    else if b == ARRAY + 0x1f then DecodedItemsToBreak(v, start, [])
    else if b == MAP + 0x1f then DecodedPairsToBreak(v, start, [])
    else if b == 0xf4 then Ok((Bool(false), start))
    else if b == 0xf5 then Ok((Bool(true), start))
    else if b == 0xf6 then Ok((Null, start))
    else if b in {0xf9, 0xfa, 0xfb} then Err(Unmodelled)
    else Err(InvalidArgument)
  }

  /** n more elements of an array. */
  function DecodedItems(v: Text, idx: nat, n: nat, es: seq<Json>): (r: Result<(Json, nat)>)
    requires idx <= |v|
    ensures r.Ok? ==> idx <= r.value.1 <= |v|
    decreases |v| - idx, 1
  {
    if n == 0 then Ok((Arr(es), idx))
    else
      var (e, next) :- Decoded(v, idx);
      DecodedItems(v, next, n - 1, es + [e])
  }

  /** The implicit conversion of a decoded key to std::string. */
  function DecodedKey(v: Text, idx: nat): (r: Result<(Text, nat)>)
    ensures r.Ok? ==> idx < r.value.1 <= |v|
    decreases |v| - idx, 1
  {
    var (key, next) :- Decoded(v, idx);
    if key.Str? then Ok((key.s, next)) else Err(DomainError)
  }

  /** A key and its value. */
  function DecodedMember(v: Text, idx: nat): (r: Result<(Member, nat)>)
    ensures r.Ok? ==> idx < r.value.1 <= |v|
    decreases |v| - idx, 2
  {
    var (key, behind) :- DecodedKey(v, idx);
    var (value, next) :- Decoded(v, behind);
    Ok((Member(key, value), next))
  }

  /** n more entries of an object; a repeated key overwrites. */
  function DecodedPairs(v: Text, idx: nat, n: nat, ms: seq<Member>): (r: Result<(Json, nat)>)
    requires idx <= |v|
    ensures r.Ok? ==> idx <= r.value.1 <= |v|
    decreases |v| - idx, 3
  {
    if n == 0 then Ok((Obj(ms), idx))
    else
      var (m, next) :- DecodedMember(v, idx);
      DecodedPairs(v, next, n - 1, Put(ms, m.key, m.value))
  }

  /** Elements up to the break byte. */
  function DecodedItemsToBreak(v: Text, idx: nat, es: seq<Json>): (r: Result<(Json, nat)>)
    requires idx <= |v|
    ensures r.Ok? ==> idx < r.value.1 <= |v|
    decreases |v| - idx, 1
  {
    if idx >= |v| then Err(OutOfRange)
    else if v[idx] == BREAK then Ok((Arr(es), idx + 1))
    else
      var (e, next) :- Decoded(v, idx);
      DecodedItemsToBreak(v, next, es + [e])
  }

  /** Entries up to the break byte. */
  function DecodedPairsToBreak(v: Text, idx: nat, ms: seq<Member>): (r: Result<(Json, nat)>)
    requires idx <= |v|
    ensures r.Ok? ==> idx < r.value.1 <= |v|
    decreases |v| - idx, 3
  {
    if idx >= |v| then Err(OutOfRange)
    else if v[idx] == BREAK then Ok((Obj(ms), idx + 1))
    else
      var (m, next) :- DecodedMember(v, idx);
      DecodedPairsToBreak(v, next, Put(ms, m.key, m.value))
  }

  /** String chunks up to the break byte. */
  function DecodedChunks(v: Text, idx: nat, s: Text): (r: Result<(Json, nat)>)
    requires idx <= |v|
    ensures r.Ok? ==> idx < r.value.1 <= |v|
    decreases |v| - idx, 3
  {
    if idx >= |v| then Err(OutOfRange)
    else if v[idx] == BREAK then Ok((Str(s), idx + 1))
    else
      var (chunk, next) :- DecodedKey(v, idx);
      DecodedChunks(v, next, s + chunk)
  }
}
