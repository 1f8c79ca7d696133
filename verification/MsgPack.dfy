// The MessagePack encoder and decoder, without floating-point numbers.

module MsgPack {
  import opened ByteStrings
  import opened JsonValue
  import opened BinaryFormat

  //////// Encoding ////////

  datatype Kind = TextKind | ArrayKind | MapKind

  /** The bytes in front of a string, array or map of size n. Beyond 32 bits, none is written. */
  function Head(kind: Kind, n: nat): Text {
    match kind
    case TextKind =>
      if n <= 31 then [0xa0 + n]
      else if n <= 0xff then [0xd9] + BigEndian(1, n)
      else if n <= 0xffff then [0xda] + BigEndian(2, n)
      else if n <= 0xffff_ffff then [0xdb] + BigEndian(4, n)
      else []
    case ArrayKind =>
      if n <= 15 then [0x90 + n]
      else if n <= 0xffff then [0xdc] + BigEndian(2, n)
      else if n <= 0xffff_ffff then [0xdd] + BigEndian(4, n)
      else []
    case MapKind =>
      if n <= 15 then [0x80 + n]
      else if n <= 0xffff then [0xde] + BigEndian(2, n)
      else if n <= 0xffff_ffff then [0xdf] + BigEndian(4, n)
      else []
  }

  function EncodedUnsigned(n: uint64): Text {
    if n < 128 then [n]
    else if n <= 0xff then [0xcc] + BigEndian(1, n)
    else if n <= 0xffff then [0xcd] + BigEndian(2, n)
    else if n <= 0xffff_ffff then [0xce] + BigEndian(4, n)
    else [0xcf] + BigEndian(8, n)
  }

  function EncodedNegative(i: int64): Text
    requires i < 0
  {
    if i >= -32 then [0x100 + i]
    else if i >= -0x80 then [0xd0] + BigEndian(1, i % Capacity(1))
    else if i >= -0x8000 then [0xd1] + BigEndian(2, i % Capacity(2))
    else if i >= -0x8000_0000 then [0xd2] + BigEndian(4, i % Capacity(4))
    else [0xd3] + BigEndian(8, i % Capacity(8))
  }

  /** The encoding of a value. */
  function Encoded(j: Json): Text {
    match j
    case Null => [0xc0]
    case Bool(b) => if b then [0xc3] else [0xc2]
    case Int(i) => if i >= 0 then EncodedUnsigned(i) else EncodedNegative(i)
    case Uint(u) => EncodedUnsigned(u)
    case Str(s) => EncodedKey(s)
    case Arr(es) => Head(ArrayKind, |es|) + EncodedSeq(es)
    case Obj(ms) => Head(MapKind, |ms|) + EncodedMembers(ms)
  }

  function EncodedKey(key: Text): Text {
    Head(TextKind, |key|) + key
  }

  function EncodedSeq(es: seq<Json>): Text {
    if es == [] then [] else Encoded(es[0]) + EncodedSeq(es[1..])
  }

  function EncodedMember(m: Member): Text {
    EncodedKey(m.key) + Encoded(m.value)
  }

  function EncodedMembers(ms: seq<Member>): Text {
    if ms == [] then [] else EncodedMember(ms[0]) + EncodedMembers(ms[1..])
  }

  lemma {:induction false} EncodedSeqSnoc(es: seq<Json>, e: Json)
    ensures EncodedSeq(es + [e]) == EncodedSeq(es) + Encoded(e)
  {
    if es == [] {
      assert es + [e] == [e];
      assert EncodedSeq([e]) == Encoded(e) + EncodedSeq([]);
    } else {
      assert (es + [e])[1..] == es[1..] + [e];
      EncodedSeqSnoc(es[1..], e);
      ConcatAssociative(Encoded(es[0]), EncodedSeq(es[1..]), Encoded(e));
    }
  }

  lemma {:induction false} EncodedMembersSnoc(ms: seq<Member>, m: Member)
    ensures EncodedMembers(ms + [m]) == EncodedMembers(ms) + EncodedMember(m)
  {
    if ms == [] {
      assert ms + [m] == [m];
      assert EncodedMembers([m]) == EncodedMember(m) + EncodedMembers([]);
    } else {
      assert (ms + [m])[1..] == ms[1..] + [m];
      EncodedMembersSnoc(ms[1..], m);
      ConcatAssociative(EncodedMember(ms[0]), EncodedMembers(ms[1..]), EncodedMember(m));
    }
  }

  /** The cases for a non-negative number, which to_msgpack_internal has twice. */
  method AddUnsigned(v: ByteVector, n: uint64)
    modifies v
    ensures v.data == old(v.data) + EncodedUnsigned(n)
  {
    Capacities();
    if n < 128 {
      v.PushBack(n);
    } else if n <= 0xff {
      AddWithLead(v, 0xcc, 1, n);
    } else if n <= 0xffff {
      AddWithLead(v, 0xcd, 2, n);
    } else if n <= 0xffff_ffff {
      AddWithLead(v, 0xce, 4, n);
    } else {
      AddWithLead(v, 0xcf, 8, n);
    }
  }

  method AddNegative(v: ByteVector, i: int64)
    requires i < 0
    modifies v
    ensures v.data == old(v.data) + EncodedNegative(i)
  {
    if i >= -32 {
      v.PushBack(0x100 + i);
    } else if i >= -0x80 {
      AddWithLead(v, 0xd0, 1, i);
    } else if i >= -0x8000 {
      AddWithLead(v, 0xd1, 2, i);
    } else if i >= -0x8000_0000 {
      AddWithLead(v, 0xd2, 4, i);
    } else {
      AddWithLead(v, 0xd3, 8, i);
    }
  }

  method AddHead(v: ByteVector, kind: Kind, n: nat)
    modifies v
    ensures v.data == old(v.data) + Head(kind, n)
  {
    Capacities();
    var small := if kind == TextKind then 31 else 15;
    if n <= small {
      v.PushBack((match kind case TextKind => 0xa0 case ArrayKind => 0x90 case MapKind => 0x80) + n);
    } else if n <= 0xff && kind == TextKind {
      AddWithLead(v, 0xd9, 1, n);
    } else if n <= 0xffff {
      AddWithLead(v, match kind case TextKind => 0xda case ArrayKind => 0xdc case MapKind => 0xde, 2, n);
    } else if n <= 0xffff_ffff {
      AddWithLead(v, match kind case TextKind => 0xdb case ArrayKind => 0xdd case MapKind => 0xdf, 4, n);
    } else {
      assert v.data == v.data + [];
    }
  }

  /** to_msgpack_internal */
  method ToMsgPackInternal(j: Json, v: ByteVector)
    modifies v
    ensures v.data == old(v.data) + Encoded(j)
    decreases j
  {
    ghost var before := v.data;
    match j {
      case Null => v.PushBack(0xc0);
      case Bool(b) => v.PushBack(if b then 0xc3 else 0xc2);
      case Int(i) =>
        if i >= 0 {
          AddUnsigned(v, i);
        } else {
          AddNegative(v, i);
        }
      case Uint(u) => AddUnsigned(v, u);
      case Str(s) =>
        AddHead(v, TextKind, |s|);
        v.Append(s);
        ConcatAssociative(before, Head(TextKind, |s|), s);
      case Arr(es) =>
        AddHead(v, ArrayKind, |es|);
        AppendElements(es, v);
        ConcatAssociative(before, Head(ArrayKind, |es|), EncodedSeq(es));
      case Obj(ms) =>
        AddHead(v, MapKind, |ms|);
        AppendMembers(ms, v);
        ConcatAssociative(before, Head(MapKind, |ms|), EncodedMembers(ms));
    }
  }

  /** "append each element" for arrays. */
  method AppendElements(es: seq<Json>, v: ByteVector)
    modifies v
    ensures v.data == old(v.data) + EncodedSeq(es)
    decreases es
  {
    ghost var before := v.data;
    for i := 0 to |es|
      invariant v.data == before + EncodedSeq(es[..i])
    {
      ToMsgPackInternal(es[i], v);
      EncodedSeqSnoc(es[..i], es[i]);
      assert es[..i + 1] == es[..i] + [es[i]];
      ConcatAssociative(before, EncodedSeq(es[..i]), Encoded(es[i]));
    }
    assert es[..|es|] == es;
  }

  /** "append each element" for objects. */
  method AppendMembers(ms: seq<Member>, v: ByteVector)
    modifies v
    ensures v.data == old(v.data) + EncodedMembers(ms)
    decreases ms
  {
    ghost var before := v.data;
    for i := 0 to |ms|
      invariant v.data == before + EncodedMembers(ms[..i])
    {
      ghost var done := v.data;
      AddHead(v, TextKind, |ms[i].key|);
      v.Append(ms[i].key);
      ConcatAssociative(done, Head(TextKind, |ms[i].key|), ms[i].key);
      ToMsgPackInternal(ms[i].value, v);
      ConcatAssociative(done, EncodedKey(ms[i].key), Encoded(ms[i].value));
      EncodedMembersSnoc(ms[..i], ms[i]);
      assert ms[..i + 1] == ms[..i] + [ms[i]];
      ConcatAssociative(before, EncodedMembers(ms[..i]), EncodedMember(ms[i]));
    }
    assert ms[..|ms|] == ms;
  }

  //////// Decoding ////////

  /** What the first byte says: a whole value, a number of k bytes, something of a size that the byte itself or
      the next k bytes give. */
  datatype Format =
    | Whole(j: Json)
    | UnsignedOf(k: nat)
    | SignedOf(k: nat)
    | Fixed(kind: Kind, n: nat)
    | Sized(kind: Kind, k: nat)
    | FloatingPoint
    | Unknown

  function FormatOf(b: byte): (f: Format)
    ensures f.UnsignedOf? || f.SignedOf? || f.Sized? ==> f.k in {1, 2, 4, 8}
    ensures f.Sized? ==> f.k <= 4
  {
    if b <= 0x7f then Whole(Uint(b))
    else if b <= 0x8f then Fixed(MapKind, b - 0x80)
    else if b <= 0x9f then Fixed(ArrayKind, b - 0x90)
    else if b <= 0xbf then Fixed(TextKind, b - 0xa0)
    else if b >= 0xe0 then Whole(Int(b - 0x100))
    else if b == 0xc0 then Whole(Null)
    else if b == 0xc2 then Whole(Bool(false))
    else if b == 0xc3 then Whole(Bool(true))
    else if b in {0xca, 0xcb} then FloatingPoint
    else if b == 0xcc then UnsignedOf(1)
    else if b == 0xcd then UnsignedOf(2)
    else if b == 0xce then UnsignedOf(4)
    else if b == 0xcf then UnsignedOf(8)
    else if b == 0xd0 then SignedOf(1)
    else if b == 0xd1 then SignedOf(2)
    else if b == 0xd2 then SignedOf(4)
    else if b == 0xd3 then SignedOf(8)
    else if b == 0xd9 then Sized(TextKind, 1)
    else if b == 0xda then Sized(TextKind, 2)
    else if b == 0xdb then Sized(TextKind, 4)
    else if b == 0xdc then Sized(ArrayKind, 2)
    else if b == 0xdd then Sized(ArrayKind, 4)
    else if b == 0xde then Sized(MapKind, 2)
    else if b == 0xdf then Sized(MapKind, 4)
    else Unknown
  }

  lemma NumbersFit(bs: Text)
    requires |bs| in {1, 2, 4, 8}
    ensures Unsigned(bs) < 0x1_0000_0000_0000_0000
    ensures -0x8000_0000_0000_0000 <= Signed(bs) < 0x8000_0000_0000_0000
  {
    Capacities();
  }

  /** A number of k bytes behind idx. */
  function DecodedNumber(v: Text, idx: nat, f: Format): (r: Result<(Json, nat)>)
    requires idx < |v| && (f.UnsignedOf? || f.SignedOf?) && f.k in {1, 2, 4, 8}
    ensures r.Ok? ==> idx < r.value.1 <= |v|
  {
    var bs :- GetFromVector(v, idx, f.k);
    NumbersFit(bs);
    Ok((if f.UnsignedOf? then Uint(Unsigned(bs)) else Int(Signed(bs)), idx + 1 + f.k))
  }

  /** from_msgpack_internal: the value that starts at idx and the index behind it. */
  function Decoded(v: Text, idx: nat): (r: Result<(Json, nat)>)
    ensures r.Ok? ==> idx < r.value.1 <= |v|
    decreases |v| - idx, 0
  {
    if idx >= |v| then Err(OutOfRange)
    else match FormatOf(v[idx])
      case Whole(j) => Ok((j, idx + 1))
      case UnsignedOf(_) => DecodedNumber(v, idx, FormatOf(v[idx]))
      case SignedOf(_) => DecodedNumber(v, idx, FormatOf(v[idx]))
      case Fixed(kind, n) => DecodedBody(v, kind, n, idx + 1)
      case Sized(kind, k) =>
        var bs :- GetFromVector(v, idx, k);
        DecodedBody(v, kind, Unsigned(bs), idx + 1 + k)
      case FloatingPoint => Err(Unmodelled)
      case Unknown => Err(InvalidArgument)
  }

  /** The content of a string, array or map of size n. */
  function DecodedBody(v: Text, kind: Kind, n: nat, start: nat): (r: Result<(Json, nat)>)
    requires start <= |v|
    ensures r.Ok? ==> start <= r.value.1 <= |v|
    decreases |v| - start, 5
  {
    match kind
    case TextKind =>
      var s :- TextAt(v, start, n);
      Ok((Str(s), start + n))
    case ArrayKind => DecodedItems(v, start, n, [])
    case MapKind => DecodedPairs(v, start, n, [])
  }

  /** n more elements of an array. */
  function DecodedItems(v: Text, idx: nat, n: nat, es: seq<Json>): (r: Result<(Json, nat)>)
    requires idx <= |v|
    ensures r.Ok? ==> idx <= r.value.1 <= |v|
    decreases |v| - idx, 1
  {
    if n == 0 then Ok((Arr(es), idx))
    else
      var (e, next) :- Decoded(v, idx);
      DecodedItems(v, next, n - 1, es + [e])
  }

  /** The implicit conversion of a decoded key to std::string. */
  function DecodedKey(v: Text, idx: nat): (r: Result<(Text, nat)>)
    ensures r.Ok? ==> idx < r.value.1 <= |v|
    decreases |v| - idx, 1
  {
    var (key, next) :- Decoded(v, idx);
    if key.Str? then Ok((key.s, next)) else Err(DomainError)
  }

  /** A key and its value. */
  function DecodedMember(v: Text, idx: nat): (r: Result<(Member, nat)>)
    ensures r.Ok? ==> idx < r.value.1 <= |v|
    decreases |v| - idx, 2
  {
    var (key, behind) :- DecodedKey(v, idx);
    var (value, next) :- Decoded(v, behind);
    Ok((Member(key, value), next))
  }

  /** n more entries of an object; a repeated key overwrites. */
  function DecodedPairs(v: Text, idx: nat, n: nat, ms: seq<Member>): (r: Result<(Json, nat)>)
    requires idx <= |v|
    ensures r.Ok? ==> idx <= r.value.1 <= |v|
    decreases |v| - idx, 3
  {
    if n == 0 then Ok((Obj(ms), idx))
    else
      var (m, next) :- DecodedMember(v, idx);
      DecodedPairs(v, next, n - 1, Put(ms, m.key, m.value))
  }
}
