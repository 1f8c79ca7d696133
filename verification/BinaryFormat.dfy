// What the CBOR and MessagePack codecs share: big-endian integers in byte vectors, bounds checks, and what a
// binary format can tell about a value.

module BinaryFormat {
  import opened ByteStrings
  import opened JsonValue

  /** std::vector<uint8_t>, as the encoders fill it. */
  class ByteVector {
    var data: Text

    constructor ()
      ensures data == []
    {
      data := [];
    }

    method PushBack(b: byte)
      modifies this
      ensures data == old(data) + [b]
    {
      data := data + [b];
    }

    /** std::copy to a back_inserter. */
    method Append(s: Text)
      modifies this
      ensures data == old(data) + s
    {
      data := data + s;
    }
  }

  //////// Big-endian integers ////////

  /** 256 to the power k. */
  function Capacity(k: nat): (c: nat)
    ensures c > 0
  {
    if k == 0 then 1 else 0x100 * Capacity(k - 1)
  }

  lemma Capacities()
    ensures Capacity(1) == 0x100 && Capacity(2) == 0x1_0000 && Capacity(4) == 0x1_0000_0000
    ensures Capacity(8) == 0x1_0000_0000_0000_0000
  {
    assert Capacity(3) == 0x100_0000;
    assert Capacity(5) == 0x100_0000_0000;
    assert Capacity(6) == 0x1_0000_0000_0000;
    assert Capacity(7) == 0x100_0000_0000_0000;
  }

  /** The k bytes of n, most significant first. */
  function BigEndian(k: nat, n: nat): (bs: Text)
    ensures |bs| == k
  {
    if k == 0 then [] else BigEndian(k - 1, n / 0x100) + [n % 0x100]
  }

  /** The number that k bytes hold, most significant first. */
  function Unsigned(bs: Text): (n: nat)
    ensures n < Capacity(|bs|)
  {
    if bs == [] then 0 else 0x100 * Unsigned(bs[..|bs| - 1]) + bs[|bs| - 1]
  }

  lemma {:induction false} UnsignedOfBigEndian(k: nat, n: nat)
    requires n < Capacity(k)
    ensures Unsigned(BigEndian(k, n)) == n
  {
    if k == 0 {
    } else {
      UnsignedOfBigEndian(k - 1, n / 0x100);
      var bs := BigEndian(k, n);
      assert bs[..k - 1] == BigEndian(k - 1, n / 0x100);
    }
  }

  /** And the bytes of the number that bytes denote are those bytes. */
  lemma {:induction false} BigEndianOfUnsigned(bs: Text)
    ensures BigEndian(|bs|, Unsigned(bs)) == bs
  {
    if bs == [] {
    } else {
      BigEndianOfUnsigned(bs[..|bs| - 1]);
      assert bs == bs[..|bs| - 1] + [bs[|bs| - 1]];
    }
  }

  /** What w bytes can hold. */
  predicate IsPlaced(w: nat, n: nat) {
    (w == 1 && n < 0x100) || (w == 2 && n < 0x1_0000) || (w == 4 && n < 0x1_0000_0000) ||
    (w == 8 && n < 0x1_0000_0000_0000_0000)
  }

  /** The same bytes, place by place. */
  function Places(w: nat, n: nat): (bs: Text)
    requires IsPlaced(w, n)
    ensures |bs| == w
  {
    if w == 1 then [n]
    else if w == 2 then [n / 0x100, n % 0x100]
    else if w == 4 then [n / 0x100_0000, n / 0x1_0000 % 0x100, n / 0x100 % 0x100, n % 0x100]
    else
      [n / 0x100_0000_0000_0000, n / 0x1_0000_0000_0000 % 0x100, n / 0x100_0000_0000 % 0x100,
       n / 0x1_0000_0000 % 0x100, n / 0x100_0000 % 0x100, n / 0x1_0000 % 0x100, n / 0x100 % 0x100, n % 0x100]
  }

  lemma PlacesAreBigEndian(w: nat, n: nat)
    requires IsPlaced(w, n)
    ensures BigEndian(w, n) == Places(w, n) && n < Capacity(w)
  {
    Capacities();
    if w == 1 {
      assert BigEndian(1, n) == BigEndian(0, n / 0x100) + [n % 0x100] == [n];
    } else if w == 2 {
      TwoPlaces(n);
    } else if w == 4 {
      FourPlaces(n);
    } else {
      EightPlaces(n);
    }
  }

  lemma TwoPlaces(n: nat)
    requires n < 0x1_0000
    ensures BigEndian(2, n) == Places(2, n)
  {
    assert BigEndian(1, n / 0x100) == BigEndian(0, n / 0x1_0000) + [n / 0x100];
  }

  lemma FourPlaces(n: nat)
    requires n < 0x1_0000_0000
    ensures BigEndian(4, n) == Places(4, n)
  {
    var m := n / 0x1_0000;
    TwoPlaces(m);
    assert BigEndian(3, n / 0x100) == BigEndian(2, n / 0x100 / 0x100) + [n / 0x100 % 0x100];
    assert n / 0x100 / 0x100 == m && m / 0x100 == n / 0x100_0000;
  }

  lemma EightPlaces(n: nat)
    requires n < 0x1_0000_0000_0000_0000
    ensures BigEndian(8, n) == Places(8, n)
  {
    var m := n / 0x1_0000_0000;
    FourPlaces(m);
    assert BigEndian(7, n / 0x100) == BigEndian(6, n / 0x100 / 0x100) + [n / 0x100 % 0x100];
    assert BigEndian(6, n / 0x1_0000) == BigEndian(5, n / 0x1_0000 / 0x100) + [n / 0x1_0000 % 0x100];
    assert BigEndian(5, n / 0x100_0000) == BigEndian(4, n / 0x100_0000 / 0x100) + [n / 0x100_0000 % 0x100];
    assert n / 0x100 / 0x100 == n / 0x1_0000 && n / 0x1_0000 / 0x100 == n / 0x100_0000;
    assert n / 0x100_0000 / 0x100 == m;
    assert m / 0x100_0000 == n / 0x100_0000_0000_0000 && m / 0x1_0000 == n / 0x1_0000_0000_0000;
    assert m / 0x100 == n / 0x100_0000_0000;
  }

  lemma CapacityIsEven(k: nat)
    requires k > 0
    ensures Capacity(k) == Capacity(k) / 2 + Capacity(k) / 2
  {
    assert Capacity(k) == 2 * (0x80 * Capacity(k - 1));
  }

  /** The two's complement reading of k bytes. */
  function Signed(bs: Text): (n: int)
    requires bs != []
    ensures -(Capacity(|bs|) / 2) <= n < Capacity(|bs|) / 2
  {
    CapacityIsEven(|bs|);
    if Unsigned(bs) < Capacity(|bs|) / 2 then Unsigned(bs) else Unsigned(bs) - Capacity(|bs|)
  }

  lemma SignedOfBigEndian(k: nat, n: int)
    requires k > 0 && -(Capacity(k) / 2) <= n < Capacity(k) / 2
    ensures Signed(BigEndian(k, n % Capacity(k))) == n
  {
    var c := Capacity(k);
    Remainder(n, c, if n < 0 then -1 else 0, if n < 0 then n + c else n);
    UnsignedOfBigEndian(k, n % c);
  }

  /** One byte of a number: (number >> 8 * i) & 0xff, with the arithmetic shift of negative numbers. */
  function ByteOf(number: int, i: nat): byte
    decreases i
  {
    if i == 0 then number % 0x100 else ByteOf(number / 0x100, i - 1)
  }

  lemma {:induction false} BytesOfNumber(k: nat, number: int, i: nat)
    requires i < k
    ensures BigEndian(k, number % Capacity(k))[k - 1 - i] == ByteOf(number, i)
  {
    var c := Capacity(k - 1);
    var m := number % Capacity(k);
    DropByte(number, c);
    if i > 0 {
      BytesOfNumber(k - 1, number / 0x100, i - 1);
    }
  }

  lemma DropByte(number: int, c: int)
    requires c > 0
    ensures (number % (0x100 * c)) / 0x100 == (number / 0x100) % c
    ensures (number % (0x100 * c)) % 0x100 == number % 0x100
  {
    var q, r := (number / 0x100) / c, (number / 0x100) % c;
    var low := number % 0x100;
    assert number == 0x100 * (c * q + r) + low;
    assert number == (0x100 * c) * q + (0x100 * r + low);
    assert 0 <= 0x100 * r + low < 0x100 * c;
    Remainder(number, 0x100 * c, q, 0x100 * r + low);
  }

  lemma UniqueDivision(d: int, q: int, r: int, p: int, s: int)
    requires 0 <= r < d && 0 <= s < d && d * q + r == d * p + s
    ensures r == s
  {
    assert d * (q - p) == s - r;
    MultipleIsFar(d, q - p);
  }

  lemma MultipleIsFar(d: int, m: int)
    requires d > 0
    ensures m >= 1 ==> d * m >= d
    ensures m <= -1 ==> d * m <= -d
  {
  }

  lemma Remainder(n: int, d: int, q: int, r: int)
    requires 0 <= r < d && n == d * q + r
    ensures n % d == r
  {
    UniqueDivision(d, q, r, n / d, n % d);
  }

  /** add_to_vector: the lowest `bytes` bytes of a number. */
  method AddToVector(vec: ByteVector, bytes: nat, number: int)
    requires bytes in {1, 2, 4, 8}
    modifies vec
    ensures vec.data == old(vec.data) + BigEndian(bytes, number % Capacity(bytes))
  {
    forall i | 0 <= i < bytes
      ensures BigEndian(bytes, number % Capacity(bytes))[bytes - 1 - i] == ByteOf(number, i)
    {
      BytesOfNumber(bytes, number, i);
    }
    ghost var bs := BigEndian(bytes, number % Capacity(bytes));
    ghost var n := |vec.data|;
    if bytes == 8 {
      vec.PushBack(ByteOf(number, 7));
      vec.PushBack(ByteOf(number, 6));
      vec.PushBack(ByteOf(number, 5));
      vec.PushBack(ByteOf(number, 4));
      assert vec.data[n..] == bs[..4];
    }
    ghost var high := vec.data;
    if bytes >= 4 {
      vec.PushBack(ByteOf(number, 3));
      vec.PushBack(ByteOf(number, 2));
    }
    if bytes >= 2 {
      vec.PushBack(ByteOf(number, 1));
    }
    vec.PushBack(ByteOf(number, 0));
    assert vec.data == high + bs[|high| - n..];
  }

  /** A lead byte and the number behind it. */
  method AddWithLead(vec: ByteVector, lead: byte, bytes: nat, number: int)
    requires bytes in {1, 2, 4, 8}
    modifies vec
    ensures vec.data == old(vec.data) + ([lead] + BigEndian(bytes, number % Capacity(bytes)))
    ensures 0 <= number < Capacity(bytes) ==> vec.data == old(vec.data) + ([lead] + BigEndian(bytes, number))
  {
    ghost var before := vec.data;
    vec.PushBack(lead);
    AddToVector(vec, bytes, number);
    ConcatAssociative(before, [lead], BigEndian(bytes, number % Capacity(bytes)));
    if 0 <= number < Capacity(bytes) {
      Remainder(number, Capacity(bytes), 0, number);
    }
  }

  //////// Reading ////////

  /** get_from_vector<T>: the k = sizeof(T) bytes behind a position. */
  function GetFromVector(vec: Text, current: nat, k: nat): (r: Result<Text>)
    ensures r.Ok? ==> current + k + 1 <= |vec| && r.value == vec[current + 1..current + 1 + k]
  {
    if current + k + 1 > |vec| then Err(OutOfRange) else Ok(vec[current + 1..current + 1 + k])
  }

  const SIZE_MAX: nat := 0xffff_ffff_ffff_ffff

  /** check_length with its size_t arithmetic; true where it does not throw. */
  predicate CheckLength(size: nat, len: nat, offset: nat) {
    !(len > size || offset > size) &&
    !(size > SIZE_MAX - offset) &&
    !((len + offset) % (SIZE_MAX + 1) > size)
  }

  /** For the sizes that vectors have, nothing wraps around: check_length is len + offset <= size. */
  lemma CheckLengthIsExact(size: nat, len: nat, offset: nat)
    requires size <= MAX_SIZE
    ensures CheckLength(size, len, offset) <==> len + offset <= size
  {
    if len <= size && offset <= size {
      assert len + offset <= SIZE_MAX;
    }
  }

  /** The len bytes from offset on, as a string. */
  function TextAt(v: Text, offset: nat, len: nat): Result<Text> {
    if offset + len <= |v| then Ok(v[offset..offset + len]) else Err(OutOfRange)
  }

  //////// Values in binary formats ////////

  /** Sizes that a std::string or std::vector can have. */
  predicate Fits(j: Json) {
    match j
    case Str(s) => |s| <= MAX_SIZE
    case Arr(es) => |es| <= MAX_SIZE && forall i | 0 <= i < |es| :: Fits(es[i])
    case Obj(ms) => |ms| <= MAX_SIZE && forall i | 0 <= i < |ms| :: |ms[i].key| <= MAX_SIZE && Fits(ms[i].value)
    case _ => true
  }

  //////// Locality ////////

  /** The result of reading from i in v is that of reading from i + d in w. */
  predicate Shifted(r: Result<(Json, nat)>, s: Result<(Json, nat)>, d: int) {
    r.Ok? ==> s.Ok? && s.value.0 == r.value.0 && s.value.1 == r.value.1 + d
  }

  /** w has, shifted by d, the bytes that a reader of v used from i on. */
  predicate Covers(v: Text, i: nat, r: Result<(Json, nat)>, w: Text, d: int) {
    r.Ok? && SamePiece(v, i, r.value.1, w, d)
  }
}
