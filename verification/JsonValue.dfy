// basic_json values without floating-point numbers and discarded values, with the
// comparisons operator== and operator< and the std::map operations on objects.

module JsonValue {
  import opened ByteStrings

  datatype Json =
    | Null
    | Bool(b: bool)
    | Int(i: int64)       // value_t::number_integer
    | Uint(u: uint64)     // value_t::number_unsigned
    | Str(s: Text)
    | Arr(es: seq<Json>)
    | Obj(ms: seq<Member>)

  /** One entry of the std::map behind an object; the sequence is kept in key order. */
  datatype Member = Member(key: Text, value: Json)

  predicate SameType(a: Json, b: Json) {
    match a
    case Null => b.Null?
    case Bool(_) => b.Bool?
    case Int(_) => b.Int?
    case Uint(_) => b.Uint?
    case Str(_) => b.Str?
    case Arr(_) => b.Arr?
    case Obj(_) => b.Obj?
  }

  predicate IsPrimitive(j: Json) {
    !j.Arr? && !j.Obj?
  }

  //////// Objects as std::map ////////

  predicate Sorted(ms: seq<Member>) {
    forall i, k | 0 <= i < k < |ms| :: Before(ms[i].key, ms[k].key)
  }

  /** Every object inside j has its keys in order and no key twice. */
  predicate Ordered(j: Json) {
    match j
    case Arr(es) => forall i | 0 <= i < |es| :: Ordered(es[i])
    case Obj(ms) => Sorted(ms) && forall i | 0 <= i < |ms| :: Ordered(ms[i].value)
    case _ => true
  }

  function Find(ms: seq<Member>, key: Text): Option<Json> {
    if ms == [] then None
    else if ms[0].key == key then Some(ms[0].value)
    else Find(ms[1..], key)
  }

  /** object[key] = value */
  function Put(ms: seq<Member>, key: Text, value: Json): seq<Member> {
    if ms == [] || Before(key, ms[0].key) then [Member(key, value)] + ms
    else if ms[0].key == key then [Member(key, value)] + ms[1..]
    else [ms[0]] + Put(ms[1..], key, value)
  }

  /** object.erase(key) */
  function Erase(ms: seq<Member>, key: Text): seq<Member> {
    if ms == [] then []
    else if ms[0].key == key then ms[1..]
    else [ms[0]] + Erase(ms[1..], key)
  }

  lemma {:induction false} FindPut(ms: seq<Member>, key: Text, value: Json, k: Text)
    ensures Find(Put(ms, key, value), k) == if k == key then Some(value) else Find(ms, k)
  {
    var r := Put(ms, key, value);
    if ms == [] || Before(key, ms[0].key) {
      assert r[1..] == ms;
    } else if ms[0].key == key {
      assert r[1..] == ms[1..];
    } else {
      assert r[1..] == Put(ms[1..], key, value);
      FindPut(ms[1..], key, value, k);
    }
  }

  lemma {:induction false} FindMember(ms: seq<Member>, i: nat)
    requires Sorted(ms) && i < |ms|
    ensures Find(ms, ms[i].key) == Some(ms[i].value)
  {
    if i == 0 {
    } else {
      BeforeTotal(ms[0].key, ms[i].key);
      FindMember(ms[1..], i - 1);
    }
  }

  lemma {:induction false} FindSome(ms: seq<Member>, key: Text) returns (i: nat)
    requires Find(ms, key).Some?
    ensures i < |ms| && ms[i] == Member(key, Find(ms, key).value)
  {
    if ms[0].key == key {
      i := 0;
    } else {
      var n := FindSome(ms[1..], key);
      i := n + 1;
    }
  }

  lemma {:induction false} FindNone(ms: seq<Member>, key: Text)
    ensures Find(ms, key).None? <==> forall i | 0 <= i < |ms| :: ms[i].key != key
  {
    if ms == [] {
    } else {
      FindNone(ms[1..], key);
      if Find(ms, key).None? {
        forall i | 0 <= i < |ms| ensures ms[i].key != key {
          if i > 0 { assert ms[i] == ms[1..][i - 1]; }
        }
      } else if ms[0].key != key {
        var i :| 0 <= i < |ms[1..]| && ms[1..][i].key == key;
        assert ms[i + 1].key == key;
      }
    }
  }

  lemma ConsSorted(m: Member, ms: seq<Member>)
    requires Sorted(ms) && forall n | n in ms :: Before(m.key, n.key)
    ensures Sorted([m] + ms)
  {
  }

  lemma {:induction false} PutSorted(ms: seq<Member>, key: Text, value: Json)
    requires Sorted(ms)
    ensures Sorted(Put(ms, key, value))
    ensures forall m | m in Put(ms, key, value) :: m == Member(key, value) || m in ms
  {
    if ms == [] {
    } else if Before(key, ms[0].key) {
      forall i | 0 <= i < |ms| ensures Before(key, ms[i].key) {
        if i > 0 { BeforeTransitive(key, ms[0].key, ms[i].key); }
      }
    } else if ms[0].key != key {
      BeforeTotal(key, ms[0].key);
      PutSorted(ms[1..], key, value);
      ConsSorted(ms[0], Put(ms[1..], key, value));
    }
  }

  /** A key beyond all others is appended. */
  lemma {:induction false} PutLast(ms: seq<Member>, key: Text, value: Json)
    requires forall m | m in ms :: Before(m.key, key)
    ensures Put(ms, key, value) == ms + [Member(key, value)]
  {
    if ms == [] {
    } else {
      BeforeTotal(ms[0].key, key);
      PutLast(ms[1..], key, value);
    }
  }

  lemma {:induction false} EraseSorted(ms: seq<Member>, key: Text)
    requires Sorted(ms)
    ensures Sorted(Erase(ms, key))
    ensures forall m | m in Erase(ms, key) :: m in ms
  {
    if ms != [] && ms[0].key != key {
      EraseSorted(ms[1..], key);
      ConsSorted(ms[0], Erase(ms[1..], key));
    }
  }

  lemma {:induction false} FindErase(ms: seq<Member>, key: Text, k: Text)
    requires Sorted(ms)
    ensures Find(Erase(ms, key), k) == if k == key then None else Find(ms, k)
  {
    if ms == [] {
    } else {
      if ms[0].key == key {
        FindNone(ms[1..], key);
        forall i | 0 <= i < |ms[1..]| ensures ms[1..][i].key != key {
          BeforeTotal(key, ms[i + 1].key);
        }
      } else {
        assert Erase(ms, key)[1..] == Erase(ms[1..], key);
        FindErase(ms[1..], key, k);
      }
    }
  }

  lemma FindBehind(ms: seq<Member>, i: nat)
    requires Sorted(ms) && i < |ms|
    ensures Find(ms[i + 1..], ms[i].key).None?
  {
    var rest := ms[i + 1..];
    FindNone(rest, ms[i].key);
    forall n | 0 <= n < |rest| ensures rest[n].key != ms[i].key {
      BeforeTotal(ms[i].key, rest[n].key);
    }
  }

  /** Two maps with the same keys list them in the same order. */
  lemma {:induction false} SameKeysSameOrder(xs: seq<Member>, ys: seq<Member>)
    requires Sorted(xs) && Sorted(ys)
    requires forall k :: Find(xs, k).Some? <==> Find(ys, k).Some?
    ensures |xs| == |ys| && forall i | 0 <= i < |xs| :: xs[i].key == ys[i].key
  {
    if xs == [] || ys == [] {
      if ys != [] { assert Find(ys, ys[0].key).Some?; }
      if xs != [] { assert Find(xs, xs[0].key).Some?; }
    } else {
      var x, y := xs[0].key, ys[0].key;
      var i := FindSome(ys, x);
      var k := FindSome(xs, y);
      BeforeTotal(x, y);
      forall z ensures Find(xs[1..], z).Some? <==> Find(ys[1..], z).Some? {
        if z == x {
          FindNone(xs[1..], z);
          FindNone(ys[1..], z);
          forall n | 0 <= n < |xs[1..]| ensures xs[1..][n].key != z { BeforeTotal(z, xs[n + 1].key); }
          forall n | 0 <= n < |ys[1..]| ensures ys[1..][n].key != z { BeforeTotal(z, ys[n + 1].key); }
        } else {
          assert Find(xs, z) == Find(xs[1..], z);
          assert Find(ys, z) == Find(ys[1..], z);
        }
      }
      SameKeysSameOrder(xs[1..], ys[1..]);
    }
  }

  /** Maps with the same entries are the same. */
  lemma SameFindsSameMembers(a: seq<Member>, b: seq<Member>)
    requires Sorted(a) && Sorted(b) && forall k :: Find(a, k) == Find(b, k)
    ensures a == b
  {
    SameKeysSameOrder(a, b);
    forall i | 0 <= i < |a| ensures a[i] == b[i] {
      FindMember(a, i);
      FindMember(b, i);
    }
  }

  //////// operator== ////////

  /** static_cast<number_integer_t> of an unsigned number. */
  function ToSigned(u: uint64): int64 {
    if u < 0x8000_0000_0000_0000 then u else u - 0x1_0000_0000_0000_0000
  }

  predicate Eq(a: Json, b: Json)
    decreases a
  {
    match a
    case Null => b.Null?
    case Bool(x) => b == Bool(x)
    case Int(i) => b == Int(i) || (b.Uint? && i == ToSigned(b.u))
    case Uint(u) => b == Uint(u) || (b.Int? && ToSigned(u) == b.i)
    case Str(s) => b == Str(s)
    case Arr(x) => b.Arr? && |x| == |b.es| && forall i | 0 <= i < |x| :: Eq(x[i], b.es[i])
    case Obj(x) => b.Obj? && |x| == |b.ms| &&
                   forall i | 0 <= i < |x| :: x[i].key == b.ms[i].key && Eq(x[i].value, b.ms[i].value)
  }

  lemma {:induction false} EqReflexive(a: Json)
    ensures Eq(a, a)
  {
    match a
    case Arr(es) => forall i | 0 <= i < |es| ensures Eq(es[i], es[i]) { EqReflexive(es[i]); }
    case Obj(ms) => forall i | 0 <= i < |ms| ensures Eq(ms[i].value, ms[i].value) { EqReflexive(ms[i].value); }
    case _ =>
  }

  lemma {:induction false} EqSymmetric(a: Json, b: Json)
    requires Eq(a, b)
    ensures Eq(b, a)
  {
    match a
    case Arr(es) => forall i | 0 <= i < |es| ensures Eq(b.es[i], es[i]) { EqSymmetric(es[i], b.es[i]); }
    case Obj(ms) =>
      forall i | 0 <= i < |ms| ensures Eq(b.ms[i].value, ms[i].value) {
        EqSymmetric(ms[i].value, b.ms[i].value);
      }
    case _ =>
  }

  lemma {:induction false} EqTransitive(a: Json, b: Json, c: Json)
    requires Eq(a, b) && Eq(b, c)
    ensures Eq(a, c)
  {
    match a
    case Arr(es) =>
      forall i | 0 <= i < |es| ensures Eq(es[i], c.es[i]) { EqTransitive(es[i], b.es[i], c.es[i]); }
    case Obj(ms) =>
      forall i | 0 <= i < |ms| ensures Eq(ms[i].value, c.ms[i].value) {
        EqTransitive(ms[i].value, b.ms[i].value, c.ms[i].value);
      }
    case _ =>
  }

  //////// What serializing keeps ////////

  /** No serialization tells a non-negative signed integer from an unsigned one. */
  function Unsign(j: Json): Json {
    match j
    case Int(i) => if i >= 0 then Uint(i) else j
    case Arr(es) => Arr(UnsignSeq(es))
    case Obj(ms) => Obj(UnsignMembers(ms))
    case _ => j
  }

  function UnsignSeq(es: seq<Json>): (r: seq<Json>)
    ensures |r| == |es|
    ensures forall i | 0 <= i < |es| :: r[i] == Unsign(es[i])
  {
    if es == [] then [] else [Unsign(es[0])] + UnsignSeq(es[1..])
  }

  function UnsignMembers(ms: seq<Member>): (r: seq<Member>)
    ensures |r| == |ms|
    ensures forall i | 0 <= i < |ms| :: r[i] == Member(ms[i].key, Unsign(ms[i].value))
  {
    if ms == [] then [] else [Member(ms[0].key, Unsign(ms[0].value))] + UnsignMembers(ms[1..])
  }

  /** By operator==, nothing is lost. */
  lemma {:induction false} UnsignIsEqual(j: Json)
    ensures Eq(Unsign(j), j)
  {
    match j
    case Arr(es) => forall i | 0 <= i < |es| ensures Eq(Unsign(es[i]), es[i]) { UnsignIsEqual(es[i]); }
    case Obj(ms) =>
      forall i | 0 <= i < |ms| ensures Eq(Unsign(ms[i].value), ms[i].value) { UnsignIsEqual(ms[i].value); }
    case _ =>
  }

  /** All keys of one list come before all keys of another one. */
  predicate AllBefore(a: seq<Member>, b: seq<Member>) {
    forall m, n | m in a && n in b :: Before(m.key, n.key)
  }

  lemma AllBeforeNext(before: seq<Member>, ms: seq<Member>, value: Json)
    requires Sorted(ms) && ms != [] && AllBefore(before, ms)
    ensures Put(before, ms[0].key, value) == before + [Member(ms[0].key, value)]
    ensures AllBefore(before + [Member(ms[0].key, value)], ms[1..])
  {
    PutLast(before, ms[0].key, value);
    forall m, n | m in before + [Member(ms[0].key, value)] && n in ms[1..] ensures Before(m.key, n.key) {
      if m !in before {
        var i :| 0 <= i < |ms[1..]| && ms[1..][i] == n;
        assert Before(ms[0].key, ms[i + 1].key);
      }
    }
  }
}
