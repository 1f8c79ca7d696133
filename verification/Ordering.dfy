// basic_json's operator< and what it is worth as an order: trichotomy on all values,
// transitivity exactly as far as unsigned numbers fit in int64_t.

module Ordering {
  import opened ByteStrings
  import opened JsonValue

  function Size(j: Json): nat {
    match j
    case Arr(es) => 1 + SizeSeq(es)
    case Obj(ms) => 1 + SizeMembers(ms)
    case _ => 1
  }

  function SizeSeq(es: seq<Json>): nat {
    if es == [] then 0 else Size(es[0]) + SizeSeq(es[1..])
  }

  function SizeMembers(ms: seq<Member>): nat {
    if ms == [] then 0 else Size(ms[0].value) + SizeMembers(ms[1..])
  }

  /** The order of the types: null < boolean < number < object < array < string. */
  function TypeOrder(j: Json): nat {
    match j
    case Null => 0
    case Bool(_) => 1
    case Int(_) => 2
    case Uint(_) => 2
    case Obj(_) => 3
    case Arr(_) => 4
    case Str(_) => 5
  }

  predicate Less(a: Json, b: Json)
    decreases Size(a) + Size(b), 1
  {
    match a
    case Arr(x) => if b.Arr? then LessSeq(x, b.es) else TypeOrder(a) < TypeOrder(b)
    case Obj(x) => if b.Obj? then LessMembers(x, b.ms) else TypeOrder(a) < TypeOrder(b)
    case Str(s) => b.Str? && Before(s, b.s)
    case Bool(x) => if b.Bool? then !x && b.b else TypeOrder(a) < TypeOrder(b)
    case Int(i) =>
      if b.Int? then i < b.i else if b.Uint? then i < ToSigned(b.u) else TypeOrder(a) < TypeOrder(b)
    case Uint(u) =>
      if b.Uint? then u < b.u else if b.Int? then ToSigned(u) < b.i else TypeOrder(a) < TypeOrder(b)
    case Null => TypeOrder(a) < TypeOrder(b)
  }

  /** std::lexicographical_compare on the elements of two arrays. */
  predicate LessSeq(x: seq<Json>, y: seq<Json>)
    decreases SizeSeq(x) + SizeSeq(y), 2
  {
    y != [] && (x == [] || Less(x[0], y[0]) || (!Less(y[0], x[0]) && LessSeq(x[1..], y[1..])))
  }

  /** std::pair's operator<. */
  predicate LessMember(p: Member, q: Member)
    decreases Size(p.value) + Size(q.value), 2
  {
    Before(p.key, q.key) || (!Before(q.key, p.key) && Less(p.value, q.value))
  }

  /** std::lexicographical_compare on the entries of two objects. */
  predicate LessMembers(x: seq<Member>, y: seq<Member>)
    decreases SizeMembers(x) + SizeMembers(y), 3
  {
    y != [] && (x == [] || LessMember(x[0], y[0]) || (!LessMember(y[0], x[0]) && LessMembers(x[1..], y[1..])))
  }

  predicate ExactlyOne(p: bool, q: bool, r: bool) {
    (p || q || r) && !(p && q) && !(q && r) && !(p && r)
  }

  predicate EqSeq(x: seq<Json>, y: seq<Json>) {
    |x| == |y| && forall i | 0 <= i < |x| :: Eq(x[i], y[i])
  }

  predicate EqMembers(x: seq<Member>, y: seq<Member>) {
    |x| == |y| && forall i | 0 <= i < |x| :: x[i].key == y[i].key && Eq(x[i].value, y[i].value)
  }

  /** a < b, a == b and b < a exclude each other and one of them holds: for all values. */
  lemma {:induction false} Trichotomy(a: Json, b: Json)
    ensures ExactlyOne(Less(a, b), Eq(a, b), Less(b, a))
    decreases Size(a) + Size(b), 1
  {
    if a.Arr? && b.Arr? {
      TrichotomySeq(a.es, b.es);
    } else if a.Obj? && b.Obj? {
      TrichotomyMembers(a.ms, b.ms);
    } else if a.Str? && b.Str? {
      BeforeTotal(a.s, b.s);
    }
  }

  lemma {:induction false} TrichotomySeq(x: seq<Json>, y: seq<Json>)
    ensures ExactlyOne(LessSeq(x, y), EqSeq(x, y), LessSeq(y, x))
    decreases SizeSeq(x) + SizeSeq(y), 2
  {
    if x != [] && y != [] {
      Trichotomy(x[0], y[0]);
      TrichotomySeq(x[1..], y[1..]);
      assert EqSeq(x, y) <==> Eq(x[0], y[0]) && EqSeq(x[1..], y[1..]) by {
        if Eq(x[0], y[0]) && EqSeq(x[1..], y[1..]) {
          forall i | 0 <= i < |x| ensures Eq(x[i], y[i]) {
            if i > 0 { assert Eq(x[1..][i - 1], y[1..][i - 1]); }
          }
        }
      }
    }
  }

  lemma {:induction false} TrichotomyMembers(x: seq<Member>, y: seq<Member>)
    ensures ExactlyOne(LessMembers(x, y), EqMembers(x, y), LessMembers(y, x))
    decreases SizeMembers(x) + SizeMembers(y), 2
  {
    if x != [] && y != [] {
      BeforeTotal(x[0].key, y[0].key);
      Trichotomy(x[0].value, y[0].value);
      TrichotomyMembers(x[1..], y[1..]);
      assert EqMembers(x, y) <==> EqMembers(x[..1], y[..1]) && EqMembers(x[1..], y[1..]) by {
        if EqMembers(x[..1], y[..1]) && EqMembers(x[1..], y[1..]) {
          forall i | 0 <= i < |x| ensures x[i].key == y[i].key && Eq(x[i].value, y[i].value) {
            if i == 0 {
              assert x[..1][0] == x[0] && y[..1][0] == y[0];
            } else {
              assert x[i] == x[1..][i - 1] && y[i] == y[1..][i - 1];
            }
          }
        }
      }
      assert EqMembers(x[..1], y[..1]) <==> x[0].key == y[0].key && Eq(x[0].value, y[0].value);
    }
  }

  /** Every unsigned number inside j is one that int64_t can hold. */
  predicate UnsignedFits(j: Json) {
    match j
    case Uint(u) => u < 0x8000_0000_0000_0000
    case Arr(es) => forall i | 0 <= i < |es| :: UnsignedFits(es[i])
    case Obj(ms) => forall i | 0 <= i < |ms| :: UnsignedFits(ms[i].value)
    case _ => true
  }

  predicate NotAfter(a: Json, b: Json) {
    Less(a, b) || Eq(a, b)
  }

  /** operator< is transitive, also through ==, where unsigned numbers fit in int64_t. */
  lemma {:induction false} LessTransitive(a: Json, b: Json, c: Json)
    requires UnsignedFits(a) && UnsignedFits(b) && UnsignedFits(c)
    requires NotAfter(a, b) && NotAfter(b, c)
    ensures NotAfter(a, c)
    ensures Less(a, b) || Less(b, c) ==> Less(a, c)
    decreases a, 1
  {
    hide LessSeq, LessMembers, Before;
    if a.Arr? && b.Arr? && c.Arr? {
      LessSeqTransitive(a.es, b.es, c.es);
    } else if a.Obj? && b.Obj? && c.Obj? {
      LessMembersTransitive(a.ms, b.ms, c.ms);
    } else if a.Str? && b.Str? && c.Str? {
      if a.s != b.s && b.s != c.s { BeforeTransitive(a.s, b.s, c.s); }
    }
  }

  lemma {:induction false} LessSeqTransitive(x: seq<Json>, y: seq<Json>, z: seq<Json>)
    requires UnsignedFits(Arr(x)) && UnsignedFits(Arr(y)) && UnsignedFits(Arr(z))
    requires LessSeq(x, y) || EqSeq(x, y)
    requires LessSeq(y, z) || EqSeq(y, z)
    ensures LessSeq(x, z) || EqSeq(x, z)
    ensures LessSeq(x, y) || LessSeq(y, z) ==> LessSeq(x, z)
    decreases x, 0
  {
    if x != [] && y != [] && z != [] {
      Trichotomy(x[0], y[0]);
      Trichotomy(y[0], z[0]);
      Trichotomy(x[0], z[0]);
      LessTransitive(x[0], y[0], z[0]);
      if Eq(x[0], y[0]) && Eq(y[0], z[0]) {
        EqTransitive(x[0], y[0], z[0]);
        LessSeqTransitive(x[1..], y[1..], z[1..]);
        if EqSeq(x[1..], z[1..]) {
          forall i | 0 <= i < |x| ensures Eq(x[i], z[i]) {
            if i > 0 { assert Eq(x[1..][i - 1], z[1..][i - 1]); }
          }
        }
      }
    }
  }

  lemma {:induction false} LessMembersTransitive(x: seq<Member>, y: seq<Member>, z: seq<Member>)
    requires UnsignedFits(Obj(x)) && UnsignedFits(Obj(y)) && UnsignedFits(Obj(z))
    requires LessMembers(x, y) || EqMembers(x, y)
    requires LessMembers(y, z) || EqMembers(y, z)
    ensures LessMembers(x, z) || EqMembers(x, z)
    ensures LessMembers(x, y) || LessMembers(y, z) ==> LessMembers(x, z)
    decreases x, 0
  {
    hide Eq, Before;
    if x != [] && y != [] && z != [] {
      var p, q, r := x[0], y[0], z[0];
      MemberOrder(p, q, r);
      if p.key == q.key == r.key && Eq(p.value, q.value) && Eq(q.value, r.value) {
        EqTransitive(p.value, q.value, r.value);
        LessMembersTransitive(x[1..], y[1..], z[1..]);
        if EqMembers(x[1..], z[1..]) {
          forall i | 0 <= i < |x| ensures x[i].key == z[i].key && Eq(x[i].value, z[i].value) {
            if i > 0 { assert x[i] == x[1..][i - 1] && z[i] == z[1..][i - 1]; }
          }
        }
      }
    }
  }

  predicate EqMember(p: Member, q: Member) {
    p.key == q.key && Eq(p.value, q.value)
  }

  lemma {:induction false} MemberOrder(p: Member, q: Member, r: Member)
    requires UnsignedFits(p.value) && UnsignedFits(q.value) && UnsignedFits(r.value)
    ensures ExactlyOne(LessMember(p, q), EqMember(p, q), LessMember(q, p))
    ensures ExactlyOne(LessMember(q, r), EqMember(q, r), LessMember(r, q))
    ensures ExactlyOne(LessMember(p, r), EqMember(p, r), LessMember(r, p))
    ensures !LessMember(q, p) && !LessMember(r, q) ==>
              !LessMember(r, p) && (LessMember(p, q) || LessMember(q, r) ==> LessMember(p, r))
    decreases p.value, 2
  {
    BeforeTotal(p.key, q.key);
    BeforeTotal(q.key, r.key);
    BeforeTotal(p.key, r.key);
    Trichotomy(p.value, q.value);
    Trichotomy(q.value, r.value);
    Trichotomy(p.value, r.value);
    if Before(p.key, q.key) && Before(q.key, r.key) {
      BeforeTransitive(p.key, q.key, r.key);
    }
    if NotAfter(p.value, q.value) && NotAfter(q.value, r.value) {
      LessTransitive(p.value, q.value, r.value);
    }
  }

  predicate Chain(a: Json, b: Json, c: Json) {
    UnsignedFits(a) && UnsignedFits(c) && Less(a, b) && Less(b, c)
  }

  lemma LessSeqCons(e: Json, x: seq<Json>, y: seq<Json>)
    ensures LessSeq([e] + x, [e] + y) == LessSeq(x, y)
  {
    EqReflexive(e);
    Trichotomy(e, e);
    assert ([e] + x)[1..] == x && ([e] + y)[1..] == y;
  }

  lemma LessMembersCons(m: Member, x: seq<Member>, y: seq<Member>)
    ensures LessMembers([m] + x, [m] + y) == LessMembers(x, y)
  {
    EqReflexive(m.value);
    Trichotomy(m.value, m.value);
    BeforeTotal(m.key, m.key);
    assert ([m] + x)[1..] == x && ([m] + y)[1..] == y;
  }

  predicate BreaksSeq(x: seq<Json>, y: seq<Json>, z: seq<Json>) {
    Chain(Arr(x), Arr(y), Arr(z)) && !LessSeq(x, z) &&
    (Ordered(Arr(y)) ==> Ordered(Arr(x)) && Ordered(Arr(z)))
  }

  lemma BreaksSeqHead(a: Json, b: Json, c: Json, rest: seq<Json>)
    requires Chain(a, b, c) && !Less(a, c)
    requires Ordered(b) ==> Ordered(a) && Ordered(c)
    ensures BreaksSeq([a], [b] + rest, [c])
  {
    assert ([b] + rest)[0] == b && [c][1..] == [];
  }

  lemma BreaksSeqCons(e: Json, x: seq<Json>, y: seq<Json>, z: seq<Json>)
    requires BreaksSeq(x, y, z) && UnsignedFits(e)
    ensures BreaksSeq([e] + x, [e] + y, [e] + z)
  {
    LessSeqCons(e, x, y);
    LessSeqCons(e, y, z);
    LessSeqCons(e, x, z);
    assert ([e] + y)[0] == e && ([e] + y)[1..] == y;
  }

  /** What stands before the first unfit element is kept. */
  lemma {:induction false} UnfitBreaksSeq(y: seq<Json>) returns (x: seq<Json>, z: seq<Json>)
    requires !UnsignedFits(Arr(y))
    ensures BreaksSeq(x, y, z)
    decreases y, 1
  {
    var e, rest := y[0], y[1..];
    assert y == [e] + rest;
    if UnsignedFits(e) {
      var front, back := UnfitBreaksSeq(rest);
      BreaksSeqCons(e, front, rest, back);
      x, z := [e] + front, [e] + back;
    } else {
      var a, c := UnfitBreaks(e);
      BreaksSeqHead(a, e, c, rest);
      x, z := [a], [c];
    }
  }

  /** The keys are those of y, as far as they go. */
  predicate KeysOf(y: seq<Member>, x: seq<Member>) {
    |x| <= |y| && forall i | 0 <= i < |x| :: x[i].key == y[i].key
  }

  predicate BreaksMembers(x: seq<Member>, y: seq<Member>, z: seq<Member>) {
    Chain(Obj(x), Obj(y), Obj(z)) && !LessMembers(x, z) && KeysOf(y, x) && KeysOf(y, z) &&
    (Ordered(Obj(y)) ==> Ordered(Obj(x)) && Ordered(Obj(z)))
  }

  lemma BreaksMembersHead(key: Text, a: Json, b: Json, c: Json, rest: seq<Member>)
    requires Chain(a, b, c) && !Less(a, c)
    requires Ordered(b) ==> Ordered(a) && Ordered(c)
    ensures BreaksMembers([Member(key, a)], [Member(key, b)] + rest, [Member(key, c)])
  {
    BeforeTotal(key, key);
    assert ([Member(key, b)] + rest)[0] == Member(key, b) && [Member(key, c)][1..] == [];
  }

  lemma OrderedCons(m: Member, y: seq<Member>, x: seq<Member>)
    requires KeysOf(y, x) && (Ordered(Obj(y)) ==> Ordered(Obj(x)))
    ensures KeysOf([m] + y, [m] + x)
    ensures Ordered(Obj([m] + y)) ==> Ordered(Obj([m] + x))
  {
    hide Before;
    if Ordered(Obj([m] + y)) {
      assert forall i | 0 <= i < |y| :: y[i] == ([m] + y)[i + 1];
      assert Sorted(y) && Ordered(Obj(y));
    }
  }

  lemma BreaksMembersCons(m: Member, x: seq<Member>, y: seq<Member>, z: seq<Member>)
    requires BreaksMembers(x, y, z) && UnsignedFits(m.value)
    ensures BreaksMembers([m] + x, [m] + y, [m] + z)
  {
    hide Before, LessMembers, LessMember, Ordered, Eq;
    LessMembersCons(m, x, y);
    LessMembersCons(m, y, z);
    LessMembersCons(m, x, z);
    OrderedCons(m, y, x);
    OrderedCons(m, y, z);
  }

  lemma {:induction false} UnfitBreaksMembers(y: seq<Member>) returns (x: seq<Member>, z: seq<Member>)
    requires !UnsignedFits(Obj(y))
    ensures BreaksMembers(x, y, z)
    decreases y, 1
  {
    var m, rest := y[0], y[1..];
    assert y == [m] + rest;
    if UnsignedFits(m.value) {
      var front, back := UnfitBreaksMembers(rest);
      BreaksMembersCons(m, front, rest, back);
      x, z := [m] + front, [m] + back;
    } else {
      var a, c := UnfitBreaks(m.value);
      BreaksMembersHead(m.key, a, m.value, c, rest);
      x, z := [Member(m.key, a)], [Member(m.key, c)];
    }
  }

  /** Values that fit on both sides of a value that does not, and out of order. */
  lemma {:induction false} UnfitBreaks(b: Json) returns (a: Json, c: Json)
    requires !UnsignedFits(b)
    ensures Chain(a, b, c) && !Less(a, c)
    ensures Ordered(b) ==> Ordered(a) && Ordered(c)
    decreases b, 0
  {
    match b {
      case Arr(es) =>
        var x, z := UnfitBreaksSeq(es);
        a, c := Arr(x), Arr(z);
      case Obj(ms) =>
        var x, z := UnfitBreaksMembers(ms);
        a, c := Obj(x), Obj(z);
      case Uint(_) =>
        a, c := Uint(1), Int(0);
      case _ =>
    }
  }

  /** The bound is exact, at any depth: the unsigned numbers in a value fit in int64_t if and only if no two
      values that fit break transitivity around it. The same holds among the values a std::map can hold. */
  lemma TransitiveIffUnsignedFits(b: Json)
    ensures UnsignedFits(b) <==> forall a, c | Chain(a, b, c) :: Less(a, c)
    ensures Ordered(b) ==>
              (UnsignedFits(b) <==> forall a, c | Ordered(a) && Ordered(c) && Chain(a, b, c) :: Less(a, c))
  {
    if UnsignedFits(b) {
      forall a, c | Chain(a, b, c) ensures Less(a, c) {
        LessTransitive(a, b, c);
      }
    } else {
      var a, c := UnfitBreaks(b);
    }
  }

  /** 1 < 2^63 and 2^63 < 0, but not 1 < 0, where 0 is a signed number. */
  lemma LargeUnsignedBreaksTransitivity()
    ensures var one, large, zero := Uint(1), Uint(0x8000_0000_0000_0000), Int(0);
            Less(one, large) && Less(large, zero) && !Less(one, zero)
  {
    TransitiveIffUnsignedFits(Uint(0x8000_0000_0000_0000));
  }
}
