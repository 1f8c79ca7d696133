// The documented invariant of diff: source.patch(diff(source, target)) == target. It holds exactly where
// no array index beyond INT_MAX has to be addressed, because patch reads array indices with std::stoi.

module JsonPatchLaws {
  import opened ByteStrings
  import opened Decimal
  import opened JsonValue
  import opened JsonAccess
  import opened JsonPatch

  /** diff needs no operation on an array index beyond INT_MAX. */
  predicate Addressable(s: Json, t: Json)
    decreases s
  {
    Eq(s, t) ||
    match s
    case Arr(x) =>
      t.Arr? ==>
        && (|x| != |t.es| ==> |x| <= INT_MAX + 1 && |t.es| <= INT_MAX + 1)
        && forall i | 0 <= i < |x| && i < |t.es| :: Eq(x[i], t.es[i]) || (i <= INT_MAX && Addressable(x[i], t.es[i]))
    case Obj(x) =>
      t.Obj? ==> forall i | 0 <= i < |x| && Find(t.ms, x[i].key).Some? ::
                   Addressable(x[i].value, Find(t.ms, x[i].key).value)
    case _ => true
  }

  /** The result of applying all operations is Ok(r) when good, and an error otherwise. */
  predicate Outcome(a: Result<Json>, good: bool, r: Json) {
    if good then a == Ok(r) else a.Err?
  }

  lemma LocateIndex(es: seq<Json>, i: nat)
    requires i < |es|
    ensures Locate(Arr(es), Numeral(i)) == if i <= INT_MAX then Ok(Index(i)) else Err(OutOfRange)
    ensures i > INT_MAX ==> Created(Arr(es), Numeral(i)).Err?
  {
    StoiNumeral(i);
    NoLeadingZero(i);
    assert IsDigit(Numeral(i)[0]);
  }

  lemma EditIndex(es: seq<Json>, i: nat, v: Json)
    ensures ApplyEdit(Arr(es), AddChild(Numeral(i), v)) ==
            if i <= INT_MAX && i <= |es| then Ok(Arr(es[..i] + [v] + es[i..])) else Err(OutOfRange)
    ensures ApplyEdit(Arr(es), RemoveChild(Numeral(i))) ==
            if i <= INT_MAX && i < |es| then Ok(Arr(es[..i] + es[i + 1..])) else Err(OutOfRange)
  {
    StoiNumeral(i);
    assert IsDigit(Numeral(i)[0]);
  }

  lemma {:induction false} UnderAllHaveParents(token: Text, ops: seq<Op>)
    ensures forall op | op in UnderAll(token, ops) :: HasParent(op)
  {
    if ops == [] {
    } else {
      UnderAllHaveParents(token, ops[1..]);
    }
  }

  lemma {:induction false} DiffOpsHaveParents(s: Json, t: Json)
    ensures forall op | op in DiffOps(s, t) :: HasParent(op)
  {
    if !Eq(s, t) && SameType(s, t) {
      match s
      case Arr(x) =>
        CommonOpsHaveParents(x, t.es, 0);
        RemoveOpsHaveParents(|x|, |t.es|);
        AddOpsHaveParents(t.es, Min(|x|, |t.es|));
      case Obj(x) =>
        KeyOpsHaveParents(x, t.ms, 0);
        NewOpsHaveParents(x, t.ms, 0);
      case _ =>
    }
  }

  lemma {:induction false} CommonOpsHaveParents(x: seq<Json>, y: seq<Json>, i: nat)
    ensures forall op | op in CommonOps(x, y, i) :: HasParent(op)
    decreases |x| - i
  {
    if i < |x| && i < |y| {
      UnderAllHaveParents(Numeral(i), DiffOps(x[i], y[i]));
      CommonOpsHaveParents(x, y, i + 1);
    }
  }

  lemma {:induction false} RemoveOpsHaveParents(n: nat, m: nat)
    ensures forall op | op in RemoveOps(n, m) :: HasParent(op)
  {
    if n > m { RemoveOpsHaveParents(n - 1, m); }
  }

  lemma {:induction false} AddOpsHaveParents(y: seq<Json>, i: nat)
    ensures forall op | op in AddOps(y, i) :: HasParent(op)
    decreases |y| - i
  {
    if i < |y| { AddOpsHaveParents(y, i + 1); }
  }

  lemma {:induction false} KeyOpsHaveParents(x: seq<Member>, y: seq<Member>, i: nat)
    ensures forall op | op in KeyOps(x, y, i) :: HasParent(op)
    decreases |x| - i
  {
    if i >= |x| {
    } else {
      match Find(y, x[i].key) {
        case Some(v) => UnderAllHaveParents(x[i].key, DiffOps(x[i].value, v));
        case None =>
      }
      KeyOpsHaveParents(x, y, i + 1);
    }
  }

  lemma {:induction false} NewOpsHaveParents(x: seq<Member>, y: seq<Member>, i: nat)
    ensures forall op | op in NewOps(x, y, i) :: HasParent(op)
    decreases |y| - i
  {
    if i < |y| { NewOpsHaveParents(x, y, i + 1); }
  }

  //////// Arrays ////////

  predicate ElementGood(s: Json, t: Json, i: nat) {
    Eq(s, t) || (i <= INT_MAX && Addressable(s, t))
  }

  predicate CommonGood(x: seq<Json>, y: seq<Json>, i: nat) {
    forall k | i <= k < |x| && k < |y| :: ElementGood(x[k], y[k], k)
  }

  /** The operations for one common element put the patched child in its place. */
  lemma ElementStep(es: seq<Json>, i: nat, t: Json, c: Json, top: bool)
    requires i < |es|
    requires Outcome(ApplyAll(es[i], DiffOps(es[i], t), false), Addressable(es[i], t), c)
    requires Addressable(es[i], t) ==> Eq(c, t)
    ensures Outcome(ApplyAll(Arr(es), UnderAll(Numeral(i), DiffOps(es[i], t)), top),
                    ElementGood(es[i], t, i), Arr(es[i := c]))
  {
    var ops := DiffOps(es[i], t);
    if ops == [] {
      assert es[i := c] == es;
    } else {
      LocateIndex(es, i);
      DiffOpsHaveParents(es[i], t);
      if i <= INT_MAX {
        ApplyAllUnder(Arr(es), Numeral(i), ops, top);
      } else {
        ApplyUnderMissing(Arr(es), Numeral(i), ops[0], top);
      }
    }
  }

  /** es is the array after the first i elements have been patched. */
  predicate Patched(es: seq<Json>, x: seq<Json>, y: seq<Json>, i: nat) {
    |es| == |x| && i <= |x| && i <= |y| && es[i..] == x[i..] && forall k | 0 <= k < i :: Eq(es[k], y[k])
  }

  lemma {:induction false} CommonPhase(es: seq<Json>, x: seq<Json>, y: seq<Json>, i: nat, top: bool)
    returns (z: seq<Json>)
    requires Patched(es, x, y, i)
    requires Ordered(Arr(x)) && Ordered(Arr(y))
    ensures Outcome(ApplyAll(Arr(es), CommonOps(x, y, i), top), CommonGood(x, y, i), Arr(z))
    ensures CommonGood(x, y, i) ==> Patched(z, x, y, Min(|x|, |y|))
    decreases x, |x| - i
  {
    hide DiffOps, UnderAll;
    z := es;
    if i < |x| && i < |y| {
      assert es[i] == es[i..][0] == x[i];
      var c := PatchOfDiff(x[i], y[i], false);
      ElementStep(es, i, y[i], c, top);
      ApplyAllAppend(Arr(es), UnderAll(Numeral(i), DiffOps(x[i], y[i])), CommonOps(x, y, i + 1), top);
      if ElementGood(x[i], y[i], i) {
        var next := es[i := c];
        assert next[i + 1..] == es[i..][1..] == x[i..][1..] == x[i + 1..];
        z := CommonPhase(next, x, y, i + 1, top);
      }
    }
  }

  /** Removing from the back leaves the front. */
  lemma {:induction false} RemovePhase(es: seq<Json>, m: nat, top: bool)
    requires m <= |es|
    ensures Outcome(ApplyAll(Arr(es), RemoveOps(|es|, m), top), |es| == m || |es| <= INT_MAX + 1, Arr(es[..m]))
  {
    if |es| > m {
      var n := |es|;
      var op := Remove([Numeral(n - 1)]);
      EditIndex(es, n - 1, Null);
      assert op.path[..0] == [];
      assert RemoveOps(n, m)[0] == op && RemoveOps(n, m)[1..] == RemoveOps(n - 1, m);
      assert ApplyOp(Arr(es), op, top) == ApplyEdit(Arr(es), RemoveChild(Numeral(n - 1)));
      if n <= INT_MAX + 1 {
        assert es[..n - 1] + es[n..] == es[..n - 1];
        RemovePhase(es[..n - 1], m, top);
        assert es[..n - 1][..m] == es[..m];
      }
    } else {
      assert es[..m] == es;
    }
  }

  /** Appending one by one. */
  lemma {:induction false} AddPhase(es: seq<Json>, y: seq<Json>, top: bool)
    requires |es| <= |y|
    ensures Outcome(ApplyAll(Arr(es), AddOps(y, |es|), top), |es| == |y| || |y| <= INT_MAX + 1, Arr(es + y[|es|..]))
    decreases |y| - |es|
  {
    var i := |es|;
    if i < |y| {
      EditIndex(es, i, y[i]);
      var op := Add([Numeral(i)], y[i]);
      assert op.path[..0] == [];
      if i <= INT_MAX {
        assert es[..i] + [y[i]] + es[i..] == es + [y[i]];
        AddPhase(es + [y[i]], y, top);
        assert (es + [y[i]]) + y[i + 1..] == es + y[i..];
      }
    } else {
      assert es + y[i..] == es;
    }
  }

  predicate LengthsGood(x: seq<Json>, y: seq<Json>) {
    |x| != |y| ==> |x| <= INT_MAX + 1 && |y| <= INT_MAX + 1
  }

  /** What comes after the common elements. */
  lemma TailPhase(es: seq<Json>, x: seq<Json>, y: seq<Json>, top: bool) returns (r: seq<Json>)
    requires Patched(es, x, y, Min(|x|, |y|))
    ensures Outcome(ApplyAll(Arr(es), RemoveOps(|x|, |y|) + AddOps(y, Min(|x|, |y|)), top), LengthsGood(x, y), Arr(r))
    ensures |r| == |y| && forall k | 0 <= k < |y| :: Eq(r[k], y[k])
  {
    var m := Min(|x|, |y|);
    var z := es[..m];
    r := z + y[m..];
    forall k | 0 <= k < |y| ensures Eq(r[k], y[k]) {
      EqReflexive(y[k]);
    }
    ApplyAllAppend(Arr(es), RemoveOps(|x|, |y|), AddOps(y, m), top);
    if |x| > |y| {
      RemovePhase(es, m, top);
      assert r == z;
    } else {
      assert z == es;
      AddPhase(z, y, top);
    }
  }

  lemma {:induction false} PatchArrays(x: seq<Json>, y: seq<Json>, top: bool) returns (r: Json)
    requires Ordered(Arr(x)) && Ordered(Arr(y)) && !Eq(Arr(x), Arr(y))
    ensures Outcome(ApplyAll(Arr(x), DiffOps(Arr(x), Arr(y)), top), Addressable(Arr(x), Arr(y)), r)
    ensures Addressable(Arr(x), Arr(y)) ==> Eq(r, Arr(y))
    decreases x, |x| + 1, 0
  {
    var common, removes, adds := CommonOps(x, y, 0), RemoveOps(|x|, |y|), AddOps(y, Min(|x|, |y|));
    ConcatAssociative(common, removes, adds);
    var es := CommonPhase(x, x, y, 0, top);
    ApplyAllAppend(Arr(x), common, removes + adds, top);
    r := Null;
    if CommonGood(x, y, 0) {
      var z := TailPhase(es, x, y, top);
      r := Arr(z);
    }
    assert Addressable(Arr(x), Arr(y)) <==> LengthsGood(x, y) && CommonGood(x, y, 0);
  }

  //////// Objects ////////

  lemma {:induction false} FindAppend(a: seq<Member>, m: Member, k: Text)
    ensures Find(a + [m], k) == if Find(a, k).Some? then Find(a, k) else if m.key == k then Some(m.value) else None
  {
    if a == [] {
    } else {
      assert (a + [m])[1..] == a[1..] + [m];
      FindAppend(a[1..], m, k);
    }
  }

  lemma FindPrefix(ms: seq<Member>, i: nat)
    requires Sorted(ms) && i < |ms|
    ensures Find(ms[..i], ms[i].key).None?
    ensures forall k :: Find(ms[..i + 1], k) ==
                        if k == ms[i].key then Some(ms[i].value) else Find(ms[..i], k)
  {
    FindNone(ms[..i], ms[i].key);
    forall n | 0 <= n < i ensures ms[..i][n].key != ms[i].key { BeforeTotal(ms[n].key, ms[i].key); }
    assert ms[..i + 1] == ms[..i] + [ms[i]];
    forall k ensures Find(ms[..i + 1], k) == if k == ms[i].key then Some(ms[i].value) else Find(ms[..i], k) {
      FindAppend(ms[..i], ms[i], k);
    }
  }

  /** What the object is after the first i keys of the source have been dealt with. */
  ghost predicate Halfway(d: seq<Member>, x: seq<Member>, y: seq<Member>, i: nat)
    requires i <= |x|
  {
    Sorted(d) && forall k ::
      if Find(x[..i], k).None? then Find(d, k) == Find(x, k)
      else if Find(y, k).None? then Find(d, k).None?
      else Find(d, k).Some? && Eq(Find(d, k).value, Find(y, k).value)
  }

  predicate KeyGood(x: seq<Member>, y: seq<Member>, i: nat) {
    forall k | i <= k < |x| && Find(y, x[k].key).Some? :: Addressable(x[k].value, Find(y, x[k].key).value)
  }

  function OpsForKey(x: seq<Member>, y: seq<Member>, i: nat): seq<Op>
    requires i < |x|
  {
    match Find(y, x[i].key)
    case Some(v) => UnderAll(x[i].key, DiffOps(x[i].value, v))
    case None => [Remove([x[i].key])]
  }

  lemma {:induction false} OneKey(d: seq<Member>, x: seq<Member>, y: seq<Member>, i: nat, top: bool)
    returns (e: seq<Member>)
    requires Ordered(Obj(x)) && Ordered(Obj(y)) && i < |x| && Halfway(d, x, y, i)
    ensures var good := Find(y, x[i].key).Some? ==> Addressable(x[i].value, Find(y, x[i].key).value);
            Outcome(ApplyAll(Obj(d), OpsForKey(x, y, i), top), good, Obj(e)) && (good ==> Halfway(e, x, y, i + 1))
    decreases x, |x| - i, 0
  {
    var key, value := x[i].key, x[i].value;
    FindPrefix(x, i);
    FindMember(x, i);
    assert Find(d, key) == Some(value);
    e := d;
    match Find(y, key) {
      case None =>
        var op := Remove([key]);
        assert op.path[..0] == [];
        EraseSorted(d, key);
        forall k ensures Find(Erase(d, key), k) == if k == key then None else Find(d, k) { FindErase(d, key, k); }
        e := Erase(d, key);
      case Some(v) =>
        var n := FindSome(y, key);
        var ops := DiffOps(value, v);
        var c := PatchOfDiff(value, v, false);
        DiffOpsHaveParents(value, v);
        ApplyAllUnder(Obj(d), key, ops, top);
        if ops != [] && Addressable(value, v) {
          PutSorted(d, key, c);
          forall k ensures Find(Put(d, key, c), k) == if k == key then Some(c) else Find(d, k) {
            FindPut(d, key, c, k);
          }
          e := Put(d, key, c);
        }
    }
  }

  lemma {:induction false} KeyPhase(d: seq<Member>, x: seq<Member>, y: seq<Member>, i: nat, top: bool)
    returns (e: seq<Member>)
    requires Ordered(Obj(x)) && Ordered(Obj(y)) && i <= |x| && Halfway(d, x, y, i)
    ensures Outcome(ApplyAll(Obj(d), KeyOps(x, y, i), top), KeyGood(x, y, i), Obj(e))
    ensures KeyGood(x, y, i) ==> Halfway(e, x, y, |x|)
    decreases x, |x| - i, 1
  {
    e := d;
    if i < |x| {
      var next := OneKey(d, x, y, i, top);
      ApplyAllAppend(Obj(d), OpsForKey(x, y, i), KeyOps(x, y, i + 1), top);
      if Find(y, x[i].key).Some? ==> Addressable(x[i].value, Find(y, x[i].key).value) {
        e := KeyPhase(next, x, y, i + 1, top);
      }
    }
  }

  /** What the object is after the first i keys of the target have been looked at. */
  ghost predicate Nearly(d: seq<Member>, x: seq<Member>, y: seq<Member>, i: nat)
    requires i <= |y|
  {
    Sorted(d) && forall k ::
      if Find(y, k).None? || (Find(x, k).None? && Find(y[..i], k).None?) then Find(d, k).None?
      else Find(d, k).Some? && Eq(Find(d, k).value, Find(y, k).value)
  }

  lemma {:induction false} NewPhase(d: seq<Member>, x: seq<Member>, y: seq<Member>, i: nat, top: bool)
    returns (e: seq<Member>)
    requires Sorted(y) && i <= |y| && Nearly(d, x, y, i)
    ensures ApplyAll(Obj(d), NewOps(x, y, i), top) == Ok(Obj(e)) && Nearly(e, x, y, |y|)
    decreases |y| - i
  {
    if i < |y| {
      var key, value := y[i].key, y[i].value;
      FindPrefix(y, i);
      FindMember(y, i);
      if Find(x, key).None? {
        var op := Add([key], value);
        assert op.path[..0] == [];
        PutSorted(d, key, value);
        EqReflexive(value);
        forall k ensures Find(Put(d, key, value), k) == if k == key then Some(value) else Find(d, k) {
          FindPut(d, key, value, k);
        }
        var next := Put(d, key, value);
        e := NewPhase(next, x, y, i + 1, top);
        assert ApplyOp(Obj(d), op, top) == Ok(Obj(next));
        ApplyAllAppend(Obj(d), [op], NewOps(x, y, i + 1), top);
      } else {
        e := NewPhase(d, x, y, i + 1, top);
        assert [] + NewOps(x, y, i + 1) == NewOps(x, y, i + 1);
      }
    } else {
      e := d;
    }
  }

  lemma {:induction false} PatchObjects(x: seq<Member>, y: seq<Member>, top: bool) returns (r: Json)
    requires Ordered(Obj(x)) && Ordered(Obj(y)) && !Eq(Obj(x), Obj(y))
    ensures Outcome(ApplyAll(Obj(x), DiffOps(Obj(x), Obj(y)), top), Addressable(Obj(x), Obj(y)), r)
    ensures Addressable(Obj(x), Obj(y)) ==> Eq(r, Obj(y))
    decreases x, |x| + 1, 0
  {
    var half := KeyPhase(x, x, y, 0, top);
    ApplyAllAppend(Obj(x), KeyOps(x, y, 0), NewOps(x, y, 0), top);
    r := Null;
    if KeyGood(x, y, 0) {
      assert x[..|x|] == x;
      var full := NewPhase(half, x, y, 0, top);
      assert y[..|y|] == y;
      SameKeysSameOrder(full, y);
      forall i | 0 <= i < |full| ensures Eq(full[i].value, y[i].value) {
        FindMember(full, i);
        FindMember(y, i);
        assert Find(full, y[i].key) == Some(full[i].value);
      }
      r := Obj(full);
    }
  }

  //////// The invariant ////////

  /** Applying the operations of diff succeeds exactly if they are addressable, and then gives the target. */
  lemma {:induction false} PatchOfDiff(s: Json, t: Json, top: bool) returns (r: Json)
    requires Ordered(s) && Ordered(t)
    ensures Outcome(ApplyAll(s, DiffOps(s, t), top), Addressable(s, t), r)
    ensures Addressable(s, t) ==> Eq(r, t)
    decreases s
  {
    if Eq(s, t) {
      r := s;
    } else if s.Arr? && t.Arr? {
      r := PatchArrays(s.es, t.es, top);
    } else if s.Obj? && t.Obj? {
      r := PatchObjects(s.ms, t.ms, top);
    } else {
      r := t;
      EqReflexive(t);
      assert ApplyOp(s, Replace([], t), top) == Ok(t);
      assert ApplyAll(s, [Replace([], t)], top) == ApplyAll(t, [], top);
    }
  }
}
