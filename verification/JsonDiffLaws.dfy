// Which operations diff writes: each one names a place where the two documents differ, and does what this difference
// asks for, no more. That they are enough is PatchUndoesDiff.

module JsonDiffLaws {
  import opened ByteStrings
  import opened Decimal
  import opened JsonValue
  import opened JsonPatch
  import opened JsonPatchLaws
  import opened JsonPatchDocument
  import opened PatchSemantics

  /** What an operation says about its place: a value is missing in the target, is new in it, or is another one that is
      not compared further, because the types differ or there is nothing inside. */
  predicate IsDifference(s: Json, t: Json, op: Op) {
    var a, b := ValueAt(s, op.path), ValueAt(t, op.path);
    match op
    case Remove(_) => a.Some? && b.None?
    case Add(_, v) => a.None? && b == Some(v)
    case Replace(_, v) =>
      a.Some? && b == Some(v) && !Eq(a.value, v) && (SameType(a.value, v) ==> IsPrimitive(v))
  }

  predicate AreDifferences(s: Json, t: Json, ops: seq<Op>) {
    forall i | 0 <= i < |ops| :: IsDifference(s, t, ops[i])
  }

  lemma JoinDifferences(s: Json, t: Json, a: seq<Op>, b: seq<Op>)
    requires AreDifferences(s, t, a) && AreDifferences(s, t, b)
    ensures AreDifferences(s, t, a + b)
  {
  }

  lemma NumeralStep(es: seq<Json>, i: nat)
    requires |es| <= INT_MAX + 1
    ensures i < |es| ==> StepAt(Arr(es), Numeral(i)) == Some(es[i])
    ensures |es| <= i ==> StepAt(Arr(es), Numeral(i)) == None
  {
    StoiNumeral(i);
    NoLeadingZero(i);
  }

  /** A difference of two children is one of their parents. */
  lemma {:induction false} UnderDifferences(s: Json, t: Json, token: Text, c: Json, d: Json, ops: seq<Op>)
    requires StepAt(s, token) == Some(c) && StepAt(t, token) == Some(d) && AreDifferences(c, d, ops)
    ensures AreDifferences(s, t, UnderAll(token, ops))
    decreases |ops|
  {
    hide StepAt, Eq;
    if ops == [] {
    } else {
      var p := ops[0].path;
      assert ([token] + p)[1..] == p;
      assert IsDifference(c, d, ops[0]);
      assert IsDifference(s, t, Under(token, ops[0]));
      UnderDifferences(s, t, token, c, d, ops[1..]);
      JoinDifferences(s, t, [Under(token, ops[0])], UnderAll(token, ops[1..]));
    }
  }

  lemma OneStep(j: Json, token: Text)
    ensures ValueAt(j, [token]) == StepAt(j, token)
  {
    assert [token][1..] == [];
  }

  /** Every operation of diff is a difference of the two documents at its place. */
  lemma {:induction false} DiffIsDifferences(s: Json, t: Json)
    requires Ordered(s) && Ordered(t) && ShortArrays(s) && ShortArrays(t)
    ensures AreDifferences(s, t, DiffOps(s, t))
    decreases s, 0
  {
    hide IsDifference, ValueAt, Eq, CommonOps, KeyOps;
    if Eq(s, t) {
    } else if !SameType(s, t) || IsPrimitive(s) {
      RootDiffers(s, t);
    } else if s.Arr? {
      var x, y := s.es, t.es;
      CommonDifferences(x, y, 0);
      RemovedElements(x, y, |x|);
      AddedElements(x, y, Min(|x|, |y|));
      JoinDifferences(s, t, CommonOps(x, y, 0), RemoveOps(|x|, |y|));
      JoinDifferences(s, t, CommonOps(x, y, 0) + RemoveOps(|x|, |y|), AddOps(y, Min(|x|, |y|)));
    } else {
      KeyDifferences(s.ms, t.ms, 0);
      NewMembers(s.ms, t.ms, 0);
      JoinDifferences(s, t, KeyOps(s.ms, t.ms, 0), NewOps(s.ms, t.ms, 0));
    }
  }

  lemma RootDiffers(s: Json, t: Json)
    requires !Eq(s, t) && (!SameType(s, t) || IsPrimitive(s))
    ensures IsDifference(s, t, Replace([], t)) && DiffOps(s, t) == [Replace([], t)]
  {
  }

  lemma {:induction false} CommonDifferences(x: seq<Json>, y: seq<Json>, i: nat)
    requires Ordered(Arr(x)) && Ordered(Arr(y)) && ShortArrays(Arr(x)) && ShortArrays(Arr(y))
    ensures AreDifferences(Arr(x), Arr(y), CommonOps(x, y, i))
    decreases x, |x| - i
  {
    hide IsDifference, ValueAt, StepAt, Eq, DiffOps;
    if i >= |x| || i >= |y| {
    } else {
      var here, rest := UnderAll(Numeral(i), DiffOps(x[i], y[i])), CommonOps(x, y, i + 1);
      NumeralStep(x, i);
      NumeralStep(y, i);
      DiffIsDifferences(x[i], y[i]);
      UnderDifferences(Arr(x), Arr(y), Numeral(i), x[i], y[i], DiffOps(x[i], y[i]));
      CommonDifferences(x, y, i + 1);
      JoinDifferences(Arr(x), Arr(y), here, rest);
    }
  }

  lemma {:induction false} RemovedElements(x: seq<Json>, y: seq<Json>, n: nat)
    requires n <= |x| <= INT_MAX + 1 && |y| <= INT_MAX + 1
    ensures AreDifferences(Arr(x), Arr(y), RemoveOps(n, |y|))
    decreases n
  {
    hide StepAt, ValueAt;
    if n <= |y| {
    } else {
      NumeralStep(x, n - 1);
      NumeralStep(y, n - 1);
      OneStep(Arr(x), Numeral(n - 1));
      OneStep(Arr(y), Numeral(n - 1));
      RemovedElements(x, y, n - 1);
      JoinDifferences(Arr(x), Arr(y), [Remove([Numeral(n - 1)])], RemoveOps(n - 1, |y|));
    }
  }

  lemma {:induction false} AddedElements(x: seq<Json>, y: seq<Json>, i: nat)
    requires Min(|x|, |y|) <= i && |x| <= INT_MAX + 1 && |y| <= INT_MAX + 1
    ensures AreDifferences(Arr(x), Arr(y), AddOps(y, i))
    decreases |y| - i
  {
    hide StepAt, ValueAt;
    if i >= |y| {
    } else {
      NumeralStep(x, i);
      NumeralStep(y, i);
      OneStep(Arr(x), Numeral(i));
      OneStep(Arr(y), Numeral(i));
      AddedElements(x, y, i + 1);
      JoinDifferences(Arr(x), Arr(y), [Add([Numeral(i)], y[i])], AddOps(y, i + 1));
    }
  }

  lemma {:induction false} KeyDifferences(x: seq<Member>, y: seq<Member>, i: nat)
    requires Ordered(Obj(x)) && Ordered(Obj(y)) && ShortArrays(Obj(x)) && ShortArrays(Obj(y))
    ensures AreDifferences(Obj(x), Obj(y), KeyOps(x, y, i))
    decreases x, |x| - i
  {
    hide IsDifference, ValueAt, Eq, DiffOps, Find, KeyOps;
    if i >= |x| {
      assert KeyOps(x, y, i) == [] by { NoKeys(x, y, i); }
    } else {
      KeyDifference(x, y, i);
      KeyDifferences(x, y, i + 1);
      KeysFrom(x, y, i);
      JoinDifferences(Obj(x), Obj(y), OpsForKey(x, y, i), KeyOps(x, y, i + 1));
    }
  }

  lemma NoKeys(x: seq<Member>, y: seq<Member>, i: nat)
    requires i >= |x|
    ensures KeyOps(x, y, i) == []
  {
  }

  lemma KeysFrom(x: seq<Member>, y: seq<Member>, i: nat)
    requires i < |x|
    ensures KeyOps(x, y, i) == OpsForKey(x, y, i) + KeyOps(x, y, i + 1)
  {
  }

  lemma {:induction false} KeyDifference(x: seq<Member>, y: seq<Member>, i: nat)
    requires i < |x| && Ordered(Obj(x)) && Ordered(Obj(y)) && ShortArrays(Obj(x)) && ShortArrays(Obj(y))
    ensures AreDifferences(Obj(x), Obj(y), OpsForKey(x, y, i))
    decreases x, 0
  {
    hide ValueAt, Eq, DiffOps, Find;
    var key, s, t := x[i].key, Obj(x), Obj(y);
    FindMember(x, i);
    if Find(y, key).Some? {
      var d := Find(y, key).value;
      var n := FindSome(y, key);
      DiffIsDifferences(x[i].value, d);
      UnderDifferences(s, t, key, x[i].value, d, DiffOps(x[i].value, d));
    } else {
      OneStep(s, key);
      OneStep(t, key);
    }
  }

  lemma {:induction false} NewMembers(x: seq<Member>, y: seq<Member>, i: nat)
    requires Sorted(y)
    ensures AreDifferences(Obj(x), Obj(y), NewOps(x, y, i))
    decreases |y| - i
  {
    hide ValueAt, Find;
    if i >= |y| {
    } else {
      var here := if Find(x, y[i].key).None? then [Add([y[i].key], y[i].value)] else [];
      FindMember(y, i);
      OneStep(Obj(x), y[i].key);
      OneStep(Obj(y), y[i].key);
      NewMembers(x, y, i + 1);
      JoinDifferences(Obj(x), Obj(y), here, NewOps(x, y, i + 1));
    }
  }

  /** There is nothing to do exactly for equal values. */
  lemma NoDifferences(s: Json, t: Json)
    requires Ordered(s) && Ordered(t) && ShortArrays(s) && ShortArrays(t)
    ensures DiffOps(s, t) == [] <==> Eq(s, t)
  {
    hide Eq, DiffOps;
    if DiffOps(s, t) == [] {
      ShortIsAddressable(s, t);
      PatchUndoesDiff(s, t);
      assert PatchSpec(s, []) == Ok(s);
    } else {
      NothingForEqual(s, t);
    }
  }

  lemma NothingForEqual(s: Json, t: Json)
    ensures Eq(s, t) ==> DiffOps(s, t) == []
  {
  }
}
