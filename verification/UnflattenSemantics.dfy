// What unflatten makes of any object, told by what stands in the result: each member places its value at its pointer,
// and what is missing on the way is created.

module UnflattenSemantics {
  import opened ByteStrings
  import opened Decimal
  import opened JsonValue
  import opened JsonPointer
  import opened JsonAccess
  import opened JsonFlatten
  import opened PatchSemantics

  /** An index into an array as get_and_create reads it: neither leading zeros nor "-" are special. */
  predicate IsSlot(token: Text) {
    Stoi(token).Ok? && Stoi(token).value >= 0
  }

  /** r is j with v at p: null becomes an array in front of the token "0" and an object otherwise, missing members and
      elements are created, and nothing else changes. A boolean, a number or a string on the way is an error. */
  ghost predicate Placed(j: Json, p: seq<Text>, v: Json, r: Json)
    decreases |p|
  {
    if p == [] then r == v
    else if j.Obj? || (j.Null? && p[0] != [0x30]) then
      var ms := if j.Obj? then j.ms else [];
      r.Obj? && Find(r.ms, p[0]).Some? && DiffersAt(r.ms, ms, p[0], Find(r.ms, p[0])) &&
      Placed(OrNull(Find(ms, p[0])), p[1..], v, Find(r.ms, p[0]).value)
    else if j.Arr? || j.Null? then
      var es := if j.Arr? then j.es else [];
      IsSlot(p[0]) && r.Arr? &&
      var i := Stoi(p[0]).value;
      |r.es| == (if i < |es| then |es| else i + 1) &&
      (forall k | 0 <= k < |r.es| && k != i :: r.es[k] == ElementOrNull(es, k)) &&
      Placed(ElementOrNull(es, i), p[1..], v, r.es[i])
    else false
  }

  lemma ZeroIsSlot()
    ensures Stoi([0x30]) == Ok(0)
  {
    assert [0x30][..1] == [0x30] && [0x30][..0] == [] && DigitsAhead([0x30]) == 1;
  }

  /** The element that get_and_create finds, or creates as null. */
  lemma GrownElement(j: Json, es: seq<Json>, token: Text, c: Json)
    requires j == Arr(es) || (j.Null? && es == [] && token == [0x30])
    ensures Grown(j, token).Ok? <==> IsSlot(token)
    ensures IsSlot(token) ==>
              var (k, slot) := Grown(j, token).value;
              var i := Stoi(token).value;
              Child(k, slot) == ElementOrNull(es, i) && WithChild(k, slot, c) == Arr(Filled(es, i)[i := c])
  {
    hide Stoi;
    ZeroIsSlot();
  }

  lemma {:induction false} PlaceIsPlaced(j: Json, p: seq<Text>, v: Json, r: Json)
    requires Ordered(j)
    ensures JsonFlatten.Place(j, p, v) == Ok(r) <==> Placed(j, p, v, r)
    decreases |p|, 2
  {
    hide Ordered, Find, Put, DiffersAt, Stoi, Filled;
    if p == [] {
    } else if j.Obj? || (j.Null? && p[0] != [0x30]) {
      OrderedNothing();
      MemberIsPlaced(j, if j.Obj? then j.ms else [], p, v, r);
    } else if j.Arr? || j.Null? {
      OrderedNothing();
      ElementIsPlaced(j, if j.Arr? then j.es else [], p, v, r);
    }
  }

  lemma {:induction false} MemberIsPlaced(j: Json, ms: seq<Member>, p: seq<Text>, v: Json, r: Json)
    requires p != [] && Ordered(Obj(ms)) && (j == Obj(ms) || (j.Null? && ms == [] && p[0] != [0x30]))
    ensures JsonFlatten.Place(j, p, v) == Ok(r) <==> Placed(j, p, v, r)
    decreases |p|, 1
  {
    hide Sorted, Find, Put, DiffersAt, Stoi, CreatedKey, Child, WithChild;
    var child := OrNull(Find(ms, p[0]));
    assert Ordered(child) by { if Find(ms, p[0]).Some? { OrderedMember(ms, p[0]); } }
    CreatedMember(ms, p[0], Null);
    var placed := JsonFlatten.Place(child, p[1..], v);
    if placed.Ok? {
      PlaceIsPlaced(child, p[1..], v, placed.value);
      CreatedMember(ms, p[0], placed.value);
      if r.Obj? { MemberReplaced(ms, p[0], placed.value, r.ms); }
    }
    if r.Obj? && Find(r.ms, p[0]).Some? {
      PlaceIsPlaced(child, p[1..], v, Find(r.ms, p[0]).value);
    }
  }

  lemma {:induction false} ElementIsPlaced(j: Json, es: seq<Json>, p: seq<Text>, v: Json, r: Json)
    requires p != [] && Ordered(Arr(es)) && (j == Arr(es) || (j.Null? && es == [] && p[0] == [0x30]))
    ensures JsonFlatten.Place(j, p, v) == Ok(r) <==> Placed(j, p, v, r)
    decreases |p|, 1
  {
    hide Sorted, Stoi, Ordered, IsSlot, JsonFlatten.Place, Placed, Filled;
    PlaceBehind(j, es, p, v);
    if IsSlot(p[0]) {
      var i := SlotOf(p[0]);
      var child := ElementOrNull(es, i);
      var placed := JsonFlatten.Place(child, p[1..], v);
      Filling(es, i);
      OrderedElementOrNull(es, i);
      if placed.Ok? {
        PlaceIsPlaced(child, p[1..], v, placed.value);
        if r.Arr? { ElementReplaced(Filled(es, i), i, placed.value, r.es); }
      }
      if r.Arr? && |r.es| > i {
        PlaceIsPlaced(child, p[1..], v, r.es[i]);
      }
      PlacedBehind(j, es, p, v, r);
    } else {
      PlacedBehind(j, es, p, v, r);
    }
  }

  function SlotOf(token: Text): nat
    requires IsSlot(token)
  {
    Stoi(token).value
  }

  /** One step of get_and_create into an array. */
  lemma PlaceBehind(j: Json, es: seq<Json>, p: seq<Text>, v: Json)
    requires p != [] && (j == Arr(es) || (j.Null? && es == [] && p[0] == [0x30]))
    ensures !IsSlot(p[0]) ==> JsonFlatten.Place(j, p, v).Err?
    ensures IsSlot(p[0]) ==>
              var i := SlotOf(p[0]);
              var placed := JsonFlatten.Place(ElementOrNull(es, i), p[1..], v);
              JsonFlatten.Place(j, p, v) == if placed.Ok? then Ok(Arr(Filled(es, i)[i := placed.value])) else placed
  {
    hide Stoi, Grown, Child, WithChild, Filled, ElementOrNull;
    GrownElement(j, es, p[0], Null);
    if IsSlot(p[0]) {
      var placed := JsonFlatten.Place(ElementOrNull(es, SlotOf(p[0])), p[1..], v);
      if placed.Ok? {
        GrownElement(j, es, p[0], placed.value);
      }
    }
  }

  lemma PlacedBehind(j: Json, es: seq<Json>, p: seq<Text>, v: Json, r: Json)
    requires p != [] && (j == Arr(es) || (j.Null? && es == [] && p[0] == [0x30]))
    ensures Placed(j, p, v, r) <==>
            IsSlot(p[0]) && r.Arr? &&
            var i := SlotOf(p[0]);
            |r.es| == (if i < |es| then |es| else i + 1) &&
            (forall k | 0 <= k < |r.es| && k != i :: r.es[k] == ElementOrNull(es, k)) &&
            Placed(ElementOrNull(es, i), p[1..], v, r.es[i])
  {
    hide Stoi, ElementOrNull, Find, DiffersAt;
  }

  lemma OrderedElementOrNull(es: seq<Json>, i: nat)
    requires Ordered(Arr(es))
    ensures Ordered(ElementOrNull(es, i))
  {
  }

  lemma {:induction false} PlacedIsOrdered(j: Json, p: seq<Text>, v: Json, r: Json)
    requires Ordered(j) && IsPrimitive(v) && Placed(j, p, v, r)
    ensures Ordered(r)
    decreases |p|
  {
    hide Stoi, Find;
    OrderedNothing();
    if p == [] {
    } else if r.Obj? {
      var ms := if j.Obj? then j.ms else [];
      if Find(ms, p[0]).Some? { OrderedMember(ms, p[0]); }
      PlacedIsOrdered(OrNull(Find(ms, p[0])), p[1..], v, Find(r.ms, p[0]).value);
      MembersAreOrdered(ms, p[0], r.ms);
    } else {
      var es := if j.Arr? then j.es else [];
      var i := Stoi(p[0]).value;
      PlacedIsOrdered(ElementOrNull(es, i), p[1..], v, r.es[i]);
      forall k | 0 <= k < |r.es| ensures Ordered(r.es[k]) {
        assert k != i ==> r.es[k] == ElementOrNull(es, k);
      }
    }
  }

  /** One member: a primitive value under a pointer. */
  ghost predicate IsStep(m: Member, j: Json, r: Json) {
    IsPrimitive(m.value) && SplitSpec(m.key).Ok? && Placed(j, SplitSpec(m.key).value, m.value, r)
  }

  /** The values that the result passes through, from null on. */
  ghost predicate AreSteps(ms: seq<Member>, js: seq<Json>) {
    |js| == |ms| + 1 && forall i | 0 <= i < |ms| :: IsStep(ms[i], js[i], js[i + 1])
  }

  lemma AssembleStep(j: Json, ms: seq<Member>)
    requires ms != [] && Ordered(j)
    ensures Assembled(j, ms).Ok? ==> exists k :: IsStep(ms[0], j, k) && Assembled(j, ms) == Assembled(k, ms[1..])
    ensures forall k :: IsStep(ms[0], j, k) ==> Assembled(j, ms) == Assembled(k, ms[1..]) && Ordered(k)
  {
    hide SplitSpec, Placed, JsonFlatten.Place, Ordered;
    var m := ms[0];
    if IsPrimitive(m.value) && SplitSpec(m.key).Ok? {
      var tokens := SplitSpec(m.key).value;
      var next := JsonFlatten.Place(j, tokens, m.value);
      if next.Ok? {
        PlaceIsPlaced(j, tokens, m.value, next.value);
        assert IsStep(m, j, next.value);
      }
      forall k | IsStep(m, j, k) ensures next == Ok(k) && Ordered(k) {
        PlaceIsPlaced(j, tokens, m.value, k);
        PlacedIsOrdered(j, tokens, m.value, k);
      }
    }
  }

  lemma {:induction false} StepsOfAssembled(j: Json, ms: seq<Member>) returns (js: seq<Json>)
    requires Ordered(j) && Assembled(j, ms).Ok?
    ensures AreSteps(ms, js) && js[0] == j && Assembled(j, ms) == Ok(js[|ms|])
    decreases |ms|
  {
    hide IsStep, Ordered;
    if ms == [] {
      js := [j];
    } else {
      AssembleStep(j, ms);
      var k :| IsStep(ms[0], j, k) && Assembled(j, ms) == Assembled(k, ms[1..]);
      var rest := StepsOfAssembled(k, ms[1..]);
      js := [j] + rest;
      forall i | 0 <= i < |ms| ensures IsStep(ms[i], js[i], js[i + 1]) {
        if i > 0 { assert IsStep(ms[1..][i - 1], rest[i - 1], rest[i - 1 + 1]); }
      }
    }
  }

  lemma {:induction false} AssembledOfSteps(j: Json, ms: seq<Member>, js: seq<Json>)
    requires Ordered(j) && AreSteps(ms, js) && js[0] == j
    ensures Assembled(j, ms) == Ok(js[|ms|])
    decreases |ms|
  {
    hide IsStep, Ordered;
    if ms == [] {
    } else {
      AssembleStep(j, ms);
      assert IsStep(ms[0], js[0], js[0 + 1]);
      forall i | 0 <= i < |ms[1..]| ensures IsStep(ms[1..][i], js[1..][i], js[1..][i + 1]) {
        assert IsStep(ms[i + 1], js[i + 1], js[i + 1 + 1]);
      }
      AssembledOfSteps(js[1], ms[1..], js[1..]);
    }
  }

  /** unflatten succeeds exactly if every member of the object has a primitive value and a pointer as key, and its value
      can be placed; the result is what has been placed, member by member, beginning with null. */
  lemma UnflattenPlacesMembers(ms: seq<Member>, r: Json)
    ensures Assembled(Null, ms) == Ok(r) <==> exists js :: AreSteps(ms, js) && js[0] == Null && js[|ms|] == r
  {
    hide AreSteps, Assembled;
    assert Ordered(Null);
    if Assembled(Null, ms) == Ok(r) {
      var js := StepsOfAssembled(Null, ms);
      assert |js| == |ms| + 1 by { StepsLength(ms, js); }
    }
    forall js | AreSteps(ms, js) ensures |js| == |ms| + 1 { StepsLength(ms, js); }
    if js :| AreSteps(ms, js) && js[0] == Null && js[|ms|] == r {
      AssembledOfSteps(Null, ms, js);
    }
  }

  lemma StepsLength(ms: seq<Member>, js: seq<Json>)
    requires AreSteps(ms, js)
    ensures |js| == |ms| + 1
  {
  }
}
