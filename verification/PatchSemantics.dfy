// What an edit makes of a document, told by what stands in the result (section 4 of RFC 6902): which elements and
// members are there, which are new, and which stay.

module PatchSemantics {
  import opened ByteStrings
  import opened Decimal
  import opened JsonValue
  import opened JsonAccess
  import opened JsonPatch
  import opened JsonPatchDocument

  //////// Where a pointer leads ////////

  /** An index into an array of n elements: digits without a leading zero, as std::stoi reads them. */
  predicate IsIndex(token: Text, n: nat) {
    !(|token| > 1 && token[0] == 0x30) && Stoi(token).Ok? && 0 <= Stoi(token).value < n
  }

  function StepAt(j: Json, token: Text): Option<Json> {
    if j.Obj? then Find(j.ms, token)
    else if j.Arr? && IsIndex(token, |j.es|) then Some(j.es[Stoi(token).value])
    else None
  }

  /** The value at a pointer, if there is one (section 4 of RFC 6901). */
  function ValueAt(j: Json, p: seq<Text>): Option<Json>
    decreases |p|
  {
    if p == [] then Some(j)
    else if StepAt(j, p[0]).None? then None
    else ValueAt(StepAt(j, p[0]).value, p[1..])
  }

  lemma {:induction false} ResolvedIsValue(j: Json, p: seq<Text>)
    ensures Resolved(j, p).Ok? <==> ValueAt(j, p).Some?
    ensures Resolved(j, p).Ok? ==> Resolved(j, p).value == ValueAt(j, p).value
    decreases |p|
  {
    if p != [] && Locate(j, p[0]).Ok? {
      ResolvedIsValue(Child(j, Locate(j, p[0]).value), p[1..]);
    }
  }

  //////// What an operation changes ////////

  datatype Change = Replaces(v: Json) | Adds(token: Text, v: Json) | Removes(token: Text)

  /** The object r is ms, except for what stands under one key. */
  ghost predicate DiffersAt(r: seq<Member>, ms: seq<Member>, key: Text, o: Option<Json>) {
    Sorted(r) && forall k :: Find(r, k) == if k == key then o else Find(ms, k)
  }

  /** v stands in the array r at "-" or at an index up to the length; the elements behind it have moved on. */
  predicate Inserted(r: seq<Json>, es: seq<Json>, token: Text, v: Json) {
    (token == [0x2d] || (Stoi(token).Ok? && 0 <= Stoi(token).value <= |es|)) &&
    var i := if token == [0x2d] then |es| else Stoi(token).value;
    |r| == |es| + 1 && r[i] == v && (forall k | 0 <= k < i :: r[k] == es[k]) &&
    (forall k | i <= k < |es| :: r[k + 1] == es[k])
  }

  /** One element of the array is gone; those behind it have moved up. */
  predicate Dropped(r: seq<Json>, es: seq<Json>, token: Text) {
    Stoi(token).Ok? && 0 <= Stoi(token).value < |es| &&
    var i := Stoi(token).value;
    |r| == |es| - 1 && (forall k | 0 <= k < i :: r[k] == es[k]) && (forall k | i <= k < |r| :: r[k] == es[k + 1])
  }

  /** r is j after the change. Adding to null makes an object; removing from anything that is neither an object nor an
      array changes nothing. */
  ghost predicate ChangedHere(j: Json, c: Change, r: Json) {
    if c.Replaces? then r == c.v
    else if c.Adds? then
      if j.Arr? then r.Arr? && Inserted(r.es, j.es, c.token, c.v)
      else (j.Null? || j.Obj?) && r.Obj? && DiffersAt(r.ms, if j.Obj? then j.ms else [], c.token, Some(c.v))
    else
      if j.Arr? then r.Arr? && Dropped(r.es, j.es, c.token)
      else if j.Obj? then Find(j.ms, c.token).Some? && r.Obj? && DiffersAt(r.ms, j.ms, c.token, None)
      else r == j
  }

  /** r is j after the change of the value at p, which must be there. */
  ghost predicate Changed(j: Json, p: seq<Text>, c: Change, r: Json)
    decreases |p|
  {
    if p == [] then ChangedHere(j, c, r)
    else if j.Obj? then
      Find(j.ms, p[0]).Some? && r.Obj? && Find(r.ms, p[0]).Some? && DiffersAt(r.ms, j.ms, p[0], Find(r.ms, p[0])) &&
      Changed(Find(j.ms, p[0]).value, p[1..], c, Find(r.ms, p[0]).value)
    else
      j.Arr? && IsIndex(p[0], |j.es|) && r.Arr? && |r.es| == |j.es| &&
      var i := Stoi(p[0]).value;
      (forall k | 0 <= k < |j.es| && k != i :: r.es[k] == j.es[k]) && Changed(j.es[i], p[1..], c, r.es[i])
  }

  /** A token for which get_unchecked turns null into an array. */
  predicate MakesArray(token: Text) {
    token == [0x2d] || forall i | 0 <= i < |token| :: 0x30 <= token[i] <= 0x39
  }

  /** A place in an array, beyond its end as well; "-" is the place behind the last element. */
  predicate IsPlace(token: Text) {
    token == [0x2d] || (!(|token| > 1 && token[0] == 0x30) && Stoi(token).Ok? && Stoi(token).value >= 0)
  }

  function Place(token: Text, n: nat): nat
    requires IsPlace(token)
  {
    if token == [0x2d] then n else Stoi(token).value
  }

  function OrNull(o: Option<Json>): Json {
    if o.Some? then o.value else Null
  }

  function ElementOrNull(es: seq<Json>, i: nat): Json {
    if i < |es| then es[i] else Null
  }

  /** r is j after the change of the value at p; missing members and elements on the way are created as null, and arrays
      are filled up with null. */
  ghost predicate Made(j: Json, p: seq<Text>, c: Change, r: Json)
    decreases |p|
  {
    if p == [] then ChangedHere(j, c, r)
    else if j.Obj? || (j.Null? && !MakesArray(p[0])) then
      var ms := if j.Obj? then j.ms else [];
      r.Obj? && Find(r.ms, p[0]).Some? && DiffersAt(r.ms, ms, p[0], Find(r.ms, p[0])) &&
      Made(OrNull(Find(ms, p[0])), p[1..], c, Find(r.ms, p[0]).value)
    else if j.Arr? || j.Null? then
      var es := if j.Arr? then j.es else [];
      IsPlace(p[0]) && r.Arr? &&
      var i := Place(p[0], |es|);
      |r.es| == (if i < |es| then |es| else i + 1) &&
      (forall k | 0 <= k < |r.es| && k != i :: r.es[k] == ElementOrNull(es, k)) &&
      Made(ElementOrNull(es, i), p[1..], c, r.es[i])
    else false
  }

  /** r is the document after adding v at p: the whole document is replaced if p is empty, and otherwise the first token
      must lead somewhere unless it is the last. */
  ghost predicate Added(doc: Json, p: seq<Text>, v: Json, r: Json) {
    if p == [] then r == v
    else (|p| > 1 ==> StepAt(doc, p[0]).Some?) && Made(doc, p[..|p| - 1], Adds(p[|p| - 1], v), r)
  }

  ghost predicate Removed(doc: Json, p: seq<Text>, r: Json) {
    p != [] && Changed(doc, p[..|p| - 1], Removes(p[|p| - 1]), r)
  }

  //////// The edits do that ////////

  function EditOf(c: Change): Edit {
    match c
    case Replaces(v) => Assign(v)
    case Adds(token, v) => AddChild(token, v)
    case Removes(token) => RemoveChild(token)
  }

  lemma PutDiffers(ms: seq<Member>, key: Text, v: Json, r: seq<Member>)
    requires Sorted(ms)
    ensures DiffersAt(r, ms, key, Some(v)) <==> r == Put(ms, key, v)
  {
    PutSorted(ms, key, v);
    forall k ensures Find(Put(ms, key, v), k) == if k == key then Some(v) else Find(ms, k) {
      FindPut(ms, key, v, k);
    }
    if DiffersAt(r, ms, key, Some(v)) {
      SameFindsSameMembers(r, Put(ms, key, v));
    }
  }

  lemma EraseDiffers(ms: seq<Member>, key: Text, r: seq<Member>)
    requires Sorted(ms)
    ensures DiffersAt(r, ms, key, None) <==> r == Erase(ms, key)
  {
    EraseSorted(ms, key);
    forall k ensures Find(Erase(ms, key), k) == if k == key then None else Find(ms, k) {
      FindErase(ms, key, k);
    }
    if DiffersAt(r, ms, key, None) {
      SameFindsSameMembers(r, Erase(ms, key));
    }
  }

  lemma EditHere(j: Json, c: Change, r: Json)
    requires Ordered(j)
    ensures ApplyEdit(j, EditOf(c)) == Ok(r) <==> ChangedHere(j, c, r)
  {
    hide Put, Erase, Find, Sorted, DiffersAt, Stoi;
    match c {
      case Replaces(_) =>
      case Adds(token, v) => AddHere(j, token, v, r);
      case Removes(token) => RemoveHere(j, token, r);
    }
  }

  lemma AddHere(j: Json, token: Text, v: Json, r: Json)
    requires Ordered(j)
    ensures ApplyEdit(j, AddChild(token, v)) == Ok(r) <==> ChangedHere(j, Adds(token, v), r)
  {
    hide Find, Sorted, DiffersAt, Stoi;
    if j.Arr? {
      if r.Arr? { InsertedElement(r.es, j.es, token, v); }
    } else if j.Obj? {
      if r.Obj? { PutDiffers(j.ms, token, v, r.ms); }
    } else if j.Null? {
      if r.Obj? {
        NothingSorted();
        PutDiffers([], token, v, r.ms);
        assert Put([], token, v) == [Member(token, v)];
      }
    } else {
      StoiNeverAsserts(token);
    }
  }

  lemma NothingSorted()
    ensures Sorted([])
  {
  }

  lemma InsertedElement(r: seq<Json>, es: seq<Json>, token: Text, v: Json)
    ensures ApplyEdit(Arr(es), AddChild(token, v)) == Ok(Arr(r)) <==> Inserted(r, es, token, v)
  {
    hide Stoi;
    if token != [0x2d] && Stoi(token).Ok? && 0 <= Stoi(token).value <= |es| {
      var i := Stoi(token).value;
      if Inserted(r, es, token, v) {
        assert r == es[..i] + [v] + es[i..];
      }
    } else if token == [0x2d] && Inserted(r, es, token, v) {
      assert r == es + [v];
    }
  }

  lemma RemoveHere(j: Json, token: Text, r: Json)
    requires Ordered(j)
    ensures ApplyEdit(j, RemoveChild(token)) == Ok(r) <==> ChangedHere(j, Removes(token), r)
  {
    hide Find, Erase, Sorted, DiffersAt, Stoi;
    if j.Arr? {
      if r.Arr? { DroppedElement(r.es, j.es, token); }
    } else if j.Obj? {
      if r.Obj? { EraseDiffers(j.ms, token, r.ms); }
    }
  }

  lemma DroppedElement(r: seq<Json>, es: seq<Json>, token: Text)
    ensures ApplyEdit(Arr(es), RemoveChild(token)) == Ok(Arr(r)) <==> Dropped(r, es, token)
  {
    hide Stoi;
    if Dropped(r, es, token) {
      var i := Stoi(token).value;
      assert r == es[..i] + es[i + 1..];
    }
  }

  /** One member replaced. */
  lemma MemberReplaced(ms: seq<Member>, key: Text, c: Json, r: seq<Member>)
    requires Sorted(ms)
    ensures r == Put(ms, key, c) <==> Find(r, key) == Some(c) && DiffersAt(r, ms, key, Find(r, key))
  {
    hide Sorted, Find, DiffersAt;
    PutDiffers(ms, key, c, r);
    FindPut(ms, key, c, key);
  }

  lemma ElementReplaced(es: seq<Json>, i: nat, c: Json, r: seq<Json>)
    requires i < |es|
    ensures r == es[i := c] <==> |r| == |es| && r[i] == c && forall k | 0 <= k < |es| && k != i :: r[k] == es[k]
  {
  }

  lemma OrderedMember(ms: seq<Member>, key: Text)
    requires Ordered(Obj(ms)) && Find(ms, key).Some?
    ensures Ordered(Find(ms, key).value)
  {
    var i := FindSome(ms, key);
  }

  lemma MembersAreOrdered(ms: seq<Member>, key: Text, r: seq<Member>)
    requires Ordered(Obj(ms)) && DiffersAt(r, ms, key, Find(r, key))
    requires Find(r, key).Some? ==> Ordered(Find(r, key).value)
    ensures Ordered(Obj(r))
  {
    forall i | 0 <= i < |r| ensures Ordered(r[i].value) {
      FindMember(r, i);
      if r[i].key != key {
        var n := FindSome(ms, r[i].key);
      }
    }
  }

  /** Editing what get_checked finds. */
  lemma {:induction false} CheckedEdit(j: Json, p: seq<Text>, c: Change, r: Json)
    requires Ordered(j)
    ensures EditChecked(j, p, EditOf(c)) == Ok(r) <==> Changed(j, p, c, r)
    decreases |p|
  {
    hide Ordered, Find, Put, DiffersAt, Stoi, ChangedHere, ApplyEdit, EditOf;
    if p == [] {
      EditHere(j, c, r);
    } else if j.Obj? {
      CheckedMember(j.ms, p, c, r);
    } else if j.Arr? {
      CheckedElement(j.es, p, c, r);
    }
  }

  lemma {:induction false} CheckedMember(ms: seq<Member>, p: seq<Text>, c: Change, r: Json)
    requires Ordered(Obj(ms)) && p != []
    ensures EditChecked(Obj(ms), p, EditOf(c)) == Ok(r) <==> Changed(Obj(ms), p, c, r)
    decreases |p|, 0
  {
    hide Sorted, Find, Put, DiffersAt, ChangedHere, ApplyEdit, EditOf, Stoi;
    if Find(ms, p[0]).Some? {
      var child := Find(ms, p[0]).value;
      OrderedMember(ms, p[0]);
      var edited := EditChecked(child, p[1..], EditOf(c));
      if edited.Ok? {
        CheckedEdit(child, p[1..], c, edited.value);
        if r.Obj? { MemberReplaced(ms, p[0], edited.value, r.ms); }
      }
      if r.Obj? && Find(r.ms, p[0]).Some? {
        CheckedEdit(child, p[1..], c, Find(r.ms, p[0]).value);
      }
    }
  }

  lemma {:induction false} CheckedElement(es: seq<Json>, p: seq<Text>, c: Change, r: Json)
    requires Ordered(Arr(es)) && p != []
    ensures EditChecked(Arr(es), p, EditOf(c)) == Ok(r) <==> Changed(Arr(es), p, c, r)
    decreases |p|, 0
  {
    hide Sorted, Find, DiffersAt, ChangedHere, ApplyEdit, EditOf, Stoi;
    if IsIndex(p[0], |es|) {
      var i := Stoi(p[0]).value;
      MinusIsNoIndex();
      var edited := EditChecked(es[i], p[1..], EditOf(c));
      if edited.Ok? {
        CheckedEdit(es[i], p[1..], c, edited.value);
        if r.Arr? { ElementReplaced(es, i, edited.value, r.es); }
      }
      if r.Arr? && |r.es| == |es| {
        CheckedEdit(es[i], p[1..], c, r.es[i]);
      }
    }
  }

  lemma MinusIsNoIndex()
    ensures Stoi([0x2d]).Err?
  {
  }

  lemma MakesArrayIsAllDigits(token: Text)
    ensures MakesArray(token) <==> AllDigits(token) || token == [MINUS]
  {
  }

  lemma Filling(es: seq<Json>, i: nat)
    ensures |Filled(es, i)| == if i < |es| then |es| else i + 1
    ensures forall k | 0 <= k < |Filled(es, i)| :: Filled(es, i)[k] == ElementOrNull(es, k)
  {
  }

  /** Editing what get_unchecked finds or creates. */
  lemma {:induction false} UncheckedEdit(j: Json, p: seq<Text>, c: Change, r: Json)
    requires Ordered(j)
    ensures EditUnchecked(j, p, EditOf(c)) == Ok(r) <==> Made(j, p, c, r)
    decreases |p|, 2
  {
    hide Ordered, Find, Put, DiffersAt, Stoi, ChangedHere, ApplyEdit, EditOf, MakesArray, AllDigits, Filled;
    if p == [] {
      EditHere(j, c, r);
    } else {
      MakesArrayIsAllDigits(p[0]);
      if j.Obj? {
        MadeMember(j, j.ms, p, c, r);
      } else if j.Arr? {
        MadeElement(j, j.es, p, c, r);
      } else if j.Null? && MakesArray(p[0]) {
        OrderedNothing();
        MadeElement(j, [], p, c, r);
      } else if j.Null? {
        OrderedNothing();
        MadeMember(j, [], p, c, r);
      }
    }
  }

  lemma OrderedNothing()
    ensures Ordered(Obj([])) && Ordered(Arr([]))
  {
  }

  /** The member that get_unchecked finds, or creates as null. */
  lemma CreatedMember(ms: seq<Member>, token: Text, c: Json)
    requires Sorted(ms)
    ensures CreatedKey(ms, token).Ok?
    ensures var (k, slot) := CreatedKey(ms, token).value;
            Child(k, slot) == OrNull(Find(ms, token)) && WithChild(k, slot, c) == Obj(Put(ms, token, c))
  {
    FindPut(ms, token, Null, token);
    PutTwice(ms, token, Null, c);
  }

  lemma {:induction false} MadeMember(j: Json, ms: seq<Member>, p: seq<Text>, c: Change, r: Json)
    requires p != [] && Ordered(Obj(ms)) && Created(j, p[0]) == CreatedKey(ms, p[0])
    requires (j == Obj(ms)) || (j.Null? && ms == [] && !MakesArray(p[0]))
    ensures EditUnchecked(j, p, EditOf(c)) == Ok(r) <==> Made(j, p, c, r)
    decreases |p|, 1
  {
    hide Sorted, Find, Put, DiffersAt, Stoi, ChangedHere, ApplyEdit, EditOf, MakesArray, AllDigits, Created;
    hide CreatedKey, Child, WithChild;
    var child := OrNull(Find(ms, p[0]));
    assert Ordered(child) by { if Find(ms, p[0]).Some? { OrderedMember(ms, p[0]); } }
    CreatedMember(ms, p[0], Null);
    var edited := EditUnchecked(child, p[1..], EditOf(c));
    if edited.Ok? {
      UncheckedEdit(child, p[1..], c, edited.value);
      CreatedMember(ms, p[0], edited.value);
      if r.Obj? { MemberReplaced(ms, p[0], edited.value, r.ms); }
    }
    if r.Obj? && Find(r.ms, p[0]).Some? {
      UncheckedEdit(child, p[1..], c, Find(r.ms, p[0]).value);
    }
  }

  /** The element that get_unchecked finds, or creates as null. */
  lemma CreatedElement(es: seq<Json>, token: Text, c: Json)
    ensures CreatedIn(es, token).Ok? <==> IsPlace(token)
    ensures IsPlace(token) ==>
              var (k, slot) := CreatedIn(es, token).value;
              var i := Place(token, |es|);
              Child(k, slot) == ElementOrNull(es, i) && WithChild(k, slot, c) == Arr(Filled(es, i)[i := c])
  {
    hide Stoi;
    MinusIsNoIndex();
  }

  lemma {:induction false} MadeElement(j: Json, es: seq<Json>, p: seq<Text>, c: Change, r: Json)
    requires p != [] && Ordered(Arr(es)) && Created(j, p[0]) == CreatedIn(es, p[0])
    requires (j == Arr(es)) || (j.Null? && es == [] && MakesArray(p[0]))
    ensures EditUnchecked(j, p, EditOf(c)) == Ok(r) <==> Made(j, p, c, r)
    decreases |p|, 1
  {
    hide Sorted, Find, DiffersAt, Stoi, ChangedHere, ApplyEdit, EditOf, MakesArray, Created, CreatedIn, Child;
    hide WithChild, IsPlace, Place, Filled;
    CreatedElement(es, p[0], Null);
    if IsPlace(p[0]) {
      var i := Place(p[0], |es|);
      var child := ElementOrNull(es, i);
      var edited := EditUnchecked(child, p[1..], EditOf(c));
      Filling(es, i);
      if edited.Ok? {
        UncheckedEdit(child, p[1..], c, edited.value);
        CreatedElement(es, p[0], edited.value);
        if r.Arr? { ElementReplaced(Filled(es, i), i, edited.value, r.es); }
      }
      if r.Arr? && |r.es| > i {
        UncheckedEdit(child, p[1..], c, r.es[i]);
      }
    }
  }
}
