// The operations of patch documents (section 4 of RFC 6902): what each of the six leaves behind, when it is refused and
// with which error, and where the code leaves the RFC.

module PatchOperations {
  import opened ByteStrings
  import opened Decimal
  import opened JsonValue
  import opened JsonPointer
  import opened PointerGrammar
  import opened JsonAccess
  import opened JsonPatch
  import opened JsonPatchDocument
  import opened PatchSemantics

  //////// Documents of operations ////////

  /** An object with this "op", and with a pointer p as "path". */
  predicate IsOperation(val: Json, word: Text, p: seq<Text>) {
    val.Obj? && Find(val.ms, [0x6f, 0x70]) == Some(Str(word)) && IsPointerField(val, [0x70, 0x61, 0x74, 0x68], p)
  }

  predicate IsPointerField(val: Json, key: Text, p: seq<Text>)
    requires val.Obj?
  {
    var o := Find(val.ms, key);
    o.Some? && o.value.Str? && SplitSpec(o.value.s) == Ok(p)
  }

  // "add", "remove", "replace", "move", "copy" and "test"
  const ADD_WORD: Text := [0x61, 0x64, 0x64]
  const REMOVE_WORD: Text := [0x72, 0x65, 0x6d, 0x6f, 0x76, 0x65]
  const REPLACE_WORD: Text := [0x72, 0x65, 0x70, 0x6c, 0x61, 0x63, 0x65]
  const MOVE_WORD: Text := [0x6d, 0x6f, 0x76, 0x65]
  const COPY_WORD: Text := [0x63, 0x6f, 0x70, 0x79]
  const TEST_WORD: Text := [0x74, 0x65, 0x73, 0x74]

  /** The "value" of an operation is v. */
  predicate HasValue(val: Json, v: Json)
    requires val.Obj?
  {
    Find(val.ms, [0x76, 0x61, 0x6c, 0x75, 0x65]) == Some(v)
  }

  /** The "from" of an operation is a pointer with these tokens. */
  predicate HasFrom(val: Json, from: seq<Text>)
    requires val.Obj?
  {
    IsPointerField(val, [0x66, 0x72, 0x6f, 0x6d], from)
  }

  lemma PatchOne(doc: Json, val: Json, op: PatchOp)
    requires ReadOp(val) == Ok(op)
    ensures PatchSpec(doc, [val]) == RunOp(doc, op)
  {
    hide ReadOp, RunOp;
    var r := RunOp(doc, op);
    assert [val][1..] == [];
    if r.Ok? {
      assert PatchSpec(r.value, []) == Ok(r.value);
    }
  }

  lemma WordsDiffer()
    ensures ADD_WORD == ADD && REMOVE_WORD == REMOVE && REPLACE_WORD == REPLACE && MOVE_WORD == MOVE &&
            COPY_WORD == COPY && TEST_WORD == TEST
    ensures |ADD| == 3 && |REMOVE| == 6 && |REPLACE| == 7 && |MOVE| == |COPY| == |TEST| == 4
    ensures MOVE[0] == 0x6d && COPY[0] == 0x63 && TEST[0] == 0x74
  {
  }

  lemma ReadWord(val: Json, word: Text, p: seq<Text>)
    requires IsOperation(val, word, p)
    ensures GetString(val.ms, OP) == Ok(word)
    ensures GetString(val.ms, PATH).Ok? && SplitSpec(GetString(val.ms, PATH).value) == Ok(p)
  {
    hide Find, SplitSpec;
  }

  /** "add": the document after it is the one that has v at p, as Added says. */
  lemma AddLaw(doc: Json, val: Json, p: seq<Text>, v: Json, r: Json)
    requires Ordered(doc) && IsOperation(val, ADD_WORD, p) && HasValue(val, v)
    ensures PatchSpec(doc, [val]) == Ok(r) <==> Added(doc, p, v, r)
  {
    hide Find, SplitSpec, Ordered, Made, EditUnchecked, PatchSpec;
    ReadWord(val, ADD, p);
    PatchOne(doc, val, Edit(Add(p, v)));
    AddIsAdded(doc, p, v, r);
  }

  lemma AddIsAdded(doc: Json, p: seq<Text>, v: Json, r: Json)
    requires Ordered(doc)
    ensures ApplyOp(doc, Add(p, v), true) == Ok(r) <==> Added(doc, p, v, r)
  {
    hide Find, Ordered, Made, EditUnchecked, Stoi;
    if p != [] {
      UncheckedEdit(doc, p[..|p| - 1], Adds(p[|p| - 1], v), r);
      MinusIsNoIndex();
    }
  }

  lemma RemoveIsRemoved(doc: Json, p: seq<Text>, r: Json)
    requires Ordered(doc)
    ensures ApplyOp(doc, Remove(p), true) == Ok(r) <==> Removed(doc, p, r)
  {
    hide Ordered, Changed, EditChecked;
    if p != [] {
      CheckedEdit(doc, p[..|p| - 1], Removes(p[|p| - 1]), r);
    }
  }

  /** "remove" takes away the member or element at p, and nothing else. */
  lemma RemoveLaw(doc: Json, val: Json, p: seq<Text>, r: Json)
    requires Ordered(doc) && IsOperation(val, REMOVE_WORD, p)
    ensures PatchSpec(doc, [val]) == Ok(r) <==> Removed(doc, p, r)
  {
    hide Find, SplitSpec, Ordered, Changed, EditChecked, PatchSpec;
    ReadWord(val, REMOVE, p);
    WordsDiffer();
    PatchOne(doc, val, Edit(Remove(p)));
    RemoveIsRemoved(doc, p, r);
  }

  /** "replace" changes the value at p, which must be there. */
  lemma ReplaceLaw(doc: Json, val: Json, p: seq<Text>, v: Json, r: Json)
    requires Ordered(doc) && IsOperation(val, REPLACE_WORD, p) && HasValue(val, v)
    ensures PatchSpec(doc, [val]) == Ok(r) <==> Changed(doc, p, Replaces(v), r)
  {
    hide Find, SplitSpec, Ordered, Changed, EditChecked, PatchSpec;
    ReadWord(val, REPLACE, p);
    WordsDiffer();
    PatchOne(doc, val, Edit(Replace(p, v)));
    CheckedEdit(doc, p, Replaces(v), r);
  }

  /** "copy" assigns what stands at `from` to the place at p. */
  lemma CopyLaw(doc: Json, val: Json, p: seq<Text>, from: seq<Text>, r: Json)
    requires Ordered(doc) && IsOperation(val, COPY_WORD, p) && HasFrom(val, from)
    ensures PatchSpec(doc, [val]) == Ok(r) <==>
            ValueAt(doc, from).Some? && Made(doc, p, Replaces(ValueAt(doc, from).value), r)
  {
    hide Find, SplitSpec, Ordered, Made, EditUnchecked, PatchSpec, Resolved, ValueAt;
    ReadWord(val, COPY, p);
    WordsDiffer();
    PatchOne(doc, val, Copy(p, from));
    ResolvedIsValue(doc, from);
    if ValueAt(doc, from).Some? {
      UncheckedEdit(doc, p, Replaces(ValueAt(doc, from).value), r);
    }
  }

  /** "test" leaves the document as it is if the value at p == v, and fails otherwise. */
  lemma TestLaw(doc: Json, val: Json, p: seq<Text>, v: Json, r: Json)
    requires IsOperation(val, TEST_WORD, p) && HasValue(val, v)
    ensures PatchSpec(doc, [val]) == Ok(r) <==> r == doc && ValueAt(doc, p).Some? && Eq(ValueAt(doc, p).value, v)
    ensures ValueAt(doc, p).Some? && !Eq(ValueAt(doc, p).value, v) ==> PatchSpec(doc, [val]) == Err(DomainError)
  {
    hide Find, SplitSpec, PatchSpec, Resolved, ValueAt, Eq;
    ReadWord(val, TEST, p);
    WordsDiffer();
    PatchOne(doc, val, Test(p, v));
    ResolvedIsValue(doc, p);
  }

  lemma {:induction false} ChangedIsOrdered(j: Json, p: seq<Text>, token: Text, r: Json)
    requires Ordered(j) && Changed(j, p, Removes(token), r)
    ensures Ordered(r)
    decreases |p|
  {
    hide Stoi;
    if p == [] {
      RemovedIsOrdered(j, token, r);
    } else if j.Obj? {
      var key, rest := p[0], p[1..];
      OrderedMember(j.ms, key);
      ChangedIsOrdered(Find(j.ms, key).value, rest, token, Find(r.ms, key).value);
      MembersAreOrdered(j.ms, key, r.ms);
    } else {
      ChangedIsOrdered(j.es[Stoi(p[0]).value], p[1..], token, r.es[Stoi(p[0]).value]);
    }
  }

  lemma RemovedIsOrdered(j: Json, token: Text, r: Json)
    requires Ordered(j) && ChangedHere(j, Removes(token), r)
    ensures Ordered(r)
  {
    hide Stoi;
    if j.Obj? {
      MembersAreOrdered(j.ms, token, r.ms);
    } else if j.Arr? {
      var i := Stoi(token).value;
      forall k | 0 <= k < |r.es| ensures Ordered(r.es[k]) {
        assert r.es[k] == if k < i then j.es[k] else j.es[k + 1];
      }
    }
  }

  /** "move" removes the value at `from` and adds it at p. */
  lemma MoveLaw(doc: Json, val: Json, p: seq<Text>, from: seq<Text>, r: Json)
    requires Ordered(doc) && IsOperation(val, MOVE_WORD, p) && HasFrom(val, from)
    ensures PatchSpec(doc, [val]) == Ok(r) <==>
            ValueAt(doc, from).Some? &&
            exists rest :: Removed(doc, from, rest) && Added(rest, p, ValueAt(doc, from).value, r)
  {
    hide Find, SplitSpec, Ordered, Added, Removed, ApplyOp, PatchSpec, Resolved, ValueAt;
    ReadWord(val, MOVE, p);
    WordsDiffer();
    PatchOne(doc, val, Move(p, from));
    ResolvedIsValue(doc, from);
    if ValueAt(doc, from).Some? {
      MoveSteps(doc, p, from, ValueAt(doc, from).value, r);
    }
  }

  lemma MoveSteps(doc: Json, p: seq<Text>, from: seq<Text>, v: Json, r: Json)
    requires Ordered(doc) && Resolved(doc, from) == Ok(v)
    ensures RunOp(doc, Move(p, from)) == Ok(r) <==> exists rest :: Removed(doc, from, rest) && Added(rest, p, v, r)
  {
    hide Ordered, Added, ApplyOp, Resolved, Changed, Removed;
    var removed := ApplyOp(doc, Remove(from), true);
    if removed.Ok? {
      RemoveIsRemoved(doc, from, removed.value);
      RemovedStaysOrdered(doc, from, removed.value);
      AddIsAdded(removed.value, p, v, r);
    }
    forall rest | Removed(doc, from, rest) ensures removed == Ok(rest) {
      RemoveIsRemoved(doc, from, rest);
    }
  }

  lemma RemovedStaysOrdered(doc: Json, from: seq<Text>, rest: Json)
    requires Ordered(doc) && Removed(doc, from, rest)
    ensures Ordered(rest)
  {
    ChangedIsOrdered(doc, from[..|from| - 1], from[|from| - 1], rest);
  }

  //////// Malformed operations, and operations in a row ////////

  /** The six operations with the members that each of them needs. */
  predicate WellFormed(val: Json) {
    val.Obj? &&
    var op := Find(val.ms, [0x6f, 0x70]);
    op.Some? && op.value.Str? && IsField(val, [0x70, 0x61, 0x74, 0x68]) &&
    if op.value.s in {ADD_WORD, REPLACE_WORD, TEST_WORD} then Find(val.ms, [0x76, 0x61, 0x6c, 0x75, 0x65]).Some?
    else if op.value.s in {MOVE_WORD, COPY_WORD} then IsField(val, [0x66, 0x72, 0x6f, 0x6d])
    else op.value.s == REMOVE_WORD
  }

  /** The member is a string, and a JSON Pointer. */
  predicate IsField(val: Json, key: Text)
    requires val.Obj?
  {
    var o := Find(val.ms, key);
    o.Some? && o.value.Str? && SplitSpec(o.value.s).Ok?
  }

  lemma WellFormedIsRead(val: Json)
    ensures ReadOp(val).Ok? <==> WellFormed(val)
  {
    hide Find, SplitSpec;
    WordsDiffer();
  }

  /** The "path" or the "from" is a string, but no JSON Pointer. */
  predicate HasBadPointer(val: Json) {
    val.Obj? &&
    (IsNoPointer(Find(val.ms, [0x70, 0x61, 0x74, 0x68])) || IsNoPointer(Find(val.ms, [0x66, 0x72, 0x6f, 0x6d])))
  }

  predicate IsNoPointer(o: Option<Json>) {
    o.Some? && o.value.Str? && SplitSpec(o.value.s).Err?
  }

  /** A malformed operation throws std::invalid_argument, and std::domain_error only for a bad pointer. */
  lemma MalformedIsRefused(doc: Json, vals: seq<Json>)
    requires vals != [] && !WellFormed(vals[0])
    ensures PatchSpec(doc, vals) == Err(InvalidArgument) ||
            (PatchSpec(doc, vals) == Err(DomainError) && HasBadPointer(vals[0]))
  {
    hide Find, RunOp, SplitSpec, ReadOp;
    WellFormedIsRead(vals[0]);
    MalformedError(vals[0]);
  }

  lemma MalformedError(val: Json)
    requires ReadOp(val).Err?
    ensures ReadOp(val).error == InvalidArgument || (ReadOp(val).error == DomainError && HasBadPointer(val))
  {
    hide Find, SplitSpec;
    if val.Obj? {
      BadPointerError(Find(val.ms, PATH));
      BadPointerError(Find(val.ms, FROM));
    }
  }

  lemma BadPointerError(o: Option<Json>)
    ensures IsNoPointer(o) ==> SplitSpec(o.value.s) == Err(DomainError)
  {
    if IsNoPointer(o) {
      var s := o.value.s;
      if s != [] { SplitRestFails(s[1..]); }
    }
  }

  /** Operations are applied one after the other, and the first error ends the patch. */
  lemma {:induction false} PatchInOrder(doc: Json, a: seq<Json>, b: seq<Json>)
    ensures PatchSpec(doc, []) == Ok(doc)
    ensures PatchSpec(doc, a + b) ==
            if PatchSpec(doc, a).Ok? then PatchSpec(PatchSpec(doc, a).value, b) else PatchSpec(doc, a)
    decreases |a|
  {
    hide ReadOp, RunOp;
    if a == [] {
      assert a + b == b;
    } else {
      assert (a + b)[1..] == a[1..] + b;
      if ReadOp(a[0]).Ok? && RunOp(doc, ReadOp(a[0]).value).Ok? {
        PatchInOrder(RunOp(doc, ReadOp(a[0]).value).value, a[1..], b);
      }
    }
  }

  //////// When an operation is refused ////////

  /** Why a token leads nowhere: "std::domain_error" for a leading zero, what stoi throws, and otherwise
      "std::out_of_range". */
  function StepError(j: Json, token: Text): Error {
    if !j.Arr? || token == [0x2d] then OutOfRange
    else if |token| > 1 && token[0] == 0x30 then DomainError
    else if Stoi(token).Err? then Stoi(token).error
    else OutOfRange
  }

  /** The error at the first token that leads nowhere. */
  function LookupError(j: Json, p: seq<Text>): Error
    requires ValueAt(j, p).None?
    decreases |p|
  {
    if StepAt(j, p[0]).None? then StepError(j, p[0]) else LookupError(StepAt(j, p[0]).value, p[1..])
  }

  lemma {:induction false} UnresolvedError(j: Json, p: seq<Text>)
    requires ValueAt(j, p).None?
    ensures Resolved(j, p) == Err(LookupError(j, p))
    ensures forall e :: EditChecked(j, p, e) == Err(LookupError(j, p))
    decreases |p|
  {
    hide Find, Stoi;
    MinusIsNoIndex();
    if StepAt(j, p[0]).Some? {
      UnresolvedError(StepAt(j, p[0]).value, p[1..]);
    }
  }

  /** The value at p, or what get_unchecked creates there. */
  function MadeAt(j: Json, p: seq<Text>): Option<Json>
    decreases |p|
  {
    if p == [] then Some(j)
    else if j.Obj? || (j.Null? && !MakesArray(p[0])) then
      MadeAt(OrNull(Find(if j.Obj? then j.ms else [], p[0])), p[1..])
    else if (j.Arr? || j.Null?) && IsPlace(p[0]) then
      var es := if j.Arr? then j.es else [];
      MadeAt(ElementOrNull(es, Place(p[0], |es|)), p[1..])
    else None
  }

  predicate CanAdd(parent: Json, token: Text) {
    parent.Null? || parent.Obj? ||
    (parent.Arr? && (token == [0x2d] || (Stoi(token).Ok? && 0 <= Stoi(token).value <= |parent.es|)))
  }

  predicate CanRemove(parent: Json, token: Text) {
    (parent.Obj? ==> Find(parent.ms, token).Some?) &&
    (parent.Arr? ==> Stoi(token).Ok? && 0 <= Stoi(token).value < |parent.es|)
  }

  lemma {:induction false} CheckedPossible(j: Json, p: seq<Text>, e: Edit)
    ensures EditChecked(j, p, e).Ok? <==> ValueAt(j, p).Some? && ApplyEdit(ValueAt(j, p).value, e).Ok?
    decreases |p|
  {
    hide ApplyEdit, Stoi, Find, Put;
    MinusIsNoIndex();
    if p != [] && Locate(j, p[0]).Ok? {
      CheckedPossible(Child(j, Locate(j, p[0]).value), p[1..], e);
    }
  }

  lemma {:induction false} UncheckedPossible(j: Json, p: seq<Text>, e: Edit)
    requires Ordered(j)
    ensures EditUnchecked(j, p, e).Ok? <==> MadeAt(j, p).Some? && ApplyEdit(MadeAt(j, p).value, e).Ok?
    decreases |p|
  {
    hide ApplyEdit, Stoi, Find, Put, MakesArray, AllDigits, Filled, CreatedKey, CreatedIn, Child, IsPlace, Place;
    if p != [] {
      var token := p[0];
      MakesArrayIsAllDigits(token);
      if j.Obj? || (j.Null? && !MakesArray(token)) {
        var ms := if j.Obj? then j.ms else [];
        CreatedMember(ms, token, Null);
        if Find(ms, token).Some? { OrderedMember(ms, token); }
        UncheckedPossible(OrNull(Find(ms, token)), p[1..], e);
      } else if j.Arr? || j.Null? {
        var es := if j.Arr? then j.es else [];
        CreatedElement(es, token, Null);
        if IsPlace(token) {
          UncheckedPossible(ElementOrNull(es, Place(token, |es|)), p[1..], e);
        }
      }
    }
  }

  /** "add" is refused if the first of several tokens leads nowhere, if no parent can be found or created, or if the
      parent is a boolean, a number, a string, or an array without that place. */
  lemma AddIsRefused(doc: Json, val: Json, p: seq<Text>, v: Json)
    requires Ordered(doc) && IsOperation(val, ADD_WORD, p) && HasValue(val, v)
    ensures PatchSpec(doc, [val]).Err? <==>
            p != [] && ((|p| > 1 && StepAt(doc, p[0]).None?) || MadeAt(doc, p[..|p| - 1]).None? ||
                        !CanAdd(MadeAt(doc, p[..|p| - 1]).value, p[|p| - 1]))
  {
    hide Find, SplitSpec, Ordered, EditUnchecked, PatchSpec, MadeAt, Stoi;
    ReadWord(val, ADD, p);
    PatchOne(doc, val, Edit(Add(p, v)));
    MinusIsNoIndex();
    if p != [] {
      UncheckedPossible(doc, p[..|p| - 1], AddChild(p[|p| - 1], v));
    }
  }

  /** "remove" is refused at the root, if the parent is not there, or if the parent is an object or an array without
      that member or element. */
  lemma RemoveIsRefused(doc: Json, val: Json, p: seq<Text>)
    requires IsOperation(val, REMOVE_WORD, p)
    ensures PatchSpec(doc, [val]).Err? <==>
            p == [] || ValueAt(doc, p[..|p| - 1]).None? || !CanRemove(ValueAt(doc, p[..|p| - 1]).value, p[|p| - 1])
    ensures p != [] && ValueAt(doc, p[..|p| - 1]).None? ==>
              PatchSpec(doc, [val]) == Err(LookupError(doc, p[..|p| - 1]))
  {
    hide Find, SplitSpec, EditChecked, PatchSpec, ValueAt, Stoi;
    ReadWord(val, REMOVE, p);
    WordsDiffer();
    PatchOne(doc, val, Edit(Remove(p)));
    if p != [] {
      CheckedPossible(doc, p[..|p| - 1], RemoveChild(p[|p| - 1]));
      if ValueAt(doc, p[..|p| - 1]).None? { UnresolvedError(doc, p[..|p| - 1]); }
    }
  }

  /** "replace" is refused exactly if there is no value at p. */
  lemma ReplaceIsRefused(doc: Json, val: Json, p: seq<Text>, v: Json)
    requires IsOperation(val, REPLACE_WORD, p) && HasValue(val, v)
    ensures PatchSpec(doc, [val]).Err? <==> ValueAt(doc, p).None?
    ensures ValueAt(doc, p).None? ==> PatchSpec(doc, [val]) == Err(LookupError(doc, p))
  {
    hide Find, SplitSpec, EditChecked, PatchSpec, ValueAt;
    ReadWord(val, REPLACE, p);
    WordsDiffer();
    PatchOne(doc, val, Edit(Replace(p, v)));
    CheckedPossible(doc, p, Assign(v));
    if ValueAt(doc, p).None? { UnresolvedError(doc, p); }
  }

  //////// Where the code leaves RFC 6902 ////////

  /** Section 4.1 asks for an existing parent. If it exists, nothing is created. */
  lemma {:induction false} NothingIsMade(j: Json, p: seq<Text>, c: Change, r: Json)
    requires Ordered(j) && ValueAt(j, p).Some?
    ensures Made(j, p, c, r) <==> Changed(j, p, c, r)
    decreases |p|
  {
    hide Find, DiffersAt, Stoi, ChangedHere, Ordered;
    MinusIsNoIndex();
    if p == [] {
    } else if j.Obj? {
      OrderedMember(j.ms, p[0]);
      if r.Obj? && Find(r.ms, p[0]).Some? {
        NothingIsMade(Find(j.ms, p[0]).value, p[1..], c, Find(r.ms, p[0]).value);
      }
    } else {
      var i := Stoi(p[0]).value;
      if r.Arr? && |r.es| == |j.es| {
        OrderedElement(j.es, i);
        NothingIsMade(j.es[i], p[1..], c, r.es[i]);
      }
    }
  }

  lemma OrderedElement(es: seq<Json>, i: nat)
    requires Ordered(Arr(es)) && i < |es|
    ensures Ordered(es[i])
  {
  }

  lemma SingleMember(key: Text, before: Json, value: Json)
    ensures DiffersAt([Member(key, value)], [], key, Some(value)) && Find([Member(key, value)], key) == Some(value)
    ensures DiffersAt([Member(key, value)], [Member(key, before)], key, Some(value))
  {
  }

  /** Adding /a/b/c to {"a": {}} creates the parent b. */
  lemma AddMakesParent(v: Json)
    ensures var a, b, c: Text := [0x61], [0x62], [0x63];
            Added(Obj([Member(a, Obj([]))]), [a, b, c], v, Obj([Member(a, Obj([Member(b, Obj([Member(c, v)]))]))]))
  {
    var a, b, c: Text := [0x61], [0x62], [0x63];
    var p := [a, b, c];
    var r := Obj([Member(a, Obj([Member(b, Obj([Member(c, v)]))]))]);
    var nothing: seq<Text> := [];
    assert p[..2] == [a, b] && p[..2][1..] == [b] && [b][1..] == nothing;
    SingleMember(a, Obj([]), Obj([Member(b, Obj([Member(c, v)]))]));
    SingleMember(b, Null, Obj([Member(c, v)]));
    SingleMember(c, Null, v);
    assert Made(Null, [], Adds(c, v), Obj([Member(c, v)]));
    assert Made(Obj([]), [b], Adds(c, v), Obj([Member(b, Obj([Member(c, v)]))]));
    assert Made(Obj([Member(a, Obj([]))]), [a, b], Adds(c, v), r);
  }

  /** Section 4.2 asks for an existing target. Removing /a/b from {"a": 1} succeeds, and changes nothing. */
  lemma RemoveBelowPrimitive()
    ensures var doc := Obj([Member([0x61], Uint(1))]); Removed(doc, [[0x61], [0x62]], doc)
  {
    var doc := Obj([Member([0x61], Uint(1))]);
    var p: seq<Text> := [[0x61], [0x62]];
    assert p[..1] == [[0x61]] && p[..1][1..] == [];
    assert Changed(Uint(1), [], Removes([0x62]), Uint(1));
  }

  /** Section 4 of RFC 6901 knows no leading zeros, signs or letters in an index. In the last token of a pointer,
      whatever std::stoi reads as i acts like the numeral of i. */
  lemma LastTokenIsLoose(es: seq<Json>, token: Text, v: Json, r: Json)
    requires Stoi(token).Ok? && 0 <= Stoi(token).value <= |es|
    ensures Added(Arr(es), [token], v, r) <==> Added(Arr(es), [Numeral(Stoi(token).value)], v, r)
  {
    hide Stoi, Inserted;
    var i := Stoi(token).value;
    StoiInRange(token);
    StoiNumeral(i);
    MinusIsNoIndex();
    var nothing: seq<Text> := [];
    assert [token][..0] == nothing && [Numeral(i)][..0] == nothing;
    if r.Arr? {
      SameIndex(r.es, es, token, Numeral(i), v);
    }
  }

  lemma {:induction false} StoiInRange(token: Text)
    requires Stoi(token).Ok?
    ensures Stoi(token).value <= INT_MAX
  {
    if token != [] && IsSpace(token[0]) {
      StoiInRange(token[1..]);
    }
  }

  lemma SameIndex(r: seq<Json>, es: seq<Json>, token: Text, other: Text, v: Json)
    requires Stoi(token).Ok? && Stoi(token) == Stoi(other)
    ensures Inserted(r, es, token, v) <==> Inserted(r, es, other, v)
  {
    hide Stoi;
    MinusIsNoIndex();
  }

  /** "01" is read as 1. */
  lemma LeadingZeroIsRead()
    ensures Stoi([0x30, 0x31]) == Ok(1)
  {
    var digits, nothing: Text := [0x30, 0x31], [];
    assert digits[..1] == [0x30] && [0x30][..0] == nothing && ValueOf([0x30]) == 0;
    assert ValueOf(digits) == 1;
    StoiOfNumberText(digits, nothing, nothing, digits, nothing);
  }

  /** Section 4.5 asks for an addition, which moves the elements behind on. A copy to an element overwrites it, so that
      the two agree only behind the last element. */
  lemma CopyIntoArray(es: seq<Json>, token: Text, v: Json, r: Json, s: Json)
    requires IsIndex(token, |es| + 1)
    requires Made(Arr(es), [token], Replaces(v), r) && Added(Arr(es), [token], v, s)
    ensures r == s <==> Stoi(token).value == |es|
    ensures Stoi(token).value < |es| ==> r == Arr(es[Stoi(token).value := v])
  {
    hide Stoi;
    MinusIsNoIndex();
    var i := Stoi(token).value;
    var nothing: seq<Text> := [];
    assert [token][..0] == nothing && [token][1..] == nothing;
    assert Made(ElementOrNull(es, i), [], Replaces(v), r.es[i]);
    if i == |es| {
      assert r.es == s.es;
    } else {
      assert r.es == es[i := v];
    }
  }
}
