// diff and patch as the library offers them: diff writes a JSON Patch document, patch reads one and edits
// a working copy.

module JsonPatchDocument {
  import opened ByteStrings
  import opened Decimal
  import opened JsonValue
  import opened JsonPointer
  import opened JsonAccess
  import opened JsonPatch
  import opened JsonPatchLaws

  const OP: Text := [0x6f, 0x70]
  const PATH: Text := [0x70, 0x61, 0x74, 0x68]
  const VALUE: Text := [0x76, 0x61, 0x6c, 0x75, 0x65]
  const FROM: Text := [0x66, 0x72, 0x6f, 0x6d]
  const ADD: Text := [0x61, 0x64, 0x64]
  const REMOVE: Text := [0x72, 0x65, 0x6d, 0x6f, 0x76, 0x65]
  const REPLACE: Text := [0x72, 0x65, 0x70, 0x6c, 0x61, 0x63, 0x65]
  const MOVE: Text := [0x6d, 0x6f, 0x76, 0x65]
  const COPY: Text := [0x63, 0x6f, 0x70, 0x79]
  const TEST: Text := [0x74, 0x65, 0x73, 0x74]

  //////// diff ////////

  function OpDoc(path: Text, op: Op): Json {
    var at := Member(PATH, Str(path + PointerText(op.path)));
    match op
    case Add(_, v) => Obj([Member(OP, Str(ADD)), at, Member(VALUE, v)])
    case Remove(_) => Obj([Member(OP, Str(REMOVE)), at])
    case Replace(_, v) => Obj([Member(OP, Str(REPLACE)), at, Member(VALUE, v)])
  }

  function OpDocs(path: Text, ops: seq<Op>): (r: seq<Json>)
    ensures |r| == |ops|
  {
    if ops == [] then [] else [OpDoc(path, ops[0])] + OpDocs(path, ops[1..])
  }

  lemma {:induction false} OpDocsAppend(path: Text, a: seq<Op>, b: seq<Op>)
    ensures OpDocs(path, a + b) == OpDocs(path, a) + OpDocs(path, b)
  {
    if a == [] {
      assert a + b == b;
    } else {
      OpDocsAppend(path, a[1..], b);
      assert (a + b)[1..] == a[1..] + b;
      ConcatAssociative([OpDoc(path, a[0])], OpDocs(path, a[1..]), OpDocs(path, b));
    }
  }

  lemma OpDocsOne(path: Text, op: Op)
    ensures OpDocs(path, [op]) == [OpDoc(path, op)]
  {
  }

  /** Lengthening the path of a call is the same as lengthening the paths of its operations. */
  lemma {:induction false} OpDocsUnder(path: Text, token: Text, ops: seq<Op>)
    ensures OpDocs(path, UnderAll(token, ops)) == OpDocs(path + [SLASH] + Escaped(token), ops)
  {
    if ops == [] {
    } else {
      var p := ops[0].path;
      assert ([token] + p)[1..] == p;
      assert path + PointerText([token] + p) == path + [SLASH] + Escaped(token) + PointerText(p);
      OpDocsUnder(path, token, ops[1..]);
    }
  }

  lemma PathOfIndex(path: Text, i: nat)
    ensures path + [SLASH] + Escaped(Numeral(i)) == path + [SLASH] + Numeral(i)
    ensures path + PointerText([Numeral(i)]) == path + [SLASH] + Numeral(i)
  {
    EscapedDigits(Numeral(i));
    PointerTextOne(Numeral(i));
    ConcatAssociative(path, [SLASH], Numeral(i));
  }

  lemma PathOfKey(path: Text, key: Text)
    ensures path + PointerText([key]) == path + [SLASH] + Escaped(key)
  {
    PointerTextOne(key);
    ConcatAssociative(path, [SLASH], Escaped(key));
  }

  /** diff(source, target, path): the passes of the source, filling the result array. */
  method Diff(source: Json, target: Json, path: Text) returns (result: Json)
    ensures result == Arr(OpDocs(path, DiffOps(source, target)))
    decreases source
  {
    if Eq(source, target) {
      return Arr([]);
    }
    if !SameType(source, target) {
      OpDocsOne(path, Replace([], target));
      assert path + [] == path;
      return Arr([Obj([Member(OP, Str(REPLACE)), Member(PATH, Str(path)), Member(VALUE, target)])]);
    }
    if source.Arr? {
      var x, y := source.es, target.es;
      var ops := CommonPass(x, y, path);
      ops := RemovePass(ops, |y|, |x|, path);
      ops := AddPass(ops, y, Min(|x|, |y|), path);
      OpDocsAppend(path, CommonOps(x, y, 0), RemoveOps(|x|, |y|));
      OpDocsAppend(path, CommonOps(x, y, 0) + RemoveOps(|x|, |y|), AddOps(y, Min(|x|, |y|)));
      result := Arr(ops);
    } else if source.Obj? {
      var changed := KeyPass(source.ms, target.ms, path);
      var added := NewPass(source.ms, target.ms, path);
      OpDocsAppend(path, KeyOps(source.ms, target.ms, 0), NewOps(source.ms, target.ms, 0));
      result := Arr(changed + added);
    } else {
      OpDocsOne(path, Replace([], target));
      assert path + [] == path;
      result := Arr([Obj([Member(OP, Str(REPLACE)), Member(PATH, Str(path)), Member(VALUE, target)])]);
    }
  }

  /** First pass over arrays: the common elements. */
  method CommonPass(x: seq<Json>, y: seq<Json>, path: Text) returns (result: seq<Json>)
    ensures result == OpDocs(path, CommonOps(x, y, 0))
    decreases x
  {
    result := [];
    ghost var total := OpDocs(path, CommonOps(x, y, 0));
    var i := 0;
    while i < |x| && i < |y|
      invariant i <= |x| && i <= |y|
      invariant result + OpDocs(path, CommonOps(x, y, i)) == total
    {
      CommonTurn(result, path, x, y, i);
      var temp := Diff(x[i], y[i], path + [SLASH] + Numeral(i));
      result := result + temp.es;
      i := i + 1;
    }
    assert CommonOps(x, y, i) == [];
    NothingLeft(path, result);
  }

  /** Removals of the elements from `from` to n, each inserted at end_index, in front of those before it. */
  method RemovePass(common: seq<Json>, from: nat, n: nat, path: Text) returns (result: seq<Json>)
    ensures result == common + OpDocs(path, RemoveOps(n, from))
  {
    result := common;
    var endIndex := |result|;
    NothingLeft(path, common);
    var i := if from < n then from else n;
    while i < n
      invariant i <= n && (i < n ==> from <= i)
      invariant result == common + OpDocs(path, RemoveOps(i, from))
    {
      var op := Obj([Member(OP, Str(REMOVE)), Member(PATH, Str(path + [SLASH] + Numeral(i)))]);
      RemoveTurn(common, path, i, from);
      result := result[..endIndex] + [op] + result[endIndex..];
      i := i + 1;
    }
  }

  /** Additions of the elements of the target from `from` on. */
  method AddPass(before: seq<Json>, y: seq<Json>, from: nat, path: Text) returns (result: seq<Json>)
    ensures result == before + OpDocs(path, AddOps(y, from))
  {
    result := before;
    var i := from;
    while i < |y|
      invariant result + OpDocs(path, AddOps(y, i)) == before + OpDocs(path, AddOps(y, from))
    {
      var op := Obj([Member(OP, Str(ADD)), Member(PATH, Str(path + [SLASH] + Numeral(i))), Member(VALUE, y[i])]);
      AddTurn(result, path, y, i);
      result := result + [op];
      i := i + 1;
    }
    NothingLeft(path, result);
  }

  lemma CommonTurn(result: seq<Json>, path: Text, x: seq<Json>, y: seq<Json>, i: nat)
    requires i < |x| && i < |y|
    ensures (result + OpDocs(path + [SLASH] + Numeral(i), DiffOps(x[i], y[i]))) + OpDocs(path, CommonOps(x, y, i + 1))
            == result + OpDocs(path, CommonOps(x, y, i))
  {
    var here, rest := UnderAll(Numeral(i), DiffOps(x[i], y[i])), CommonOps(x, y, i + 1);
    PathOfIndex(path, i);
    OpDocsUnder(path, Numeral(i), DiffOps(x[i], y[i]));
    OpDocsAppend(path, here, rest);
    ConcatAssociative(result, OpDocs(path, here), OpDocs(path, rest));
  }

  /** Inserting one removal in front of those already there. */
  lemma RemoveTurn(common: seq<Json>, path: Text, i: nat, m: nat)
    requires m <= i
    ensures var op := Obj([Member(OP, Str(REMOVE)), Member(PATH, Str(path + [SLASH] + Numeral(i)))]);
            var now := common + OpDocs(path, RemoveOps(i, m));
            now[..|common|] + [op] + now[|common|..] == common + OpDocs(path, RemoveOps(i + 1, m))
  {
    PathOfIndex(path, i);
    var op := OpDoc(path, Remove([Numeral(i)]));
    var done := OpDocs(path, RemoveOps(i, m));
    assert (common + done)[..|common|] == common && (common + done)[|common|..] == done;
    ConcatAssociative(common, [op], done);
  }

  lemma AddTurn(result: seq<Json>, path: Text, y: seq<Json>, i: nat)
    requires i < |y|
    ensures var op := Obj([Member(OP, Str(ADD)), Member(PATH, Str(path + [SLASH] + Numeral(i))), Member(VALUE, y[i])]);
            (result + [op]) + OpDocs(path, AddOps(y, i + 1)) == result + OpDocs(path, AddOps(y, i))
  {
    PathOfIndex(path, i);
    var op := OpDoc(path, Add([Numeral(i)], y[i]));
    ConcatAssociative(result, [op], OpDocs(path, AddOps(y, i + 1)));
  }

  /** First pass over objects: the keys of the source. */
  method KeyPass(x: seq<Member>, y: seq<Member>, path: Text) returns (result: seq<Json>)
    ensures result == OpDocs(path, KeyOps(x, y, 0))
    decreases x
  {
    result := [];
    for i := 0 to |x|
      invariant result + OpDocs(path, KeyOps(x, y, i)) == OpDocs(path, KeyOps(x, y, 0))
    {
      var key := Escape(x[i].key);
      KeyTurn(result, path, x, y, i);
      match Find(y, x[i].key) {
        case Some(v) =>
          var temp := Diff(x[i].value, v, path + [SLASH] + key);
          result := result + temp.es;
        case None =>
          result := result + [Obj([Member(OP, Str(REMOVE)), Member(PATH, Str(path + [SLASH] + key))])];
      }
    }
    NothingLeft(path, result);
  }

  /** Second pass over objects: the keys that only the target has. */
  method NewPass(x: seq<Member>, y: seq<Member>, path: Text) returns (result: seq<Json>)
    ensures result == OpDocs(path, NewOps(x, y, 0))
  {
    result := [];
    for i := 0 to |y|
      invariant result + OpDocs(path, NewOps(x, y, i)) == OpDocs(path, NewOps(x, y, 0))
    {
      NewTurn(result, path, x, y, i);
      if Find(x, y[i].key).None? {
        var key := Escape(y[i].key);
        result := result
          + [Obj([Member(OP, Str(ADD)), Member(PATH, Str(path + [SLASH] + key)), Member(VALUE, y[i].value)])];
      }
    }
    NothingLeft(path, result);
  }

  lemma NothingLeft(path: Text, result: seq<Json>)
    ensures result + OpDocs(path, []) == result
  {
  }

  lemma KeyTurn(result: seq<Json>, path: Text, x: seq<Member>, y: seq<Member>, i: nat)
    requires i < |x|
    ensures var at := path + [SLASH] + Escaped(x[i].key);
            var ops := match Find(y, x[i].key) {
                         case Some(v) => OpDocs(at, DiffOps(x[i].value, v))
                         case None => [Obj([Member(OP, Str(REMOVE)), Member(PATH, Str(at))])]
                       };
            (result + ops) + OpDocs(path, KeyOps(x, y, i + 1)) == result + OpDocs(path, KeyOps(x, y, i))
  {
    var here, rest := OpsForKey(x, y, i), KeyOps(x, y, i + 1);
    OpDocsAppend(path, here, rest);
    ConcatAssociative(result, OpDocs(path, here), OpDocs(path, rest));
    match Find(y, x[i].key) {
      case Some(v) => OpDocsUnder(path, x[i].key, DiffOps(x[i].value, v));
      case None =>
        PathOfKey(path, x[i].key);
        OpDocsOne(path, Remove([x[i].key]));
    }
  }

  lemma NewTurn(result: seq<Json>, path: Text, x: seq<Member>, y: seq<Member>, i: nat)
    requires i < |y|
    ensures var at := path + [SLASH] + Escaped(y[i].key);
            var ops := if Find(x, y[i].key).None?
                       then [Obj([Member(OP, Str(ADD)), Member(PATH, Str(at)), Member(VALUE, y[i].value)])] else [];
            (result + ops) + OpDocs(path, NewOps(x, y, i + 1)) == result + OpDocs(path, NewOps(x, y, i))
  {
    var here := if Find(x, y[i].key).None? then [Add([y[i].key], y[i].value)] else [];
    OpDocsAppend(path, here, NewOps(x, y, i + 1));
    ConcatAssociative(result, OpDocs(path, here), OpDocs(path, NewOps(x, y, i + 1)));
    if here != [] {
      PathOfKey(path, y[i].key);
      OpDocsOne(path, here[0]);
    }
  }

  //////// patch ////////

  /** get_value: a mandatory member of an operation. */
  function GetValue(ms: seq<Member>, member: Text): Result<Json> {
    match Find(ms, member)
    case Some(v) => Ok(v)
    case None => Err(InvalidArgument)
  }

  function GetString(ms: seq<Member>, member: Text): Result<Text> {
    var v :- GetValue(ms, member);
    if v.Str? then Ok(v.s) else Err(InvalidArgument)
  }

  /** The value that get_checked finds along a pointer. */
  function Resolved(j: Json, tokens: seq<Text>): Result<Json>
    decreases tokens
  {
    if tokens == [] then Ok(j)
    else
      var slot :- Locate(j, tokens[0]);
      Resolved(Child(j, slot), tokens[1..])
  }

  /** An element of a patch document: one of the operations that diff writes, or one of the three others. */
  datatype PatchOp =
    | Edit(op: Op)
    | Move(path: seq<Text>, from: seq<Text>)
    | Copy(path: seq<Text>, from: seq<Text>)
    | Test(path: seq<Text>, v: Json)

  function ReadOp(val: Json): Result<PatchOp> {
    if !val.Obj? then Err(InvalidArgument)
    else
      var op :- GetString(val.ms, OP);
      var path :- GetString(val.ms, PATH);
      var tokens :- SplitSpec(path);
      if op == ADD then
        var v :- GetValue(val.ms, VALUE);
        Ok(Edit(Add(tokens, v)))
      else if op == REMOVE then Ok(Edit(Remove(tokens)))
      else if op == REPLACE then
        var v :- GetValue(val.ms, VALUE);
        Ok(Edit(Replace(tokens, v)))
      else if op == MOVE || op == COPY then
        var text :- GetString(val.ms, FROM);
        var from :- SplitSpec(text);
        Ok(if op == MOVE then Move(tokens, from) else Copy(tokens, from))
      else if op == TEST then
        var v :- GetValue(val.ms, VALUE);
        Ok(Test(tokens, v))
      else Err(InvalidArgument)
  }

  /** Each operation on the working copy. A move is a removal and an addition; a copy assigns to what get_unchecked
      finds or creates; a test that does not find its place fails like one that finds another value. */
  function RunOp(doc: Json, op: PatchOp): Result<Json> {
    match op
    case Edit(e) => ApplyOp(doc, e, true)
    case Move(path, from) =>
      var v :- Resolved(doc, from);
      var rest :- ApplyOp(doc, Remove(from), true);
      ApplyOp(rest, Add(path, v), true)
    case Copy(path, from) =>
      var v :- Resolved(doc, from);
      EditUnchecked(doc, path, Assign(v))
    case Test(path, v) =>
      var found := Resolved(doc, path);
      if found.Ok? && Eq(found.value, v) then Ok(doc)
      else if found.Ok? || found.error == OutOfRange then Err(DomainError)
      else Err(found.error)
  }

  function PatchSpec(doc: Json, vals: seq<Json>): Result<Json>
    decreases |vals|
  {
    if vals == [] then Ok(doc)
    else
      var op :- ReadOp(vals[0]);
      var next :- RunOp(doc, op);
      PatchSpec(next, vals[1..])
  }

  /** patch: the operations are applied one after the other to a working copy. */
  method Patch(source: Json, jsonPatch: Json) returns (r: Result<Json>)
    ensures r == if jsonPatch.Arr? then PatchSpec(source, jsonPatch.es) else Err(InvalidArgument)
  {
    var result := source;
    if !jsonPatch.Arr? {
      return Err(InvalidArgument);
    }
    for i := 0 to |jsonPatch.es|
      invariant PatchSpec(source, jsonPatch.es) == PatchSpec(result, jsonPatch.es[i..])
    {
      var val := jsonPatch.es[i];
      assert jsonPatch.es[i..][1..] == jsonPatch.es[i + 1..];
      var op :- ReadOp(val);
      result :- RunOp(result, op);
    }
    return Ok(result);
  }

  //////// The round trip ////////

  lemma KeysDiffer()
    ensures OP != PATH && OP != VALUE && PATH != VALUE && ADD != REMOVE && ADD != REPLACE && REMOVE != REPLACE
  {
  }

  lemma FieldsFound(ms: seq<Member>)
    requires |ms| in {2, 3} && ms[0].key == OP && ms[1].key == PATH && (|ms| == 3 ==> ms[2].key == VALUE)
    ensures Find(ms, OP) == Some(ms[0].value) && Find(ms, PATH) == Some(ms[1].value)
    ensures |ms| == 3 ==> Find(ms, VALUE) == Some(ms[2].value)
  {
    KeysDiffer();
    assert Find(ms[1..], PATH) == Some(ms[1].value);
    assert |ms| == 3 ==> ms[1..][1..] == [ms[2]] && Find(ms[1..][1..], VALUE) == Some(ms[2].value);
  }

  lemma ReadWrittenOp(op: Op)
    ensures ReadOp(OpDoc([], op)) == Ok(Edit(op))
  {
    hide PointerText, SplitSpec, Find;
    assert [] + PointerText(op.path) == PointerText(op.path);
    SplitUndoesToString(op.path);
    var ms := OpDoc([], op).ms;
    KeysDiffer();
    FieldsFound(ms);
  }

  lemma {:induction false} PatchAppliesOps(doc: Json, ops: seq<Op>)
    ensures PatchSpec(doc, OpDocs([], ops)) == ApplyAll(doc, ops, true)
    decreases |ops|
  {
    if ops == [] {
    } else {
      ReadWrittenOp(ops[0]);
      assert OpDocs([], ops)[1..] == OpDocs([], ops[1..]);
      if ApplyOp(doc, ops[0], true).Ok? {
        PatchAppliesOps(ApplyOp(doc, ops[0], true).value, ops[1..]);
      }
    }
  }

  lemma {:induction false} EqualToOrdered(r: Json, t: Json)
    requires Eq(r, t) && Ordered(t)
    ensures Ordered(r)
  {
    match r
    case Arr(es) => forall i | 0 <= i < |es| ensures Ordered(es[i]) { EqualToOrdered(es[i], t.es[i]); }
    case Obj(ms) =>
      forall i | 0 <= i < |ms| ensures Ordered(ms[i].value) { EqualToOrdered(ms[i].value, t.ms[i].value); }
    case _ =>
  }

  /** The patch document that diff writes. */
  function DiffDoc(source: Json, target: Json): seq<Json> {
    OpDocs([], DiffOps(source, target))
  }

  /** source.patch(diff(source, target)) == target, exactly where the differences are addressable. */
  lemma PatchUndoesDiff(source: Json, target: Json)
    requires Ordered(source) && Ordered(target)
    ensures PatchSpec(source, DiffDoc(source, target)).Ok? <==> Addressable(source, target)
    ensures Addressable(source, target) ==>
              var r := PatchSpec(source, DiffDoc(source, target)).value; Eq(r, target) && Ordered(r)
  {
    PatchAppliesOps(source, DiffOps(source, target));
    var r := PatchOfDiff(source, target, true);
    if Addressable(source, target) {
      EqualToOrdered(r, target);
    }
  }

  /** Arrays that std::stoi can index throughout. */
  predicate ShortArrays(j: Json) {
    match j
    case Arr(es) => |es| <= INT_MAX + 1 && forall i | 0 <= i < |es| :: ShortArrays(es[i])
    case Obj(ms) => forall i | 0 <= i < |ms| :: ShortArrays(ms[i].value)
    case _ => true
  }

  lemma {:induction false} ShortIsAddressable(s: Json, t: Json)
    requires ShortArrays(s) && ShortArrays(t)
    ensures Addressable(s, t)
    decreases s
  {
    match s
    case Arr(x) =>
      if t.Arr? {
        forall i | 0 <= i < |x| && i < |t.es| ensures Addressable(x[i], t.es[i]) { ShortIsAddressable(x[i], t.es[i]); }
      }
    case Obj(x) =>
      if t.Obj? {
        forall i | 0 <= i < |x| && Find(t.ms, x[i].key).Some?
          ensures Addressable(x[i].value, Find(t.ms, x[i].key).value)
        {
          var n := FindSome(t.ms, x[i].key);
          ShortIsAddressable(x[i].value, t.ms[n].value);
        }
      }
    case _ =>
  }

  /** One element beyond INT_MAX + 1 is enough to break the documented "always true". */
  lemma LongArrayBreaksPatch()
    ensures var es := seq(INT_MAX + 1, _ => Null);
            PatchSpec(Arr(es), DiffDoc(Arr(es), Arr(es + [Null]))).Err?
  {
    var es := seq(INT_MAX + 1, _ => Null);
    PatchUndoesDiff(Arr(es), Arr(es + [Null]));
  }

  //////// The assertion in operation_add ////////

  /** What operation_add has no case for. */
  predicate NoParent(j: Json) {
    IsPrimitive(j) && !j.Null?
  }

  lemma {:induction false} StoiNeverAsserts(s: Text)
    ensures Stoi(s) != Err(AssertFailure)
  {
    if s != [] && IsSpace(s[0]) {
      StoiNeverAsserts(s[1..]);
    }
  }

  lemma StepsNeverAssert(j: Json, token: Text)
    ensures Locate(j, token) != Err(AssertFailure) && Created(j, token) != Err(AssertFailure)
  {
    StoiNeverAsserts(token);
  }

  /** What get_unchecked creates where get_checked finds nothing is null. */
  lemma CreatedIsNull(j: Json, token: Text)
    requires Locate(j, token).Err? && Created(j, token).Ok?
    ensures var (k, slot) := Created(j, token).value; Child(k, slot) == Null
  {
    if j.Obj? {
      FindPut(j.ms, token, Null, token);
    } else if j.Null? {
      FindPut([], token, Null, token);
    }
  }

  lemma {:induction false} NothingAssertsBelowNull(tokens: seq<Text>, token: Text, v: Json)
    ensures EditUnchecked(Null, tokens, AddChild(token, v)) != Err(AssertFailure)
    decreases tokens
  {
    if tokens == [] {
    } else {
      StepsNeverAssert(Null, tokens[0]);
      if Created(Null, tokens[0]).Ok? {
        CreatedIsNull(Null, tokens[0]);
        NothingAssertsBelowNull(tokens[1..], token, v);
      }
    }
  }

  lemma {:induction false} EditAsserts(j: Json, tokens: seq<Text>, token: Text, v: Json)
    ensures EditUnchecked(j, tokens, AddChild(token, v)) == Err(AssertFailure) <==>
            Resolved(j, tokens).Ok? && NoParent(Resolved(j, tokens).value)
    decreases tokens
  {
    if tokens == [] {
      StoiNeverAsserts(token);
    } else {
      StepsNeverAssert(j, tokens[0]);
      if Locate(j, tokens[0]).Ok? {
        CreatedIsLocated(j, tokens[0]);
        EditAsserts(Child(j, Locate(j, tokens[0]).value), tokens[1..], token, v);
      } else if Created(j, tokens[0]).Ok? {
        CreatedIsNull(j, tokens[0]);
        NothingAssertsBelowNull(tokens[1..], token, v);
      }
    }
  }

  /** The comment in operation_add says that an existing parent cannot be primitive. The assert(false) below
      it is reached exactly where the parent is a boolean, a number or a string. */
  lemma AddAssertsIffParentPrimitive(doc: Json, p: seq<Text>, v: Json)
    ensures ApplyOp(doc, Add(p, v), true) == Err(AssertFailure) <==>
            p != [] && Resolved(doc, p[..|p| - 1]).Ok? && NoParent(Resolved(doc, p[..|p| - 1]).value)
  {
    if p != [] {
      var front := p[..|p| - 1];
      if |p| > 1 {
        assert front[0] == p[0];
        StepsNeverAssert(doc, p[0]);
      }
      EditAsserts(doc, front, p[|p| - 1], v);
    }
  }

  /** Adding /a/b to {"a": 1} is one such input. */
  lemma AddBelowPrimitive()
    ensures ApplyOp(Obj([Member([0x61], Uint(1))]), Add([[0x61], [0x62]], Null), true) == Err(AssertFailure)
  {
    var doc := Obj([Member([0x61], Uint(1))]);
    var p: seq<Text> := [[0x61], [0x62]];
    assert p[..1] == [[0x61]] && p[..1][1..] == [];
    assert Created(doc, [0x61]) == Ok((doc, Key([0x61])));
    assert Child(doc, Key([0x61])) == Uint(1);
    assert EditUnchecked(Uint(1), [], AddChild([0x62], Null)) == Err(AssertFailure);
  }
}
