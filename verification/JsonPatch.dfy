// diff and patch (RFC 6902). A patch operation is first described by reference tokens; the JSON
// documents that diff writes and patch reads spell the tokens as pointer texts.

module JsonPatch {
  import opened ByteStrings
  import opened Decimal
  import opened JsonValue
  import opened JsonAccess

  //////// Operations ////////

  /** What an operation does at the place its pointer leads to. */
  datatype Edit = Assign(v: Json) | AddChild(token: Text, v: Json) | RemoveChild(token: Text)

  function ApplyEdit(j: Json, e: Edit): Result<Json> {
    match e
    case Assign(v) => Ok(v)
    case AddChild(token, v) =>
      (match j
       case Null => Ok(Obj([Member(token, v)]))
       case Obj(ms) => Ok(Obj(Put(ms, token, v)))
       case Arr(es) =>
         if token == [MINUS] then Ok(Arr(es + [v]))
         else
           var i :- Stoi(token);
           if 0 <= i <= |es| then Ok(Arr(es[..i] + [v] + es[i..])) else Err(OutOfRange)
       case _ => Err(AssertFailure))
    case RemoveChild(token) =>
      (match j
       case Obj(ms) => if Find(ms, token).Some? then Ok(Obj(Erase(ms, token))) else Err(OutOfRange)
       case Arr(es) =>
         var i :- Stoi(token);
         if 0 <= i < |es| then Ok(Arr(es[..i] + es[i + 1..])) else Err(OutOfRange)
       case _ => Ok(j))
  }

  /** Edit the value that get_checked finds. */
  function EditChecked(j: Json, tokens: seq<Text>, e: Edit): Result<Json>
    decreases tokens
  {
    if tokens == [] then ApplyEdit(j, e)
    else
      var slot :- Locate(j, tokens[0]);
      var c :- EditChecked(Child(j, slot), tokens[1..], e);
      Ok(WithChild(j, slot, c))
  }

  /** Edit the value that get_unchecked finds or creates. */
  function EditUnchecked(j: Json, tokens: seq<Text>, e: Edit): Result<Json>
    decreases tokens
  {
    if tokens == [] then ApplyEdit(j, e)
    else
      var (k, slot) :- Created(j, tokens[0]);
      var c :- EditUnchecked(Child(k, slot), tokens[1..], e);
      Ok(WithChild(k, slot, c))
  }

  datatype Op = Add(path: seq<Text>, v: Json) | Remove(path: seq<Text>) | Replace(path: seq<Text>, v: Json)

  /** operation_add, operation_remove and the replace case of patch. Below the root, operation_add first
      looks for the top element of the pointer; `top` is false where that has been done. */
  function ApplyOp(doc: Json, op: Op, top: bool): Result<Json> {
    var p := op.path;
    match op
    case Add(_, v) =>
      if p == [] then Ok(v)
      else if top && |p| > 1 && Locate(doc, p[0]).Err? then Err(Locate(doc, p[0]).error)
      else EditUnchecked(doc, p[..|p| - 1], AddChild(p[|p| - 1], v))
    case Remove(_) =>
      if p == [] then Err(DomainError) else EditChecked(doc, p[..|p| - 1], RemoveChild(p[|p| - 1]))
    case Replace(_, v) => EditChecked(doc, p, Assign(v))
  }

  function ApplyAll(doc: Json, ops: seq<Op>, top: bool): Result<Json>
    decreases |ops|
  {
    if ops == [] then Ok(doc)
    else
      var next :- ApplyOp(doc, ops[0], top);
      ApplyAll(next, ops[1..], top)
  }

  lemma {:induction false} ApplyAllAppend(doc: Json, a: seq<Op>, b: seq<Op>, top: bool)
    ensures ApplyAll(doc, a + b, top) ==
            match ApplyAll(doc, a, top) { case Ok(d) => ApplyAll(d, b, top) case Err(e) => Err(e) }
    decreases |a|
  {
    if a == [] {
      assert a + b == b;
    } else {
      assert (a + b)[1..] == a[1..] + b;
      if ApplyOp(doc, a[0], top).Ok? {
        ApplyAllAppend(ApplyOp(doc, a[0], top).value, a[1..], b, top);
      }
    }
  }

  //////// The operations that diff generates ////////

  function Under(token: Text, op: Op): Op {
    op.(path := [token] + op.path)
  }

  function UnderAll(token: Text, ops: seq<Op>): (r: seq<Op>)
    ensures |r| == |ops|
  {
    if ops == [] then [] else [Under(token, ops[0])] + UnderAll(token, ops[1..])
  }

  /** diff, with paths relative to the two values. */
  function DiffOps(s: Json, t: Json): seq<Op>
    decreases s
  {
    if Eq(s, t) then []
    else if !SameType(s, t) then [Replace([], t)]
    else match s
      case Arr(x) => CommonOps(x, t.es, 0) + RemoveOps(|x|, |t.es|) + AddOps(t.es, Min(|x|, |t.es|))
      case Obj(x) => KeyOps(x, t.ms, 0) + NewOps(x, t.ms, 0)
      case _ => [Replace([], t)]
  }

  /** Elements that both arrays have. */
  function CommonOps(x: seq<Json>, y: seq<Json>, i: nat): seq<Op>
    decreases x, |x| - i
  {
    if i >= |x| || i >= |y| then []
    else UnderAll(Numeral(i), DiffOps(x[i], y[i])) + CommonOps(x, y, i + 1)
  }

  /** Surplus elements of the source, removed from the back. */
  function RemoveOps(n: nat, m: nat): seq<Op>
    decreases n
  {
    if n <= m then [] else [Remove([Numeral(n - 1)])] + RemoveOps(n - 1, m)
  }

  /** Surplus elements of the target, appended. */
  function AddOps(y: seq<Json>, i: nat): seq<Op>
    decreases |y| - i
  {
    if i >= |y| then [] else [Add([Numeral(i)], y[i])] + AddOps(y, i + 1)
  }

  /** The keys of the source: changed or removed. */
  function KeyOps(x: seq<Member>, y: seq<Member>, i: nat): seq<Op>
    decreases x, |x| - i
  {
    if i >= |x| then []
    else
      (match Find(y, x[i].key)
       case Some(v) => UnderAll(x[i].key, DiffOps(x[i].value, v))
       case None => [Remove([x[i].key])])
      + KeyOps(x, y, i + 1)
  }

  /** The keys that only the target has. */
  function NewOps(x: seq<Member>, y: seq<Member>, i: nat): seq<Op>
    decreases |y| - i
  {
    if i >= |y| then []
    else (if Find(x, y[i].key).None? then [Add([y[i].key], y[i].value)] else []) + NewOps(x, y, i + 1)
  }

  //////// Operations inside a child act on the child ////////

  /** Adding or removing needs a parent: diff never does it at the place it compares. */
  predicate HasParent(op: Op) {
    op.Replace? || op.path != []
  }

  function Lifted(j: Json, slot: Slot, r: Result<Json>): Result<Json>
    requires HasSlot(j, slot)
  {
    match r
    case Ok(c) => Ok(WithChild(j, slot, c))
    case Err(e) => Err(e)
  }

  lemma ApplyUnder(doc: Json, token: Text, op: Op, top: bool)
    requires HasParent(op) && Locate(doc, token).Ok?
    ensures var slot := Locate(doc, token).value;
            ApplyOp(doc, Under(token, op), top) == Lifted(doc, slot, ApplyOp(Child(doc, slot), op, false))
  {
    var p, q := op.path, [token] + op.path;
    assert q[1..] == p;
    if p != [] {
      assert q[..|q| - 1][1..] == p[..|p| - 1] && q[..|q| - 1][0] == token;
    }
    CreatedIsLocated(doc, token);
  }

  lemma ApplyUnderMissing(doc: Json, token: Text, op: Op, top: bool)
    requires HasParent(op) && Locate(doc, token).Err? && Created(doc, token).Err?
    ensures ApplyOp(doc, Under(token, op), top).Err?
  {
    var p, q := op.path, [token] + op.path;
    if p != [] {
      assert q[..|q| - 1][0] == token;
    }
  }

  lemma {:induction false} ApplyAllUnder(doc: Json, token: Text, ops: seq<Op>, top: bool)
    requires Locate(doc, token).Ok?
    requires forall op | op in ops :: HasParent(op)
    ensures var slot := Locate(doc, token).value;
            ApplyAll(doc, UnderAll(token, ops), top) ==
            if ops == [] then Ok(doc) else Lifted(doc, slot, ApplyAll(Child(doc, slot), ops, false))
    decreases |ops|
  {
    if ops == [] {
    } else {
      var slot := Locate(doc, token).value;
      var c := Child(doc, slot);
      ApplyUnder(doc, token, ops[0], top);
      var r := ApplyOp(c, ops[0], false);
      if r.Ok? {
        var next := WithChild(doc, slot, r.value);
        LocateAgain(doc, token, r.value);
        WithChildLaws(doc, slot, r.value, r.value);
        ApplyAllUnder(next, token, ops[1..], top);
        var rest := ApplyAll(r.value, ops[1..], false);
        if rest.Ok? {
          WithChildLaws(doc, slot, r.value, rest.value);
        }
      }
    }
  }
}
