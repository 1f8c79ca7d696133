// flatten and unflatten: a value as one flat object from pointer texts to leaves, and back.

module JsonFlatten {
  import opened ByteStrings
  import opened Decimal
  import opened JsonValue
  import opened JsonPointer
  import opened JsonAccess

  //////// flatten ////////

  /** An empty array or object is flattened to null. */
  function Leaf(v: Json): Json
    requires IsLeaf(v)
  {
    if IsPrimitive(v) then v else Null
  }

  predicate IsLeaf(v: Json) {
    IsPrimitive(v) || v == Arr([]) || v == Obj([])
  }

  /** The leaf that a pointer reaches. */
  function LeafAt(v: Json, p: seq<Text>): Option<Json>
    decreases p
  {
    if p == [] then if IsLeaf(v) then Some(Leaf(v)) else None
    else match Inside(v, p[0])
      case Some(c) => LeafAt(c, p[1..])
      case None => None
  }

  /** The child that a token written by flatten names. */
  function Inside(v: Json, token: Text): Option<Json> {
    match v
    case Arr(es) => if IndexOf(|es|, token).Some? then Some(es[IndexOf(|es|, token).value]) else None
    case Obj(ms) => Find(ms, token)
    case _ => None
  }

  /** The i below n whose numeral the token is. */
  function IndexOf(n: nat, token: Text): (r: Option<nat>)
    ensures r.Some? ==> r.value < n && Numeral(r.value) == token
    ensures r.None? ==> forall i: nat | i < n :: Numeral(i) != token
  {
    if n == 0 then None
    else if Numeral(n - 1) == token then Some(n - 1)
    else IndexOf(n - 1, token)
  }

  /** flatten(reference_string, value, result) as a function on the result. */
  function Flattened(at: Text, v: Json, ms: seq<Member>): seq<Member>
    decreases v, 0, 0
  {
    if IsLeaf(v) then Put(ms, at, Leaf(v))
    else match v
      case Arr(es) => FlattenedFrom(at, es, 0, ms)
      case Obj(xs) => FlattenedKeys(at, xs, 0, ms)
  }

  function FlattenedFrom(at: Text, es: seq<Json>, i: nat, ms: seq<Member>): seq<Member>
    decreases es, |es| - i
  {
    if i >= |es| then ms
    else FlattenedFrom(at, es, i + 1, Flattened(at + [SLASH] + Numeral(i), es[i], ms))
  }

  function FlattenedKeys(at: Text, xs: seq<Member>, i: nat, ms: seq<Member>): seq<Member>
    decreases xs, |xs| - i
  {
    if i >= |xs| then ms
    else FlattenedKeys(at, xs, i + 1, Flattened(at + [SLASH] + Escaped(xs[i].key), xs[i].value, ms))
  }

  method Flatten(at: Text, value: Json, result0: seq<Member>) returns (result: seq<Member>)
    ensures result == Flattened(at, value, result0)
    decreases value
  {
    result := result0;
    match value {
      case Arr(es) =>
        if es == [] {
          result := Put(result, at, Null);
        } else {
          for i := 0 to |es|
            invariant FlattenedFrom(at, es, i, result) == FlattenedFrom(at, es, 0, result0)
          {
            result := Flatten(at + [SLASH] + Numeral(i), es[i], result);
          }
        }
      case Obj(xs) =>
        if xs == [] {
          result := Put(result, at, Null);
        } else {
          for i := 0 to |xs|
            invariant FlattenedKeys(at, xs, i, result) == FlattenedKeys(at, xs, 0, result0)
          {
            var key := Escape(xs[i].key);
            result := Flatten(at + [SLASH] + key, xs[i].value, result);
          }
        }
      case _ => result := Put(result, at, value);
    }
  }

  /** The members of j.flatten(). */
  function Flat(j: Json): seq<Member> {
    Flattened([], j, [])
  }

  //////// unflatten ////////

  /** json_pointer(key).get_and_create(j) = leaf */
  function Place(j: Json, tokens: seq<Text>, leaf: Json): Result<Json>
    decreases tokens
  {
    if tokens == [] then Ok(leaf)
    else
      var (k, slot) :- Grown(j, tokens[0]);
      var c :- Place(Child(k, slot), tokens[1..], leaf);
      Ok(WithChild(k, slot, c))
  }

  /** The loop of unflatten over the remaining members. */
  function Assembled(j: Json, ms: seq<Member>): Result<Json>
    decreases |ms|
  {
    if ms == [] then Ok(j)
    else if !IsPrimitive(ms[0].value) then Err(DomainError)
    else
      var tokens :- SplitSpec(ms[0].key);
      var next :- Place(j, tokens, ms[0].value);
      Assembled(next, ms[1..])
  }

  method Unflatten(value: Json) returns (r: Result<Json>)
    ensures r == if value.Obj? then Assembled(Null, value.ms) else Err(DomainError)
  {
    if !value.Obj? {
      return Err(DomainError);
    }
    var result := Null;
    for i := 0 to |value.ms|
      invariant Assembled(Null, value.ms) == Assembled(result, value.ms[i..])
    {
      var element := value.ms[i];
      assert value.ms[i..][1..] == value.ms[i + 1..];
      if !IsPrimitive(element.value) {
        return Err(DomainError);
      }
      var tokens :- SplitSpec(element.key);
      result :- Place(result, tokens, element.value);
    }
    return Ok(result);
  }

  //////// What flatten computes ////////

  /** The tokens behind the pointer `at` in a key, if the key is a pointer that begins with `at`. */
  function Below(at: seq<Text>, key: Text): Option<seq<Text>> {
    match SplitSpec(key)
    case Ok(tokens) => if |at| <= |tokens| && tokens[..|at|] == at then Some(tokens[|at|..]) else None
    case Err(_) => None
  }

  lemma BelowText(at: seq<Text>, p: seq<Text>)
    ensures Below(at, PointerText(at + p)) == Some(p)
  {
    SplitUndoesToString(at + p);
  }

  lemma BelowMeans(at: seq<Text>, key: Text)
    requires Below(at, key).Some?
    ensures key == PointerText(at + Below(at, key).value)
  {
    SplitAcceptsExactlyPointers(key);
    var tokens := SplitSpec(key).value;
    assert tokens == tokens[..|at|] + tokens[|at|..];
  }

  /** Entries for the leaves of v below `at`, on top of ms. */
  function Expected(at: seq<Text>, v: Json, ms: seq<Member>, key: Text): Option<Json> {
    match Below(at, key)
    case Some(p) => if LeafAt(v, p).Some? then LeafAt(v, p) else Find(ms, key)
    case None => Find(ms, key)
  }

  lemma ChildPath(at: seq<Text>, token: Text)
    ensures PointerText(at + [token]) == PointerText(at) + [SLASH] + Escaped(token)
  {
    PointerTextAppend(at, [token]);
    PointerTextOne(token);
    ConcatAssociative(PointerText(at), [SLASH], Escaped(token));
  }

  lemma BelowChild(at: seq<Text>, token: Text, key: Text)
    ensures Below(at + [token], key) ==
            match Below(at, key) {
              case Some(p) => if p != [] && p[0] == token then Some(p[1..]) else None
              case None => None
            }
  {
    match SplitSpec(key) {
      case Err(_) =>
      case Ok(tokens) =>
        var deep := at + [token];
        if |at| < |tokens| {
          assert tokens[..|deep|] == tokens[..|at|] + [tokens[|at|]];
          assert tokens[|at|..][1..] == tokens[|deep|..];
          if tokens[..|deep|] == deep {
            assert tokens[..|at|] == deep[..|at|] == at;
            assert tokens[|at|] == deep[|at|];
          }
        }
    }
  }

  lemma IndexOfNumeral(n: nat, i: nat)
    requires i < n
    ensures IndexOf(n, Numeral(i)) == Some(i)
  {
    var r := IndexOf(n, Numeral(i));
    assert r.Some?;
    NumeralInjective(r.value, i);
  }

  lemma {:induction false} FlattenedFinds(at: seq<Text>, v: Json, ms: seq<Member>, key: Text)
    requires Ordered(v)
    ensures Find(Flattened(PointerText(at), v, ms), key) == Expected(at, v, ms, key)
    decreases v, 0, 0
  {
    if IsLeaf(v) {
      FindPut(ms, PointerText(at), Leaf(v), key);
      assert at + [] == at;
      BelowText(at, []);
      if Below(at, key).Some? {
        BelowMeans(at, key);
        var p := Below(at, key).value;
        if p != [] { assert Inside(v, p[0]).None?; }
      }
    } else if v.Arr? {
      FlattenedFromFinds(at, v.es, 0, ms, key);
    } else {
      FlattenedKeysFinds(at, v.ms, 0, ms, key);
    }
  }

  /** As Expected, but only for elements from i on. */
  function ExpectedFrom(at: seq<Text>, es: seq<Json>, i: nat, ms: seq<Member>, key: Text): Option<Json> {
    match Below(at, key)
    case Some(p) =>
      if p != [] && IndexOf(|es|, p[0]).Some? && i <= IndexOf(|es|, p[0]).value
         && LeafAt(es[IndexOf(|es|, p[0]).value], p[1..]).Some?
      then LeafAt(es[IndexOf(|es|, p[0]).value], p[1..]) else Find(ms, key)
    case None => Find(ms, key)
  }

  lemma {:induction false} FlattenedFromFinds(at: seq<Text>, es: seq<Json>, i: nat, ms: seq<Member>, key: Text)
    requires Ordered(Arr(es)) && i <= |es|
    ensures Find(FlattenedFrom(PointerText(at), es, i, ms), key) == ExpectedFrom(at, es, i, ms, key)
    decreases es, |es| - i
  {
    hide Flattened, PointerText;
    if i >= |es| {
    } else {
      var token := Numeral(i);
      ChildPath(at, token);
      EscapedDigits(Numeral(i));
      var next := Flattened(PointerText(at + [token]), es[i], ms);
      FlattenedFinds(at + [token], es[i], ms, key);
      FlattenedFromFinds(at, es, i + 1, next, key);
      BelowChild(at, token, key);
      IndexOfNumeral(|es|, i);
    }
  }

  /** As Expected, but only for members from i on. */
  function ExpectedKeys(at: seq<Text>, xs: seq<Member>, i: nat, ms: seq<Member>, key: Text): Option<Json>
    requires i <= |xs|
  {
    match Below(at, key)
    case Some(p) =>
      if p != [] && Find(xs[i..], p[0]).Some? && LeafAt(Find(xs[i..], p[0]).value, p[1..]).Some?
      then LeafAt(Find(xs[i..], p[0]).value, p[1..]) else Find(ms, key)
    case None => Find(ms, key)
  }

  lemma {:induction false} FlattenedKeysFinds(at: seq<Text>, xs: seq<Member>, i: nat, ms: seq<Member>, key: Text)
    requires Ordered(Obj(xs)) && i <= |xs|
    ensures Find(FlattenedKeys(PointerText(at), xs, i, ms), key) == ExpectedKeys(at, xs, i, ms, key)
    decreases xs, |xs| - i
  {
    if i >= |xs| {
    } else {
      var token := xs[i].key;
      ChildPath(at, token);
      var next := Flattened(PointerText(at + [token]), xs[i].value, ms);
      FlattenedFinds(at + [token], xs[i].value, ms, key);
      FlattenedKeysFinds(at, xs, i + 1, next, key);
      BelowChild(at, token, key);
      assert xs[i..][1..] == xs[i + 1..] && xs[i..][0] == xs[i];
      FindBehind(xs, i);
    }
  }

  lemma {:induction false} FlattenedSorted(at: Text, v: Json, ms: seq<Member>)
    requires Sorted(ms)
    ensures Sorted(Flattened(at, v, ms))
    decreases v, 0, 0
  {
    if IsLeaf(v) {
      PutSorted(ms, at, Leaf(v));
    } else if v.Arr? {
      FlattenedFromSorted(at, v.es, 0, ms);
    } else {
      FlattenedKeysSorted(at, v.ms, 0, ms);
    }
  }

  lemma {:induction false} FlattenedFromSorted(at: Text, es: seq<Json>, i: nat, ms: seq<Member>)
    requires Sorted(ms)
    ensures Sorted(FlattenedFrom(at, es, i, ms))
    decreases es, |es| - i
  {
    if i >= |es| {
    } else {
      var deep := at + [SLASH] + Numeral(i);
      FlattenedSorted(deep, es[i], ms);
      FlattenedFromSorted(at, es, i + 1, Flattened(deep, es[i], ms));
    }
  }

  lemma {:induction false} FlattenedKeysSorted(at: Text, xs: seq<Member>, i: nat, ms: seq<Member>)
    requires Sorted(ms)
    ensures Sorted(FlattenedKeys(at, xs, i, ms))
    decreases xs, |xs| - i
  {
    if i >= |xs| {
    } else {
      var deep := at + [SLASH] + Escaped(xs[i].key);
      FlattenedSorted(deep, xs[i].value, ms);
      FlattenedKeysSorted(at, xs, i + 1, Flattened(deep, xs[i].value, ms));
    }
  }

  /** The entries of j.flatten() are the leaves of j under their pointers, and nothing else. */
  lemma FlatIsLeaves(j: Json)
    requires Ordered(j)
    ensures Sorted(Flat(j))
    ensures forall p :: Find(Flat(j), PointerText(p)) == LeafAt(j, p)
    ensures forall key :: Find(Flat(j), key).Some? ==> SplitSpec(key).Ok?
  {
    FlattenedSorted([], j, []);
    forall p ensures Find(Flat(j), PointerText(p)) == LeafAt(j, p) {
      assert [] + p == p;
      BelowText([], p);
      FlattenedFinds([], j, [], PointerText(p));
    }
    forall key | Find(Flat(j), key).Some? ensures SplitSpec(key).Ok? {
      FlattenedFinds([], j, [], key);
    }
  }
}
