// unflatten builds each child from the entries of that child alone, in whatever order they come, so that
// restoring a flattened value is an induction over the value.

module JsonUnflattenLaws {
  import opened ByteStrings
  import opened Decimal
  import opened JsonValue
  import opened JsonPointer
  import opened JsonAccess
  import opened JsonFlatten
  import opened JsonFlattenLaws

  /** Entries that lead into an array or object. */
  predicate Entries(ms: seq<Member>) {
    AllPointers(ms) && forall i | 0 <= i < |ms| :: IsPrimitive(ms[i].value)
  }

  //////// Building an object ////////

  function FindOrNull(xs: seq<Member>, token: Text): Json {
    match Find(xs, token)
    case Some(v) => v
    case None => Null
  }

  /** A child built from its own entries. */
  function KeyResult(xs: seq<Member>, ms: seq<Member>, token: Text): Result<Json>
    requires AllPointers(ms)
  {
    Assembled(FindOrNull(xs, token), Sub(ms, token))
  }

  /** The first turn of the loop of unflatten. */
  lemma FirstTurn(j: Json, ms: seq<Member>)
    requires Entries(ms) && ms != []
    ensures var placed := Place(j, Tokens(ms[0]), ms[0].value);
            Assembled(j, ms) == if placed.Ok? then Assembled(placed.value, ms[1..]) else placed
    ensures Entries(ms[1..])
  {
  }

  lemma PlaceInObject(xs: seq<Member>, tokens: seq<Text>, leaf: Json)
    requires tokens != []
    ensures Place(Obj(xs), tokens, leaf) ==
            var child := Place(FindOrNull(xs, tokens[0]), tokens[1..], leaf);
            if child.Ok? then Ok(Obj(Put(xs, tokens[0], child.value))) else child
  {
    var token := tokens[0];
    var child := Place(FindOrNull(xs, token), tokens[1..], leaf);
    FindPut(xs, token, Null, token);
    if child.Ok? {
      PutTwice(xs, token, Null, child.value);
    }
  }

  /** The first entry goes to its child and to no other. */
  lemma FirstGoesToChild(ms: seq<Member>, j: Json, token: Text)
    requires Entries(ms) && ms != []
    ensures Tokens(ms[0])[0] != token ==> Sub(ms, token) == Sub(ms[1..], token)
    ensures Tokens(ms[0])[0] == token ==>
              Sub(ms, token) != [] &&
              var child := Place(j, Tokens(ms[0])[1..], ms[0].value);
              Assembled(j, Sub(ms, token)) == if child.Ok? then Assembled(child.value, Sub(ms[1..], token)) else child
  {
    var rest := Sub(ms[1..], token);
    if Tokens(ms[0])[0] == token {
      SplitUndoesToString(Tokens(ms[0])[1..]);
      assert Sub(ms, token)[1..] == rest;
    } else {
      assert [] + rest == rest;
    }
  }

  lemma NothingToAssemble(xs: seq<Member>)
    ensures forall j :: Assembled(j, []) == Ok(j)
    ensures forall t :: Sub([], t) == [] && KeyResult(xs, [], t) == Ok(FindOrNull(xs, t))
  {
  }

  lemma {:induction false} AssembleObject(xs: seq<Member>, ms: seq<Member>) returns (bad: Text)
    requires Sorted(xs) && Entries(ms)
    ensures var r := Assembled(Obj(xs), ms);
            if r.Err? then KeyResult(xs, ms, bad).Err?
            else
              && r.value.Obj? && Sorted(r.value.ms)
              && (forall t :: KeyResult(xs, ms, t).Ok?)
              && (forall t :: Find(r.value.ms, t) ==
                              if Sub(ms, t) == [] then Find(xs, t) else Some(KeyResult(xs, ms, t).value))
    decreases |ms|
  {
    hide Place, Put, Sub, Before, Assembled;
    bad := [];
    NothingToAssemble(xs);
    if ms == [] {
    } else {
      var tokens, leaf := Tokens(ms[0]), ms[0].value;
      var token := tokens[0];
      FirstTurn(Obj(xs), ms);
      PlaceInObject(xs, tokens, leaf);
      FirstGoesToChild(ms, FindOrNull(xs, token), token);
      var placed := Place(FindOrNull(xs, token), tokens[1..], leaf);
      if placed.Err? {
        bad := token;
      } else {
        var c := placed.value;
        var next := Put(xs, token, c);
        PutSorted(xs, token, c);
        bad := AssembleObject(next, ms[1..]);
        forall t ensures KeyResult(xs, ms, t) == KeyResult(next, ms[1..], t)
          ensures t != token ==> Sub(ms, t) == Sub(ms[1..], t)
          ensures Find(next, t) == if t == token then Some(c) else Find(xs, t)
        {
          FindPut(xs, token, c, t);
          FirstGoesToChild(ms, FindOrNull(xs, t), t);
        }
      }
    }
  }

  //////// Building an array ////////

  function ElementOrNull(es: seq<Json>, i: nat): Json {
    if i < |es| then es[i] else Null
  }

  function IndexResult(es: seq<Json>, ms: seq<Member>, i: nat): Result<Json>
    requires AllPointers(ms)
  {
    Assembled(ElementOrNull(es, i), Sub(ms, Numeral(i)))
  }

  /** Every entry names one of the first n elements. */
  predicate Indexed(ms: seq<Member>, n: nat) {
    Entries(ms) && forall i | 0 <= i < |ms| :: IndexOf(n, Tokens(ms[i])[0]).Some?
  }

  function EntryIndex(m: Member, n: nat): nat
    requires SplitSpec(m.key).Ok? && SplitSpec(m.key).value != [] && IndexOf(n, Tokens(m)[0]).Some?
  {
    IndexOf(n, Tokens(m)[0]).value
  }

  lemma PlaceInArray(es: seq<Json>, n: nat, tokens: seq<Text>, leaf: Json)
    requires tokens != [] && IndexOf(n, tokens[0]).Some? && |es| <= n
    ensures var i := IndexOf(n, tokens[0]).value;
            var r := Place(Arr(es), tokens, leaf);
            var c := Place(ElementOrNull(es, i), tokens[1..], leaf);
            if i > INT_MAX || c.Err? then r.Err? else r == Ok(Arr(Filled(es, i)[i := c.value]))
    ensures var i := IndexOf(n, tokens[0]).value; |es| <= |Filled(es, i)| <= n
    ensures var i := IndexOf(n, tokens[0]).value;
            forall k: nat :: ElementOrNull(Filled(es, i), k) == ElementOrNull(es, k)
  {
    var i := IndexOf(n, tokens[0]).value;
    StoiNumeral(i);
  }

  /** Placing the first entry keeps an array of at most n elements. */
  lemma PlaceFirst(es: seq<Json>, ms: seq<Member>, n: nat) returns (next: seq<Json>)
    requires Indexed(ms, n) && ms != [] && |es| <= n
    ensures var r := Place(Arr(es), Tokens(ms[0]), ms[0].value);
            r.Err? || (r == Ok(Arr(next)) && |next| <= n && EntryIndex(ms[0], n) <= INT_MAX)
    ensures Indexed(ms[1..], n)
  {
    PlaceInArray(es, n, Tokens(ms[0]), ms[0].value);
    var r := Place(Arr(es), Tokens(ms[0]), ms[0].value);
    next := if r.Ok? then r.value.es else [];
  }

  /** An index that std::stoi refuses. */
  lemma {:induction false} TooFar(es: seq<Json>, ms: seq<Member>, n: nat, k: nat)
    requires Indexed(ms, n) && |es| <= n && k < |ms| && EntryIndex(ms[k], n) > INT_MAX
    ensures Assembled(Arr(es), ms).Err?
    decreases |ms|
  {
    hide Assembled, Place;
    var next := PlaceFirst(es, ms, n);
    var placed := Place(Arr(es), Tokens(ms[0]), ms[0].value);
    FirstTurn(Arr(es), ms);
    if placed.Ok? && k > 0 {
      assert ms[1..][k - 1] == ms[k];
      TooFar(next, ms[1..], n, k - 1);
    }
  }

  /** A child's entries give the same result before and after the first entry has been placed. */
  lemma IndexResultStep(es: seq<Json>, ms: seq<Member>, n: nat, c: Json, k: nat)
    requires Indexed(ms, n) && ms != [] && |es| <= n
    requires Place(ElementOrNull(es, EntryIndex(ms[0], n)), Tokens(ms[0])[1..], ms[0].value) == Ok(c)
    ensures var i := EntryIndex(ms[0], n);
            IndexResult(es, ms, k) == IndexResult(Filled(es, i)[i := c], ms[1..], k)
  {
    var i := EntryIndex(ms[0], n);
    PlaceInArray(es, n, Tokens(ms[0]), ms[0].value);
    if Numeral(k) == Numeral(i) { NumeralInjective(k, i); }
    FirstGoesToChild(ms, ElementOrNull(es, k), Numeral(k));
  }

  lemma {:induction false} AssembleArray(es: seq<Json>, ms: seq<Member>, n: nat) returns (bad: nat)
    requires Indexed(ms, n) && |es| <= n <= INT_MAX + 1
    ensures var r := Assembled(Arr(es), ms);
            if r.Err? then bad < n && IndexResult(es, ms, bad).Err?
            else
              && r.value.Arr? && |es| <= |r.value.es| <= n
              && (forall i: nat | i < n :: IndexResult(es, ms, i).Ok?)
              && (forall i: nat | i < |r.value.es| :: r.value.es[i] == IndexResult(es, ms, i).value)
              && (forall k | 0 <= k < |ms| :: EntryIndex(ms[k], n) < |r.value.es|)
    decreases |ms|
  {
    bad := 0;
    if ms != [] {
      var tokens, leaf := Tokens(ms[0]), ms[0].value;
      var i := EntryIndex(ms[0], n);
      PlaceInArray(es, n, tokens, leaf);
      var placed := Place(ElementOrNull(es, i), tokens[1..], leaf);
      if placed.Err? {
        bad := i;
        FirstGoesToChild(ms, ElementOrNull(es, i), tokens[0]);
      } else {
        var next := Filled(es, i)[i := placed.value];
        bad := AssembleArray(next, ms[1..], n);
        forall k: nat ensures IndexResult(es, ms, k) == IndexResult(next, ms[1..], k) {
          IndexResultStep(es, ms, n, placed.value, k);
        }
        ShiftedEntries(ms, n);
      }
    }
  }

  lemma ShiftedEntries(ms: seq<Member>, n: nat)
    requires Indexed(ms, n) && ms != []
    ensures forall k | 1 <= k < |ms| :: ms[k] == ms[1..][k - 1] && EntryIndex(ms[k], n) == EntryIndex(ms[1..][k - 1], n)
  {
  }

  //////// Restoring a flattened value ////////

  /** A null becomes an array if the first token is "0", and an object otherwise. */
  lemma FirstTokenDecides(ms: seq<Member>)
    requires Entries(ms) && ms != []
    ensures Assembled(Null, ms) == Assembled(if Tokens(ms[0])[0] == ZERO then Arr([]) else Obj([]), ms)
  {
    StoiNumeral(0);
    assert Numeral(0) == ZERO;
    assert Filled([], 0) == [Null];
    assert Grown(Null, ZERO) == Grown(Arr([]), ZERO);
  }

  lemma {:induction false} ArrayStaysArray(es: seq<Json>, ms: seq<Member>)
    requires Entries(ms) && Assembled(Arr(es), ms).Ok?
    ensures Assembled(Arr(es), ms).value.Arr?
    decreases |ms|
  {
    if ms == [] {
    } else {
      ArrayStaysArray(Place(Arr(es), Tokens(ms[0]), ms[0].value).value.es, ms[1..]);
    }
  }

  /** What unflatten makes of the flattened value. */
  function Restored(j: Json): Result<Json> {
    Assembled(Null, Flat(j))
  }

  predicate Faithful(j: Json, r: Result<Json>) {
    if Restorable(j) then r == Ok(Normal(j)) else r.Err? || !Eq(r.value, Normal(j))
  }

  /** A leaf below a token is among the entries. */
  lemma EntryBelow(j: Json, token: Text) returns (i: nat)
    requires Ordered(j) && !IsLeaf(j) && Inside(j, token).Some? && Ordered(Inside(j, token).value)
    ensures AllPointers(Flat(j)) && i < |Flat(j)| && Tokens(Flat(j)[i])[0] == token
  {
    FlatPointers(j);
    FlatIsLeaves(j);
    var q := SomeLeaf(Inside(j, token).value);
    assert ([token] + q)[1..] == q;
    i := FindSome(Flat(j), PointerText([token] + q));
    SplitUndoesToString([token] + q);
  }

  lemma {:induction false} SubEmpty(ms: seq<Member>, token: Text)
    requires AllPointers(ms) && forall i | 0 <= i < |ms| :: Tokens(ms[i])[0] != token
    ensures Sub(ms, token) == []
  {
    if ms == [] {
    } else {
      assert forall i | 0 <= i < |ms[1..]| :: Tokens(ms[1..][i]) == Tokens(ms[i + 1]);
      SubEmpty(ms[1..], token);
    }
  }

  /** A flattened array is rebuilt element by element. */
  lemma ArrayEntries(es: seq<Json>) returns (last: nat)
    requires Ordered(Arr(es)) && es != []
    ensures var ms, n := Flat(Arr(es)), |es|;
            Indexed(ms, n) && Restored(Arr(es)) == Assembled(Arr([]), ms) &&
            last < |ms| && EntryIndex(ms[last], n) == n - 1
  {
    var j, n := Arr(es), |es|;
    var first := ArrayStartsAtZero(es);
    FlatPointers(j);
    SplitUndoesToString(first);
    FirstTokenDecides(Flat(j));
    IndexOfNumeral(n, n - 1);
    last := EntryBelow(j, Numeral(n - 1));
  }

  lemma ElementEntries(es: seq<Json>, i: nat)
    requires Ordered(Arr(es)) && i < |es|
    ensures AllPointers(Flat(Arr(es))) && IndexResult([], Flat(Arr(es)), i) == Restored(es[i])
  {
    IndexOfNumeral(|es|, i);
    SubOfFlat(Arr(es), Numeral(i));
  }

  lemma {:induction false} RestoredArray(es: seq<Json>)
    requires Ordered(Arr(es)) && es != []
    ensures Faithful(Arr(es), Restored(Arr(es)))
    decreases es, 0
  {
    var ms, n, r := Flat(Arr(es)), |es|, Restored(Arr(es));
    var last := ArrayEntries(es);
    if n > INT_MAX + 1 {
      TooFar([], ms, n, last);
    } else {
      var bad := AssembleArray([], ms, n);
      forall i | 0 <= i < n
        ensures IndexResult([], ms, i) == Restored(es[i]) && Faithful(es[i], Restored(es[i]))
      {
        ElementEntries(es, i);
        RestoredIff(es[i]);
      }
      if r.Ok? {
        RestoredElements(es, r.value.es);
      } else {
        assert !Restorable(es[bad]);
      }
    }
  }

  /** An array whose elements are the restored elements of another one. */
  lemma RestoredElements(es: seq<Json>, rs: seq<Json>)
    requires 0 < |es| == |rs| <= INT_MAX + 1
    requires forall i | 0 <= i < |es| :: Faithful(es[i], Restored(es[i])) && Restored(es[i]) == Ok(rs[i])
    ensures Faithful(Arr(es), Ok(Arr(rs)))
  {
    var normal := Normal(Arr(es)).es;
    if Restorable(Arr(es)) {
      assert rs == normal;
    } else {
      var i :| 0 <= i < |es| && !Restorable(es[i]);
      assert normal[i] == Normal(es[i]);
      assert !Eq(rs[i], normal[i]);
    }
  }

  lemma MemberIsRestored(xs: seq<Member>, i: nat)
    requires Ordered(Obj(xs)) && i < |xs|
    ensures AllPointers(Flat(Obj(xs))) && Find(xs, xs[i].key) == Some(xs[i].value)
    ensures KeyResult([], Flat(Obj(xs)), xs[i].key) == Restored(xs[i].value)
  {
    FlatPointers(Obj(xs));
    FindMember(xs, i);
    SubOfFlat(Obj(xs), xs[i].key);
  }

  /** The keys of an object are those that have entries. */
  lemma EntriesOfKey(xs: seq<Member>, t: Text)
    requires Ordered(Obj(xs)) && xs != []
    ensures AllPointers(Flat(Obj(xs))) && (Sub(Flat(Obj(xs)), t) != [] <==> Find(xs, t).Some?)
  {
    FlatPointers(Obj(xs));
    if Find(xs, t).Some? {
      var i := FindSome(xs, t);
      SubOfFlat(Obj(xs), t);
      FlatNotEmpty(xs[i].value);
    } else {
      SubEmpty(Flat(Obj(xs)), t);
    }
  }

  lemma {:induction false} RestoredObject(xs: seq<Member>)
    requires Ordered(Obj(xs)) && xs != []
    ensures Faithful(Obj(xs), Restored(Obj(xs)))
    decreases xs, 0
  {
    var j := Obj(xs);
    var ms, r := Flat(j), Restored(j);
    var first := ObjectStartsAtZero(xs);
    FlatPointers(j);
    SplitUndoesToString(first);
    FirstTokenDecides(ms);
    if ZeroFirst(xs) {
      if r.Ok? { ArrayStaysArray([], ms); }
    } else {
      var bad := AssembleObject([], ms);
      forall i | 0 <= i < |xs|
        ensures Find(xs, xs[i].key) == Some(xs[i].value)
        ensures KeyResult([], ms, xs[i].key) == Restored(xs[i].value) && Faithful(xs[i].value, Restored(xs[i].value))
      {
        MemberIsRestored(xs, i);
        RestoredIff(xs[i].value);
      }
      forall t ensures Sub(ms, t) != [] <==> Find(xs, t).Some? {
        EntriesOfKey(xs, t);
      }
      if r.Ok? {
        RestoredMembers(xs, r.value.ms);
      } else {
        assert Sub(ms, bad) != [];
        var i := FindSome(xs, bad);
        assert !Restorable(xs[i].value);
      }
    }
  }

  /** An object whose members are the restored members of another one. */
  lemma RestoredMembers(xs: seq<Member>, rs: seq<Member>)
    requires Sorted(xs) && Sorted(rs) && xs != [] && !ZeroFirst(xs)
    requires forall t :: Find(rs, t).Some? <==> Find(xs, t).Some?
    requires forall i | 0 <= i < |xs| ::
               Find(xs, xs[i].key) == Some(xs[i].value) && Faithful(xs[i].value, Restored(xs[i].value)) &&
               Restored(xs[i].value).Ok? && Find(rs, xs[i].key) == Some(Restored(xs[i].value).value)
    ensures Faithful(Obj(xs), Ok(Obj(rs)))
  {
    hide Before, Restored, Find, ZeroFirst;
    SameKeysSameOrder(rs, xs);
    forall i | 0 <= i < |xs| ensures rs[i] == Member(xs[i].key, Restored(xs[i].value).value) {
      FindMember(rs, i);
    }
    var normal := Normal(Obj(xs)).ms;
    if Restorable(Obj(xs)) {
      assert rs == normal;
      assert Normal(Obj(xs)) == Obj(rs);
    } else {
      var i :| 0 <= i < |xs| && !Restorable(xs[i].value);
      assert normal[i].value == Normal(xs[i].value);
      assert !Eq(rs[i].value, normal[i].value);
      assert !Eq(Obj(rs), Obj(normal));
    }
  }

  lemma FlatNotEmpty(j: Json)
    requires Ordered(j)
    ensures Flat(j) != []
  {
    FlatIsLeaves(j);
    var p := SomeLeaf(j);
    assert Find(Flat(j), PointerText(p)).Some?;
  }

  /** j.flatten().unflatten() is j with empty arrays and objects replaced by null exactly for restorable
      values; for all others it throws or gives something different. */
  lemma {:induction false} RestoredIff(j: Json)
    requires Ordered(j)
    ensures Faithful(j, Restored(j))
    decreases j, 1
  {
    if IsLeaf(j) {
      assert Flat(j) == [Member([], Leaf(j))];
      assert Place(Null, [], Leaf(j)) == Ok(Leaf(j));
      assert Assembled(Leaf(j), []) == Ok(Leaf(j));
    } else if j.Arr? {
      RestoredArray(j.es);
    } else {
      RestoredObject(j.ms);
    }
  }

  /** The documented claim with its real condition. */
  lemma UnflattenUndoesFlatten(j: Json)
    requires Ordered(j)
    ensures Restorable(j) <==> Restored(j).Ok? && Eq(Restored(j).value, Normal(j))
    ensures Restorable(j) ==> Restored(j) == Ok(Normal(j))
  {
    RestoredIff(j);
    EqReflexive(Normal(j));
  }

  /** The smallest value that breaks the documentation: {"0": true} comes back as [true]. */
  lemma ZeroKeyBreaksUnflatten()
    ensures var j := Obj([Member(ZERO, Bool(true))]); !Restorable(j) && Restored(j) == Ok(Arr([Bool(true)]))
  {
    var j := Obj([Member(ZERO, Bool(true))]);
    EscapedDigits(ZERO);
    var key := [SLASH] + ZERO;
    assert [] + [SLASH] + Escaped(ZERO) == key;
    assert Flattened(key, Bool(true), []) == [Member(key, Bool(true))];
    assert FlattenedKeys([], j.ms, 1, [Member(key, Bool(true))]) == [Member(key, Bool(true))];
    assert Flat(j) == FlattenedKeys([], j.ms, 0, []);
    PointerTextOne(ZERO);
    SplitUndoesToString([ZERO]);
    assert Grown(Null, ZERO) == Ok((Arr([Null]), Index(0)));
    assert [ZERO][1..] == [];
    assert Place(Null, [], Bool(true)) == Ok(Bool(true));
    assert [Null][0 := Bool(true)] == [Bool(true)];
    assert Place(Null, [ZERO], Bool(true)) == Ok(Arr([Bool(true)]));
    assert Assembled(Arr([Bool(true)]), []) == Ok(Arr([Bool(true)]));
  }
}
