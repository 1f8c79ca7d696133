// The documented claim for flatten: apart from empty arrays and objects, j == j.flatten().unflatten().
// get_and_create makes an array of a null as soon as the first token it meets there is "0", so the claim
// fails for an object whose key "0" is the first one that unflatten visits. It holds for all other values
// whose arrays std::stoi can index.

module JsonFlattenLaws {
  import opened ByteStrings
  import opened Decimal
  import opened JsonValue
  import opened JsonPointer
  import opened JsonFlatten

  const ZERO: Text := [DIGIT_0]

  /** j with every empty array or object replaced by null. */
  function Normal(j: Json): Json {
    match j
    case Arr(es) => if es == [] then Null else Arr(seq(|es|, i requires 0 <= i < |es| => Normal(es[i])))
    case Obj(ms) =>
      if ms == [] then Null
      else Obj(seq(|ms|, i requires 0 <= i < |ms| => Member(ms[i].key, Normal(ms[i].value))))
    case _ => j
  }

  //////// Which member of an object unflatten visits first ////////

  /** Whether the member with key k, k not "0", is visited before a member "0" with value zero. */
  predicate VisitedBeforeZero(k: Text, zero: Json) {
    || k == []
    || (k[0] < DIGIT_0 && k[0] != SLASH)
    || (k[0] == DIGIT_0 && |k| > 1 && k[1] < SLASH && !IsLeaf(zero))
  }

  /** unflatten meets the key "0" of this object before its other keys. */
  predicate ZeroFirst(ms: seq<Member>) {
    match Find(ms, ZERO)
    case Some(zero) => forall i | 0 <= i < |ms| && ms[i].key != ZERO :: !VisitedBeforeZero(ms[i].key, zero)
    case None => false
  }

  /** The values that unflatten can restore. */
  predicate Restorable(j: Json) {
    match j
    case Arr(es) => |es| <= INT_MAX + 1 && forall i | 0 <= i < |es| :: Restorable(es[i])
    case Obj(ms) => !ZeroFirst(ms) && forall i | 0 <= i < |ms| :: Restorable(ms[i].value)
    case _ => true
  }

  /** Every value has a leaf. */
  lemma {:induction false} SomeLeaf(v: Json) returns (p: seq<Text>)
    requires Ordered(v)
    ensures LeafAt(v, p).Some?
    ensures !IsLeaf(v) ==> p != []
  {
    if IsLeaf(v) {
      p := [];
    } else {
      var token, c;
      match v {
        case Arr(es) =>
          token, c := Numeral(0), es[0];
          IndexOfNumeral(|es|, 0);
        case Obj(ms) =>
          token, c := ms[0].key, ms[0].value;
          FindMember(ms, 0);
      }
      var q := SomeLeaf(c);
      p := [token] + q;
      assert p[1..] == q;
    }
  }

  /** A pointer to a leaf of an array or object continues with a slash, one to a leaf ends. */
  lemma LeafPointer(v: Json, p: seq<Text>)
    requires LeafAt(v, p).Some?
    ensures IsLeaf(v) ==> p == []
    ensures !IsLeaf(v) ==> p != [] && PointerText(p)[0] == SLASH
  {
    if p != [] {
      NothingInsideLeaf(v, p[0]);
    }
  }

  lemma NothingInsideLeaf(v: Json, token: Text)
    ensures IsLeaf(v) ==> Inside(v, token).None?
  {
  }

  /** The order of "0" followed by pt and an escaped key followed by qt. */
  lemma ZeroOrderText(k: Text, zero: Json, pt: Text, qt: Text)
    requires k != ZERO
    requires if IsLeaf(zero) then pt == [] else pt != [] && pt[0] == SLASH
    requires qt != [] ==> qt[0] == SLASH
    ensures if VisitedBeforeZero(k, zero) then Before(Escaped(k) + qt, ZERO + pt)
            else Before(ZERO + pt, Escaped(k) + qt)
  {
    hide IsLeaf;
    var a, b := ZERO + pt, Escaped(k) + qt;
    if k == [] {
      assert b == qt;
    } else if k[0] == DIGIT_0 {
      var c := k[1..];
      assert k == ZERO + c;
      var d := Escaped(c) + qt;
      assert b == ZERO + d;
      BeforeUnderPrefix(ZERO, pt, d);
      BeforeUnderPrefix(ZERO, d, pt);
      assert d[0] == EscapedByte(c[0])[0];
    } else {
      assert a[0] == DIGIT_0;
      assert b[0] == EscapedByte(k[0])[0];
    }
  }

  /** The order of two pointers that differ in the first token, one of them being "0". */
  lemma ZeroOrder(k: Text, zero: Json, p: seq<Text>, q: seq<Text>)
    requires k != ZERO && LeafAt(zero, p).Some?
    ensures VisitedBeforeZero(k, zero) ==> Before(PointerText([k] + q), PointerText([ZERO] + p))
    ensures !VisitedBeforeZero(k, zero) ==> Before(PointerText([ZERO] + p), PointerText([k] + q))
  {
    LeafPointer(zero, p);
    ZeroOrderText(k, zero, PointerText(p), PointerText(q));
    EscapedDigits(ZERO);
    PointerTextCons(ZERO, p);
    PointerTextCons(k, q);
    BeforeUnderPrefix([SLASH], ZERO + PointerText(p), Escaped(k) + PointerText(q));
    BeforeUnderPrefix([SLASH], Escaped(k) + PointerText(q), ZERO + PointerText(p));
  }

  /** The first entry of the flattened array or object. */
  lemma FirstEntry(j: Json) returns (p: seq<Text>)
    requires Ordered(j) && !IsLeaf(j)
    ensures Flat(j) != [] && p != [] && Flat(j)[0].key == PointerText(p)
    ensures LeafAt(j, p).Some?
    ensures forall q | LeafAt(j, q).Some? :: q == p || Before(PointerText(p), PointerText(q))
  {
    FlatIsLeaves(j);
    var some := SomeLeaf(j);
    var i := FindSome(Flat(j), PointerText(some));
    var first := Flat(j)[0];
    assert Find(Flat(j), first.key).Some?;
    SplitAcceptsExactlyPointers(first.key);
    p := SplitSpec(first.key).value;
    assert LeafAt(j, p).Some?;
    LeafPointer(j, p);
    forall q | LeafAt(j, q).Some? ensures q == p || Before(PointerText(p), PointerText(q)) {
      var n := FindSome(Flat(j), PointerText(q));
      if n == 0 { PointerTextInjective(p, q); }
    }
  }

  /** In an array, element 0 comes first. */
  lemma ArrayStartsAtZero(es: seq<Json>) returns (p: seq<Text>)
    requires Ordered(Arr(es)) && es != []
    ensures p != [] && p[0] == ZERO && Flat(Arr(es)) != [] && Flat(Arr(es))[0].key == PointerText(p)
  {
    var j := Arr(es);
    p := FirstEntry(j);
    var q := SomeLeaf(es[0]);
    IndexOfNumeral(|es|, 0);
    assert ([ZERO] + q)[1..] == q;
    assert LeafAt(j, [ZERO] + q).Some?;
    if p[0] != ZERO {
      var i := IndexOf(|es|, p[0]).value;
      NoLeadingZero(i);
      assert IsDigit(p[0][0]);
      ZeroOrder(p[0], es[0], q, p[1..]);
      assert p == [p[0]] + p[1..];
      BeforeTotal(PointerText(p), PointerText([ZERO] + q));
      assert false;
    }
  }

  /** In an object, the key "0" comes first exactly if ZeroFirst says so. */
  lemma ObjectStartsAtZero(ms: seq<Member>) returns (p: seq<Text>)
    requires Ordered(Obj(ms)) && ms != []
    ensures p != [] && Flat(Obj(ms)) != [] && Flat(Obj(ms))[0].key == PointerText(p)
    ensures p[0] == ZERO <==> ZeroFirst(ms)
  {
    var j := Obj(ms);
    p := FirstEntry(j);
    assert p == [p[0]] + p[1..];
    if Find(ms, ZERO).Some? {
      var z := FindSome(ms, ZERO);
      var zero := ms[z].value;
      if p[0] == ZERO {
        forall i | 0 <= i < |ms| && ms[i].key != ZERO ensures !VisitedBeforeZero(ms[i].key, zero) {
          var k := ms[i].key;
          FindMember(ms, i);
          var q := SomeLeaf(ms[i].value);
          assert ([k] + q)[1..] == q;
          assert LeafAt(j, [k] + q).Some?;
          ZeroOrder(k, zero, p[1..], q);
          BeforeTotal(PointerText(p), PointerText([k] + q));
        }
      } else {
        var q := SomeLeaf(zero);
        assert ([ZERO] + q)[1..] == q;
        assert LeafAt(j, [ZERO] + q).Some?;
        ZeroOrder(p[0], zero, q, p[1..]);
        BeforeTotal(PointerText(p), PointerText([ZERO] + q));
        var i := FindSome(ms, p[0]);
        assert VisitedBeforeZero(ms[i].key, zero);
      }
    }
  }

  //////// The entries of one child ////////

  predicate AllPointers(ms: seq<Member>) {
    forall i | 0 <= i < |ms| :: SplitSpec(ms[i].key).Ok? && SplitSpec(ms[i].key).value != []
  }

  function Tokens(m: Member): seq<Text>
    requires SplitSpec(m.key).Ok?
  {
    SplitSpec(m.key).value
  }

  /** The entries whose pointer begins with a token, without that token. */
  function Sub(ms: seq<Member>, token: Text): seq<Member>
    requires AllPointers(ms)
  {
    if ms == [] then []
    else
      var tokens := Tokens(ms[0]);
      (if tokens[0] == token then [Member(PointerText(tokens[1..]), ms[0].value)] else []) + Sub(ms[1..], token)
  }

  lemma KeyOfTokens(m: Member)
    requires SplitSpec(m.key).Ok? && SplitSpec(m.key).value != []
    ensures m.key == PointerText(Tokens(m))
    ensures m.key == [SLASH] + Escaped(Tokens(m)[0]) + PointerText(Tokens(m)[1..])
  {
    SplitAcceptsExactlyPointers(m.key);
    ConcatAssociative([SLASH], Escaped(Tokens(m)[0]), PointerText(Tokens(m)[1..]));
  }

  lemma {:induction false} SubSorted(ms: seq<Member>, token: Text)
    requires AllPointers(ms) && Sorted(ms)
    ensures Sorted(Sub(ms, token))
    ensures forall m | m in Sub(ms, token) ::
              SplitSpec(m.key).Ok? && Member([SLASH] + Escaped(token) + m.key, m.value) in ms
  {
    if ms == [] {
    } else {
      SubSorted(ms[1..], token);
      var tokens, rest := Tokens(ms[0]), Sub(ms[1..], token);
      KeyOfTokens(ms[0]);
      if tokens[0] == token {
        var head := Member(PointerText(tokens[1..]), ms[0].value);
        SplitUndoesToString(tokens[1..]);
        forall n | n in rest ensures Before(head.key, n.key) {
          var whole := Member([SLASH] + Escaped(token) + n.key, n.value);
          assert whole in ms[1..];
          assert Before(ms[0].key, whole.key);
          BeforeUnderPrefix([SLASH] + Escaped(token), head.key, n.key);
        }
        ConsSorted(head, rest);
      }
    }
  }

  lemma SameKeySameTokens(m: Member, token: Text, p: seq<Text>)
    requires SplitSpec(m.key).Ok? && SplitSpec(m.key).value != []
    ensures m.key == PointerText([token] + p) <==>
            Tokens(m)[0] == token && PointerText(Tokens(m)[1..]) == PointerText(p)
  {
    KeyOfTokens(m);
    var tokens := Tokens(m);
    assert ([token] + p)[1..] == p;
    if m.key == PointerText([token] + p) {
      PointerTextInjective(tokens, [token] + p);
    }
    if tokens[0] == token && PointerText(tokens[1..]) == PointerText(p) {
      PointerTextInjective(tokens[1..], p);
      assert tokens == [token] + p;
    }
  }

  lemma {:induction false} FindSub(ms: seq<Member>, token: Text, p: seq<Text>)
    requires AllPointers(ms)
    ensures Find(Sub(ms, token), PointerText(p)) == Find(ms, PointerText([token] + p))
  {
    if ms == [] {
    } else {
      FindSub(ms[1..], token, p);
      SameKeySameTokens(ms[0], token, p);
      var rest := Sub(ms[1..], token);
      if Tokens(ms[0])[0] == token {
        assert Sub(ms, token)[1..] == rest;
      } else {
        assert [] + rest == rest;
      }
    }
  }

  lemma FindOnlyPointers(ms: seq<Member>, k: Text)
    requires (forall m | m in ms :: SplitSpec(m.key).Ok?) && SplitSpec(k).Err?
    ensures Find(ms, k).None?
  {
    FindNone(ms, k);
    forall i | 0 <= i < |ms| ensures ms[i].key != k {
      assert ms[i] in ms;
    }
  }

  lemma FlatPointers(j: Json)
    requires Ordered(j) && !IsLeaf(j)
    ensures AllPointers(Flat(j)) && Sorted(Flat(j))
    ensures forall i | 0 <= i < |Flat(j)| :: Inside(j, Tokens(Flat(j)[i])[0]).Some? && IsPrimitive(Flat(j)[i].value)
  {
    FlatIsLeaves(j);
    forall i | 0 <= i < |Flat(j)|
      ensures SplitSpec(Flat(j)[i].key).Ok? && SplitSpec(Flat(j)[i].key).value != []
      ensures Inside(j, SplitSpec(Flat(j)[i].key).value[0]).Some? && IsPrimitive(Flat(j)[i].value)
    {
      var m := Flat(j)[i];
      FindMember(Flat(j), i);
      SplitAcceptsExactlyPointers(m.key);
      var p := SplitSpec(m.key).value;
      assert LeafAt(j, p) == Some(m.value);
      LeafPointer(j, p);
      LeafIsPrimitive(j, p);
    }
  }

  lemma {:induction false} LeafIsPrimitive(v: Json, p: seq<Text>)
    requires LeafAt(v, p).Some?
    ensures IsPrimitive(LeafAt(v, p).value)
    decreases p
  {
    if p == [] {
    } else {
      LeafIsPrimitive(Inside(v, p[0]).value, p[1..]);
    }
  }

  /** The entries of j under a token are the flattened child. */
  lemma SubOfFlat(j: Json, token: Text)
    requires Ordered(j) && !IsLeaf(j) && Inside(j, token).Some? && Ordered(Inside(j, token).value)
    ensures AllPointers(Flat(j)) && Sub(Flat(j), token) == Flat(Inside(j, token).value)
  {
    var c := Inside(j, token).value;
    FlatPointers(j);
    FlatIsLeaves(j);
    FlatIsLeaves(c);
    SubSorted(Flat(j), token);
    var sub := Sub(Flat(j), token);
    forall k ensures Find(sub, k) == Find(Flat(c), k) {
      if SplitSpec(k).Ok? {
        SplitAcceptsExactlyPointers(k);
        var p := SplitSpec(k).value;
        FindSub(Flat(j), token, p);
        assert ([token] + p)[1..] == p;
      } else {
        FindOnlyPointers(sub, k);
      }
    }
    SameFindsSameMembers(sub, Flat(c));
  }
}
