// Byte strings as std::string and std::vector<uint8_t> hold them, the byte-wise
// order that std::map uses for its keys, and the result type of operations that
// may throw.

module ByteStrings {
  type byte = x: int | 0 <= x < 0x100

  type Text = seq<byte>

  type int64 = x: int | -0x8000_0000_0000_0000 <= x < 0x8000_0000_0000_0000
  type uint64 = x: int | 0 <= x < 0x1_0000_0000_0000_0000

  /** unsigned int */
  type uint32 = x: int | 0 <= x < 0x1_0000_0000

  /** The largest size a vector or a string of bytes can have (PTRDIFF_MAX). */
  const MAX_SIZE: nat := 0x7fff_ffff_ffff_ffff

  function Min(a: nat, b: nat): nat {
    if a <= b then a else b
  }

  datatype Option<+T> = None | Some(value: T)

  /** The C++ exceptions the modelled code throws, and the two ways to leave the model. */
  datatype Error =
    | OutOfRange        // std::out_of_range
    | DomainError       // std::domain_error
    | InvalidArgument   // std::invalid_argument
    | LengthError       // a vector asked to grow past its maximal size
    | LogicError        // std::logic_error
    | AssertFailure     // a failed assert()
    | Unmodelled        // a floating-point number

  datatype Result<+T> = Ok(value: T) | Err(error: Error) {
    predicate IsFailure() {
      Err?
    }

    function PropagateFailure<U>(): Result<U>
      requires Err?
    {
      Err(error)
    }

    function Extract(): T
      requires Ok?
    {
      value
    }
  }

  /** std::string's operator<: lexicographic on unsigned bytes. */
  predicate Before(a: Text, b: Text) {
    b != [] && (a == [] || a[0] < b[0] || (a[0] == b[0] && Before(a[1..], b[1..])))
  }

  lemma {:induction false} BeforeTotal(a: Text, b: Text)
    ensures Before(a, b) || a == b || Before(b, a)
    ensures !(Before(a, b) && Before(b, a))
    ensures a == b ==> !Before(a, b)
  {
    if a != [] && b != [] && a[0] == b[0] {
      BeforeTotal(a[1..], b[1..]);
      assert a == [a[0]] + a[1..] && b == [b[0]] + b[1..];
    }
  }

  lemma {:induction false} BeforeTransitive(a: Text, b: Text, c: Text)
    requires Before(a, b) && Before(b, c)
    ensures Before(a, c)
  {
    if a != [] && b != [] && c != [] && a[0] == b[0] == c[0] {
      BeforeTransitive(a[1..], b[1..], c[1..]);
    }
  }

  /** A common prefix does not matter. */
  lemma {:induction false} BeforeUnderPrefix(p: Text, a: Text, b: Text)
    ensures Before(p + a, p + b) == Before(a, b)
  {
    if p == [] {
      assert p + a == a && p + b == b;
    } else {
      BeforeUnderPrefix(p[1..], a, b);
      assert (p + a)[1..] == p[1..] + a && (p + b)[1..] == p[1..] + b;
    }
  }

  lemma ConcatAssociative<T>(a: seq<T>, b: seq<T>, c: seq<T>)
    ensures (a + b) + c == a + (b + c)
  {
  }

  const NPOS: nat := 0xffff_ffff_ffff_ffff

  /** find_first_of with one character: a position, or npos. */
  function FindFirstOf(s: Text, c: byte, pos: nat): (r: nat)
    requires |s| <= MAX_SIZE
    ensures r == NPOS || (pos <= r < |s| && s[r] == c)
    ensures forall i | pos <= i < |s| && (r == NPOS || i < r) :: s[i] != c
    decreases |s| - pos
  {
    if pos >= |s| then NPOS else if s[pos] == c then pos else FindFirstOf(s, c, pos + 1)
  }

  lemma SliceOfSlice<T>(s: seq<T>, i: nat, k: nat, a: nat, b: nat)
    requires i <= k <= |s| && a <= b <= k - i
    ensures s[i..k][a..b] == s[i + a..i + b]
  {
    var x, y := s[i..k][a..b], s[i + a..i + b];
    forall n | 0 <= n < b - a ensures x[n] == y[n] {
      assert x[n] == s[i..k][a + n] == s[i + (a + n)];
    }
  }

  function Joined(parts: seq<Text>): Text {
    if parts == [] then [] else parts[0] + Joined(parts[1..])
  }

  lemma {:induction false} JoinedConcat(a: seq<Text>, b: seq<Text>)
    ensures Joined(a + b) == Joined(a) + Joined(b)
  {
    if a == [] {
      assert a + b == b;
    } else {
      assert (a + b)[1..] == a[1..] + b;
      JoinedConcat(a[1..], b);
      ConcatAssociative(a[0], Joined(a[1..]), Joined(b));
    }
  }

  /** The bytes of v from i to k also stand in w, shifted by d. */
  predicate SamePiece(v: Text, i: nat, k: nat, w: Text, d: int) {
    i <= k <= |v| && 0 <= i + d && k + d <= |w| && forall x | i <= x < k :: v[x] == w[x + d]
  }

  lemma SameSlice(v: Text, i: nat, k: nat, w: Text, d: int, a: nat, b: nat)
    requires SamePiece(v, i, k, w, d) && i <= a <= b <= k
    ensures v[a..b] == w[a + d..b + d]
  {
    assert forall x | 0 <= x < b - a :: v[a..b][x] == v[a + x] == w[(a + x) + d] == w[a + d..b + d][x];
  }

  /** bs stands in v at position idx. */
  predicate At(v: Text, idx: nat, bs: Text) {
    SamePiece(bs, 0, |bs|, v, idx)
  }

  lemma AtParts(v: Text, idx: nat, a: Text, b: Text)
    requires At(v, idx, a + b)
    ensures At(v, idx, a) && At(v, idx + |a|, b)
  {
    forall x | 0 <= x < |a| ensures a[x] == v[x + idx] {
      assert (a + b)[x] == a[x];
    }
    forall x | 0 <= x < |b| ensures b[x] == v[x + (idx + |a|)] {
      assert (a + b)[|a| + x] == b[x];
    }
  }

  lemma AtJoin(v: Text, idx: nat, a: Text, b: Text)
    requires At(v, idx, a) && At(v, idx + |a|, b)
    ensures At(v, idx, a + b)
  {
    forall x | 0 <= x < |a + b| ensures (a + b)[x] == v[x + idx] {
      if x >= |a| {
        assert b[x - |a|] == v[(x - |a|) + (idx + |a|)];
      }
    }
  }

  /** v ends within bs, which begins at idx. */
  predicate CutOff(v: Text, idx: nat, bs: Text) {
    idx <= |v| < idx + |bs| && forall x | idx <= x < |v| :: v[x] == bs[x - idx]
  }

  /** The cut is within the first part, or behind it. */
  lemma CutParts(v: Text, idx: nat, a: Text, b: Text)
    requires CutOff(v, idx, a + b)
    ensures CutOff(v, idx, a) || (At(v, idx, a) && CutOff(v, idx + |a|, b))
  {
    if |v| >= idx + |a| {
      forall x | 0 <= x < |a| ensures a[x] == v[x + idx] {
        assert v[x + idx] == (a + b)[x + idx - idx];
      }
      forall x | idx + |a| <= x < |v| ensures v[x] == b[x - (idx + |a|)] {
        assert v[x] == (a + b)[x - idx];
      }
    } else {
      forall x | idx <= x < |v| ensures v[x] == a[x - idx] {
        assert v[x] == (a + b)[x - idx];
      }
    }
  }

  lemma ByteIsThere(v: Text, idx: nat, b: byte)
    requires At(v, idx, [b])
    ensures idx < |v| && v[idx] == b
  {
    assert [b][0] == v[0 + idx];
  }

  lemma NothingStands(v: Text, idx: nat)
    requires idx <= |v|
    ensures At(v, idx, [])
  {
  }

  lemma ByteStands(v: Text, idx: nat)
    requires idx < |v|
    ensures At(v, idx, [v[idx]])
  {
  }

  lemma SliceStands(v: Text, idx: nat, n: nat)
    requires idx + n <= |v|
    ensures At(v, idx, v[idx..idx + n])
  {
  }

  /** The bytes of another vector, shifted by d. */
  lemma AtElsewhere(v: Text, i: nat, w: Text, d: int, bs: Text)
    requires At(v, i, bs) && SamePiece(v, i, i + |bs|, w, d)
    ensures At(w, i + d, bs)
  {
    assert forall x | 0 <= x < |bs| :: bs[x] == v[x + i] == w[x + i + d];
  }

  lemma AtSlice(v: Text, idx: nat, bs: Text)
    requires At(v, idx, bs)
    ensures v[idx..idx + |bs|] == bs
  {
    SameSlice(bs, 0, |bs|, v, idx, 0, |bs|);
    assert bs[0..|bs|] == bs;
  }

  lemma AtMiddle(front: Text, bs: Text, back: Text)
    ensures At(front + bs + back, |front|, bs)
  {
    forall x | 0 <= x < |bs| ensures bs[x] == (front + bs + back)[x + |front|] {
      assert (front + bs)[|front| + x] == bs[x];
    }
  }
}
