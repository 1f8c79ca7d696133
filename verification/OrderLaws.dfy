// Which order operator< is: the order of the types, of numbers and of strings, and the lexicographic order of arrays
// and objects, by the first place where two values differ.

module OrderLaws {
  import opened ByteStrings
  import opened JsonValue
  import opened Ordering

  predicate IsNumber(j: Json) {
    j.Int? || j.Uint?
  }

  /** null < boolean < number < object < array < string, and false < true. */
  lemma TypesAreOrdered(a: Json, b: Json)
    ensures a.Null? && !b.Null? ==> Less(a, b)
    ensures a.Bool? && (IsNumber(b) || b.Obj? || b.Arr? || b.Str?) ==> Less(a, b)
    ensures IsNumber(a) && (b.Obj? || b.Arr? || b.Str?) ==> Less(a, b)
    ensures a.Obj? && (b.Arr? || b.Str?) ==> Less(a, b)
    ensures a.Arr? && b.Str? ==> Less(a, b)
    ensures Less(Bool(false), Bool(true))
  {
  }

  /** Numbers are compared as numbers, with unsigned ones that do not fit in int64_t as negative beside signed ones. */
  lemma NumbersAreOrdered(i: int64, k: int64, u: uint64, w: uint64)
    ensures Less(Int(i), Int(k)) <==> i < k
    ensures Less(Uint(u), Uint(w)) <==> u < w
    ensures Less(Int(i), Uint(u)) <==> i < (if u <= 0x7fff_ffff_ffff_ffff then u else u - 0x1_0000_0000_0000_0000)
    ensures Less(Uint(u), Int(i)) <==> (if u <= 0x7fff_ffff_ffff_ffff then u else u - 0x1_0000_0000_0000_0000) < i
  {
  }

  /** Strings differ at the first byte that they do not share, or the shorter one comes first. */
  lemma StringsAreOrdered(s: Text, t: Text)
    ensures Less(Str(s), Str(t)) <==>
            exists k :: 0 <= k <= |s| && k < |t| && s[..k] == t[..k] && (k == |s| || s[k] < t[k])
  {
    if Less(Str(s), Str(t)) {
      var k := FirstByteApart(s, t);
    }
    if k :| 0 <= k <= |s| && k < |t| && s[..k] == t[..k] && (k == |s| || s[k] < t[k]) {
      assert s == s[..k] + s[k..] && t == s[..k] + t[k..];
      BeforeUnderPrefix(s[..k], s[k..], t[k..]);
    }
  }

  lemma {:induction false} FirstByteApart(s: Text, t: Text) returns (k: nat)
    requires Before(s, t)
    ensures k <= |s| && k < |t| && s[..k] == t[..k] && (k == |s| || s[k] < t[k])
  {
    if s == [] || s[0] < t[0] {
      k := 0;
    } else {
      var n := FirstByteApart(s[1..], t[1..]);
      k := n + 1;
      assert s[..k] == [s[0]] + s[1..][..n] && t[..k] == [t[0]] + t[1..][..n];
    }
  }

  /** The elements before k are equal, and at k the array x ends or has the smaller element. */
  predicate ElementsApart(x: seq<Json>, y: seq<Json>, k: nat) {
    k <= |x| && k < |y| && (forall i | 0 <= i < k :: Eq(x[i], y[i])) && (k == |x| || Less(x[k], y[k]))
  }

  lemma ElementsApartNext(x: seq<Json>, y: seq<Json>, k: nat)
    requires x != [] && y != [] && Eq(x[0], y[0])
    ensures ElementsApart(x[1..], y[1..], k) <==> ElementsApart(x, y, k + 1)
  {
    hide Eq, Less;
    if ElementsApart(x[1..], y[1..], k) {
      forall i | 0 <= i < k + 1 ensures Eq(x[i], y[i]) {
        if i > 0 { assert Eq(x[1..][i - 1], y[1..][i - 1]); }
      }
    }
  }

  /** Arrays are compared element by element. */
  lemma {:induction false} ArraysAreOrdered(x: seq<Json>, y: seq<Json>)
    ensures Less(Arr(x), Arr(y)) <==> exists k :: ElementsApart(x, y, k)
    decreases |x|
  {
    hide ElementsApart, Eq;
    if x == [] || y == [] {
      assert ElementsApart(x, y, 0) <==> y != [] by { NothingApart(x, y); }
      forall k ensures ElementsApart(x, y, k) ==> y != [] { NoElementsApart(x, y, k); }
    } else {
      Trichotomy(x[0], y[0]);
      if Eq(x[0], y[0]) {
        ArraysAreOrdered(x[1..], y[1..]);
        forall k: nat ensures ElementsApart(x[1..], y[1..], k) <==> ElementsApart(x, y, k + 1) {
          ElementsApartNext(x, y, k);
        }
        NotAtEqual(x, y);
        if k: nat :| ElementsApart(x, y, k) {
          assert k != 0;
          assert ElementsApart(x[1..], y[1..], k - 1) <==> ElementsApart(x, y, k - 1 + 1);
        }
      } else {
        DecidedAtFirst(x, y);
      }
    }
  }

  lemma NothingApart(x: seq<Json>, y: seq<Json>)
    requires x == [] || y == []
    ensures ElementsApart(x, y, 0) <==> y != []
  {
  }

  lemma NoElementsApart(x: seq<Json>, y: seq<Json>, k: nat)
    ensures ElementsApart(x, y, k) ==> y != []
  {
  }

  lemma NotAtEqual(x: seq<Json>, y: seq<Json>)
    requires x != [] && y != [] && Eq(x[0], y[0])
    ensures !ElementsApart(x, y, 0)
  {
    Trichotomy(x[0], y[0]);
  }

  lemma DecidedAtFirst(x: seq<Json>, y: seq<Json>)
    requires x != [] && y != [] && !Eq(x[0], y[0])
    ensures (exists k :: ElementsApart(x, y, k)) <==> Less(x[0], y[0])
  {
    if Less(x[0], y[0]) {
      assert ElementsApart(x, y, 0);
    }
    forall k: nat | ElementsApart(x, y, k) ensures Less(x[0], y[0]) {
      FirstIsLess(x, y, k);
    }
  }

  lemma FirstIsLess(x: seq<Json>, y: seq<Json>, k: nat)
    requires x != [] && y != [] && !Eq(x[0], y[0]) && ElementsApart(x, y, k)
    ensures Less(x[0], y[0])
  {
  }

  /** The entries before k are equal, and at k the object x ends or has the smaller key, or the smaller value. */
  predicate EntriesApart(x: seq<Member>, y: seq<Member>, k: nat) {
    k <= |x| && k < |y| && (forall i | 0 <= i < k :: x[i].key == y[i].key && Eq(x[i].value, y[i].value)) &&
    (k == |x| || Before(x[k].key, y[k].key) || (x[k].key == y[k].key && Less(x[k].value, y[k].value)))
  }

  predicate SameEntry(p: Member, q: Member) {
    p.key == q.key && Eq(p.value, q.value)
  }

  lemma EntryTrichotomy(p: Member, q: Member)
    ensures ExactlyOne(LessMember(p, q), SameEntry(p, q), LessMember(q, p))
    ensures LessMember(p, q) <==> Before(p.key, q.key) || (p.key == q.key && Less(p.value, q.value))
  {
    BeforeTotal(p.key, q.key);
    Trichotomy(p.value, q.value);
  }

  lemma EntriesApartNext(x: seq<Member>, y: seq<Member>, k: nat)
    requires x != [] && y != [] && SameEntry(x[0], y[0])
    ensures EntriesApart(x[1..], y[1..], k) <==> EntriesApart(x, y, k + 1)
  {
    hide Eq, Less, Before;
    if EntriesApart(x[1..], y[1..], k) {
      forall i | 0 <= i < k + 1 ensures x[i].key == y[i].key && Eq(x[i].value, y[i].value) {
        if i > 0 { assert Eq(x[1..][i - 1].value, y[1..][i - 1].value); }
      }
    }
  }

  /** Objects are compared entry by entry, each by its key and then by its value. */
  lemma {:induction false} ObjectsAreOrdered(x: seq<Member>, y: seq<Member>)
    ensures Less(Obj(x), Obj(y)) <==> exists k :: EntriesApart(x, y, k)
    decreases |x|
  {
    hide EntriesApart, SameEntry, LessMember;
    if x == [] || y == [] {
      assert EntriesApart(x, y, 0) <==> y != [] by { NoEntries(x, y); }
      forall k ensures EntriesApart(x, y, k) ==> y != [] { NoEntriesApart(x, y, k); }
    } else {
      EntryTrichotomy(x[0], y[0]);
      if SameEntry(x[0], y[0]) {
        ObjectsAreOrdered(x[1..], y[1..]);
        forall k: nat ensures EntriesApart(x[1..], y[1..], k) <==> EntriesApart(x, y, k + 1) {
          EntriesApartNext(x, y, k);
        }
        NotAtSame(x, y);
        if k: nat :| EntriesApart(x, y, k) {
          assert k != 0;
          assert EntriesApart(x[1..], y[1..], k - 1) <==> EntriesApart(x, y, k - 1 + 1);
        }
      } else {
        DecidedAtFirstEntry(x, y);
      }
    }
  }

  lemma NoEntries(x: seq<Member>, y: seq<Member>)
    requires x == [] || y == []
    ensures EntriesApart(x, y, 0) <==> y != []
  {
  }

  lemma NoEntriesApart(x: seq<Member>, y: seq<Member>, k: nat)
    ensures EntriesApart(x, y, k) ==> y != []
  {
  }

  lemma NotAtSame(x: seq<Member>, y: seq<Member>)
    requires x != [] && y != [] && SameEntry(x[0], y[0])
    ensures !EntriesApart(x, y, 0)
  {
    EntryTrichotomy(x[0], y[0]);
    BeforeTotal(x[0].key, y[0].key);
  }

  lemma DecidedAtFirstEntry(x: seq<Member>, y: seq<Member>)
    requires x != [] && y != [] && !SameEntry(x[0], y[0])
    ensures (exists k :: EntriesApart(x, y, k)) <==> LessMember(x[0], y[0])
  {
    EntryTrichotomy(x[0], y[0]);
    if LessMember(x[0], y[0]) {
      assert EntriesApart(x, y, 0);
    }
    forall k: nat | EntriesApart(x, y, k) ensures LessMember(x[0], y[0]) {
      FirstEntryIsLess(x, y, k);
    }
  }

  lemma FirstEntryIsLess(x: seq<Member>, y: seq<Member>, k: nat)
    requires x != [] && y != [] && !SameEntry(x[0], y[0]) && EntriesApart(x, y, k)
    ensures LessMember(x[0], y[0])
  {
    EntryTrichotomy(x[0], y[0]);
  }
}
