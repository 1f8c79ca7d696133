// The table of cluster members: 30 slots, of which those without a host are free. What registering and evicting
// do to it, and the set of addresses with their slots that it stands for.

module ClusterTable {
  import opened HostAndPort

  const MAX_NUM_NODES: nat := 30

  predicate IsTable(t: seq<HostAndPort>) {
    |t| == MAX_NUM_NODES
  }

  predicate Occupied(a: HostAndPort) {
    a.host != []
  }

  /** The first slot with this content, or |t|. */
  function IndexOf(t: seq<HostAndPort>, a: HostAndPort): (i: nat)
    ensures i <= |t| && (i < |t| ==> t[i] == a)
    ensures forall k | 0 <= k < i :: t[k] != a
  {
    if t == [] || t[0] == a then 0 else 1 + IndexOf(t[1..], a)
  }

  /** The first free slot, or |t|. */
  function FirstFree(t: seq<HostAndPort>): (i: nat)
    ensures i <= |t| && (i < |t| ==> !Occupied(t[i]))
    ensures forall k | 0 <= k < i :: Occupied(t[k])
  {
    if t == [] || !Occupied(t[0]) then 0 else 1 + FirstFree(t[1..])
  }

  function Added(t: seq<HostAndPort>, a: HostAndPort): seq<HostAndPort> {
    if FirstFree(t) < |t| then t[FirstFree(t) := a] else t
  }

  function Removed(t: seq<HostAndPort>, a: HostAndPort): seq<HostAndPort> {
    if IndexOf(t, a) < |t| then t[IndexOf(t, a) := NOWHERE] else t
  }

  /** The guarded registration of the GetNodesInCluster handler. */
  function Registered(t: seq<HostAndPort>, a: HostAndPort): seq<HostAndPort> {
    if a in t then t else Added(t, a)
  }

  predicate NoDuplicates(t: seq<HostAndPort>) {
    forall i, k | 0 <= i < k < |t| && Occupied(t[i]) :: t[i] != t[k]
  }

  //////// The members that a table stands for ////////

  /** The members with their slots. */
  function Members(t: seq<HostAndPort>): map<HostAndPort, nat> {
    map a | a in t && Occupied(a) :: IndexOf(t, a)
  }

  lemma IndexIsUnique(t: seq<HostAndPort>, i: nat)
    requires NoDuplicates(t) && i < |t| && Occupied(t[i])
    ensures IndexOf(t, t[i]) == i
  {
  }

  /** Of the members with their slots: the least slot that none has, if any. */
  function LeastSlot(m: map<HostAndPort, nat>, k: nat): (i: nat)
    requires k <= MAX_NUM_NODES
    ensures k <= i <= MAX_NUM_NODES && (i < MAX_NUM_NODES ==> i !in m.Values)
    ensures forall n | k <= n < i :: n in m.Values
    decreases MAX_NUM_NODES - k
  {
    if k == MAX_NUM_NODES || k !in m.Values then k else LeastSlot(m, k + 1)
  }

  datatype Event = Register(a: HostAndPort) | Evict(a: HostAndPort)

  /** A newcomer takes the least free slot; a member that is evicted gives its slot up; nobody else moves. */
  function MemberStep(m: map<HostAndPort, nat>, e: Event): map<HostAndPort, nat> {
    match e
    case Register(a) =>
      if a in m || !Occupied(a) || LeastSlot(m, 0) == MAX_NUM_NODES then m else m[a := LeastSlot(m, 0)]
    case Evict(a) => m - {a}
  }

  function TableStep(t: seq<HostAndPort>, e: Event): seq<HostAndPort> {
    match e
    case Register(a) => Registered(t, a)
    case Evict(a) => Removed(t, a)
  }

  function MemberRun(m: map<HostAndPort, nat>, es: seq<Event>): map<HostAndPort, nat>
    decreases |es|
  {
    if es == [] then m else MemberRun(MemberStep(m, es[0]), es[1..])
  }

  function TableRun(t: seq<HostAndPort>, es: seq<Event>): seq<HostAndPort>
    decreases |es|
  {
    if es == [] then t else TableRun(TableStep(t, es[0]), es[1..])
  }

  lemma SlotIsTaken(t: seq<HostAndPort>, i: nat)
    requires NoDuplicates(t) && i < |t|
    ensures i in Members(t).Values <==> Occupied(t[i])
  {
    if Occupied(t[i]) {
      IndexIsUnique(t, i);
      assert t[i] in Members(t);
    }
  }

  lemma LeastSlotIsFirstFree(t: seq<HostAndPort>)
    requires IsTable(t) && NoDuplicates(t)
    ensures LeastSlot(Members(t), 0) == FirstFree(t)
  {
    var i, k := LeastSlot(Members(t), 0), FirstFree(t);
    if i < |t| {
      SlotIsTaken(t, i);
    }
    if k < |t| {
      SlotIsTaken(t, k);
    }
  }

  /** m says of each member which slot holds it, and of each occupied slot what it holds. */
  predicate Describes(m: map<HostAndPort, nat>, t: seq<HostAndPort>) {
    (forall i | 0 <= i < |t| && Occupied(t[i]) :: t[i] in m && m[t[i]] == i) &&
    (forall b | b in m :: Occupied(b) && m[b] < |t| && t[m[b]] == b)
  }

  lemma DescribedMembers(m: map<HostAndPort, nat>, t: seq<HostAndPort>)
    requires NoDuplicates(t) && Describes(m, t)
    ensures Members(t) == m
  {
    forall b | b in m ensures b in Members(t) && Members(t)[b] == m[b] {
      IndexIsUnique(t, m[b]);
    }
  }

  lemma MembersDescribe(t: seq<HostAndPort>)
    requires NoDuplicates(t)
    ensures Describes(Members(t), t)
  {
    forall i | 0 <= i < |t| && Occupied(t[i]) ensures t[i] in Members(t) && Members(t)[t[i]] == i {
      IndexIsUnique(t, i);
    }
  }

  lemma AddedDescribed(m: map<HostAndPort, nat>, t: seq<HostAndPort>, a: HostAndPort)
    requires IsTable(t) && NoDuplicates(t) && a !in t && Describes(m, t) && LeastSlot(m, 0) == FirstFree(t)
    ensures NoDuplicates(Added(t, a)) && Describes(MemberStep(m, Register(a)), Added(t, a))
  {
    hide LeastSlot;
  }

  lemma AddedMembers(t: seq<HostAndPort>, a: HostAndPort)
    requires IsTable(t) && NoDuplicates(t) && a !in t
    ensures NoDuplicates(Added(t, a))
    ensures Members(Added(t, a)) == MemberStep(Members(t), Register(a))
  {
    hide Members, Describes, NoDuplicates, MemberStep, Added;
    LeastSlotIsFirstFree(t);
    MembersDescribe(t);
    AddedDescribed(Members(t), t, a);
    DescribedMembers(MemberStep(Members(t), Register(a)), Added(t, a));
  }

  lemma RemovedMembers(t: seq<HostAndPort>, a: HostAndPort)
    requires IsTable(t) && NoDuplicates(t)
    ensures NoDuplicates(Removed(t, a))
    ensures Members(Removed(t, a)) == Members(t) - {a}
  {
    MembersDescribe(t);
    DescribedMembers(Members(t) - {a}, Removed(t, a));
  }

  /** In every interleaving of guarded registrations and evictions, the table holds no address twice and stands
      for exactly the members that the simple rule gives. */
  lemma {:induction false} TableRefinesMembers(t: seq<HostAndPort>, es: seq<Event>)
    requires IsTable(t) && NoDuplicates(t)
    ensures IsTable(TableRun(t, es)) && NoDuplicates(TableRun(t, es))
    ensures Members(TableRun(t, es)) == MemberRun(Members(t), es)
    decreases |es|
  {
    if es == [] {
    } else {
      StepRefines(t, es[0]);
      TableRefinesMembers(TableStep(t, es[0]), es[1..]);
    }
  }

  lemma StepRefines(t: seq<HostAndPort>, e: Event)
    requires IsTable(t) && NoDuplicates(t)
    ensures IsTable(TableStep(t, e)) && NoDuplicates(TableStep(t, e))
    ensures Members(TableStep(t, e)) == MemberStep(Members(t), e)
  {
    match e {
      case Register(a) =>
        if a !in t {
          AddedMembers(t, a);
        }
      case Evict(a) => RemovedMembers(t, a);
    }
  }

  /** A member keeps its slot as long as it is not evicted. */
  lemma {:induction false} MembersStay(m: map<HostAndPort, nat>, es: seq<Event>, a: HostAndPort)
    requires a in m && Evict(a) !in es
    ensures a in MemberRun(m, es) && MemberRun(m, es)[a] == m[a]
    decreases |es|
  {
    if es == [] {
    } else {
      assert es[0] != Evict(a);
      MembersStay(MemberStep(m, es[0]), es[1..], a);
    }
  }

  lemma {:induction false} DistinctElements(t: seq<HostAndPort>)
    ensures |set a | a in t| <= |t|
  {
    if t == [] {
    } else {
      DistinctElements(t[1..]);
      var rest := set a | a in t[1..];
      assert (set a | a in t) == rest + {t[0]};
    }
  }

  /** A table has at most 30 members, each with a slot of its own that holds it. */
  lemma MembersHaveSlots(t: seq<HostAndPort>)
    requires IsTable(t)
    ensures |Members(t)| <= |t| == 30
    ensures forall a | a in Members(t) :: Members(t)[a] < 30 && t[Members(t)[a]] == a
    ensures forall a, b | a in Members(t) && b in Members(t) && a != b :: Members(t)[a] != Members(t)[b]
  {
    DistinctElements(t);
    var all := set a | a in t;
    assert Members(t).Keys <= all;
    SubsetSize(Members(t).Keys, all);
    forall a | a in Members(t) ensures Members(t)[a] < MAX_NUM_NODES && t[Members(t)[a]] == a {
      var i :| 0 <= i < |t| && t[i] == a;
    }
  }

  lemma SubsetSize<T>(a: set<T>, b: set<T>)
    requires a <= b
    ensures |a| <= |b|
  {
    assert b == a + (b - a);
  }

  //////// Listings ////////

  /** The occupied slots from k on, with their indices. */
  function ListedFrom(t: seq<HostAndPort>, k: nat): seq<(nat, HostAndPort)>
    requires k <= |t|
    decreases |t| - k
  {
    if k == |t| then []
    else (if Occupied(t[k]) then [(k, t[k])] else []) + ListedFrom(t, k + 1)
  }

  lemma {:induction false} ListedElements(t: seq<HostAndPort>, k: nat)
    requires k <= |t|
    ensures forall i: nat, a :: (i, a) in ListedFrom(t, k) <==> k <= i < |t| && t[i] == a && Occupied(a)
    decreases |t| - k
  {
    if k >= |t| {
    } else {
      ListedElements(t, k + 1);
    }
  }

  lemma {:induction false} ListedInOrder(t: seq<HostAndPort>, k: nat)
    requires k <= |t|
    ensures forall n, m | 0 <= n < m < |ListedFrom(t, k)| :: ListedFrom(t, k)[n].0 < ListedFrom(t, k)[m].0
    decreases |t| - k
  {
    if k >= |t| {
    } else {
      ListedInOrder(t, k + 1);
      ListedElements(t, k + 1);
      var rest := ListedFrom(t, k + 1);
      forall n | 0 <= n < |rest| ensures k < rest[n].0 {
        assert (rest[n].0, rest[n].1) in rest;
      }
    }
  }

  /** The listing is exactly the members with their slots, in the order of the slots. */
  lemma ListingIsMembers(t: seq<HostAndPort>)
    requires IsTable(t) && NoDuplicates(t)
    ensures forall i: nat, a :: (i, a) in ListedFrom(t, 0) <==> a in Members(t) && Members(t)[a] == i
    ensures forall n, m | 0 <= n < m < |ListedFrom(t, 0)| :: ListedFrom(t, 0)[n].0 < ListedFrom(t, 0)[m].0
  {
    ListedElements(t, 0);
    ListedInOrder(t, 0);
    forall i: nat, a ensures (i, a) in ListedFrom(t, 0) <==> a in Members(t) && Members(t)[a] == i {
      if i < |t| && t[i] == a && Occupied(a) {
        IndexIsUnique(t, i);
      }
      if a in Members(t) {
        assert IndexOf(t, a) < |t| by {
          var k :| 0 <= k < |t| && t[k] == a;
        }
      }
    }
  }
}
