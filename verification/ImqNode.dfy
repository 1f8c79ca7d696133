// IMQNode: the GetNodesInCluster handler and joining a cluster, and what joining does to the table of the joiner.

module ImqNode {
  import opened ByteStrings
  import opened Decimal
  import opened JsonValue
  import opened HostAndPort
  import opened ClusterTable
  import opened Cluster
  import opened RpcMessages

  class IMQNode {
    const address: HostAndPort
    const cluster: Cluster

    ghost predicate Valid()
      reads cluster
    {
      cluster.Valid()
    }

    constructor (a: HostAndPort)
      ensures Valid() && fresh(cluster) && address == a
      ensures cluster.nodes == Fresh(a)
    {
      address := a;
      cluster := new Cluster();
      new;
      cluster.AddNode(a);
    }

    /** The RPC handler GetNodesInCluster. A request that cannot be read changes nothing. */
    method GetNodesInCluster(j: Json) returns (ret: Result<Json>)
      requires Valid()
      modifies cluster
      ensures Valid()
      ensures cluster.nodes == Served(old(cluster.nodes), Requester(j))
      ensures ret == if Requester(j).Ok? then Ok(Reply(cluster.nodes)) else Err(Requester(j).error)
    {
      var requester := Requester(j);
      if requester.Err? {
        return Err(requester.error);
      }
      if requester.value.Some? {
        var known := cluster.NodeInCluster(requester.value.value);
        if !known {
          cluster.AddNode(requester.value.value);
        }
      }
      var part := ListNodes();
      ret := Ok(Obj([Member(NODES_KEY, part)]));
    }

    /** The loop that fills nodes_part. */
    method ListNodes() returns (nodesPart: Json)
      requires Valid()
      ensures nodesPart == NodesPart(cluster.nodes)
    {
      var listing := cluster.GetNodesWithIdxInCluster();
      nodesPart := Null;
      for n := 0 to |listing|
        invariant nodesPart == if n == 0 then Null else Obj(SlotEntries(listing[..n]))
      {
        var (i, node) := listing[n];
        assert listing[..n + 1][..n] == listing[..n];
        nodesPart := Obj(Put(if nodesPart.Obj? then nodesPart.ms else [], Numeral(i), Str(ToString(node))));
      }
      assert listing[..|listing|] == listing;
    }

    /** JoinCluster with the leader's handler as the one remote procedure call. */
    method JoinCluster(leader: IMQNode) returns (error: Option<Error>)
      requires Valid() && leader.Valid() && leader != this && leader.cluster != cluster
      modifies cluster, leader.cluster
      ensures Valid() && leader.Valid()
      ensures leader.cluster.nodes ==
              if Reaches(old(cluster.nodes), leader.address) then Registered(old(leader.cluster.nodes), address)
              else old(leader.cluster.nodes)
      ensures Merge(cluster.nodes, error) ==
              Bootstrapped(old(cluster.nodes), leader.address, leader.cluster.nodes)
    {
      cluster.AddLeader(leader.address);
      var client := cluster.GetNodeClient(leader.address);
      if client.Err? {
        return Some(client.error);
      }
      RequestIsRead(address);
      var reply := leader.GetNodesInCluster(Request(address));
      NodesOfResponse(leader.cluster.nodes, leader.address);
      error := cluster.AddMembers(WithCallee(reply.value, leader.address).value);
    }
  }

  /** The table behind a request: registered is whoever asks for it. */
  function Served(t: seq<HostAndPort>, requester: Result<Option<HostAndPort>>): seq<HostAndPort> {
    if requester.Ok? && requester.value.Some? then Registered(t, requester.value.value) else t
  }

  /** The metadata that is added to a reply does not disturb its reader. */
  lemma NodesOfResponse(t: seq<HostAndPort>, callee: HostAndPort)
    ensures WithCallee(Reply(t), callee).Ok?
    ensures forall own :: WithReply(own, WithCallee(Reply(t), callee).value) == WithReply(own, Reply(t))
  {
    hide WithCallee;
    assert NODES_KEY != CALLEE_INFO;
    var response := Response(NODES_KEY, NodesPart(t), callee);
    assert NodesOf(response) == Ok(NodesPart(t)) == NodesOf(Reply(t));
  }

  /** The table of a node that has just been constructed. */
  function Fresh(a: HostAndPort): seq<HostAndPort> {
    Added(seq(MAX_NUM_NODES, _ => NOWHERE), a)
  }

  /** Whether the leader is in the table once it has been added, so that GetNodeClient does not throw. */
  predicate Reaches(own: seq<HostAndPort>, leader: HostAndPort) {
    leader in Registered(own, leader)
  }

  /** The table of a joiner, once it has read the reply of a leader whose table is then t. */
  function Bootstrapped(own: seq<HostAndPort>, leader: HostAndPort, t: seq<HostAndPort>): Merge {
    if Reaches(own, leader) then WithReply(Registered(own, leader), Reply(t))
    else Merge(Registered(own, leader), Some(LogicError))
  }

  //////// Reading a reply ////////

  /** An address that a reply can carry. */
  predicate IsAddress(a: HostAndPort) {
    Occupied(a) && |ToString(a)| <= MAX_SIZE && Readable(a)
  }

  /** All addresses in the table can be carried. */
  predicate Portable(t: seq<HostAndPort>) {
    forall i | 0 <= i < |t| && Occupied(t[i]) :: IsAddress(t[i])
  }

  /** m is the entry of a reply for some occupied slot of t. */
  predicate IsSlotEntry(m: Member, t: seq<HostAndPort>) {
    exists i | 0 <= i < |t| :: Occupied(t[i]) && m == SlotEntry(i, t[i])
  }

  predicate AreSlotEntries(ms: seq<Member>, t: seq<HostAndPort>) {
    forall n | 0 <= n < |ms| :: IsSlotEntry(ms[n], t)
  }

  /** own, with every slot that the entries name taken from t. */
  function Overlaid(own: seq<HostAndPort>, t: seq<HostAndPort>, ms: seq<Member>): seq<HostAndPort>
    requires |own| == |t|
  {
    seq(|own|, i requires 0 <= i < |own| => if Find(ms, Numeral(i)).Some? then t[i] else own[i])
  }

  lemma EntryIsRead(own: seq<HostAndPort>, t: seq<HostAndPort>, i: nat)
    requires IsTable(own) && i < |own| == |t| && IsAddress(t[i])
    ensures WithEntry(own, SlotEntry(i, t[i])) == Merge(own[i := t[i]], None)
  {
    var m := SlotEntry(i, t[i]);
    StoiNumeral(i);
    FitsIn32(i);
    FromStringUndoesToString(t[i]);
    var es := Elements(m.value);
    assert es == [m.value];
    assert es[1..] == [];
    assert WithAddresses(own[i := t[i]], i, es[1..]) == Merge(own[i := t[i]], None);
  }

  lemma OverlaidCons(own: seq<HostAndPort>, t: seq<HostAndPort>, i: nat, ms: seq<Member>)
    requires i < |own| == |t| && ms != [] && ms[0] == SlotEntry(i, t[i])
    ensures Overlaid(own[i := t[i]], t, ms[1..]) == Overlaid(own, t, ms)
  {
    forall k | 0 <= k < |own| ensures Overlaid(own[i := t[i]], t, ms[1..])[k] == Overlaid(own, t, ms)[k] {
      if k != i {
        if Numeral(k) == Numeral(i) {
          NumeralInjective(k, i);
        }
      }
    }
  }

  /** Reading entries writes exactly the slots that they name. */
  lemma {:induction false} EntriesAreRead(own: seq<HostAndPort>, t: seq<HostAndPort>, ms: seq<Member>)
    requires IsTable(own) && IsTable(t) && Portable(t) && AreSlotEntries(ms, t)
    ensures WithEntries(own, ms) == Merge(Overlaid(own, t, ms), None)
    decreases |ms|
  {
    if ms == [] {
      assert Overlaid(own, t, ms) == own;
    } else {
      assert IsSlotEntry(ms[0], t);
      var i :| 0 <= i < |t| && Occupied(t[i]) && ms[0] == SlotEntry(i, t[i]);
      EntryIsRead(own, t, i);
      OverlaidCons(own, t, i, ms);
      EntriesAreRead(own[i := t[i]], t, ms[1..]);
    }
  }

  /** A listing of slots of t. */
  predicate ListsSlots(listing: seq<(nat, HostAndPort)>, t: seq<HostAndPort>) {
    forall n | 0 <= n < |listing| ::
      var (i, a) := listing[n];
      i < |t| && t[i] == a && Occupied(a)
  }

  lemma {:induction false} SlotEntriesAreEntries(listing: seq<(nat, HostAndPort)>, t: seq<HostAndPort>)
    requires ListsSlots(listing, t)
    ensures AreSlotEntries(SlotEntries(listing), t) && Sorted(SlotEntries(listing))
    decreases |listing|
  {
    if listing == [] {
    } else {
      var front := listing[..|listing| - 1];
      var (i, a) := listing[|listing| - 1];
      SlotEntriesAreEntries(front, t);
      PutSorted(SlotEntries(front), Numeral(i), Str(ToString(a)));
      var ms := SlotEntries(listing);
      forall n | 0 <= n < |ms| ensures IsSlotEntry(ms[n], t) {
        assert ms[n] in ms;
        if ms[n] == SlotEntry(i, a) {
          assert Occupied(t[i]);
        } else {
          var k :| 0 <= k < |SlotEntries(front)| && SlotEntries(front)[k] == ms[n];
        }
      }
    }
  }

  predicate NamesSlot(listing: seq<(nat, HostAndPort)>, i: nat) {
    exists n | 0 <= n < |listing| :: listing[n].0 == i
  }

  lemma {:induction false} SlotIsFound(listing: seq<(nat, HostAndPort)>, i: nat)
    ensures Find(SlotEntries(listing), Numeral(i)).Some? <==> NamesSlot(listing, i)
    decreases |listing|
  {
    if listing == [] {
    } else {
      var front := listing[..|listing| - 1];
      var (k, a) := listing[|listing| - 1];
      SlotIsFound(front, i);
      FindPut(SlotEntries(front), Numeral(k), Str(ToString(a)), Numeral(i));
      if Numeral(k) == Numeral(i) {
        NumeralInjective(k, i);
        assert listing[|listing| - 1].0 == i;
      } else if Find(SlotEntries(front), Numeral(i)).Some? {
        var n :| 0 <= n < |front| && front[n].0 == i;
        assert listing[n].0 == i;
      } else {
        forall n | 0 <= n < |listing| ensures listing[n].0 != i {
          if n < |front| { assert front[n] == listing[n]; }
        }
      }
    }
  }

  lemma ListingListsSlots(t: seq<HostAndPort>)
    ensures ListsSlots(ListedFrom(t, 0), t)
  {
    ListedElements(t, 0);
    var listing := ListedFrom(t, 0);
    forall n | 0 <= n < |listing| ensures var (i, a) := listing[n]; i < |t| && t[i] == a && Occupied(a) {
      assert (listing[n].0, listing[n].1) in listing;
    }
  }

  lemma SlotIsListed(t: seq<HostAndPort>, i: nat)
    requires i < |t|
    ensures Occupied(t[i]) <==> NamesSlot(ListedFrom(t, 0), i)
  {
    ListedElements(t, 0);
    ListingListsSlots(t);
    var listing := ListedFrom(t, 0);
    if Occupied(t[i]) {
      assert (i, t[i]) in listing;
      var n :| 0 <= n < |listing| && listing[n] == (i, t[i]);
      assert listing[n].0 == i;
    }
    if NamesSlot(listing, i) {
      var n :| 0 <= n < |listing| && listing[n].0 == i;
      assert (listing[n].0, listing[n].1) in listing;
    }
  }

  /** Reading the reply of a table takes over its occupied slots and leaves the others as they are. */
  lemma ReplyIsRead(own: seq<HostAndPort>, t: seq<HostAndPort>)
    requires IsTable(own) && IsTable(t) && Portable(t)
    ensures WithReply(own, Reply(t)) ==
            Merge(seq(MAX_NUM_NODES, i requires 0 <= i < MAX_NUM_NODES => if Occupied(t[i]) then t[i] else own[i]),
                  None)
  {
    var listing := ListedFrom(t, 0);
    var ms := SlotEntries(listing);
    ListingListsSlots(t);
    SlotEntriesAreEntries(listing, t);
    forall i: nat | i < |t| ensures Find(ms, Numeral(i)).Some? <==> Occupied(t[i]) {
      SlotIsListed(t, i);
      SlotIsFound(listing, i);
    }
    var merged := seq(MAX_NUM_NODES, i requires 0 <= i < MAX_NUM_NODES => if Occupied(t[i]) then t[i] else own[i]);
    assert Overlaid(own, t, ms) == merged;
    assert NodesOf(Reply(t)) == Ok(NodesPart(t));
    if listing == [] {
      assert merged == own;
    } else {
      EntriesAreRead(own, t, ms);
    }
  }
}
