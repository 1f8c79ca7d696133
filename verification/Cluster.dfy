// Cluster, the class that holds the table of members, and the JSON form in which a table travels.

module Cluster {
  import opened ByteStrings
  import opened Decimal
  import opened JsonValue
  import opened HostAndPort
  import opened ClusterTable

  /** "nodes" */
  const NODES_KEY: Text := [0x6e, 0x6f, 0x64, 0x65, 0x73]

  /** A slot and its content in a reply. */
  function SlotEntry(i: nat, a: HostAndPort): Member {
    Member(Numeral(i), Str(ToString(a)))
  }

  /** nodes_part after the loop over a listing. */
  function SlotEntries(listing: seq<(nat, HostAndPort)>): seq<Member> {
    if listing == [] then []
    else
      var (i, a) := listing[|listing| - 1];
      Put(SlotEntries(listing[..|listing| - 1]), Numeral(i), Str(ToString(a)))
  }

  /** The "nodes" part of the reply to GetNodesInCluster; without members it stays null. */
  function NodesPart(t: seq<HostAndPort>): Json {
    var listing := ListedFrom(t, 0);
    if listing == [] then Null else Obj(SlotEntries(listing))
  }

  function Reply(t: seq<HostAndPort>): Json {
    Obj([Member(NODES_KEY, NodesPart(t))])
  }

  /** json_response["nodes"]; a missing part is null. */
  function NodesOf(reply: Json): Result<Json> {
    if reply.Null? then Ok(Null)
    else if !reply.Obj? then Err(DomainError)
    else match Find(reply.ms, NODES_KEY)
      case Some(nodes) => Ok(nodes)
      case None => Ok(Null)
  }

  /** What a range-based for over a value visits. */
  function Elements(j: Json): seq<Json> {
    match j
    case Null => []
    case Arr(es) => es
    case Obj(ms) => Values(ms)
    case _ => [j]
  }

  function Values(ms: seq<Member>): (es: seq<Json>)
    ensures |es| == |ms|
  {
    if ms == [] then [] else [ms[0].value] + Values(ms[1..])
  }

  /** A table after an attempt to write into it, and the error that ended the attempt. */
  datatype Merge = Merge(table: seq<HostAndPort>, error: Option<Error>)

  /** The addresses of one entry, written to the slot one after the other. An index outside the table is
      undefined behaviour in the source and an error here. */
  function WithAddresses(t: seq<HostAndPort>, idx: nat, es: seq<Json>): (r: Merge)
    ensures |r.table| == |t|
    decreases |es|
  {
    if es == [] then Merge(t, None)
    else if !es[0].Str? then Merge(t, Some(DomainError))
    else if |es[0].s| > MAX_SIZE then Merge(t, Some(LengthError))
    else
      var a := FromString(es[0].s);
      if a.Err? then Merge(t, Some(a.error))
      else if idx >= |t| then Merge(t, Some(AssertFailure))
      else WithAddresses(t[idx := a.value], idx, es[1..])
  }

  function WithEntry(t: seq<HostAndPort>, m: Member): (r: Merge)
    ensures |r.table| == |t|
  {
    var idx := Stoi(m.key);
    if idx.Err? then Merge(t, Some(idx.error))
    else WithAddresses(t, idx.value % 0x1_0000_0000, Elements(m.value))
  }

  function WithEntries(t: seq<HostAndPort>, ms: seq<Member>): (r: Merge)
    ensures |r.table| == |t|
    decreases |ms|
  {
    if ms == [] then Merge(t, None)
    else
      var next := WithEntry(t, ms[0]);
      if next.error.Some? then next else WithEntries(next.table, ms[1..])
  }

  /** The loop of Bootstrap over the parts of a reply; it.key() throws for anything but an object. */
  function WithReply(t: seq<HostAndPort>, reply: Json): (r: Merge)
    ensures |r.table| == |t|
  {
    var nodes := NodesOf(reply);
    if nodes.Err? then Merge(t, Some(nodes.error))
    else if nodes.value.Obj? then WithEntries(t, nodes.value.ms)
    else if Elements(nodes.value) == [] then Merge(t, None)
    else Merge(t, Some(DomainError))
  }

  class Cluster {
    var nodes: seq<HostAndPort>

    ghost predicate Valid()
      reads this
    {
      IsTable(nodes)
    }

    constructor ()
      ensures Valid() && nodes == seq(MAX_NUM_NODES, _ => NOWHERE)
    {
      var slots: seq<HostAndPort> := [];
      for i := 0 to MAX_NUM_NODES
        invariant slots == seq(i, _ => NOWHERE)
      {
        slots := slots + [NOWHERE];
      }
      nodes := slots;
    }

    method NodeInCluster(finding: HostAndPort) returns (b: bool)
      ensures b <==> finding in nodes
    {
      for i := 0 to |nodes|
        invariant finding !in nodes[..i]
      {
        if nodes[i] == finding {
          return true;
        }
      }
      assert nodes[..|nodes|] == nodes;
      return false;
    }

    method AddNode(a: HostAndPort)
      requires Valid()
      modifies this
      ensures Valid() && nodes == Added(old(nodes), a)
    {
      for i := 0 to MAX_NUM_NODES
        invariant nodes == old(nodes) && Valid()
        invariant FirstFree(nodes) >= i
      {
        if nodes[i].host == [] {
          assert FirstFree(nodes) == i;
          nodes := nodes[i := a];
          break;
        }
      }
    }

    /** AddNode with an index: "We'll assume there's nothing at this index." */
    method AddNodeAt(idx: nat, a: HostAndPort)
      requires Valid() && idx < MAX_NUM_NODES
      modifies this
      ensures Valid() && nodes == old(nodes)[idx := a]
    {
      nodes := nodes[idx := a];
    }

    method RemoveNode(a: HostAndPort)
      requires Valid()
      modifies this
      ensures Valid() && nodes == Removed(old(nodes), a)
    {
      for i := 0 to MAX_NUM_NODES
        invariant nodes == old(nodes) && Valid()
        invariant IndexOf(nodes, a) >= i
      {
        var node := nodes[i];
        if node == a {
          assert IndexOf(nodes, a) == i;
          nodes := nodes[i := NOWHERE];
          break;
        }
      }
    }

    /** The membership check of GetNodeClient. */
    method GetNodeClient(a: HostAndPort) returns (r: Result<HostAndPort>)
      ensures r == if a in nodes then Ok(a) else Err(LogicError)
    {
      var found := NodeInCluster(a);
      r := if found then Ok(a) else Err(LogicError);
    }

    method GetNodesWithIdxInCluster() returns (listing: seq<(nat, HostAndPort)>)
      requires Valid()
      ensures listing == ListedFrom(nodes, 0)
    {
      listing := [];
      for i := 0 to MAX_NUM_NODES
        invariant ListedFrom(nodes, 0) == listing + ListedFrom(nodes, i)
      {
        var node := nodes[i];
        if node.host != [] {
          listing := listing + [(i, node)];
        }
      }
    }

    method GetNodesInCluster() returns (members: seq<HostAndPort>)
      requires Valid()
      ensures members == Addresses(ListedFrom(nodes, 0))
    {
      members := [];
      assert Addresses(ListedFrom(nodes, 0)) == members + Addresses(ListedFrom(nodes, 0));
      for i := 0 to MAX_NUM_NODES
        invariant Addresses(ListedFrom(nodes, 0)) == members + Addresses(ListedFrom(nodes, i))
      {
        ghost var rest := ListedFrom(nodes, i + 1);
        if nodes[i].host != [] {
          assert ListedFrom(nodes, i) == [(i, nodes[i])] + rest;
          assert ([(i, nodes[i])] + rest)[1..] == rest;
          members := members + [nodes[i]];
        } else {
          assert ListedFrom(nodes, i) == rest;
        }
      }
    }

    /** The first half of Bootstrap: the leader must be in the table for GetNodeClient. */
    method AddLeader(leader: HostAndPort)
      requires Valid()
      modifies this
      ensures Valid() && nodes == Registered(old(nodes), leader)
    {
      var known := NodeInCluster(leader);
      if !known {
        AddNode(leader);
      }
    }

    /** The second half of Bootstrap: add the cluster members of a reply. An error leaves in the table what has been
        written before it. */
    method AddMembers(reply: Json) returns (error: Option<Error>)
      requires Valid()
      modifies this
      ensures Valid() && Merge(nodes, error) == WithReply(old(nodes), reply)
    {
      var part := NodesOf(reply);
      if part.Err? {
        return Some(part.error);
      }
      if !part.value.Obj? {
        return if Elements(part.value) == [] then None else Some(DomainError);
      }
      var ms := part.value.ms;
      ghost var goal := WithReply(nodes, reply);
      for i := 0 to |ms|
        invariant Valid() && goal == WithEntries(nodes, ms[i..])
      {
        assert ms[i..][1..] == ms[i + 1..];
        error := AddEntry(ms[i]);
        if error.Some? {
          return;
        }
      }
      return None;
    }

    /** One entry of a reply: its key is a slot, and each string in its value an address. */
    method AddEntry(m: Member) returns (error: Option<Error>)
      requires Valid()
      modifies this
      ensures Valid() && Merge(nodes, error) == WithEntry(old(nodes), m)
    {
      var key := Stoi(m.key);
      if key.Err? {
        return Some(key.error);
      }
      var idx := key.value % 0x1_0000_0000;
      var es := Elements(m.value);
      ghost var goal := WithEntry(nodes, m);
      for k := 0 to |es|
        invariant Valid() && goal == WithAddresses(nodes, idx, es[k..])
      {
        assert es[k..][1..] == es[k + 1..];
        if !es[k].Str? {
          return Some(DomainError);
        }
        if |es[k].s| > MAX_SIZE {
          return Some(LengthError);
        }
        var a := FromString(es[k].s);
        if a.Err? {
          return Some(a.error);
        }
        if idx >= MAX_NUM_NODES {
          return Some(AssertFailure);
        }
        AddNodeAt(idx, a.value);
      }
      return None;
    }
  }

  /** The addresses of a listing. */
  function Addresses(listing: seq<(nat, HostAndPort)>): seq<HostAndPort> {
    if listing == [] then [] else [listing[0].1] + Addresses(listing[1..])
  }
}
