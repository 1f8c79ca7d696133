// Several nodes: constructions, registrations and joins, in any order. No node evicts another one here; a node
// joins at most once, and before it has served a registration.

module Membership {
  import opened ByteStrings
  import opened HostAndPort
  import opened ClusterTable
  import opened Cluster
  import opened ImqNode

  /** The tables of all nodes, and the nodes that have joined or have served a registration. */
  datatype World = World(tables: map<HostAndPort, seq<HostAndPort>>, settled: set<HostAndPort>)

  datatype Action =
    | Construct(a: HostAndPort)
    | Register(server: HostAndPort, requester: HostAndPort)
    | Join(joiner: HostAndPort, leader: HostAndPort)

  predicate Enabled(w: World, e: Action) {
    match e
    case Construct(a) => a !in w.tables && IsAddress(a)
    case Register(server, requester) => server in w.tables && IsAddress(requester)
    case Join(joiner, leader) =>
      joiner in w.tables && leader in w.tables && joiner != leader && joiner !in w.settled
  }

  /** A join registers the joiner with the leader and reads the leader's reply, as far as it can be read. */
  function Step(w: World, e: Action): World
    requires Enabled(w, e)
  {
    match e
    case Construct(a) => w.(tables := w.tables[a := Fresh(a)])
    case Register(server, requester) =>
      World(w.tables[server := Registered(w.tables[server], requester)], w.settled + {server})
    case Join(joiner, leader) =>
      var t := if Reaches(w.tables[joiner], leader) then Registered(w.tables[leader], joiner) else w.tables[leader];
      var joined := Bootstrapped(w.tables[joiner], leader, t);
      World(w.tables[leader := t][joiner := joined.table], w.settled + {joiner, leader})
  }

  /** Every action is possible when its turn comes. */
  predicate IsRun(w: World, es: seq<Action>)
    decreases |es|
  {
    es == [] || (Enabled(w, es[0]) && IsRun(Step(w, es[0]), es[1..]))
  }

  function Run(w: World, es: seq<Action>): World
    requires IsRun(w, es)
    decreases |es|
  {
    if es == [] then w else Run(Step(w, es[0]), es[1..])
  }

  const NO_NODES: World := World(map[], {})

  //////// Tables ////////

  predicate PrefixOccupied(t: seq<HostAndPort>) {
    forall i, k | 0 <= i < k < |t| && Occupied(t[k]) :: Occupied(t[i])
  }

  predicate FreeIsNowhere(t: seq<HostAndPort>) {
    forall i | 0 <= i < |t| && !Occupied(t[i]) :: t[i] == NOWHERE
  }

  /** Occupied slots in front, no address twice, and only addresses that a reply can carry. */
  predicate GoodTable(t: seq<HostAndPort>) {
    IsTable(t) && NoDuplicates(t) && PrefixOccupied(t) && FreeIsNowhere(t) && Portable(t)
  }

  lemma RegisteredIsGood(t: seq<HostAndPort>, a: HostAndPort)
    requires GoodTable(t) && IsAddress(a)
    ensures GoodTable(Registered(t, a))
    ensures forall i | 0 <= i < |t| && Occupied(t[i]) :: Registered(t, a)[i] == t[i]
    ensures a in Registered(t, a) || Occupied(t[MAX_NUM_NODES - 1])
  {
    var f, r := FirstFree(t), Registered(t, a);
    if a !in t && f < |t| {
      assert r[f] == a;
    }
  }

  lemma FreshIsGood(a: HostAndPort)
    requires IsAddress(a)
    ensures GoodTable(Fresh(a)) && Fresh(a)[0] == a && forall i | 0 < i < MAX_NUM_NODES :: Fresh(a)[i] == NOWHERE
  {
    var empty := seq(MAX_NUM_NODES, _ => NOWHERE);
    assert empty[0] == NOWHERE;
    assert FirstFree(empty) == 0;
  }

  /** A fresh node that joins takes over the leader's table slot for slot. */
  lemma JoinCopiesTable(joiner: HostAndPort, leader: HostAndPort, t: seq<HostAndPort>)
    requires IsAddress(joiner) && IsAddress(leader) && joiner != leader
    requires GoodTable(t) && Occupied(t[0]) && Occupied(t[1])
    ensures Reaches(Fresh(joiner), leader) && Bootstrapped(Fresh(joiner), leader, t) == Merge(t, None)
  {
    FreshIsGood(joiner);
    var own := Registered(Fresh(joiner), leader);
    assert leader in own by {
      assert FirstFree(Fresh(joiner)) < |own| && own[FirstFree(Fresh(joiner))] == leader;
    }
    forall i | 2 <= i < MAX_NUM_NODES ensures own[i] == NOWHERE {
      assert Fresh(joiner)[1] == NOWHERE && !Occupied(Fresh(joiner)[1]);
      assert FirstFree(Fresh(joiner)) <= 1;
    }
    ReplyIsRead(own, t);
    var merged := seq(MAX_NUM_NODES, i requires 0 <= i < MAX_NUM_NODES => if Occupied(t[i]) then t[i] else own[i]);
    assert merged == t;
  }

  //////// Runs ////////

  /** What holds of one node: its table is good; it has not settled or it shares its table with somebody, or it
      is in its own first slot. */
  predicate GoodNode(w: World, a: HostAndPort)
    requires a in w.tables
  {
    var t := w.tables[a];
    IsAddress(a) && GoodTable(t) && Occupied(t[0]) && (t[0] == a || Occupied(t[1])) &&
    (a !in w.settled ==> t == Fresh(a))
  }

  predicate GoodWorld(w: World) {
    forall a | a in w.tables :: GoodNode(w, a)
  }

  lemma RegisterKeepsNode(w: World, server: HostAndPort, requester: HostAndPort)
    requires server in w.tables && GoodNode(w, server) && IsAddress(requester)
    ensures var t := Registered(w.tables[server], requester);
            GoodTable(t) && Occupied(t[0]) && (t[0] == server || Occupied(t[1])) &&
            (requester != server ==> Occupied(t[1]))
  {
    var t := w.tables[server];
    var r := Registered(t, requester);
    RegisteredIsGood(t, requester);
    if requester in r {
      var i :| 0 <= i < |r| && r[i] == requester;
      assert i > 0 ==> Occupied(r[1]);
    }
  }

  /** Right after a join, the tables of joiner and leader are the same, slot for slot, and the leader's table is
      its old one with the joiner registered. */
  lemma JoinStep(w: World, joiner: HostAndPort, leader: HostAndPort)
    requires GoodWorld(w) && Enabled(w, Join(joiner, leader))
    ensures var v := Step(w, Join(joiner, leader));
            v.tables[joiner] == v.tables[leader] == Registered(w.tables[leader], joiner)
  {
    assert GoodNode(w, joiner) && GoodNode(w, leader);
    RegisterKeepsNode(w, leader, joiner);
    JoinCopiesTable(joiner, leader, Registered(w.tables[leader], joiner));
  }

  lemma StepKeepsGoodWorld(w: World, e: Action)
    requires GoodWorld(w) && Enabled(w, e)
    ensures GoodWorld(Step(w, e))
  {
    var v := Step(w, e);
    match e {
      case Construct(a) =>
        FreshIsGood(a);
        forall b | b in v.tables ensures GoodNode(v, b) {
          assert b != a ==> GoodNode(w, b);
        }
      case Register(server, requester) =>
        assert GoodNode(w, server);
        RegisterKeepsNode(w, server, requester);
        forall b | b in v.tables ensures GoodNode(v, b) {
          assert GoodNode(w, b);
        }
      case Join(joiner, leader) =>
        assert GoodNode(w, joiner) && GoodNode(w, leader);
        RegisterKeepsNode(w, leader, joiner);
        JoinStep(w, joiner, leader);
        forall b | b in v.tables ensures GoodNode(v, b) {
          assert GoodNode(w, b);
        }
    }
  }

  /** In every run, each table has its occupied slots in front and holds no address twice, and each join leaves
      joiner and leader with the same table. */
  lemma {:induction false} RunsKeepTablesGood(w: World, es: seq<Action>)
    requires GoodWorld(w) && IsRun(w, es)
    ensures GoodWorld(Run(w, es))
    ensures forall a | a in Run(w, es).tables ::
              PrefixOccupied(Run(w, es).tables[a]) && NoDuplicates(Run(w, es).tables[a])
    decreases |es|
  {
    if es != [] {
      StepKeepsGoodWorld(w, es[0]);
      RunsKeepTablesGood(Step(w, es[0]), es[1..]);
    } else {
      forall a | a in w.tables ensures PrefixOccupied(w.tables[a]) && NoDuplicates(w.tables[a]) {
        assert GoodNode(w, a);
      }
    }
  }

  /** In every run that begins without nodes, all tables are good; and each join leaves joiner and leader with the same
      table. */
  lemma RunsFromNothing(es: seq<Action>, joiner: HostAndPort, leader: HostAndPort)
    requires IsRun(NO_NODES, es)
    ensures GoodWorld(Run(NO_NODES, es))
    ensures Enabled(Run(NO_NODES, es), Join(joiner, leader)) ==>
              var v := Step(Run(NO_NODES, es), Join(joiner, leader)); v.tables[joiner] == v.tables[leader]
  {
    RunsKeepTablesGood(NO_NODES, es);
    var w := Run(NO_NODES, es);
    if Enabled(w, Join(joiner, leader)) {
      JoinStep(w, joiner, leader);
    }
  }
}
