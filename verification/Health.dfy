// Health, the failure detector: it counts the timeouts of each member in a row and evicts a member that has had
// too many.

module Health {
  import opened ByteStrings
  import opened HostAndPort
  import opened ClusterTable
  import opened Cluster
  import opened JsonValue
  import opened RpcMessages

  const REMOVE_AFTER_NUM_RETRIES: int := 3

  //////// The specification ////////

  /** The table of members and the map of the potentially failed nodes with their numbers of retries. */
  datatype State = State(table: seq<HostAndPort>, retries: map<HostAndPort, int>)

  /** What happens to a node: a health check ends with a reply or a timeout, or somebody registers. */
  datatype Event = Reply(a: HostAndPort) | Timeout(a: HostAndPort) | Registration(a: HostAndPort)

  function Step(s: State, e: Event): State {
    match e
    case Reply(a) => s.(retries := s.retries - {a})
    case Timeout(a) =>
      if a !in s.retries then s.(retries := s.retries[a := 0])
      else if s.retries[a] >= REMOVE_AFTER_NUM_RETRIES then State(Removed(s.table, a), s.retries - {a})
      else s.(retries := s.retries[a := s.retries[a] + 1])
    case Registration(a) => s.(table := Registered(s.table, a))
  }

  function Run(s: State, h: seq<Event>): State {
    if h == [] then s else Step(Run(s, h[..|h| - 1]), h[|h| - 1])
  }

  /** Health checks go to members other than the node itself. */
  predicate IsPossible(s: State, e: Event, me: HostAndPort) {
    e.Registration? || (Occupied(e.a) && e.a in s.table && e.a != me)
  }

  predicate IsRun(s: State, h: seq<Event>, me: HostAndPort) {
    h == [] || (IsRun(s, h[..|h| - 1], me) && IsPossible(Run(s, h[..|h| - 1]), h[|h| - 1], me))
  }

  //////// The implementation ////////

  /** How a health check can end; without a callback nothing happens. */
  datatype Outcome = Replied | TimedOut | NoCallback

  /** What happens around the call to one member: the registrations that the handler serves before it, and its end. */
  datatype Turn = Turn(registrations: seq<HostAndPort>, outcome: Outcome)

  /** Whether the address of the callee could be read. */
  function Read(callee: Result<HostAndPort>): Result<()> {
    if callee.Ok? then Ok(()) else Err(callee.error)
  }

  class Health {
    const cluster: Cluster
    const me: HostAndPort
    var retries: map<HostAndPort, int>

    constructor (cluster: Cluster, me: HostAndPort)
      ensures this.cluster == cluster && this.me == me && retries == map[]
    {
      this.cluster := cluster;
      this.me := me;
      retries := map[];
    }

    ghost function Now(): State
      reads this, cluster
    {
      State(cluster.nodes, retries)
    }

    method MarkAsPotentiallyFailing(a: HostAndPort)
      modifies this`retries
      ensures retries == if a in old(retries) then old(retries) else old(retries)[a := 0]
    {
      // insert() leaves an entry that is already there
      if a !in retries {
        retries := retries[a := 0];
      }
    }

    method UnmarkAsPotentiallyFailing(a: HostAndPort)
      modifies this`retries
      ensures retries == old(retries) - {a}
    {
      if a in retries {
        retries := retries - {a};
      }
    }

    method IsPotentiallyFailing(a: HostAndPort) returns (b: bool)
      ensures b <==> a in retries
    {
      b := a in retries;
    }

    method GetNumberOfRetriesForNode(a: HostAndPort) returns (n: int)
      ensures n == if a in retries then retries[a] else 0
    {
      var marked := IsPotentiallyFailing(a);
      n := if marked then retries[a] else 0;
    }

    method IncrementNumberOfRetriesForNode(a: HostAndPort)
      modifies this`retries
      ensures retries == old(retries)[a := (if a in old(retries) then old(retries)[a] else 0) + 1]
    {
      // operator[] creates a missing entry with 0
      retries := retries[a := (if a in retries then retries[a] else 0) + 1];
    }

    method RemoveNodeFromCluster(a: HostAndPort)
      requires cluster.Valid()
      modifies this`retries, cluster
      ensures cluster.Valid() && Now() == State(Removed(old(cluster.nodes), a), old(retries) - {a})
    {
      cluster.RemoveNode(a);
      // the count is 3 already: evict
      UnmarkAsPotentiallyFailing(a);
    }

    /** The callback for a reply; it throws where the response names no callee. */
    method HealthyNodeCallback(response: Json) returns (r: Result<()>)
      modifies this`retries
      ensures r == Read(CalleeOf(response))
      ensures Now() == if r.Ok? then Step(old(Now()), Reply(CalleeOf(response).value)) else old(Now())
    {
      if CalleeOf(response).Err? {
        return Err(CalleeOf(response).error);
      }
      var callee := CalleeOf(response).value;
      var marked := IsPotentiallyFailing(callee);
      if marked {
        UnmarkAsPotentiallyFailing(callee);
      }
      assert callee !in old(retries) ==> old(retries) - {callee} == old(retries);
      r := Ok(());
    }

    /** The callback for a timeout. */
    method TimedoutNodeCallback(response: Json) returns (r: Result<()>)
      requires cluster.Valid()
      modifies this`retries, cluster
      ensures cluster.Valid() && r == Read(CalleeOf(response))
      ensures Now() == if r.Ok? then Step(old(Now()), Timeout(CalleeOf(response).value)) else old(Now())
    {
      if CalleeOf(response).Err? {
        return Err(CalleeOf(response).error);
      }
      var callee := CalleeOf(response).value;
      var marked := IsPotentiallyFailing(callee);
      if marked {
        var numRetriesSoFar := GetNumberOfRetriesForNode(callee);
        if numRetriesSoFar >= REMOVE_AFTER_NUM_RETRIES {
          RemoveNodeFromCluster(callee);
        } else {
          IncrementNumberOfRetriesForNode(callee);
        }
      } else {
        MarkAsPotentiallyFailing(callee);
      }
      r := Ok(());
    }

    /** The call to one listed member, with the outcome that it has. */
    method CheckMember(node: HostAndPort, outcome: Outcome) returns (r: Result<()>)
      requires cluster.Valid() && NoDuplicates(cluster.nodes) && node in cluster.nodes
      modifies this`retries, cluster
      ensures cluster.Valid() && NoDuplicates(cluster.nodes) && r == Ok(())
      ensures Now() == if node == me then old(Now()) else Finish(old(Now()), node, outcome)
      ensures forall b | b in old(cluster.nodes) && b != node :: b in cluster.nodes
    {
      if node == me {
        // the node itself is left out, so that its slot stays
        return Ok(());
      }
      var client := cluster.GetNodeClient(node);
      if client.Err? {
        return Err(LogicError);
      }
      RemovedMembers(cluster.nodes, node);
      RemovedKeepsOthers(cluster.nodes, node);
      match outcome {
        case Replied => r := HealthyNodeCallback(HealthyResponse(node));
        case TimedOut => r := TimedoutNodeCallback(TimeoutResponse(node));
        case NoCallback => r := Ok(());
      }
    }

    /** The registrations that the handler of GetNodesInCluster serves meanwhile. */
    method ServeRegistrations(addresses: seq<HostAndPort>)
      requires cluster.Valid() && NoDuplicates(cluster.nodes)
      modifies cluster
      ensures cluster.Valid() && NoDuplicates(cluster.nodes)
      ensures cluster.nodes == RegisteredAll(old(cluster.nodes), addresses)
      ensures forall b | b in old(cluster.nodes) && Occupied(b) :: b in cluster.nodes
    {
      ghost var t := cluster.nodes;
      for n := 0 to |addresses|
        invariant cluster.Valid() && cluster.nodes == RegisteredAll(t, addresses[..n])
      {
        assert addresses[..n + 1][..n] == addresses[..n];
        var known := cluster.NodeInCluster(addresses[n]);
        if !known {
          cluster.AddNode(addresses[n]);
        }
      }
      assert addresses[..|addresses|] == addresses;
      RegisteredAllKeeps(t, addresses);
    }

    /** One round of the loop of PerformHealthChecks; turns says what happens around the call to each listed member.
        That GetNodeClient throws is impossible. */
    method CheckAllMembers(turns: nat -> Turn) returns (r: Result<()>)
      requires cluster.Valid() && NoDuplicates(cluster.nodes)
      modifies this`retries, cluster
      ensures cluster.Valid() && NoDuplicates(cluster.nodes) && r == Ok(())
      ensures Now() == Round(old(Now()), Addresses(ListedFrom(old(cluster.nodes), 0)), me, turns)
    {
      var members := cluster.GetNodesInCluster();
      ghost var before := Now();
      MembersAreDistinct(cluster.nodes, 0);
      assert cluster.nodes[0..] == cluster.nodes && members[0..] == members;
      for i := 0 to |members|
        invariant cluster.Valid() && NoDuplicates(cluster.nodes)
        invariant AllStand(members[i..], cluster.nodes)
        invariant Now() == Round(before, members[..i], me, turns)
      {
        RoundStep(before, members, i, me, turns);
        ghost var served := cluster.nodes;
        ServeRegistrations(turns(i).registrations);
        StandLonger(members[i..], served, cluster.nodes);
        assert members[i..][0] == members[i];
        ghost var t := cluster.nodes;
        r := CheckMember(members[i], turns(i).outcome);
        StillStand(members, i, t, cluster.nodes);
        if r.Err? {
          return;
        }
      }
      assert members[..|members|] == members;
      return Ok(());
    }
  }

  /** The callback at the end of a call to a member. */
  function Finish(s: State, node: HostAndPort, outcome: Outcome): State {
    match outcome
    case Replied => Step(s, Reply(node))
    case TimedOut => Step(s, Timeout(node))
    case NoCallback => s
  }

  /** The table after registrations in a row. */
  function RegisteredAll(t: seq<HostAndPort>, addresses: seq<HostAndPort>): seq<HostAndPort> {
    if addresses == [] then t
    else Registered(RegisteredAll(t, addresses[..|addresses| - 1]), addresses[|addresses| - 1])
  }

  lemma RegisteredKeeps(t: seq<HostAndPort>, a: HostAndPort)
    requires IsTable(t) && NoDuplicates(t)
    ensures IsTable(Registered(t, a)) && NoDuplicates(Registered(t, a))
    ensures forall b | b in t && Occupied(b) :: b in Registered(t, a)
  {
    StepRefines(t, ClusterTable.Register(a));
    forall b | b in t && Occupied(b) ensures b in Registered(t, a) {
      var i :| 0 <= i < |t| && t[i] == b;
      assert Registered(t, a)[i] == b;
    }
  }

  lemma {:induction false} RegisteredAllKeeps(t: seq<HostAndPort>, addresses: seq<HostAndPort>)
    requires IsTable(t) && NoDuplicates(t)
    ensures IsTable(RegisteredAll(t, addresses)) && NoDuplicates(RegisteredAll(t, addresses))
    ensures forall b | b in t && Occupied(b) :: b in RegisteredAll(t, addresses)
    decreases |addresses|
  {
    if addresses == [] {
    } else {
      var front := addresses[..|addresses| - 1];
      RegisteredAllKeeps(t, front);
      RegisteredKeeps(RegisteredAll(t, front), addresses[|addresses| - 1]);
    }
  }

  /** The state after the call to a member; the node itself is not called. */
  function AfterTurn(was: State, node: HostAndPort, me: HostAndPort, turn: Turn): State {
    var now := was.(table := RegisteredAll(was.table, turn.registrations));
    if node == me then now else Finish(now, node, turn.outcome)
  }

  /** The state after the calls to the listed members. */
  function Round(s: State, members: seq<HostAndPort>, me: HostAndPort, turns: nat -> Turn): State {
    if members == [] then s
    else
      var i := |members| - 1;
      AfterTurn(Round(s, members[..i], me, turns), members[i], me, turns(i))
  }

  lemma RoundStep(s: State, members: seq<HostAndPort>, i: nat, me: HostAndPort, turns: nat -> Turn)
    requires i < |members|
    ensures Round(s, members[..i + 1], me, turns) ==
            AfterTurn(Round(s, members[..i], me, turns), members[i], me, turns(i))
  {
    assert members[..i + 1][..i] == members[..i];
  }

  lemma StandLonger(members: seq<HostAndPort>, t: seq<HostAndPort>, u: seq<HostAndPort>)
    requires AllStand(members, t) && forall b | b in t && Occupied(b) :: b in u
    ensures AllStand(members, u)
  {
  }

  lemma StillStand(members: seq<HostAndPort>, i: nat, t: seq<HostAndPort>, u: seq<HostAndPort>)
    requires i < |members| && Distinct(members) && AllStand(members[i..], t)
    requires forall b | b in t && b != members[i] :: b in u
    ensures AllStand(members[i + 1..], u)
  {
    var rest := members[i + 1..];
    forall k | 0 <= k < |rest| ensures rest[k] in u && Occupied(rest[k]) {
      assert rest[k] == members[i..][k + 1] == members[i + 1 + k];
    }
  }

  /** The event of a call, if it has one. */
  function EventsOf(node: HostAndPort, outcome: Outcome): seq<Event> {
    match outcome
    case Replied => [Reply(node)]
    case TimedOut => [Timeout(node)]
    case NoCallback => []
  }

  function RegistrationsOf(addresses: seq<HostAndPort>): seq<Event> {
    if addresses == [] then []
    else RegistrationsOf(addresses[..|addresses| - 1]) + [Registration(addresses[|addresses| - 1])]
  }

  /** The events around the call to a member. */
  function TurnEvents(node: HostAndPort, me: HostAndPort, turn: Turn): seq<Event> {
    RegistrationsOf(turn.registrations) + if node == me then [] else EventsOf(node, turn.outcome)
  }

  /** The events of one round. */
  function RoundEvents(members: seq<HostAndPort>, me: HostAndPort, turns: nat -> Turn): seq<Event> {
    if members == [] then []
    else
      var i := |members| - 1;
      RoundEvents(members[..i], me, turns) + TurnEvents(members[i], me, turns(i))
  }

  lemma RemovedKeepsOthers(t: seq<HostAndPort>, a: HostAndPort)
    ensures forall b | b in t && b != a :: b in Removed(t, a)
  {
    forall b | b in t && b != a ensures b in Removed(t, a) {
      var i :| 0 <= i < |t| && t[i] == b;
      assert Removed(t, a)[i] == b;
    }
  }

  predicate Distinct(members: seq<HostAndPort>) {
    forall i, k | 0 <= i < k < |members| :: members[i] != members[k]
  }

  predicate AllStand(members: seq<HostAndPort>, t: seq<HostAndPort>) {
    forall k | 0 <= k < |members| :: members[k] in t && Occupied(members[k])
  }

  lemma DistinctCons(a: HostAndPort, members: seq<HostAndPort>, t: seq<HostAndPort>)
    requires Distinct(members) && AllStand(members, t) && a !in t
    ensures Distinct([a] + members)
  {
  }

  lemma AllStandCons(a: HostAndPort, members: seq<HostAndPort>, t: seq<HostAndPort>)
    requires AllStand(members, t)
    ensures AllStand(members, [a] + t) && (Occupied(a) ==> AllStand([a] + members, [a] + t))
  {
  }

  /** The members of a table without duplicates are listed once each. */
  lemma {:induction false} MembersAreDistinct(t: seq<HostAndPort>, n: nat)
    requires n <= |t| && NoDuplicates(t)
    ensures AllStand(Addresses(ListedFrom(t, n)), t[n..]) && Distinct(Addresses(ListedFrom(t, n)))
    decreases |t| - n
  {
    if n >= |t| {
    } else {
      MembersAreDistinct(t, n + 1);
      var rest, tail := ListedFrom(t, n + 1), t[n + 1..];
      assert t[n..] == [t[n]] + tail;
      AllStandCons(t[n], Addresses(rest), tail);
      if Occupied(t[n]) {
        assert forall i | 0 <= i < |tail| :: tail[i] == t[n + 1 + i] && t[n] != tail[i];
        DistinctCons(t[n], Addresses(rest), tail);
        assert ([(n, t[n])] + rest)[1..] == rest;
        assert Addresses(ListedFrom(t, n)) == [t[n]] + Addresses(rest);
      } else {
        assert ListedFrom(t, n) == rest;
      }
    }
  }

  lemma RunSnoc(s: State, h: seq<Event>, e: Event, me: HostAndPort)
    ensures Run(s, h + [e]) == Step(Run(s, h), e)
    ensures IsRun(s, h + [e], me) <==> IsRun(s, h, me) && IsPossible(Run(s, h), e, me)
  {
    assert (h + [e])[..|h + [e]| - 1] == h;
  }

  lemma CallIsRun(s: State, h: seq<Event>, node: HostAndPort, outcome: Outcome, me: HostAndPort)
    requires IsRun(s, h, me) && IsTable(Run(s, h).table) && NoDuplicates(Run(s, h).table)
    requires node in Run(s, h).table && Occupied(node) && node != me
    ensures var g, now := h + EventsOf(node, outcome), Finish(Run(s, h), node, outcome);
            IsRun(s, g, me) && Run(s, g) == now && IsTable(now.table) && NoDuplicates(now.table) &&
            forall b | b in Run(s, h).table && b != node :: b in now.table
  {
    match outcome {
      case Replied => RunSnoc(s, h, Reply(node), me);
      case TimedOut =>
        RunSnoc(s, h, Timeout(node), me);
        RemovedMembers(Run(s, h).table, node);
        RemovedKeepsOthers(Run(s, h).table, node);
      case NoCallback => assert h + [] == h;
    }
  }

  lemma {:induction false} RegistrationsAreRun(s: State, h: seq<Event>, addresses: seq<HostAndPort>, me: HostAndPort)
    requires IsRun(s, h, me)
    ensures var g := h + RegistrationsOf(addresses);
            IsRun(s, g, me) &&
            Run(s, g) == Run(s, h).(table := RegisteredAll(Run(s, h).table, addresses))
    decreases |addresses|
  {
    if addresses == [] {
      assert h + [] == h;
    } else {
      var front, last := addresses[..|addresses| - 1], Registration(addresses[|addresses| - 1]);
      RegistrationsAreRun(s, h, front, me);
      RunSnoc(s, h + RegistrationsOf(front), last, me);
      ConcatAssociative(h, RegistrationsOf(front), [last]);
    }
  }

  /** What stays for the calls to come. */
  predicate Keeps(was: State, now: State, node: HostAndPort) {
    IsTable(now.table) && NoDuplicates(now.table) &&
    forall b | b in was.table && Occupied(b) && b != node :: b in now.table
  }

  lemma TurnIsRun(s: State, h: seq<Event>, node: HostAndPort, me: HostAndPort, turn: Turn)
    requires IsRun(s, h, me) && IsTable(Run(s, h).table) && NoDuplicates(Run(s, h).table)
    requires node in Run(s, h).table && Occupied(node)
    ensures var g := h + TurnEvents(node, me, turn);
            IsRun(s, g, me) && Run(s, g) == AfterTurn(Run(s, h), node, me, turn) && Keeps(Run(s, h), Run(s, g), node)
  {
    hide Run, IsRun, Finish, RegisteredAll, RegistrationsOf, NoDuplicates;
    var was, served := Run(s, h), h + RegistrationsOf(turn.registrations);
    RegistrationsAreRun(s, h, turn.registrations, me);
    RegisteredAllKeeps(was.table, turn.registrations);
    if node == me {
      assert served + [] == served;
    } else {
      CallIsRun(s, served, node, turn.outcome, me);
    }
    ConcatAssociative(h, RegistrationsOf(turn.registrations), if node == me then [] else EventsOf(node, turn.outcome));
  }

  /** A round over members, of which no address appears twice, is a run of its events, registrations included. */
  lemma {:induction false} RoundIsRun(s: State, members: seq<HostAndPort>, me: HostAndPort, turns: nat -> Turn)
    requires IsTable(s.table) && NoDuplicates(s.table)
    requires AllStand(members, s.table) && Distinct(members)
    ensures var h := RoundEvents(members, me, turns);
            IsRun(s, h, me) && Run(s, h) == Round(s, members, me, turns)
    ensures var now := Round(s, members, me, turns);
            IsTable(now.table) && NoDuplicates(now.table) &&
            forall b | b in s.table && Occupied(b) && b !in members :: b in now.table
    decreases |members|
  {
    hide NoDuplicates;
    if members == [] {
    } else {
      var i := |members| - 1;
      var front, node := members[..i], members[i];
      RoundIsRun(s, front, me, turns);
      assert members == front + [node];
      TurnIsRun(s, RoundEvents(front, me, turns), node, me, turns(i));
    }
  }

  /** The timeouts of a in a row since its last reply or eviction, as a run from s shows them. */
  function Streak(s: State, h: seq<Event>, a: HostAndPort): nat {
    if h == [] then 0
    else
      var front, e := h[..|h| - 1], h[|h| - 1];
      if e == Reply(a) then 0
      else if e != Timeout(a) then Streak(s, front, a)
      else if a in Run(s, front).table && a !in Run(s, h).table then 0
      else Streak(s, front, a) + 1
  }

  /** The map of potentially failed nodes records exactly the streaks, and only of members. */
  ghost predicate Recorded(s: State, h: seq<Event>) {
    Records(Run(s, h), a => Streak(s, h, a))
  }

  lemma EvictedIsGone(t: seq<HostAndPort>, a: HostAndPort)
    requires IsTable(t) && NoDuplicates(t) && Occupied(a) && a in t
    ensures a !in Removed(t, a)
  {
    RemovedMembers(t, a);
    assert a !in Members(Removed(t, a));
  }

  lemma StreakStep(s: State, h: seq<Event>, a: HostAndPort)
    requires h != []
    ensures var front, e := h[..|h| - 1], h[|h| - 1];
            Streak(s, h, a) ==
            if e == Reply(a) then 0
            else if e != Timeout(a) then Streak(s, front, a)
            else if a in Run(s, front).table && a !in Run(s, h).table then 0
            else Streak(s, front, a) + 1
  {
  }

  /** The streaks, as a map of the potentially failed nodes records them. */
  ghost predicate Records(now: State, streak: HostAndPort -> nat) {
    NoDuplicates(now.table) && IsTable(now.table) &&
    (forall a :: a in now.retries <==> streak(a) > 0) &&
    (forall a | a in now.retries :: now.retries[a] == streak(a) - 1 && 0 <= now.retries[a] <= 3) &&
    (forall a | a in now.retries :: a in now.table && Occupied(a))
  }

  lemma RegistrationRecords(was: State, b: HostAndPort, streak: HostAndPort -> nat, next: HostAndPort -> nat)
    requires Records(was, streak) && forall a :: next(a) == streak(a)
    ensures Records(Step(was, Registration(b)), next)
  {
    var now := Step(was, Registration(b));
    StepRefines(was.table, ClusterTable.Register(b));
    forall a | a in was.table && Occupied(a) ensures a in now.table {
      var i :| 0 <= i < |was.table| && was.table[i] == a;
      assert now.table[i] == a;
    }
  }

  lemma ReplyRecords(was: State, b: HostAndPort, streak: HostAndPort -> nat, next: HostAndPort -> nat)
    requires Records(was, streak) && forall a :: next(a) == if a == b then 0 else streak(a)
    ensures Records(Step(was, Reply(b)), next)
  {
  }

  /** The fifth timeout in a row evicts and ends the streak; another one makes it longer. */
  lemma TimeoutRecords(was: State, b: HostAndPort, streak: HostAndPort -> nat, next: HostAndPort -> nat)
    requires Records(was, streak) && b in was.table && Occupied(b)
    requires forall a :: next(a) == if a != b then streak(a)
                                    else if b !in Step(was, Timeout(b)).table then 0 else streak(b) + 1
    ensures Records(Step(was, Timeout(b)), next)
    ensures b !in Step(was, Timeout(b)).table <==> streak(b) == 4
  {
    RemovedMembers(was.table, b);
    RemovedKeepsOthers(was.table, b);
    EvictedIsGone(was.table, b);
  }

  lemma StepRecords(s: State, h: seq<Event>, me: HostAndPort)
    requires h != [] && Recorded(s, h[..|h| - 1]) && IsRun(s, h, me)
    ensures Recorded(s, h)
  {
    hide Records, Streak;
    var front, e := h[..|h| - 1], h[|h| - 1];
    var was := Run(s, front);
    var streak, next := a => Streak(s, front, a), a => Streak(s, h, a);
    forall a
      ensures next(a) == if e == Reply(a) then 0
                         else if e != Timeout(a) then streak(a)
                         else if a in was.table && a !in Run(s, h).table then 0
                         else streak(a) + 1
    {
      StreakStep(s, h, a);
    }
    assert Records(was, streak);
    match e {
      case Registration(b) =>
        RegistrationRecords(was, b, streak, next);
      case Reply(b) => ReplyRecords(was, b, streak, next);
      case Timeout(b) => TimeoutRecords(was, b, streak, next);
    }
    assert Records(Run(s, h), next);
  }

  /** In every run from a table without duplicates: a marked node is a member, and its count is its timeouts in a
      row minus one and never above 3. */
  lemma {:induction false} RetriesAreStreaks(s: State, h: seq<Event>, me: HostAndPort)
    requires IsTable(s.table) && NoDuplicates(s.table) && s.retries == map[] && IsRun(s, h, me)
    ensures Recorded(s, h)
    decreases |h|
  {
    if h == [] {
    } else {
      RetriesAreStreaks(s, h[..|h| - 1], me);
      StepRecords(s, h, me);
    }
  }

  /** A health check evicts the node if and only if it is the fifth timeout in a row; nothing else evicts. */
  lemma EvictionAtTheFifthTimeout(s: State, h: seq<Event>, e: Event, me: HostAndPort, a: HostAndPort)
    requires IsTable(s.table) && NoDuplicates(s.table) && s.retries == map[] && IsRun(s, h + [e], me)
    requires a in Run(s, h).table && Occupied(a)
    ensures a !in Run(s, h + [e]).table <==> e == Timeout(a) && Streak(s, h, a) == 4
    ensures Streak(s, h, a) <= 4
  {
    assert (h + [e])[..|h + [e]| - 1] == h;
    RetriesAreStreaks(s, h, me);
    var was := Run(s, h);
    assert Streak(s, h, a) > 0 ==> a in was.retries;
    match e {
      case Registration(b) =>
        var i :| 0 <= i < |was.table| && was.table[i] == a;
        assert Registered(was.table, b)[i] == a;
      case Reply(b) =>
      case Timeout(b) =>
        RemovedKeepsOthers(was.table, b);
        EvictedIsGone(was.table, b);
    }
  }

  /** The node itself is never evicted, and keeps its slot. */
  lemma {:induction false} OwnSlotStays(s: State, h: seq<Event>, me: HostAndPort, i: nat)
    requires IsTable(s.table) && IsRun(s, h, me) && Occupied(me) && i < |s.table| && s.table[i] == me
    ensures IsTable(Run(s, h).table) && Run(s, h).table[i] == me
    decreases |h|
  {
    if h == [] {
    } else {
      OwnSlotStays(s, h[..|h| - 1], me, i);
    }
  }
}
