// A join as bytes: the request and the reply are dumped by one node and parsed by the other.

module RpcWire {
  import opened ByteStrings
  import opened Decimal
  import opened JsonValue
  import opened Utf8
  import opened HostAndPort
  import opened ClusterTable
  import opened Cluster
  import opened RpcMessages
  import opened ImqNode
  import opened Membership
  import opened JsonParser
  import JsonDump
  import opened TextRoundTrip
  import opened TextRejection

  const COMPACT: JsonDump.Layout := JsonDump.Layout(false, 0)

  /** What arrives of a message that is sent as dump() and read with parse(). */
  function Sent(j: Json): Result<Json> {
    ParseText(JsonDump.Dumped(j, COMPACT, 0))
  }

  /** The tables of joiner and leader after the exchange of a join. */
  function JoinedOverWire(own: seq<HostAndPort>, t: seq<HostAndPort>, joiner: HostAndPort, leader: HostAndPort):
    Result<(seq<HostAndPort>, seq<HostAndPort>)>
  {
    var request :- Sent(Request(joiner));
    var requester :- Requester(request);
    var served := Served(t, Ok(requester));
    var reply :- Sent(Reply(served));
    var response :- WithCallee(reply, leader);
    var joined := WithReply(Registered(own, leader), response);
    if joined.error.Some? then Err(joined.error.value) else Ok((joined.table, served))
  }

  lemma {:induction false} AsciiIsUtf8(s: Text)
    requires forall i | 0 <= i < |s| :: s[i] <= 0x7f
    ensures IsUtf8(s)
    decreases |s|
  {
    if s == [] {
      Utf8Empty();
    } else {
      AsciiIsUtf8(s[1..]);
      Utf8Single([s[0]]);
      Utf8Concat([s[0]], s[1..]);
      assert s == [s[0]] + s[1..];
    }
  }

  lemma NumeralIsUtf8(n: nat)
    ensures IsUtf8(Numeral(n))
  {
    assert AllDigits(Numeral(n));
    AsciiIsUtf8(Numeral(n));
  }

  lemma KeysAreUtf8()
    ensures IsUtf8(HOST) && IsUtf8(PORT) && IsUtf8(REGISTER_NODE) && IsUtf8(NODES_KEY)
  {
    AsciiIsUtf8(HOST);
    AsciiIsUtf8(PORT);
    AsciiIsUtf8(REGISTER_NODE);
    AsciiIsUtf8(NODES_KEY);
  }

  /** A request arrives as it was sent if and only if the host of the joiner is well-formed UTF-8. */
  lemma RequestArrives(a: HostAndPort)
    ensures IsUtf8(a.host) <==> Sent(Request(a)).Ok?
    ensures IsUtf8(a.host) ==> Sent(Request(a)) == Ok(Request(a))
  {
    hide IsUtf8, ParseText, JsonDump.Dumped;
    var request := Request(a);
    RequestIsRead(a);
    KeysAreUtf8();
    DumpIsParsedIffUtf8(request, COMPACT, 0);
    assert HasUtf8(request) <==> IsUtf8(a.host) by {
      assert request.ms[0].value == Str(a.host);
    }
    if HasUtf8(request) {
      ParseUndoesDump(request, COMPACT, 0);
      assert UnsignMembers(request.ms) == request.ms;
    }
  }

  /** All hosts in the table are well-formed UTF-8. */
  ghost predicate HostsAreUtf8(t: seq<HostAndPort>) {
    forall i | 0 <= i < |t| && Occupied(t[i]) :: IsUtf8(t[i].host)
  }

  lemma AddressIsUtf8(a: HostAndPort)
    ensures IsUtf8(ToString(a)) <==> IsUtf8(a.host)
  {
    if IsUtf8(a.host) {
      NumeralIsUtf8(a.port);
      AsciiIsUtf8([COLON]);
      Utf8Concat(a.host, [COLON]);
      Utf8Concat(a.host + [COLON], Numeral(a.port));
    }
    if IsUtf8(ToString(a)) {
      var cs: seq<Text> :| AllUtf8Chars(cs) && Joined(cs) == ToString(a);
      ConcatAssociative(a.host, [COLON], Numeral(a.port));
      Utf8BeforeAscii(a.host, [COLON] + Numeral(a.port), cs);
    }
  }

  lemma SlotsAreUtf8(ms: seq<Member>, t: seq<HostAndPort>)
    requires AreSlotEntries(ms, t) && HostsAreUtf8(t)
    ensures HasUtf8(Obj(ms)) && UnsignMembers(ms) == ms
    ensures Sorted(ms) ==> Ordered(Obj(ms))
  {
    hide IsUtf8, ToString;
    forall n | 0 <= n < |ms| ensures IsUtf8(ms[n].key) && ms[n].value.Str? && IsUtf8(ms[n].value.s) {
      assert IsSlotEntry(ms[n], t);
      var i :| 0 <= i < |t| && Occupied(t[i]) && ms[n] == SlotEntry(i, t[i]);
      NumeralIsUtf8(i);
      AddressIsUtf8(t[i]);
    }
  }

  lemma GoodReplyArrives(t: seq<HostAndPort>)
    requires HostsAreUtf8(t)
    ensures Sent(Reply(t)) == Ok(Reply(t))
  {
    hide IsUtf8, ParseText, JsonDump.Dumped, SlotEntries, ListedFrom;
    var listing := ListedFrom(t, 0);
    var part := NodesPart(t);
    ListingListsSlots(t);
    SlotEntriesAreEntries(listing, t);
    SlotsAreUtf8(SlotEntries(listing), t);
    KeysAreUtf8();
    assert HasUtf8(part) && Ordered(part) && Unsign(part) == part;
    assert UnsignMembers(Reply(t).ms) == Reply(t).ms;
    ParseUndoesDump(Reply(t), COMPACT, 0);
  }

  /** A reply that can be read back has only hosts in UTF-8. */
  lemma ReplyTellsHosts(t: seq<HostAndPort>)
    requires HasUtf8(Reply(t))
    ensures HostsAreUtf8(t)
  {
    hide IsUtf8, SlotEntries, ListedFrom, ToString;
    var listing := ListedFrom(t, 0);
    assert HasUtf8(Reply(t).ms[0].value);
    forall i | 0 <= i < |t| && Occupied(t[i]) ensures IsUtf8(t[i].host) {
      SlotIsListed(t, i);
      SlotIsFound(listing, i);
      ListingListsSlots(t);
      SlotEntriesAreEntries(listing, t);
      var n := FindSome(SlotEntries(listing), Numeral(i));
      assert IsSlotEntry(SlotEntries(listing)[n], t);
      var k :| 0 <= k < |t| && Occupied(t[k]) && SlotEntries(listing)[n] == SlotEntry(k, t[k]);
      NumeralInjective(k, i);
      AddressIsUtf8(t[i]);
    }
  }

  lemma ReplyIsOrdered(t: seq<HostAndPort>)
    ensures Ordered(Reply(t))
  {
    hide SlotEntries, ListedFrom, ToString;
    var listing := ListedFrom(t, 0);
    var ms := SlotEntries(listing);
    ListingListsSlots(t);
    SlotEntriesAreEntries(listing, t);
    assert forall n | 0 <= n < |ms| :: IsSlotEntry(ms[n], t);
    assert Ordered(NodesPart(t));
  }

  /** A reply arrives as it was sent if and only if all hosts in the table are UTF-8. */
  lemma ReplyArrives(t: seq<HostAndPort>)
    ensures HostsAreUtf8(t) <==> Sent(Reply(t)).Ok?
    ensures HostsAreUtf8(t) ==> Sent(Reply(t)) == Ok(Reply(t))
  {
    hide HostsAreUtf8, HasUtf8, Reply, ParseText;
    if HostsAreUtf8(t) {
      GoodReplyArrives(t);
    } else {
      ReplyIsOrdered(t);
      DumpIsParsedIffUtf8(Reply(t), COMPACT, 0);
      if HasUtf8(Reply(t)) {
        ReplyTellsHosts(t);
      }
    }
  }

  /** The exchange over the wire succeeds if and only if the hosts of the joiner and of the leader's table are
      well-formed UTF-8. Then it has exactly the effect of the step of a run: both tables are the leader's old one with
      the joiner registered. */
  lemma WireJoinIsStep(w: World, joiner: HostAndPort, leader: HostAndPort)
    requires GoodWorld(w) && Enabled(w, Join(joiner, leader))
    ensures var v := Step(w, Join(joiner, leader));
            var t := Registered(w.tables[leader], joiner);
            var r := JoinedOverWire(w.tables[joiner], w.tables[leader], joiner, leader);
            v.tables[joiner] == v.tables[leader] == t &&
            (r.Ok? <==> HostsAreUtf8(w.tables[leader]) && IsUtf8(joiner.host)) && (r.Ok? ==> r == Ok((t, t)))
  {
    hide IsUtf8, Sent, WithReply, Reply, Requester, Request, WithCallee, HostsAreUtf8;
    var own, t := w.tables[joiner], Registered(w.tables[leader], joiner);
    JoinStep(w, joiner, leader);
    RequestArrives(joiner);
    if IsUtf8(joiner.host) {
      RequestIsRead(joiner);
      RegisteredIsUtf8(w.tables[leader], joiner);
      ReplyArrives(t);
      NodesOfResponse(t, leader);
      JoinedTable(w, joiner, leader);
    }
  }

  lemma RegisteredIsUtf8(t: seq<HostAndPort>, a: HostAndPort)
    requires IsUtf8(a.host)
    ensures HostsAreUtf8(Registered(t, a)) <==> HostsAreUtf8(t)
  {
    hide IsUtf8;
    var r := Registered(t, a);
    assert forall i | 0 <= i < |t| && Occupied(t[i]) :: r[i] == t[i];
  }

  lemma JoinedTable(w: World, joiner: HostAndPort, leader: HostAndPort)
    requires GoodWorld(w) && Enabled(w, Join(joiner, leader))
    ensures var t := Registered(w.tables[leader], joiner);
            WithReply(Registered(w.tables[joiner], leader), Reply(t)) == Merge(t, None)
  {
    hide WithReply, Reply;
    var t := Registered(w.tables[leader], joiner);
    assert GoodNode(w, joiner) && GoodNode(w, leader);
    RegisterKeepsNode(w, leader, joiner);
    JoinCopiesTable(joiner, leader, t);
  }

  /** A joiner whose host is not UTF-8 cannot even send its request. */
  lemma BadHostNeverJoins(own: seq<HostAndPort>, t: seq<HostAndPort>, joiner: HostAndPort, leader: HostAndPort)
    requires !IsUtf8(joiner.host)
    ensures JoinedOverWire(own, t, joiner, leader).Err?
  {
    hide Sent, IsUtf8;
    RequestArrives(joiner);
  }
}
