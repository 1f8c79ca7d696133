// The bytes of the messages of a join, spelled out.

module RpcText {
  import opened ByteStrings
  import opened Decimal
  import opened JsonValue
  import opened JsonString
  import opened HostAndPort
  import opened Cluster
  import opened RpcMessages
  import opened JsonDump
  import RpcWire

  /** The bytes of a text in ASCII. */
  function Ascii(s: string): Text
    requires forall i | 0 <= i < |s| :: s[i] <= '~'
  {
    seq(|s|, i requires 0 <= i < |s| => s[i] as int)
  }

  /** The names of the fields, and of the exception that stands for a timeout. */
  lemma FieldNames()
    ensures HOST == Ascii("host") && PORT == Ascii("port") && REGISTER_NODE == Ascii("register_node")
    ensures NODES_KEY == Ascii("nodes") && CALLEE_INFO == Ascii("callee_info") && HEALTH == Ascii("health")
    ensures ERROR == Ascii("error") && TIMEOUT_EXCEPTION == Ascii("TimeoutException")
  {
  }

  lemma {:induction false} PlainEscape(s: Text)
    requires forall i | 0 <= i < |s| :: s[i] > 0x1f && s[i] != 0x22 && s[i] != 0x5c
    ensures JsonString.Escaped(s) == s
  {
    if s == [] {
    } else {
      PlainEscape(s[1..]);
      assert s == [s[0]] + s[1..];
    }
  }

  lemma NamesAreWritten()
    ensures JsonString.Escaped(HOST) == HOST && JsonString.Escaped(PORT) == PORT
    ensures JsonString.Escaped(REGISTER_NODE) == REGISTER_NODE && JsonString.Escaped(NODES_KEY) == NODES_KEY
  {
    hide JsonString.Escaped;
    PlainEscape(HOST);
    PlainEscape(PORT);
    PlainEscape(REGISTER_NODE);
    PlainEscape(NODES_KEY);
  }

  /** "key":value */
  function Pair(key: Text, value: Text): Text {
    [0x22] + key + [0x22, 0x3a] + value
  }

  lemma CompactMember(m: Member)
    requires JsonString.Escaped(m.key) == m.key
    ensures DumpedMember(m, RpcWire.COMPACT, 0) == Pair(m.key, Dumped(m.value, RpcWire.COMPACT, 0))
  {
    hide Dumped, JsonString.Escaped;
    assert Spaces(0) == [];
    assert Spaces(0) + [0x22] == [0x22];
  }

  lemma OneMember(m: Member)
    ensures Dumped(Obj([m]), RpcWire.COMPACT, 0) == [0x7b] + DumpedMember(m, RpcWire.COMPACT, 0) + [0x7d]
  {
    var parts := DumpedMembers([m], RpcWire.COMPACT, 0);
    assert parts == [DumpedMember(m, RpcWire.COMPACT, 0)] + DumpedMembers([], RpcWire.COMPACT, 0);
    assert [] + parts[0] + [] + Spaces(0) == parts[0];
  }

  lemma ThreeMembers(a: Member, b: Member, c: Member)
    ensures var f := RpcWire.COMPACT;
            Dumped(Obj([a, b, c]), f, 0) ==
            [0x7b] + DumpedMember(a, f, 0) + [0x2c] + DumpedMember(b, f, 0) + [0x2c] + DumpedMember(c, f, 0) + [0x7d]
  {
    hide DumpedMember, Listed, Spaces;
    var f := RpcWire.COMPACT;
    var x, y, z := DumpedMember(a, f, 0), DumpedMember(b, f, 0), DumpedMember(c, f, 0);
    assert [a, b, c][1..] == [b, c] && [b, c][1..] == [c] && [c][1..] == [];
    assert DumpedMembers([c], f, 0) == [z] + DumpedMembers([], f, 0) == [z];
    assert DumpedMembers([b, c], f, 0) == [y] + DumpedMembers([c], f, 0) == [y, z];
    assert DumpedMembers([a, b, c], f, 0) == [x] + DumpedMembers([b, c], f, 0) == [x, y, z];
    ThreeParts(x, y, z);
  }

  lemma ThreeParts(x: Text, y: Text, z: Text)
    ensures [0x7b] + ([] + Listed([x, y, z], [0x2c]) + [] + Spaces(0)) + [0x7d]
            == [0x7b] + x + [0x2c] + y + [0x2c] + z + [0x7d]
  {
    assert [x, y, z][1..] == [y, z] && [y, z][1..] == [z];
    var lines := Listed([x, y, z], [0x2c]);
    assert lines == x + ([0x2c] + Listed([y, z], [0x2c])) == x + ([0x2c] + (y + ([0x2c] + z)));
    assert [] + lines + [] + Spaces(0) == lines;
  }

  /** The arguments that a joiner sends: {"host":"...","port":...,"register_node":true} */
  lemma RequestText(a: HostAndPort)
    ensures Dumped(Request(a), RpcWire.COMPACT, 0) ==
            [0x7b] + Pair(Ascii("host"), [0x22] + JsonString.Escaped(a.host) + [0x22])
            + [0x2c] + Pair(Ascii("port"), Numeral(a.port))
            + [0x2c] + Pair(Ascii("register_node"), Ascii("true")) + [0x7d]
  {
    hide JsonString.Escaped, Numeral, Dumped, DumpedMember, Listed, Pair, Ascii;
    var host, port, flag := Member(HOST, Str(a.host)), Member(PORT, Uint(a.port)), Member(REGISTER_NODE, Bool(true));
    NamesAreWritten();
    FieldNames();
    ThreeMembers(host, port, flag);
    CompactMember(host);
    CompactMember(port);
    CompactMember(flag);
    ScalarTexts(a.host, a.port);
  }

  lemma ScalarTexts(host: Text, port: uint32)
    ensures Dumped(Str(host), RpcWire.COMPACT, 0) == [0x22] + JsonString.Escaped(host) + [0x22]
    ensures Dumped(Uint(port), RpcWire.COMPACT, 0) == Numeral(port)
    ensures Dumped(Bool(true), RpcWire.COMPACT, 0) == Ascii("true")
  {
  }

  /** The port of a request: a number modulo 2^32, or a boolean as 0 or 1. */
  predicate IsPort(j: Json, port: uint32) {
    (j.Uint? && j.u % 0x1_0000_0000 == port) || (j.Int? && j.i % 0x1_0000_0000 == port) ||
    (j.Bool? && port == if j.b then 1 else 0)
  }

  /** Which requests register somebody: objects with the flag true, a string as host and something that is a port. */
  lemma RequestIsUnderstood(j: Json, a: HostAndPort)
    ensures Requester(j) == Ok(Some(a)) <==>
            j.Obj? && Find(j.ms, Ascii("register_node")) == Some(Bool(true)) &&
            Find(j.ms, Ascii("host")) == Some(Str(a.host)) &&
            Find(j.ms, Ascii("port")).Some? && IsPort(Find(j.ms, Ascii("port")).value, a.port)
    ensures Requester(j) == Ok(None) <==> j.Obj? && Find(j.ms, Ascii("register_node")) == Some(Bool(false))
  {
    hide Ascii, Find;
    FieldNames();
  }

  /** The address under "callee_info". */
  predicate NamesCallee(r: Json, a: HostAndPort) {
    var info := FieldOrNull(r, Ascii("callee_info"));
    FieldOrNull(info, Ascii("host")) == Str(a.host) && IsPort(FieldOrNull(info, Ascii("port")), a.port)
  }

  /** An address that the callbacks read from a response stands there under these names. */
  lemma CalleeIsNamed(r: Json, a: HostAndPort)
    requires CalleeOf(r) == Ok(a)
    ensures NamesCallee(r, a)
  {
    hide Ascii, Find;
    FieldNames();
  }

  /** A reply: {"nodes":...}, where the part is null without members and otherwise an object of slots. */
  lemma ReplyText(t: seq<HostAndPort>)
    ensures Dumped(Reply(t), RpcWire.COMPACT, 0) ==
            [0x7b] + Pair(Ascii("nodes"), Dumped(NodesPart(t), RpcWire.COMPACT, 0)) + [0x7d]
  {
    hide Dumped, NodesPart, DumpedMember, Pair, Ascii, JsonString.Escaped;
    NamesAreWritten();
    FieldNames();
    OneMember(Member(NODES_KEY, NodesPart(t)));
    CompactMember(Member(NODES_KEY, NodesPart(t)));
  }

  lemma PlainNumeral(n: nat)
    ensures JsonString.Escaped(Numeral(n)) == Numeral(n)
  {
    hide Numeral, JsonString.Escaped;
    assert forall i | 0 <= i < |Numeral(n)| :: IsDigit(Numeral(n)[i]);
    PlainEscape(Numeral(n));
  }

  /** A slot in a reply: "index":"host:port" */
  lemma SlotText(i: nat, a: HostAndPort)
    ensures DumpedMember(SlotEntry(i, a), RpcWire.COMPACT, 0) ==
            Pair(Numeral(i), [0x22] + (JsonString.Escaped(a.host) + Ascii(":") + Numeral(a.port)) + [0x22])
  {
    hide JsonString.Escaped, Numeral, DumpedMember, Pair;
    PlainNumeral(i);
    PlainNumeral(a.port);
    PlainEscape([0x3a]);
    EscapedConcat(a.host + [0x3a], Numeral(a.port));
    EscapedConcat(a.host, [0x3a]);
    CompactMember(SlotEntry(i, a));
    assert Ascii(":") == [0x3a];
  }
}
