// The JSON of the remote procedure calls about membership: the request of a joiner, what AddResponseMetadata adds to
// a response, and how both are read again.

module RpcMessages {
  import opened ByteStrings
  import opened JsonValue
  import opened HostAndPort

  // "host", "port", "register_node", "callee_info", "error", "TimeoutException", "health"
  const HOST: Text := [0x68, 0x6f, 0x73, 0x74]
  const PORT: Text := [0x70, 0x6f, 0x72, 0x74]
  const REGISTER_NODE: Text := [0x72, 0x65, 0x67, 0x69, 0x73, 0x74, 0x65, 0x72, 0x5f, 0x6e, 0x6f, 0x64, 0x65]
  const CALLEE_INFO: Text := [0x63, 0x61, 0x6c, 0x6c, 0x65, 0x65, 0x5f, 0x69, 0x6e, 0x66, 0x6f]
  const ERROR: Text := [0x65, 0x72, 0x72, 0x6f, 0x72]
  const TIMEOUT_EXCEPTION: Text :=
    [0x54, 0x69, 0x6d, 0x65, 0x6f, 0x75, 0x74, 0x45, 0x78, 0x63, 0x65, 0x70, 0x74, 0x69, 0x6f, 0x6e]
  const HEALTH: Text := [0x68, 0x65, 0x61, 0x6c, 0x74, 0x68]

  //////// Reading values ////////

  /** j[key] of a constant value: a missing key fails an assertion. */
  function Field(j: Json, key: Text): Result<Json> {
    if !j.Obj? then Err(DomainError)
    else match Find(j.ms, key)
      case Some(v) => Ok(v)
      case None => Err(AssertFailure)
  }

  function BoolOf(j: Json): Result<bool> {
    if j.Bool? then Ok(j.b) else Err(DomainError)
  }

  function TextOf(j: Json): Result<Text> {
    if j.Str? then Ok(j.s) else Err(DomainError)
  }

  /** get<unsigned>(): numbers modulo 2^32, and booleans as 0 and 1. */
  function UnsignedOf(j: Json): Result<uint32> {
    match j
    case Uint(u) => Ok(u % 0x1_0000_0000)
    case Int(i) => Ok(i % 0x1_0000_0000)
    case Bool(b) => Ok(if b then 1 else 0)
    case _ => Err(DomainError)
  }

  /** The address in the fields "host" and "port". */
  function AddressOf(j: Json): Result<HostAndPort> {
    var hostField :- Field(j, HOST);
    var host :- TextOf(hostField);
    var portField :- Field(j, PORT);
    var port :- UnsignedOf(portField);
    Ok(HostAndPort(host, port))
  }

  //////// Requests ////////

  /** The arguments that Bootstrap sends for a node that wants to be registered. */
  function Request(a: HostAndPort): Json {
    Obj([Member(HOST, Str(a.host)), Member(PORT, Uint(a.port)), Member(REGISTER_NODE, Bool(true))])
  }

  /** Whom a request asks to register, if anybody. */
  function Requester(j: Json): Result<Option<HostAndPort>> {
    var flag :- Field(j, REGISTER_NODE);
    var registerNode :- BoolOf(flag);
    if !registerNode then Ok(None)
    else
      var a :- AddressOf(j);
      Ok(Some(a))
  }

  lemma HostBeforePort()
    ensures Before(HOST, PORT) && Before(PORT, REGISTER_NODE) && Before(HOST, REGISTER_NODE)
  {
  }

  lemma RequestIsRead(a: HostAndPort)
    ensures Ordered(Request(a)) && Requester(Request(a)) == Ok(Some(a))
  {
    HostBeforePort();
    var ms := Request(a).ms;
    FindMember(ms, 0);
    FindMember(ms, 1);
    FindMember(ms, 2);
  }

  //////// Responses ////////

  /** j[key], where a null value becomes an object and a missing value null. */
  function FieldOrNull(j: Json, key: Text): Json {
    if j.Obj? && Find(j.ms, key).Some? then Find(j.ms, key).value else Null
  }

  /** j[key] = v */
  function WithField(j: Json, key: Text, v: Json): Result<Json> {
    match j
    case Null => Ok(Obj([Member(key, v)]))
    case Obj(ms) => Ok(Obj(Put(ms, key, v)))
    case _ => Err(DomainError)
  }

  /** j["callee_info"][key] = v */
  function WithCalleeField(j: Json, key: Text, v: Json): Result<Json> {
    var info :- WithField(FieldOrNull(j, CALLEE_INFO), key, v);
    WithField(j, CALLEE_INFO, info)
  }

  /** AddResponseMetadata */
  function WithCallee(j: Json, a: HostAndPort): Result<Json> {
    var withHost :- WithCalleeField(j, HOST, Str(a.host));
    WithCalleeField(withHost, PORT, Uint(a.port))
  }

  /** The address in the "callee_info" of a response. */
  function CalleeOf(response: Json): Result<HostAndPort> {
    var info :- Field(response, CALLEE_INFO);
    AddressOf(info)
  }

  lemma FieldIsSet(j: Json, key: Text, v: Json, other: Text)
    requires WithField(j, key, v).Ok?
    ensures Field(WithField(j, key, v).value, key) == Ok(v)
    ensures other != key ==> FieldOrNull(WithField(j, key, v).value, other) == FieldOrNull(j, other)
  {
    if j.Obj? {
      FindPut(j.ms, key, v, key);
      FindPut(j.ms, key, v, other);
    } else {
      var one := [Member(key, v)];
      assert one[1..] == [] && Find(one[1..], other) == None;
    }
  }

  lemma FieldFound(j: Json, key: Text)
    ensures j.Obj? && !FieldOrNull(j, key).Null? ==> Field(j, key) == Ok(FieldOrNull(j, key))
    ensures Field(j, key).Ok? ==> Field(j, key) == Ok(FieldOrNull(j, key))
  {
  }

  lemma CalleeFieldIsSet(j: Json, key: Text, v: Json, other: Text)
    requires WithCalleeField(j, key, v).Ok?
    ensures var r := WithCalleeField(j, key, v).value;
            Field(FieldOrNull(r, CALLEE_INFO), key) == Ok(v) &&
            (other != key ==>
               FieldOrNull(FieldOrNull(r, CALLEE_INFO), other) == FieldOrNull(FieldOrNull(j, CALLEE_INFO), other)) &&
            (other != CALLEE_INFO ==> FieldOrNull(r, other) == FieldOrNull(j, other)) &&
            r.Obj? && FieldOrNull(r, CALLEE_INFO).Obj?
  {
    var inner := FieldOrNull(j, CALLEE_INFO);
    var info := WithField(inner, key, v).value;
    FieldIsSet(inner, key, v, other);
    FieldIsSet(j, CALLEE_INFO, info, other);
  }

  /** The callbacks read the address that AddResponseMetadata has written; all other fields stay. */
  lemma CalleeIsRead(j: Json, a: HostAndPort, other: Text)
    requires WithCallee(j, a).Ok?
    ensures CalleeOf(WithCallee(j, a).value) == Ok(a)
    ensures other != CALLEE_INFO ==> FieldOrNull(WithCallee(j, a).value, other) == FieldOrNull(j, other)
  {
    hide WithCalleeField, WithField, FieldOrNull;
    var withHost := WithCalleeField(j, HOST, Str(a.host)).value;
    assert HOST != PORT;
    CalleeFieldIsSet(j, HOST, Str(a.host), other);
    CalleeFieldIsSet(withHost, PORT, Uint(a.port), HOST);
    CalleeFieldIsSet(withHost, PORT, Uint(a.port), other);
    FieldFound(WithCallee(j, a).value, CALLEE_INFO);
    var info := FieldOrNull(WithCallee(j, a).value, CALLEE_INFO);
    FieldFound(FieldOrNull(withHost, CALLEE_INFO), HOST);
    FieldFound(info, HOST);
    assert FieldOrNull(info, HOST) == Str(a.host);
  }

  /** A response can carry the metadata if and only if it is null or an object whose "callee_info" is missing, null
      or an object. */
  lemma CalleeFits(j: Json, a: HostAndPort)
    ensures WithCallee(j, a).Ok? <==>
            (j.Null? || j.Obj?) && (FieldOrNull(j, CALLEE_INFO).Null? || FieldOrNull(j, CALLEE_INFO).Obj?)
  {
    var r := WithCalleeField(j, HOST, Str(a.host));
    if r.Ok? {
      CalleeFieldIsSet(j, HOST, Str(a.host), HOST);
    }
  }

  lemma KeysDiffer()
    ensures HEALTH != CALLEE_INFO && ERROR != CALLEE_INFO
  {
  }

  /** What a health check calls back with after a reply of CheckHealthRPC. */
  function HealthyResponse(a: HostAndPort): (r: Json)
    ensures CalleeOf(r) == Ok(a) && FieldOrNull(r, HEALTH) == Uint(1)
  {
    KeysDiffer();
    Response(HEALTH, Uint(1), a)
  }

  /** What it calls back with after a timeout: TimeoutException().AsJson() with the metadata. */
  function TimeoutResponse(a: HostAndPort): (r: Json)
    ensures CalleeOf(r) == Ok(a) && FieldOrNull(r, ERROR) == Str(TIMEOUT_EXCEPTION)
  {
    KeysDiffer();
    Response(ERROR, Str(TIMEOUT_EXCEPTION), a)
  }

  /** An object with one field, as all replies here are, with the metadata of a callee. */
  function Response(key: Text, v: Json, a: HostAndPort): (r: Json)
    requires key != CALLEE_INFO
    ensures CalleeOf(r) == Ok(a) && r.Obj? && FieldOrNull(r, key) == v
    ensures WithCallee(Obj([Member(key, v)]), a) == Ok(r)
  {
    OneFieldTakesCallee(key, v, a);
    WithCallee(Obj([Member(key, v)]), a).value
  }

  lemma OneFieldTakesCallee(key: Text, v: Json, a: HostAndPort)
    requires key != CALLEE_INFO
    ensures var r := WithCallee(Obj([Member(key, v)]), a);
            r.Ok? && CalleeOf(r.value) == Ok(a) && r.value.Obj? && FieldOrNull(r.value, key) == v
  {
    var one := Obj([Member(key, v)]);
    assert one.ms[1..] == [] && Find(one.ms[1..], CALLEE_INFO) == None && FieldOrNull(one, CALLEE_INFO) == Null;
    CalleeFits(one, a);
    CalleeIsRead(one, a, key);
    assert FieldOrNull(one, key) == v;
    CalleeFieldIsSet(WithCalleeField(one, HOST, Str(a.host)).value, PORT, Uint(a.port), key);
  }
}
