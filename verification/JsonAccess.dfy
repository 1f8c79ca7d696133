// One step along a JSON Pointer: get_checked, get_unchecked and get_and_create. A reference into a value
// is a slot of its parent; writing through it rebuilds the parent.

module JsonAccess {
  import opened ByteStrings
  import opened Decimal
  import opened JsonValue
  import opened JsonPointer

  /** Where a reference token leads inside an array or an object. */
  datatype Slot = Index(i: nat) | Key(key: Text)

  predicate HasSlot(j: Json, slot: Slot) {
    match slot
    case Index(i) => j.Arr? && i < |j.es|
    case Key(key) => j.Obj? && Find(j.ms, key).Some?
  }

  function Child(j: Json, slot: Slot): Json
    requires HasSlot(j, slot)
  {
    match slot
    case Index(i) => j.es[i]
    case Key(key) => Find(j.ms, key).value
  }

  function WithChild(j: Json, slot: Slot, c: Json): Json
    requires HasSlot(j, slot)
  {
    match slot
    case Index(i) => Arr(j.es[i := c])
    case Key(key) => Obj(Put(j.ms, key, c))
  }

  /** One step of get_checked. */
  function Locate(j: Json, token: Text): (r: Result<Slot>)
    ensures r.Ok? ==> HasSlot(j, r.value)
  {
    match j
    case Obj(ms) => if Find(ms, token).Some? then Ok(Key(token)) else Err(OutOfRange)
    case Arr(es) =>
      if token == [MINUS] then Err(OutOfRange)
      else if |token| > 1 && token[0] == DIGIT_0 then Err(DomainError)
      else
        var i :- Stoi(token);
        if 0 <= i < |es| then Ok(Index(i)) else Err(OutOfRange)
    case _ => Err(OutOfRange)
  }

  /** array.operator[](i): indices past the end are filled with null. */
  function Filled(es: seq<Json>, i: nat): (r: seq<Json>)
    ensures i < |r| && (i < |es| ==> r == es)
  {
    if i < |es| then es else es + seq(i + 1 - |es|, _ => Null)
  }

  /** One step of get_unchecked: what is missing is created. */
  function Created(j: Json, token: Text): (r: Result<(Json, Slot)>)
    ensures r.Ok? ==> HasSlot(r.value.0, r.value.1)
  {
    match j
    case Null => if AllDigits(token) || token == [MINUS] then CreatedIn([], token) else CreatedKey([], token)
    case Obj(ms) => CreatedKey(ms, token)
    case Arr(es) => CreatedIn(es, token)
    case _ => Err(OutOfRange)
  }

  function CreatedKey(ms: seq<Member>, token: Text): (r: Result<(Json, Slot)>)
    ensures r.Ok? ==> HasSlot(r.value.0, r.value.1)
  {
    FindPut(ms, token, Null, token);
    Ok((if Find(ms, token).Some? then Obj(ms) else Obj(Put(ms, token, Null)), Key(token)))
  }

  function CreatedIn(es: seq<Json>, token: Text): (r: Result<(Json, Slot)>)
    ensures r.Ok? ==> HasSlot(r.value.0, r.value.1)
  {
    if |token| > 1 && token[0] == DIGIT_0 then Err(DomainError)
    else if token == [MINUS] then Ok((Arr(Filled(es, |es|)), Index(|es|)))
    else
      var i :- Stoi(token);
      if i < 0 then Err(LengthError) else Ok((Arr(Filled(es, i)), Index(i)))
  }

  /** One step of get_and_create: a null turns into an array if the token is "0", and into an object otherwise. */
  function Grown(j: Json, token: Text): (r: Result<(Json, Slot)>)
    ensures r.Ok? ==> HasSlot(r.value.0, r.value.1)
  {
    match j
    case Null => if token == [DIGIT_0] then Ok((Arr([Null]), Index(0))) else CreatedKey([], token)
    case Obj(ms) => CreatedKey(ms, token)
    case Arr(es) =>
      var i :- Stoi(token);
      if i < 0 then Err(LengthError) else Ok((Arr(Filled(es, i)), Index(i)))
    case _ => Err(DomainError)
  }

  lemma PutTwice(ms: seq<Member>, key: Text, v: Json, w: Json)
    ensures Put(Put(ms, key, v), key, w) == Put(ms, key, w)
  {
    BeforeTotal(key, key);
    if ms != [] && !Before(key, ms[0].key) && ms[0].key != key {
      PutTwice(ms[1..], key, v, w);
    }
  }

  lemma WithChildLaws(j: Json, slot: Slot, c: Json, d: Json)
    requires HasSlot(j, slot)
    ensures HasSlot(WithChild(j, slot, c), slot)
    ensures Child(WithChild(j, slot, c), slot) == c
    ensures WithChild(WithChild(j, slot, c), slot, d) == WithChild(j, slot, d)
  {
    match slot
    case Index(i) =>
    case Key(key) =>
      FindPut(j.ms, key, c, key);
      PutTwice(j.ms, key, c, d);
  }

  /** Replacing a child does not move it. */
  lemma LocateAgain(j: Json, token: Text, c: Json)
    requires Locate(j, token).Ok?
    ensures Locate(WithChild(j, Locate(j, token).value, c), token) == Locate(j, token)
  {
    if j.Obj? {
      FindPut(j.ms, token, c, token);
    }
  }

  /** Where get_checked succeeds, get_unchecked creates nothing. */
  lemma CreatedIsLocated(j: Json, token: Text)
    requires Locate(j, token).Ok?
    ensures Created(j, token) == Ok((j, Locate(j, token).value))
  {
  }
}
