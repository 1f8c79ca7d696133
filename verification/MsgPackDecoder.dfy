// from_msgpack_internal with its shared index, against the specification of the decoder.

module MsgPackDecoder {
  import opened ByteStrings
  import opened JsonValue
  import opened BinaryFormat
  import opened MsgPack

  /** What a reader returns: the value, and the index to which it has advanced. */
  function Outcome<T>(r: Result<T>, next: nat): Result<(T, nat)> {
    match r
    case Ok(j) => Ok((j, next))
    case Err(e) => Err(e)
  }

  /** from_msgpack_internal; idx0 is the index on entry, idx the index on return. */
  method FromMsgPackInternal(v: Text, idx0: nat) returns (r: Result<Json>, idx: nat)
    requires |v| <= MAX_SIZE
    ensures Decoded(v, idx0) == Outcome(r, idx)
    decreases |v| - idx0, 0
  {
    idx := idx0;
    // in these sizes, CheckLength is the plain comparison
    CheckLengthIsExact(|v|, 1, idx);
    if !CheckLength(|v|, 1, idx) {
      return Err(OutOfRange), idx;
    }
    idx := idx + 1;
    match FormatOf(v[idx0]) {
      case Whole(j) => r := Ok(j);
      case UnsignedOf(k) =>
        var number := DecodedNumber(v, idx0, FormatOf(v[idx0]));
        idx := idx + k;
        r := if number.Ok? then Ok(number.value.0) else Err(number.error);
      case SignedOf(k) =>
        var number := DecodedNumber(v, idx0, FormatOf(v[idx0]));
        idx := idx + k;
        r := if number.Ok? then Ok(number.value.0) else Err(number.error);
      case Fixed(kind, n) => r, idx := ReadBody(v, kind, n, idx);
      case Sized(kind, k) =>
        var bs := GetFromVector(v, idx0, k);
        if bs.Err? {
          return Err(bs.error), idx;
        }
        r, idx := ReadBody(v, kind, Unsigned(bs.value), idx + k);
      case FloatingPoint => r := Err(Unmodelled);
      case Unknown => r := Err(InvalidArgument);
    }
  }

  /** The content of a string, array or map. */
  method ReadBody(v: Text, kind: Kind, len: nat, start: nat) returns (r: Result<Json>, idx: nat)
    requires start <= |v| <= MAX_SIZE
    ensures DecodedBody(v, kind, len, start) == Outcome(r, idx)
    decreases |v| - start, 5
  {
    match kind {
      case TextKind =>
        // the index moves before the bytes are checked
        idx := start + len;
        CheckLengthIsExact(|v|, len, start);
        if !CheckLength(|v|, len, start) {
          return Err(OutOfRange), idx;
        }
        r := Ok(Str(v[start..start + len]));
      case ArrayKind => r, idx := ReadItems(v, start, len);
      case MapKind => r, idx := ReadPairs(v, start, len);
    }
  }

  method ReadItems(v: Text, start: nat, len: nat) returns (r: Result<Json>, idx: nat)
    requires start <= |v| <= MAX_SIZE
    ensures DecodedItems(v, start, len, []) == Outcome(r, idx)
    decreases |v| - start, 1
  {
    var result: seq<Json> := [];
    idx := start;
    for i := 0 to len
      invariant start <= idx <= |v|
      invariant DecodedItems(v, start, len, []) == DecodedItems(v, idx, len - i, result)
    {
      var e, next := FromMsgPackInternal(v, idx);
      idx := next;
      if e.Err? {
        return e, idx;
      }
      result := result + [e.value];
    }
    r := Ok(Arr(result));
  }

  method ReadMember(v: Text, start: nat) returns (r: Result<Member>, idx: nat)
    requires start <= |v| <= MAX_SIZE
    ensures DecodedMember(v, start) == Outcome(r, idx)
    decreases |v| - start, 1
  {
    var key, behind := FromMsgPackInternal(v, start);
    if key.Err? {
      return Err(key.error), behind;
    }
    if !key.value.Str? {
      return Err(DomainError), behind;
    }
    var value, next := FromMsgPackInternal(v, behind);
    if value.Err? {
      return Err(value.error), next;
    }
    return Ok(Member(key.value.s, value.value)), next;
  }

  method ReadPairs(v: Text, start: nat, len: nat) returns (r: Result<Json>, idx: nat)
    requires start <= |v| <= MAX_SIZE
    ensures DecodedPairs(v, start, len, []) == Outcome(r, idx)
    decreases |v| - start, 2
  {
    var result: seq<Member> := [];
    idx := start;
    for i := 0 to len
      invariant start <= idx <= |v|
      invariant DecodedPairs(v, start, len, []) == DecodedPairs(v, idx, len - i, result)
    {
      var m, next := ReadMember(v, idx);
      idx := next;
      if m.Err? {
        return Err(m.error), idx;
      }
      result := Put(result, m.value.key, m.value.value);
    }
    r := Ok(Obj(result));
  }
}
