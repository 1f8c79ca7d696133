// from_cbor_internal with its shared index, against the specification of the decoder.

module CborDecoder {
  import opened ByteStrings
  import opened JsonValue
  import opened BinaryFormat
  import opened Cbor

  /** What a reader returns: the value, and the index to which it has advanced. */
  function Outcome(r: Result<Json>, next: nat): Result<(Json, nat)> {
    match r
    case Ok(j) => Ok((j, next))
    case Err(e) => Err(e)
  }

  /** from_cbor_internal; idx0 is the index on entry, idx the index on return. */
  method FromCborInternal(v: Text, idx0: nat) returns (r: Result<Json>, idx: nat)
    requires |v| <= MAX_SIZE
    ensures Decoded(v, idx0) == Outcome(r, idx)
    decreases |v| - idx0, 0
  {
    idx := idx0 + 1;
    if idx0 >= |v| {
      return Err(OutOfRange), idx;
    }
    var b := v[idx0];
    if IsCounted(b) {
      var major := b - b % 0x20;
      var count := Count(v, idx0);
      if count.Err? {
        return Err(count.error), idx;
      }
      var n, start := count.value.0, count.value.1;
      idx := start;
      if major == UNSIGNED {
        r := Ok(Uint(n));
      } else if major == NEGATIVE {
        r := Ok(Int(Negated(n)));
      } else if major == TEXT {
        // the index moves before the bytes are checked
        idx := start + n;
        CheckLengthIsExact(|v|, n, start);
        if !CheckLength(|v|, n, start) {
          return Err(OutOfRange), idx;
        }
        r := Ok(Str(v[start..start + n]));
      } else if major == ARRAY {
        r, idx := ReadItems(v, start, n);
      } else {
        r, idx := ReadPairs(v, start, n);
      }
    } else if b == TEXT + 0x1f {
      r, idx := ReadChunks(v, idx);
    } else if b == ARRAY + 0x1f {
      r, idx := ReadItemsToBreak(v, idx);
    } else if b == MAP + 0x1f {
      r, idx := ReadPairsToBreak(v, idx);
    } else if b == 0xf4 {
      r := Ok(Bool(false));
    } else if b == 0xf5 {
      r := Ok(Bool(true));
    } else if b == 0xf6 {
      r := Ok(Null);
    } else if b in {0xf9, 0xfa, 0xfb} {
      r := Err(Unmodelled);
    } else {
      r := Err(InvalidArgument);
    }
  }

  /** The loop over the elements of an array of definite length. */
  method ReadItems(v: Text, start: nat, len: nat) returns (r: Result<Json>, idx: nat)
    requires start <= |v| <= MAX_SIZE
    ensures DecodedItems(v, start, len, []) == Outcome(r, idx)
    decreases |v| - start, 1
  {
    var result: seq<Json> := [];
    idx := start;
    for i := 0 to len
      invariant start <= idx <= |v|
      invariant DecodedItems(v, start, len, []) == DecodedItems(v, idx, len - i, result)
    {
      var e, next := FromCborInternal(v, idx);
      idx := next;
      if e.Err? {
        return e, idx;
      }
      result := result + [e.value];
    }
    r := Ok(Arr(result));
  }

  /** A key, converted to std::string, and its value. */
  method ReadMember(v: Text, start: nat) returns (r: Result<Member>, idx: nat)
    requires start <= |v| <= MAX_SIZE
    ensures DecodedMember(v, start) == match r { case Ok(m) => Ok((m, idx)) case Err(e) => Err(e) }
    decreases |v| - start, 1
  {
    var key, behind := FromCborInternal(v, start);
    if key.Err? {
      return Err(key.error), behind;
    }
    if !key.value.Str? {
      return Err(DomainError), behind;
    }
    var value, next := FromCborInternal(v, behind);
    if value.Err? {
      return Err(value.error), next;
    }
    return Ok(Member(key.value.s, value.value)), next;
  }

  /** The loop over the entries of a map of definite length. */
  method ReadPairs(v: Text, start: nat, len: nat) returns (r: Result<Json>, idx: nat)
    requires start <= |v| <= MAX_SIZE
    ensures DecodedPairs(v, start, len, []) == Outcome(r, idx)
    decreases |v| - start, 2
  {
    var result: seq<Member> := [];
    idx := start;
    for i := 0 to len
      invariant start <= idx <= |v|
      invariant DecodedPairs(v, start, len, []) == DecodedPairs(v, idx, len - i, result)
    {
      var m, next := ReadMember(v, idx);
      idx := next;
      if m.Err? {
        return Err(m.error), idx;
      }
      result := Put(result, m.value.key, m.value.value);
    }
    r := Ok(Obj(result));
  }

  /** The loop over the elements of an array of indefinite length. */
  method ReadItemsToBreak(v: Text, start: nat) returns (r: Result<Json>, idx: nat)
    requires start <= |v| <= MAX_SIZE
    ensures DecodedItemsToBreak(v, start, []) == Outcome(r, idx)
    decreases |v| - start, 1
  {
    var result: seq<Json> := [];
    idx := start;
    while idx < |v| && v[idx] != BREAK
      invariant start <= idx <= |v|
      invariant DecodedItemsToBreak(v, start, []) == DecodedItemsToBreak(v, idx, result)
    {
      var e, next := FromCborInternal(v, idx);
      if e.Err? {
        return e, next;
      }
      idx := next;
      result := result + [e.value];
    }
    if idx >= |v| {
      return Err(OutOfRange), idx;
    }
    idx := idx + 1;
    r := Ok(Arr(result));
  }

  /** The loop over the entries of a map of indefinite length. */
  method ReadPairsToBreak(v: Text, start: nat) returns (r: Result<Json>, idx: nat)
    requires start <= |v| <= MAX_SIZE
    ensures DecodedPairsToBreak(v, start, []) == Outcome(r, idx)
    decreases |v| - start, 2
  {
    var result: seq<Member> := [];
    idx := start;
    while idx < |v| && v[idx] != BREAK
      invariant start <= idx <= |v|
      invariant DecodedPairsToBreak(v, start, []) == DecodedPairsToBreak(v, idx, result)
    {
      var m, next := ReadMember(v, idx);
      if m.Err? {
        return Err(m.error), next;
      }
      idx := next;
      result := Put(result, m.value.key, m.value.value);
    }
    if idx >= |v| {
      return Err(OutOfRange), idx;
    }
    idx := idx + 1;
    r := Ok(Obj(result));
  }

  /** The loop over the chunks of a string of indefinite length. */
  method ReadChunks(v: Text, start: nat) returns (r: Result<Json>, idx: nat)
    requires start <= |v| <= MAX_SIZE
    ensures DecodedChunks(v, start, []) == Outcome(r, idx)
    decreases |v| - start, 1
  {
    var result: Text := [];
    idx := start;
    while idx < |v| && v[idx] != BREAK
      invariant start <= idx <= |v|
      invariant DecodedChunks(v, start, []) == DecodedChunks(v, idx, result)
    {
      var s, next := FromCborInternal(v, idx);
      if s.Err? {
        return s, next;
      }
      if !s.value.Str? {
        return Err(DomainError), next;
      }
      idx := next;
      result := result + s.value.s;
    }
    if idx >= |v| {
      return Err(OutOfRange), idx;
    }
    idx := idx + 1;
    r := Ok(Str(result));
  }
}
