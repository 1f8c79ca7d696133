// JSON strings (section 7 of RFC 7159): escape_string, which writes them, and lexer::get_string, which reads them.

module JsonString {
  import opened ByteStrings
  import opened Utf8

  const QUOTE: byte := 0x22
  const BACKSLASH: byte := 0x5c
  const LETTER_U: byte := 0x75

  //////// Escaping ////////

  /** The letter of a two-character escape. */
  function Letter(c: byte): Option<byte> {
    if c == 0x22 then Some(0x22)
    else if c == 0x5c then Some(0x5c)
    else if c == 0x08 then Some(0x62)
    else if c == 0x0c then Some(0x66)
    else if c == 0x0a then Some(0x6e)
    else if c == 0x0d then Some(0x72)
    else if c == 0x09 then Some(0x74)
    else None
  }

  /** hexify */
  function HexDigit(n: nat): byte
    requires n < 16
  {
    if n < 10 then 0x30 + n else 0x61 + (n - 10)
  }

  function EscapedChar(c: byte): (r: Text)
    ensures r != []
  {
    if Letter(c).Some? then [BACKSLASH, Letter(c).value]
    else if c <= 0x1f then [BACKSLASH, LETTER_U, 0x30, 0x30, HexDigit(c / 0x10), HexDigit(c % 0x10)]
    else [c]
  }

  function Escaped(s: Text): Text {
    if s == [] then [] else EscapedChar(s[0]) + Escaped(s[1..])
  }

  /** extra_space */
  function ExtraSpace(s: Text): nat {
    if s == [] then 0
    else (if Letter(s[0]).Some? then 1 else if s[0] <= 0x1f then 5 else 0) + ExtraSpace(s[1..])
  }

  /** The space that extra_space adds is what escaping takes, and none means that nothing is escaped. */
  lemma {:induction false} ExtraSpaceIsExact(s: Text)
    ensures |Escaped(s)| == |s| + ExtraSpace(s)
    ensures ExtraSpace(s) == 0 <==> Escaped(s) == s
  {
    if s == [] {
    } else {
      ExtraSpaceIsExact(s[1..]);
      if ExtraSpace(s) == 0 {
        assert s == [s[0]] + s[1..];
      }
    }
  }

  lemma {:induction false} EscapedConcat(a: Text, b: Text)
    ensures Escaped(a + b) == Escaped(a) + Escaped(b)
  {
    if a == [] {
      assert a + b == b;
    } else {
      assert (a + b)[1..] == a[1..] + b;
      EscapedConcat(a[1..], b);
      ConcatAssociative(EscapedChar(a[0]), Escaped(a[1..]), Escaped(b));
    }
  }

  /** What is left to write fits into what is left of the buffer. */
  lemma EscapedAt(s: Text, n: nat)
    requires n < |s|
    ensures Escaped(s[..n + 1]) == Escaped(s[..n]) + EscapedChar(s[n])
    ensures |Escaped(s[..n])| + |EscapedChar(s[n])| <= |Escaped(s)|
  {
    assert s[..n + 1] == s[..n] + [s[n]];
    EscapedConcat(s[..n], [s[n]]);
    assert Escaped([s[n]]) == EscapedChar(s[n]) + Escaped([]) == EscapedChar(s[n]);
    assert s == s[..n + 1] + s[n + 1..];
    EscapedConcat(s[..n + 1], s[n + 1..]);
  }

  /** The loop that prints the five characters behind a reverse solidus. */
  method WriteAfter(result: array<byte>, pos: nat, ms: Text) returns (next: nat)
    requires pos + |ms| < result.Length
    requires forall k | pos <= k < result.Length :: result[k] == BACKSLASH
    modifies result
    ensures next == pos + |ms|
    ensures result[..pos] == old(result[..pos]) && result[pos..next + 1] == [BACKSLASH] + ms
    ensures forall k | next < k < result.Length :: result[k] == BACKSLASH
  {
    next := pos;
    for m := 0 to |ms|
      invariant next == pos + m
      invariant result[..pos] == old(result[..pos])
      invariant result[pos..next + 1] == [BACKSLASH] + ms[..m]
      invariant forall k | next < k < result.Length :: result[k] == BACKSLASH
    {
      next := next + 1;
      result[next] := ms[m];
    }
    assert ms[..|ms|] == ms;
  }

  /** One turn of the loop of escape_string: the bytes behind the reverse solidus that is already there. */
  method WriteEscape(result: array<byte>, pos: nat, c: byte) returns (next: nat)
    requires pos + |EscapedChar(c)| <= result.Length
    requires forall k | pos <= k < result.Length :: result[k] == BACKSLASH
    modifies result
    ensures next == pos + |EscapedChar(c)|
    ensures result[..pos] == old(result[..pos]) && result[pos..next] == EscapedChar(c)
    ensures forall k | next <= k < result.Length :: result[k] == BACKSLASH
  {
    next := pos;
    if c == BACKSLASH {
      // no byte needs an escape
      next := next + 2;
    } else if Letter(c).Some? {
      result[next + 1] := Letter(c).value;
      next := next + 2;
    } else if c <= 0x1f {
      var ms := [LETTER_U, 0x30, 0x30, HexDigit(c / 0x10), HexDigit(c % 0x10)];
      assert EscapedChar(c) == [BACKSLASH] + ms;
      next := WriteAfter(result, next, ms);
      next := next + 1;
    } else {
      result[next] := c;
      next := next + 1;
    }
  }

  /** escape_string */
  method EscapeString(s: Text) returns (r: Text)
    ensures r == Escaped(s)
  {
    ExtraSpaceIsExact(s);
    var space := ExtraSpace(s);
    if space == 0 {
      return s;
    }
    var result := new byte[|s| + space](_ => BACKSLASH);
    var pos := 0;
    for n := 0 to |s|
      invariant pos == |Escaped(s[..n])| <= result.Length
      invariant result[..pos] == Escaped(s[..n])
      invariant forall k | pos <= k < result.Length :: result[k] == BACKSLASH
    {
      EscapedAt(s, n);
      var next := WriteEscape(result, pos, s[n]);
      assert result[..next] == result[..pos] + result[pos..next];
      pos := next;
    }
    assert s[..|s|] == s;
    assert pos == |s| + space == result.Length;
    assert result[..pos] == result[..];
    return result[..];
  }

  //////// Unescaping ////////

  predicate IsHex(b: byte) {
    0x30 <= b <= 0x39 || 0x41 <= b <= 0x46 || 0x61 <= b <= 0x66
  }

  function HexValue(b: byte): (n: nat)
    requires IsHex(b)
    ensures n < 16
  {
    if b <= 0x39 then b - 0x30 else if b <= 0x46 then b - 0x41 + 10 else b - 0x61 + 10
  }

  predicate IsHex4(ds: Text) {
    |ds| == 4 && IsHex(ds[0]) && IsHex(ds[1]) && IsHex(ds[2]) && IsHex(ds[3])
  }

  /** std::strtoul(..., 16) of four hexadecimal digits. */
  function Hex4(ds: Text): (n: nat)
    requires IsHex4(ds)
    ensures n <= 0xffff
  {
    0x1000 * HexValue(ds[0]) + 0x100 * HexValue(ds[1]) + 0x10 * HexValue(ds[2]) + HexValue(ds[3])
  }

  /** The character that a two-character escape with this letter means. */
  function Unletter(b: byte): Option<byte> {
    if b == 0x22 then Some(0x22)
    else if b == 0x5c then Some(0x5c)
    else if b == 0x2f then Some(0x2f)
    else if b == 0x62 then Some(0x08)
    else if b == 0x66 then Some(0x0c)
    else if b == 0x6e then Some(0x0a)
    else if b == 0x72 then Some(0x0d)
    else if b == 0x74 then Some(0x09)
    else None
  }

  predicate IsShortEscape(e: Text) {
    |e| == 2 && e[0] == BACKSLASH && Unletter(e[1]).Some?
  }

  predicate IsLongEscape(e: Text) {
    |e| == 6 && e[0] == BACKSLASH && e[1] == LETTER_U && IsHex4(e[2..6])
  }

  /** How many bytes the first character, possibly escaped, of a string body takes; 0 if an escape is wrong. */
  function StepLength(body: Text): (n: nat)
    requires body != []
    ensures n <= |body|
  {
    if body[0] != BACKSLASH then 1
    else if |body| >= 2 && IsShortEscape(body[..2]) then 2
    else if |body| >= 6 && IsLongEscape(body[..6]) then 6
    else 0
  }

  /** Every reverse solidus begins an escape; the lexer makes sure of it. */
  predicate WellEscaped(body: Text)
    decreases |body|
  {
    body == [] || (StepLength(body) > 0 && WellEscaped(body[StepLength(body)..]))
  }

  function Prepend(t: Text, r: Result<Text>): Result<Text> {
    if r.Ok? then Ok(t + r.value) else r
  }

  /** The text that a string body stands for, unless a surrogate is alone. */
  function Unescaped(body: Text): Result<Text>
    requires WellEscaped(body)
    decreases |body|
  {
    if body == [] then Ok([])
    else if body[0] != BACKSLASH then Prepend([body[0]], Unescaped(body[1..]))
    else if StepLength(body) == 2 then Prepend([Unletter(body[1]).value], Unescaped(body[2..]))
    else
      var cp, rest := Hex4(body[2..6]), body[6..];
      if IsLowSurrogate(cp) then Err(InvalidArgument)
      else if !IsHighSurrogate(cp) then Prepend(Utf8Of(cp), Unescaped(rest))
      else if rest == [] || StepLength(rest) != 6 || !IsLowSurrogate(Hex4(rest[2..6])) then Err(InvalidArgument)
      else Prepend(Utf8Of(PairCodePoint(cp, Hex4(rest[2..6]))), Unescaped(rest[6..]))
  }

  lemma UnescapedSpecial(c: byte, rest: Text)
    requires c <= 0x1f && Letter(c).None? && WellEscaped(rest)
    ensures WellEscaped(EscapedChar(c) + rest) && Unescaped(EscapedChar(c) + rest) == Prepend([c], Unescaped(rest))
  {
    var body := EscapedChar(c) + rest;
    assert body[..6] == EscapedChar(c) && body[6..] == rest;
    assert body[2..6] == EscapedChar(c)[2..6];
    assert IsLongEscape(body[..6]) && !IsShortEscape(body[..2]);
    assert Hex4(body[2..6]) == c;
  }

  lemma UnescapedChar(c: byte, rest: Text)
    requires WellEscaped(rest)
    ensures WellEscaped(EscapedChar(c) + rest) && Unescaped(EscapedChar(c) + rest) == Prepend([c], Unescaped(rest))
  {
    var body := EscapedChar(c) + rest;
    if Letter(c).Some? {
      assert body[..2] == EscapedChar(c) && body[2..] == rest;
    } else if c <= 0x1f {
      UnescapedSpecial(c, rest);
    } else {
      assert body[1..] == rest;
    }
  }

  /** get_string undoes escape_string for every byte string. */
  lemma {:induction false} UnescapedEscaped(s: Text)
    ensures WellEscaped(Escaped(s)) && Unescaped(Escaped(s)) == Ok(s)
  {
    if s == [] {
    } else {
      UnescapedEscaped(s[1..]);
      UnescapedChar(s[0], Escaped(s[1..]));
      assert s == [s[0]] + s[1..];
    }
  }
}
