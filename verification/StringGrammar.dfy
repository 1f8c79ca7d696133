// The strings of section 7 of RFC 7159, as bytes in UTF-8, and what get_string makes of them.

module StringGrammar {
  import opened ByteStrings
  import opened Utf8
  import opened JsonString

  /** A character that stands for itself: %x20-21 / %x23-5B / %x5D-10FFFF. */
  predicate IsUnescaped(c: Text) {
    IsUtf8Char(c) && (|c| == 1 ==> c[0] >= 0x20 && c[0] != QUOTE && c[0] != BACKSLASH)
  }

  /** char of section 7 of RFC 7159 */
  predicate IsChar(c: Text) {
    IsUnescaped(c) || IsShortEscape(c) || IsLongEscape(c)
  }

  predicate AllChars(cs: seq<Text>) {
    forall i | 0 <= i < |cs| :: IsChar(cs[i])
  }

  /** *char */
  ghost predicate IsBody(body: Text) {
    exists cs: seq<Text> :: AllChars(cs) && Joined(cs) == body
  }

  /** string of section 7 of RFC 7159 */
  ghost predicate IsString(t: Text) {
    |t| >= 2 && t[0] == QUOTE && t[|t| - 1] == QUOTE && IsBody(t[1..|t| - 1])
  }

  //////// Reading a body character by character ////////

  lemma RawByte(b: byte, rest: Text)
    requires b != BACKSLASH && WellEscaped(rest)
    ensures WellEscaped([b] + rest) && Unescaped([b] + rest) == Prepend([b], Unescaped(rest))
  {
    assert ([b] + rest)[1..] == rest;
  }

  lemma PrependNothing(r: Result<Text>)
    ensures Prepend([], r) == r
  {
    assert r.Ok? ==> [] + r.value == r.value;
  }

  lemma {:induction false} RawBytes(c: Text, rest: Text)
    requires BACKSLASH !in c && WellEscaped(rest)
    ensures WellEscaped(c + rest) && Unescaped(c + rest) == Prepend(c, Unescaped(rest))
  {
    if c == [] {
      assert c + rest == rest;
      PrependNothing(Unescaped(rest));
    } else {
      RawBytes(c[1..], rest);
      RawByte(c[0], c[1..] + rest);
      PrependTwice([c[0]], c[1..], Unescaped(rest));
      assert [c[0]] + c[1..] == c;
      ConcatAssociative([c[0]], c[1..], rest);
    }
  }

  lemma PrependTwice(a: Text, b: Text, r: Result<Text>)
    ensures Prepend(a, Prepend(b, r)) == Prepend(a + b, r)
  {
    if r.Ok? {
      ConcatAssociative(a, b, r.value);
    }
  }

  lemma ShortStep(c: Text, rest: Text)
    requires IsShortEscape(c) && WellEscaped(rest)
    ensures WellEscaped(c + rest) && Unescaped(c + rest) == Prepend([Unletter(c[1]).value], Unescaped(rest))
  {
    var body := c + rest;
    assert body[..2] == c && body[2..] == rest;
  }

  lemma LongStep(c: Text, rest: Text)
    requires IsLongEscape(c) && WellEscaped(rest)
    ensures WellEscaped(c + rest) && StepLength(c + rest) == 6
    ensures (c + rest)[2..6] == c[2..6] && (c + rest)[6..] == rest
  {
    var body := c + rest;
    assert body[..6] == c && body[6..] == rest;
    assert !IsShortEscape(body[..2]);
  }

  lemma {:induction false} BodyIsWellEscaped(cs: seq<Text>)
    requires AllChars(cs)
    ensures WellEscaped(Joined(cs))
  {
    if cs == [] {
    } else {
      BodyIsWellEscaped(cs[1..]);
      var c, rest := cs[0], Joined(cs[1..]);
      if IsUnescaped(c) {
        RawBytes(c, rest);
      } else if IsShortEscape(c) {
        ShortStep(c, rest);
      } else {
        LongStep(c, rest);
      }
    }
  }

  /** A body that goes on with a \u escape has that escape as its first character. */
  lemma FirstIsLong(cs: seq<Text>)
    requires AllChars(cs) && Joined(cs) != []
    ensures cs != []
    ensures StepLength(Joined(cs)) == 6 <==> IsLongEscape(cs[0])
    ensures IsLongEscape(cs[0]) ==> Joined(cs)[2..6] == cs[0][2..6] && Joined(cs)[6..] == Joined(cs[1..])
  {
    var c, body := cs[0], Joined(cs);
    assert body == c + Joined(cs[1..]);
    assert c[0] == body[0];
    if IsShortEscape(c) {
      assert body[..2] == c;
    } else if IsLongEscape(c) {
      assert body[..6] == c;
      assert body[1] == LETTER_U;
    }
  }

  predicate IsHigh(c: Text) {
    IsLongEscape(c) && IsHighSurrogate(Hex4(c[2..6]))
  }

  predicate IsLow(c: Text) {
    IsLongEscape(c) && IsLowSurrogate(Hex4(c[2..6]))
  }

  /** If the character at i is an escaped surrogate, it is half of a pair. */
  predicate HasPartner(cs: seq<Text>, i: nat)
    requires i < |cs|
  {
    (IsHigh(cs[i]) ==> i + 1 < |cs| && IsLow(cs[i + 1])) && (IsLow(cs[i]) ==> i > 0 && IsHigh(cs[i - 1]))
  }

  predicate Paired(cs: seq<Text>) {
    forall i | 0 <= i < |cs| :: HasPartner(cs, i)
  }

  lemma PartnerInTail(cs: seq<Text>, k: nat, i: nat)
    requires 0 < k <= i < |cs| && (i == k ==> !IsHigh(cs[k - 1]))
    ensures HasPartner(cs, i) <==> HasPartner(cs[k..], i - k)
  {
    var rest := cs[k..];
    assert rest[i - k] == cs[i];
    assert i > k ==> rest[i - k - 1] == cs[i - 1];
    assert i + 1 < |cs| ==> rest[i - k + 1] == cs[i + 1];
  }

  lemma PairedTail(cs: seq<Text>, k: nat)
    requires 0 < k <= |cs| && !IsHigh(cs[k - 1])
    requires forall i | 0 <= i < k :: HasPartner(cs, i)
    ensures Paired(cs) <==> Paired(cs[k..])
  {
    forall i | k <= i < |cs| ensures HasPartner(cs, i) <==> HasPartner(cs[k..], i - k) {
      PartnerInTail(cs, k, i);
    }
    if Paired(cs) {
      forall i | 0 <= i < |cs[k..]| ensures HasPartner(cs[k..], i) {
        assert HasPartner(cs, i + k) <==> HasPartner(cs[k..], i + k - k);
      }
    }
  }

  /** What a character other than a surrogate means. */
  function TextOf(c: Text): Text
    requires IsChar(c) && !IsHigh(c) && !IsLow(c)
  {
    if IsUnescaped(c) then c
    else if IsShortEscape(c) then [Unletter(c[1]).value]
    else Utf8Of(Hex4(c[2..6]))
  }

  lemma PlainChar(cs: seq<Text>)
    requires AllChars(cs) && cs != [] && !IsHigh(cs[0]) && !IsLow(cs[0])
    ensures WellEscaped(Joined(cs)) && WellEscaped(Joined(cs[1..])) && IsUtf8(TextOf(cs[0]))
    ensures Unescaped(Joined(cs)) == Prepend(TextOf(cs[0]), Unescaped(Joined(cs[1..])))
  {
    var c, rest := cs[0], Joined(cs[1..]);
    BodyIsWellEscaped(cs[1..]);
    if IsUnescaped(c) {
      RawBytes(c, rest);
      Utf8Single(c);
    } else if IsShortEscape(c) {
      ShortStep(c, rest);
      Utf8Single(TextOf(c));
    } else {
      LongStep(c, rest);
      CodePointOfUtf8(Hex4(c[2..6]));
      Utf8Single(TextOf(c));
    }
  }

  /** For every string that the grammar allows: get_string throws if and only if an escaped surrogate is not
      half of a pair, and what it returns otherwise is well-formed UTF-8. */
  lemma {:induction false} StringValue(cs: seq<Text>)
    requires AllChars(cs)
    ensures WellEscaped(Joined(cs))
    ensures Unescaped(Joined(cs)).Ok? <==> Paired(cs)
    ensures Unescaped(Joined(cs)).Ok? ==> IsUtf8(Unescaped(Joined(cs)).value)
    decreases |cs|
  {
    if cs == [] {
      Utf8Empty();
    } else if IsHigh(cs[0]) {
      PairStep(cs);
    } else if IsLow(cs[0]) {
      BodyIsWellEscaped(cs[1..]);
      LongStep(cs[0], Joined(cs[1..]));
      assert !HasPartner(cs, 0);
    } else {
      StringValue(cs[1..]);
      PlainChar(cs);
      PlainStep(cs, TextOf(cs[0]));
    }
  }

  /** A character other than a surrogate adds text. */
  lemma PlainStep(cs: seq<Text>, t: Text)
    requires AllChars(cs) && cs != [] && !IsHigh(cs[0]) && !IsLow(cs[0]) && IsUtf8(t)
    requires WellEscaped(Joined(cs)) && WellEscaped(Joined(cs[1..]))
    requires Unescaped(Joined(cs)) == Prepend(t, Unescaped(Joined(cs[1..])))
    requires Unescaped(Joined(cs[1..])).Ok? <==> Paired(cs[1..])
    requires Unescaped(Joined(cs[1..])).Ok? ==> IsUtf8(Unescaped(Joined(cs[1..])).value)
    ensures Unescaped(Joined(cs)).Ok? <==> Paired(cs)
    ensures Unescaped(Joined(cs)).Ok? ==> IsUtf8(Unescaped(Joined(cs)).value)
  {
    assert HasPartner(cs, 0);
    PairedTail(cs, 1);
    if Unescaped(Joined(cs)).Ok? {
      Utf8Concat(t, Unescaped(Joined(cs[1..])).value);
    }
  }

  lemma HighAlone(cs: seq<Text>)
    requires AllChars(cs) && cs != [] && IsHigh(cs[0]) && (|cs| > 1 ==> !IsLow(cs[1]))
    ensures WellEscaped(Joined(cs)) && Unescaped(Joined(cs)).Err?
  {
    var rest := Joined(cs[1..]);
    BodyIsWellEscaped(cs[1..]);
    LongStep(cs[0], rest);
    if rest != [] {
      FirstIsLong(cs[1..]);
    }
  }

  /** A pair of escapes is one code point. */
  lemma HighWithLow(cs: seq<Text>)
    requires AllChars(cs) && |cs| > 1 && IsHigh(cs[0]) && IsLow(cs[1])
    ensures WellEscaped(Joined(cs)) && WellEscaped(Joined(cs[2..]))
    ensures Unescaped(Joined(cs)) ==
            Prepend(Utf8Of(PairCodePoint(Hex4(cs[0][2..6]), Hex4(cs[1][2..6]))), Unescaped(Joined(cs[2..])))
  {
    var rest := Joined(cs[1..]);
    BodyIsWellEscaped(cs[1..]);
    BodyIsWellEscaped(cs[2..]);
    LongStep(cs[0], rest);
    assert cs[1..][1..] == cs[2..];
    LongStep(cs[1], Joined(cs[2..]));
  }

  /** A high surrogate needs a low one behind it. */
  lemma {:induction false} PairStep(cs: seq<Text>)
    requires AllChars(cs) && cs != [] && IsHigh(cs[0])
    ensures WellEscaped(Joined(cs)) && (Unescaped(Joined(cs)).Ok? <==> Paired(cs))
    ensures Unescaped(Joined(cs)).Ok? ==> IsUtf8(Unescaped(Joined(cs)).value)
    decreases |cs|, 0
  {
    if |cs| > 1 && IsLow(cs[1]) {
      var cp := PairCodePoint(Hex4(cs[0][2..6]), Hex4(cs[1][2..6]));
      HighWithLow(cs);
      StringValue(cs[2..]);
      assert HasPartner(cs, 0) && HasPartner(cs, 1);
      PairedTail(cs, 2);
      CodePointOfUtf8(cp);
      Utf8Single(Utf8Of(cp));
      if Unescaped(Joined(cs[2..])).Ok? {
        Utf8Concat(Utf8Of(cp), Unescaped(Joined(cs[2..])).value);
      }
    } else {
      HighAlone(cs);
      assert !HasPartner(cs, 0);
    }
  }

  //////// Writing ////////

  lemma {:induction false} EscapedTail(c: Text)
    requires forall i | 0 <= i < |c| :: c[i] > 0x7f
    ensures Escaped(c) == c
  {
    if c == [] {
    } else {
      EscapedTail(c[1..]);
      assert c == [c[0]] + c[1..];
    }
  }

  lemma EscapedIsChar(c: Text)
    requires IsUtf8Char(c)
    ensures IsChar(Escaped(c))
  {
    if |c| == 1 {
      assert Escaped(c) == EscapedChar(c[0]) + Escaped([]) == EscapedChar(c[0]);
      if Letter(c[0]).None? && c[0] <= 0x1f {
        assert IsHex4(EscapedChar(c[0])[2..6]);
      }
    } else {
      EscapedTail(c);
    }
  }

  /** What escape_string makes of well-formed UTF-8 is a string of the grammar. */
  lemma {:induction false} EscapedIsBody(cs: seq<Text>) returns (ds: seq<Text>)
    requires AllUtf8Chars(cs)
    ensures AllChars(ds) && Joined(ds) == Escaped(Joined(cs))
  {
    if cs == [] {
      ds := [];
    } else {
      ds := EscapedIsBody(cs[1..]);
      EscapedIsChar(cs[0]);
      EscapedConcat(cs[0], Joined(cs[1..]));
      ds := [Escaped(cs[0])] + ds;
      assert ds[1..] == ds[1..];
      JoinedConcat([Escaped(cs[0])], ds[1..]);
      assert Joined([Escaped(cs[0])]) == Escaped(cs[0]) + Joined([]) == Escaped(cs[0]);
      assert ds == [Escaped(cs[0])] + ds[1..];
    }
  }

  lemma EscapedIsString(s: Text)
    requires IsUtf8(s)
    ensures IsString([QUOTE] + Escaped(s) + [QUOTE])
  {
    var cs :| AllUtf8Chars(cs) && Joined(cs) == s;
    var ds := EscapedIsBody(cs);
    var t := [QUOTE] + Escaped(s) + [QUOTE];
    assert t[1..|t| - 1] == Escaped(s);
  }

  //////// get_string ////////

  /** std::find */
  method Find(content: Text, first: nat, last: nat, b: byte) returns (e: nat)
    requires first <= last <= |content|
    ensures first <= e <= last && (e < last ==> content[e] == b) && b !in content[first..e]
  {
    e := first;
    while e < last && content[e] != b
      invariant first <= e <= last && b !in content[first..e]
    {
      e := e + 1;
    }
  }

  lemma SkipRaw(content: Text, i: nat, e: nat, end: nat)
    requires i <= e <= end <= |content| && BACKSLASH !in content[i..e]
    ensures WellEscaped(content[i..end]) <==> WellEscaped(content[e..end])
    ensures WellEscaped(content[i..end]) ==>
              Unescaped(content[i..end]) == Prepend(content[i..e], Unescaped(content[e..end]))
  {
    if WellEscaped(content[i..end]) {
      RawBack(content, i, e, end);
    }
    if WellEscaped(content[e..end]) {
      assert content[i..end] == content[i..e] + content[e..end];
      RawBytes(content[i..e], content[e..end]);
    }
  }

  lemma {:induction false} RawBack(content: Text, i: nat, e: nat, end: nat)
    requires i <= e <= end <= |content| && BACKSLASH !in content[i..e] && WellEscaped(content[i..end])
    ensures WellEscaped(content[e..end])
    decreases e - i
  {
    if i >= e {
    } else {
      assert content[i] == content[i..e][0] == content[i..end][0];
      assert content[i..end][1..] == content[i + 1..end];
      assert content[i + 1..e] == content[i..e][1..];
      RawBack(content, i + 1, e, end);
    }
  }

  /** The step that get_string makes at an escape, as a function of the bytes. */
  lemma AtEscape(content: Text, i: nat, end: nat)
    requires i < end < |content| && content[i] == BACKSLASH && WellEscaped(content[i..end])
    ensures i + 2 <= end
    ensures content[i + 1] != LETTER_U ==>
              Unletter(content[i + 1]).Some? && WellEscaped(content[i + 2..end]) &&
              Unescaped(content[i..end]) == Prepend([Unletter(content[i + 1]).value], Unescaped(content[i + 2..end]))
    ensures content[i + 1] == LETTER_U ==>
              i + 6 <= end && IsHex4(content[i + 2..i + 6]) && WellEscaped(content[i + 6..end]) &&
              content[i..end][2..6] == content[i + 2..i + 6] && content[i..end][6..] == content[i + 6..end] &&
              StepLength(content[i..end]) == 6
  {
    var body := content[i..end];
    assert body[0] == content[i];
    assert |body| >= 2;
    assert body[1] == content[i + 1];
    if content[i + 1] != LETTER_U {
      assert StepLength(body) == 2;
      SliceOfSlice(content, i, end, 2, |body|);
    } else {
      assert StepLength(body) == 6;
      SliceOfSlice(content, i, end, 2, 6);
      SliceOfSlice(body, 0, 6, 2, 6);
      SliceOfSlice(content, i, end, 6, |body|);
    }
  }

  /** The case 'u' of get_string, with i at that letter: the text to add and how far to skip. */
  method UnicodeEscape(content: Text, i: nat, end: nat) returns (r: Result<Text>, next: nat)
    requires 1 <= i < end < |content| && content[i - 1] == BACKSLASH && content[i] == LETTER_U
    requires WellEscaped(content[i - 1..end]) && content[end] == QUOTE
    ensures i < next <= end
    ensures WellEscaped(content[next..end])
    ensures Unescaped(content[i - 1..end]) ==
            if r.Ok? then Prepend(r.value, Unescaped(content[next..end])) else r
  {
    AtEscape(content, i - 1, end);
    var limit := |content|;
    var codepoint := Hex4(content[i + 1..i + 5]);
    ghost var rest := content[i + 5..end];
    next := i + 5;
    if 0xd800 <= codepoint <= 0xdbff {
      ToUnicodeIsUtf8(codepoint, 0);
      if i + 5 < end && content[i + 5] == BACKSLASH {
        AtEscape(content, i + 5, end);
      }
      if rest != [] && StepLength(rest) == 6 {
        assert rest[0] == content[i + 5];
      }
      if i + 6 >= limit || content[i + 5] != BACKSLASH || content[i + 6] != LETTER_U {
        return Err(InvalidArgument), next;
      }
      var codepoint2 := Hex4(content[i + 7..i + 11]);
      ToUnicodeIsUtf8(codepoint, codepoint2);
      r := ToUnicode(codepoint, codepoint2);
      next := i + 11;
    } else if 0xdc00 <= codepoint <= 0xdfff {
      r := Err(InvalidArgument);
    } else {
      ToUnicodeIsUtf8(codepoint, 0);
      r := ToUnicode(codepoint, 0);
    }
  }

  /** One turn of the loop of get_string: the text to add and where to go on. */
  method NextPiece(content: Text, i: nat, end: nat) returns (r: Result<Text>, next: nat)
    requires i < end < |content| && WellEscaped(content[i..end]) && content[end] == QUOTE
    ensures i < next <= end
    ensures WellEscaped(content[next..end])
    ensures Unescaped(content[i..end]) == if r.Ok? then Prepend(r.value, Unescaped(content[next..end])) else r
  {
    // copy the raw bytes up to the next backslash
    var e := Find(content, i, end, BACKSLASH);
    if e != i {
      SkipRaw(content, i, e, end);
      return Ok(content[i..e]), e;
    }
    AtEscape(content, i, end);
    if content[i + 1] != LETTER_U {
      return Ok([Unletter(content[i + 1]).value]), i + 2;
    }
    r, next := UnicodeEscape(content, i + 1, end);
  }

  /** get_string of the token from start to cursor. */
  method GetString(content: Text, start: nat, cursor: nat) returns (r: Result<Text>)
    requires start + 2 <= cursor <= |content| && content[cursor - 1] == QUOTE
    requires WellEscaped(content[start + 1..cursor - 1])
    ensures r == Unescaped(content[start + 1..cursor - 1])
  {
    var result: Text := [];
    var i := start + 1;
    PrependNothing(Unescaped(content[i..cursor - 1]));
    while i < cursor - 1
      invariant start + 1 <= i <= cursor - 1
      invariant WellEscaped(content[i..cursor - 1])
      invariant Unescaped(content[start + 1..cursor - 1]) == Prepend(result, Unescaped(content[i..cursor - 1]))
    {
      var piece, next := NextPiece(content, i, cursor - 1);
      if piece.Err? {
        return piece;
      }
      PrependTwice(result, piece.value, Unescaped(content[next..cursor - 1]));
      result := result + piece.value;
      i := next;
    }
    assert content[i..cursor - 1] == [] && result + [] == result;
    return Ok(result);
  }
}
