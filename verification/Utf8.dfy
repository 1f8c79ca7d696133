// UTF-8 (RFC 3629): which byte strings are well-formed, and how code points are written.

module Utf8 {
  import opened ByteStrings

  predicate IsTail(b: byte) {
    0x80 <= b <= 0xbf
  }

  /** UTF8-char of section 4 of RFC 3629. */
  predicate IsUtf8Char(c: Text) {
    if |c| == 1 then c[0] <= 0x7f
    else if |c| == 2 then 0xc2 <= c[0] <= 0xdf && IsTail(c[1])
    else if |c| == 3 then
      IsTail(c[2]) &&
      ((c[0] == 0xe0 && 0xa0 <= c[1] <= 0xbf) ||
       (0xe1 <= c[0] <= 0xec && IsTail(c[1])) ||
       (c[0] == 0xed && 0x80 <= c[1] <= 0x9f) ||
       (0xee <= c[0] <= 0xef && IsTail(c[1])))
    else if |c| == 4 then
      IsTail(c[2]) && IsTail(c[3]) &&
      ((c[0] == 0xf0 && 0x90 <= c[1] <= 0xbf) ||
       (0xf1 <= c[0] <= 0xf3 && IsTail(c[1])) ||
       (c[0] == 0xf4 && 0x80 <= c[1] <= 0x8f))
    else false
  }

  predicate AllUtf8Chars(cs: seq<Text>) {
    forall i | 0 <= i < |cs| :: IsUtf8Char(cs[i])
  }

  /** UTF8-octets: any number of characters in a row. */
  ghost predicate IsUtf8(s: Text) {
    exists cs: seq<Text> :: AllUtf8Chars(cs) && Joined(cs) == s
  }

  lemma Utf8Concat(a: Text, b: Text)
    requires IsUtf8(a) && IsUtf8(b)
    ensures IsUtf8(a + b)
  {
    var cs :| AllUtf8Chars(cs) && Joined(cs) == a;
    var ds :| AllUtf8Chars(ds) && Joined(ds) == b;
    JoinedConcat(cs, ds);
    assert AllUtf8Chars(cs + ds);
  }

  lemma Utf8Single(c: Text)
    requires IsUtf8Char(c)
    ensures IsUtf8(c)
  {
    assert AllUtf8Chars([c]);
    assert Joined([c]) == c + Joined([]) == c;
  }

  lemma Utf8Empty()
    ensures IsUtf8([])
  {
    assert AllUtf8Chars([]) && Joined([]) == [];
  }

  lemma TailsAreHigh(c: Text)
    requires IsUtf8Char(c)
    ensures forall i | 0 < i < |c| :: c[i] >= 0x80
  {
  }

  /** No character continues over an ASCII byte. */
  lemma {:induction false} Utf8BeforeAscii(a: Text, b: Text, cs: seq<Text>)
    requires AllUtf8Chars(cs) && Joined(cs) == a + b && b != [] && b[0] <= 0x7f
    ensures IsUtf8(a)
    decreases |cs|
  {
    if a == [] {
      Utf8Empty();
    } else {
      var c, rest := cs[0], Joined(cs[1..]);
      assert c + rest == a + b;
      if |c| > |a| {
        assert c[|a|] == (c + rest)[|a|] == b[0];
        TailsAreHigh(c);
      } else {
        assert a[..|c|] == (a + b)[..|c|] == (c + rest)[..|c|] == c;
        assert a[|c|..] + b == (a + b)[|c|..] == (c + rest)[|c|..] == rest;
        Utf8BeforeAscii(a[|c|..], b, cs[1..]);
        Utf8Single(c);
        Utf8Concat(c, a[|c|..]);
        assert a == c + a[|c|..];
      }
    }
  }

  //////// Code points ////////

  predicate IsHighSurrogate(cp: nat) {
    0xd800 <= cp <= 0xdbff
  }

  predicate IsLowSurrogate(cp: nat) {
    0xdc00 <= cp <= 0xdfff
  }

  /** The code points that UTF-8 encodes: all but the surrogates. */
  predicate IsScalar(cp: nat) {
    cp <= 0x10ffff && !IsHighSurrogate(cp) && !IsLowSurrogate(cp)
  }

  /** The code point of a UTF-16 surrogate pair. */
  function PairCodePoint(high: nat, low: nat): (cp: nat)
    requires IsHighSurrogate(high) && IsLowSurrogate(low)
    ensures 0x10000 <= cp <= 0x10ffff
  {
    0x10000 + 0x400 * (high - 0xd800) + (low - 0xdc00)
  }

  /** Section 3 of RFC 3629. */
  function Utf8Of(cp: nat): Text
    requires cp <= 0x10ffff
  {
    if cp < 0x80 then [cp]
    else if cp <= 0x7ff then [0xc0 + cp / 0x40, 0x80 + cp % 0x40]
    else if cp <= 0xffff then [0xe0 + cp / 0x1000, 0x80 + cp / 0x40 % 0x40, 0x80 + cp % 0x40]
    else [0xf0 + cp / 0x40000, 0x80 + cp / 0x1000 % 0x40, 0x80 + cp / 0x40 % 0x40, 0x80 + cp % 0x40]
  }

  /** The six free bits of a tail byte. */
  function FreeBits(b: byte): (n: nat)
    requires IsTail(b)
    ensures n < 0x40
  {
    b - 0x80
  }

  /** The number in the free bits of a character. */
  function CodePoint(c: Text): nat
    requires IsUtf8Char(c)
  {
    if |c| == 1 then c[0]
    else if |c| == 2 then 0x40 * Lead(c) + FreeBits(c[1])
    else if |c| == 3 then 0x40 * (0x40 * Lead(c) + FreeBits(c[1])) + FreeBits(c[2])
    else 0x40 * (0x40 * (0x40 * Lead(c) + FreeBits(c[1])) + FreeBits(c[2])) + FreeBits(c[3])
  }

  /** The free bits of the first byte of a longer character. */
  function Lead(c: Text): nat
    requires IsUtf8Char(c) && |c| > 1
  {
    c[0] - (if |c| == 2 then 0xc0 else if |c| == 3 then 0xe0 else 0xf0)
  }

  lemma Shift(n: nat, r: nat)
    requires r < 0x40
    ensures (0x40 * n + r) / 0x40 == n && (0x40 * n + r) % 0x40 == r
  {
  }

  lemma Quotients(n: nat)
    ensures n / 0x1000 == n / 0x40 / 0x40 && n / 0x40000 == n / 0x40 / 0x40 / 0x40
  {
  }

  /** Every scalar value is written as a character that denotes it. */
  lemma CodePointOfUtf8(cp: nat)
    requires IsScalar(cp)
    ensures IsUtf8Char(Utf8Of(cp)) && CodePoint(Utf8Of(cp)) == cp
  {
    Quotients(cp);
  }

  /** Every character is the one way to write its code point. */
  lemma Utf8OfCodePoint(c: Text)
    requires IsUtf8Char(c)
    ensures IsScalar(CodePoint(c)) && Utf8Of(CodePoint(c)) == c
  {
    if |c| == 2 {
      Shift(Lead(c), FreeBits(c[1]));
    } else if |c| == 3 {
      ThreeBytes(c);
    } else if |c| == 4 {
      FourBytes(c);
    }
  }

  lemma ThreeBytes(c: Text)
    requires IsUtf8Char(c) && |c| == 3
    ensures IsScalar(CodePoint(c)) && Utf8Of(CodePoint(c)) == c
  {
    var n := 0x40 * Lead(c) + FreeBits(c[1]);
    Shift(Lead(c), FreeBits(c[1]));
    Shift(n, FreeBits(c[2]));
    Quotients(CodePoint(c));
  }

  lemma FourBytes(c: Text)
    requires IsUtf8Char(c) && |c| == 4
    ensures IsScalar(CodePoint(c)) && Utf8Of(CodePoint(c)) == c
  {
    var m := 0x40 * Lead(c) + FreeBits(c[1]);
    var n := 0x40 * m + FreeBits(c[2]);
    Shift(Lead(c), FreeBits(c[1]));
    Shift(m, FreeBits(c[2]));
    Shift(n, FreeBits(c[3]));
    Quotients(CodePoint(c));
    assert CodePoint(c) / 0x40000 == Lead(c);
  }

  /** lexer::to_unicode with its bit masks; codepoint2 is 0 where the source leaves it out. */
  function ToUnicode(codepoint1: nat, codepoint2: nat): Result<Text> {
    if IsHighSurrogate(codepoint1) then
      if IsLowSurrogate(codepoint2) then FromCodePoint(codepoint1 * 0x400 + codepoint2 - 0x35fdc00)
      else Err(InvalidArgument)
    else FromCodePoint(codepoint1)
  }

  function FromCodePoint(codepoint: nat): Result<Text> {
    if codepoint < 0x80 then Ok([codepoint])
    else if codepoint <= 0x7ff then Ok([0xc0 + codepoint / 0x40 % 0x20, 0x80 + codepoint % 0x40])
    else if codepoint <= 0xffff then
      Ok([0xe0 + codepoint / 0x1000 % 0x10, 0x80 + codepoint / 0x40 % 0x40, 0x80 + codepoint % 0x40])
    else if codepoint <= 0x10ffff then
      Ok([0xf0 + codepoint / 0x40000 % 0x08, 0x80 + codepoint / 0x1000 % 0x40,
          0x80 + codepoint / 0x40 % 0x40, 0x80 + codepoint % 0x40])
    else Err(OutOfRange)
  }

  /** The masks and the constant 0x35FDC00 do what RFC 3629 and UTF-16 ask for: a code point in the Basic
      Multilingual Plane is written as it is, a surrogate pair as the code point it stands for. */
  lemma ToUnicodeIsUtf8(codepoint1: nat, codepoint2: nat)
    requires codepoint1 <= 0xffff
    ensures ToUnicode(codepoint1, codepoint2) ==
            if !IsHighSurrogate(codepoint1) then Ok(Utf8Of(codepoint1))
            else if IsLowSurrogate(codepoint2) then Ok(Utf8Of(PairCodePoint(codepoint1, codepoint2)))
            else Err(InvalidArgument)
  {
    if IsHighSurrogate(codepoint1) && IsLowSurrogate(codepoint2) {
      assert codepoint1 * 0x400 + codepoint2 - 0x35fdc00 == PairCodePoint(codepoint1, codepoint2);
      MasksAreIdle(PairCodePoint(codepoint1, codepoint2));
    } else {
      MasksAreIdle(codepoint1);
    }
  }

  lemma MasksAreIdle(cp: nat)
    requires cp <= 0x10ffff
    ensures FromCodePoint(cp) == Ok(Utf8Of(cp))
  {
    assert cp <= 0x7ff ==> cp / 0x40 % 0x20 == cp / 0x40;
    assert cp <= 0xffff ==> cp / 0x1000 % 0x10 == cp / 0x1000;
    assert cp / 0x40000 % 0x08 == cp / 0x40000;
  }
}
