// What the strings of section 7 of RFC 7159 mean, written down with literal bytes: a string body is a sequence of
// pieces, each with the bytes that spell it and the character, or half of a surrogate pair, that it stands for.

module StringMeaning {
  import opened ByteStrings
  import opened Utf8
  import opened JsonString
  import opened StringGrammar

  /** An unescaped character in UTF-8, a two-character escape, or \u with the number of its four digits, each of
      which is spelled in lower or in upper case. */
  datatype Piece = Raw(c: Text) | Short(letter: byte) | Unit(n: nat, u0: bool, u1: bool, u2: bool, u3: bool)

  const LOWER: Text := [0x30, 0x31, 0x32, 0x33, 0x34, 0x35, 0x36, 0x37, 0x38, 0x39, 0x61, 0x62, 0x63, 0x64, 0x65, 0x66]
  const UPPER: Text := [0x30, 0x31, 0x32, 0x33, 0x34, 0x35, 0x36, 0x37, 0x38, 0x39, 0x41, 0x42, 0x43, 0x44, 0x45, 0x46]

  function Digit(n: nat, upper: bool): byte
    requires n < 16
  {
    if upper then UPPER[n] else LOWER[n]
  }

  predicate IsPiece(p: Piece) {
    match p
    case Raw(c) => IsUtf8Char(c) && (|c| == 1 ==> c[0] >= 0x20 && c[0] != 0x22 && c[0] != 0x5c)
    case Short(letter) => letter in {0x22, 0x5c, 0x2f, 0x62, 0x66, 0x6e, 0x72, 0x74}
    case Unit(n, _, _, _, _) => n <= 0xffff
  }

  predicate AllPieces(ps: seq<Piece>) {
    forall i | 0 <= i < |ps| :: IsPiece(ps[i])
  }

  function Spelling(p: Piece): Text
    requires IsPiece(p)
  {
    match p
    case Raw(c) => c
    case Short(letter) => [0x5c, letter]
    case Unit(n, u0, u1, u2, u3) =>
      [0x5c, 0x75, Digit(n / 0x1000, u0), Digit(n / 0x100 % 0x10, u1), Digit(n / 0x10 % 0x10, u2), Digit(n % 0x10, u3)]
  }

  function Spelled(ps: seq<Piece>): Text
    requires AllPieces(ps)
  {
    if ps == [] then [] else Spelling(ps[0]) + Spelled(ps[1..])
  }

  /** Quotation mark, reverse solidus, solidus, backspace, form feed, line feed, carriage return and tab. */
  function ShortMeaning(letter: byte): byte
    requires IsPiece(Short(letter))
  {
    if letter == 0x62 then 0x08 else if letter == 0x66 then 0x0c else if letter == 0x6e then 0x0a
    else if letter == 0x72 then 0x0d else if letter == 0x74 then 0x09 else letter
  }

  predicate IsHighUnit(p: Piece) {
    p.Unit? && 0xd800 <= p.n <= 0xdbff
  }

  predicate IsLowUnit(p: Piece) {
    p.Unit? && 0xdc00 <= p.n <= 0xdfff
  }

  /** The text that the pieces stand for; a surrogate without its other half is an error. */
  function Meaning(ps: seq<Piece>): Result<Text>
    requires AllPieces(ps)
    decreases |ps|
  {
    if ps == [] then Ok([])
    else if IsHighUnit(ps[0]) then
      if |ps| == 1 || !IsLowUnit(ps[1]) then Err(InvalidArgument)
      else
        var rest :- Meaning(ps[2..]);
        Ok(Utf8Of(0x10000 + (ps[0].n - 0xd800) * 0x400 + (ps[1].n - 0xdc00)) + rest)
    else if IsLowUnit(ps[0]) then Err(InvalidArgument)
    else
      var rest :- Meaning(ps[1..]);
      match ps[0]
      case Raw(c) => Ok(c + rest)
      case Short(letter) => Ok([ShortMeaning(letter)] + rest)
      case Unit(n, _, _, _, _) => Ok(Utf8Of(n) + rest)
  }

  //////// Digits ////////

  lemma DigitIsRead(n: nat, upper: bool)
    requires n < 16
    ensures IsHex(Digit(n, upper)) && HexValue(Digit(n, upper)) == n
  {
    assert n in {0, 1, 2, 3, 4, 5, 6, 7, 8, 9, 10, 11, 12, 13, 14, 15};
  }

  lemma DigitOfHex(b: byte) returns (n: nat, upper: bool)
    requires IsHex(b)
    ensures n < 16 && Digit(n, upper) == b
  {
    n, upper := HexValue(b), b <= 0x46;
    assert n in {0, 1, 2, 3, 4, 5, 6, 7, 8, 9, 10, 11, 12, 13, 14, 15};
  }

  lemma Quotients16(n: nat, a: nat, b: nat, c: nat, d: nat)
    requires a < 16 && b < 16 && c < 16 && d < 16 && n == 0x1000 * a + 0x100 * b + 0x10 * c + d
    ensures n / 0x1000 == a && n / 0x100 % 0x10 == b && n / 0x10 % 0x10 == c && n % 0x10 == d
  {
    assert n / 0x100 == 0x10 * a + b;
    assert n / 0x10 == 0x100 * a + 0x10 * b + c;
  }

  lemma Positions16(n: nat)
    requires n <= 0xffff
    ensures n == 0x1000 * (n / 0x1000) + 0x100 * (n / 0x100 % 0x10) + 0x10 * (n / 0x10 % 0x10) + n % 0x10
    ensures n / 0x1000 < 16
  {
    assert n / 0x100 / 0x10 == n / 0x1000;
    assert n / 0x10 / 0x10 == n / 0x100;
  }

  /** Each of the spellings of a number is read as that number. */
  lemma UnitIsRead(p: Piece)
    requires IsPiece(p) && p.Unit?
    ensures IsLongEscape(Spelling(p)) && Hex4(Spelling(p)[2..6]) == p.n
  {
    hide HexValue, IsHex, Digit;
    var n, e := p.n, Spelling(p);
    Positions16(n);
    DigitIsRead(n / 0x1000, p.u0);
    DigitIsRead(n / 0x100 % 0x10, p.u1);
    DigitIsRead(n / 0x10 % 0x10, p.u2);
    DigitIsRead(n % 0x10, p.u3);
    assert e[2..6] == [e[2], e[3], e[4], e[5]];
  }

  //////// Every character of the grammar is a piece, and the other way round ////////

  lemma PieceIsChar(p: Piece)
    requires IsPiece(p)
    ensures IsChar(Spelling(p))
    ensures p.Raw? ==> IsUnescaped(Spelling(p))
    ensures p.Short? ==> IsShortEscape(Spelling(p)) && Unletter(Spelling(p)[1]) == Some(ShortMeaning(p.letter))
    ensures p.Unit? ==> IsLongEscape(Spelling(p)) && Hex4(Spelling(p)[2..6]) == p.n
    ensures IsHighUnit(p) <==> IsHigh(Spelling(p))
    ensures IsLowUnit(p) <==> IsLow(Spelling(p))
  {
    if p.Unit? {
      UnitIsRead(p);
    }
  }

  lemma LongEscapeIsUnit(e: Text) returns (p: Piece)
    requires IsLongEscape(e)
    ensures IsPiece(p) && Spelling(p) == e
  {
    hide IsHex, Digit;
    assert e[2..6] == [e[2], e[3], e[4], e[5]];
    var a, u0 := DigitOfHex(e[2]);
    var b, u1 := DigitOfHex(e[3]);
    var c, u2 := DigitOfHex(e[4]);
    var d, u3 := DigitOfHex(e[5]);
    var n := 0x1000 * a + 0x100 * b + 0x10 * c + d;
    Quotients16(n, a, b, c, d);
    p := Unit(n, u0, u1, u2, u3);
  }

  lemma CharIsPiece(c: Text) returns (p: Piece)
    requires IsChar(c)
    ensures IsPiece(p) && Spelling(p) == c
  {
    if IsUnescaped(c) {
      p := Raw(c);
    } else if IsShortEscape(c) {
      p := Short(c[1]);
    } else {
      p := LongEscapeIsUnit(c);
    }
  }

  function CharsOf(ps: seq<Piece>): (cs: seq<Text>)
    requires AllPieces(ps)
    ensures |cs| == |ps| && forall i | 0 <= i < |cs| :: cs[i] == Spelling(ps[i])
  {
    if ps == [] then [] else [Spelling(ps[0])] + CharsOf(ps[1..])
  }

  lemma {:induction false} CharsAreSpelled(ps: seq<Piece>)
    requires AllPieces(ps)
    ensures AllChars(CharsOf(ps)) && Joined(CharsOf(ps)) == Spelled(ps)
  {
    hide Spelling, IsPiece, IsChar;
    if ps == [] {
    } else {
      CharsAreSpelled(ps[1..]);
      PieceIsChar(ps[0]);
      assert CharsOf(ps)[1..] == CharsOf(ps[1..]);
      forall i | 0 <= i < |ps| ensures IsChar(CharsOf(ps)[i]) {
        PieceIsChar(ps[i]);
      }
    }
  }

  lemma {:induction false} CharsArePieces(cs: seq<Text>) returns (ps: seq<Piece>)
    requires AllChars(cs)
    ensures AllPieces(ps) && Spelled(ps) == Joined(cs)
  {
    hide Spelling, IsPiece, IsChar;
    if cs == [] {
      ps := [];
    } else {
      var rest := CharsArePieces(cs[1..]);
      var p := CharIsPiece(cs[0]);
      ps := [p] + rest;
      assert ps[1..] == rest;
    }
  }

  /** t is the pieces between quotation marks. */
  predicate Quotes(t: Text, ps: seq<Piece>) {
    AllPieces(ps) && t == [0x22] + Spelled(ps) + [0x22]
  }

  /** The strings that scan returns as tokens are exactly the quoted pieces. */
  lemma StringIsQuoted(t: Text)
    ensures IsString(t) <==> exists ps :: Quotes(t, ps)
  {
    hide Spelled, AllPieces, AllChars;
    if IsString(t) {
      var cs :| AllChars(cs) && Joined(cs) == t[1..|t| - 1];
      var ps := CharsArePieces(cs);
      assert t == [t[0]] + t[1..|t| - 1] + [t[|t| - 1]];
      assert Quotes(t, ps);
    }
    if ps :| Quotes(t, ps) {
      CharsAreSpelled(ps);
      assert t[1..|t| - 1] == Spelled(ps);
      assert AllChars(CharsOf(ps)) && Joined(CharsOf(ps)) == t[1..|t| - 1];
    }
  }

  //////// What get_string makes of them ////////

  lemma PieceIsRead(ps: seq<Piece>, cs: seq<Text>)
    requires AllPieces(ps) && ps != [] && !IsHighUnit(ps[0]) && !IsLowUnit(ps[0]) && cs == CharsOf(ps) && AllChars(cs)
    requires WellEscaped(Joined(cs[1..])) && Unescaped(Joined(cs[1..])) == Meaning(ps[1..])
    ensures WellEscaped(Joined(cs)) && Unescaped(Joined(cs)) == Meaning(ps)
  {
    hide WellEscaped, Unescaped, Spelling, IsPiece, IsChar, IsHex4, Hex4, IsHigh, IsLow, Utf8Of, IsUtf8Char, CharsOf;
    hide IsUnescaped, IsShortEscape, IsLongEscape, ShortMeaning, Unletter, IsUtf8;
    PieceIsChar(ps[0]);
    assert cs[0] == Spelling(ps[0]);
    PlainChar(cs);
    PieceMeans(ps[0]);
  }

  lemma PieceMeans(p: Piece)
    requires IsPiece(p) && !IsHighUnit(p) && !IsLowUnit(p)
    ensures IsChar(Spelling(p)) && !IsHigh(Spelling(p)) && !IsLow(Spelling(p))
    ensures p.Raw? ==> TextOf(Spelling(p)) == p.c
    ensures p.Short? ==> TextOf(Spelling(p)) == [ShortMeaning(p.letter)]
    ensures p.Unit? ==> TextOf(Spelling(p)) == Utf8Of(p.n)
  {
    hide Utf8Of;
    PieceIsChar(p);
  }

  lemma PairIsRead(ps: seq<Piece>, cs: seq<Text>)
    requires AllPieces(ps) && |ps| > 1 && IsHighUnit(ps[0]) && IsLowUnit(ps[1]) && cs == CharsOf(ps) && AllChars(cs)
    requires WellEscaped(Joined(cs[2..])) && Unescaped(Joined(cs[2..])) == Meaning(ps[2..])
    ensures WellEscaped(Joined(cs)) && Unescaped(Joined(cs)) == Meaning(ps)
  {
    hide WellEscaped, Unescaped, Spelling, IsPiece, IsChar, IsHex4, Hex4, Utf8Of, IsUtf8Char, CharsOf, IsLongEscape;
    PieceIsChar(ps[0]);
    PieceIsChar(ps[1]);
    HighWithLow(cs);
  }

  /** For all pieces, in any case of any digit: get_string returns what they mean, or fails as they do. */
  lemma {:induction false} SpellingIsRead(ps: seq<Piece>)
    requires AllPieces(ps)
    ensures WellEscaped(Spelled(ps)) && Unescaped(Spelled(ps)) == Meaning(ps)
    decreases |ps|
  {
    hide Spelled, WellEscaped, Unescaped, IsPiece, IsChar, Spelling, IsHigh, IsLow;
    var cs := CharsOf(ps);
    CharsAreSpelled(ps);
    if ps == [] {
      assert Joined([]) == [] && WellEscaped([]) && Unescaped([]) == Ok([]) by { NothingIsRead(); }
    } else if IsHighUnit(ps[0]) {
      PieceIsChar(ps[0]);
      if |ps| > 1 { PieceIsChar(ps[1]); }
      if |ps| > 1 && IsLowUnit(ps[1]) {
        SpellingIsRead(ps[2..]);
        CharsAreSpelled(ps[2..]);
        assert cs[2..] == CharsOf(ps[2..]);
        PairIsRead(ps, cs);
      } else {
        HighAlone(cs);
        SurrogateIsInvalid(cs);
      }
    } else if IsLowUnit(ps[0]) {
      PieceIsChar(ps[0]);
      SurrogateIsInvalid(cs);
    } else {
      SpellingIsRead(ps[1..]);
      CharsAreSpelled(ps[1..]);
      assert cs[1..] == CharsOf(ps[1..]);
      PieceIsRead(ps, cs);
    }
  }

  /** get_string of a string token returns what its pieces mean. */
  lemma TokenMeaning(t: Text, ps: seq<Piece>)
    requires Quotes(t, ps)
    ensures WellEscaped(t[1..|t| - 1]) && Unescaped(t[1..|t| - 1]) == Meaning(ps)
  {
    SpellingIsRead(ps);
    assert t[1..|t| - 1] == Spelled(ps);
  }

  lemma NothingIsRead()
    ensures WellEscaped([]) && Unescaped([]) == Ok([])
  {
  }

  /** A lone surrogate is reported as std::invalid_argument. */
  lemma SurrogateIsInvalid(cs: seq<Text>)
    requires AllChars(cs) && cs != [] && (IsLow(cs[0]) || (IsHigh(cs[0]) && (|cs| > 1 ==> !IsLow(cs[1]))))
    ensures WellEscaped(Joined(cs)) && Unescaped(Joined(cs)) == Err(InvalidArgument)
  {
    var rest := Joined(cs[1..]);
    BodyIsWellEscaped(cs[1..]);
    LongStep(cs[0], rest);
    if IsHigh(cs[0]) && rest != [] {
      FirstIsLong(cs[1..]);
    }
  }

  //////// What escape_string writes ////////

  /** The piece by which escape_string writes a byte: a two-character escape other than "\/" where there is one, four
      lower-case digits for other control characters, and the byte itself otherwise. */
  function EscapePiece(c: byte): Piece {
    if c in {0x22, 0x5c} then Short(c)
    else if c == 0x08 then Short(0x62)
    else if c == 0x0c then Short(0x66)
    else if c == 0x0a then Short(0x6e)
    else if c == 0x0d then Short(0x72)
    else if c == 0x09 then Short(0x74)
    else if c < 0x20 then Unit(c, false, false, false, false)
    else Raw([c])
  }

  predicate IsEscapeOf(c: byte, e: Text) {
    var p := EscapePiece(c);
    if p.Raw? then e == p.c else e == Spelling(p)
  }

  /** Byte by byte, escape_string writes those pieces. */
  lemma {:induction false} EscapeWritesPieces(s: Text, es: seq<Text>)
    requires |es| == |s| && forall i | 0 <= i < |s| :: IsEscapeOf(s[i], es[i])
    ensures Escaped(s) == Joined(es)
  {
    if s == [] {
    } else {
      assert IsEscapeOf(s[0], es[0]);
      OneEscape(s[0], es[0]);
      EscapeWritesPieces(s[1..], es[1..]);
    }
  }

  lemma OneEscape(c: byte, e: Text)
    requires IsEscapeOf(c, e)
    ensures EscapedChar(c) == e
  {
    hide HexDigit, Digit;
    if EscapePiece(c).Unit? {
      LowerDigit(c / 0x10);
      LowerDigit(c % 0x10);
      assert c / 0x1000 == 0 && c / 0x100 % 0x10 == 0 && c / 0x10 % 0x10 == c / 0x10;
      LowerDigit(0);
      assert HexDigit(0) == 0x30 by { ZeroDigit(); }
    }
  }

  lemma LowerDigit(n: nat)
    requires n < 16
    ensures HexDigit(n) == Digit(n, false)
  {
    assert n in {0, 1, 2, 3, 4, 5, 6, 7, 8, 9, 10, 11, 12, 13, 14, 15};
  }

  lemma ZeroDigit()
    ensures HexDigit(0) == 0x30
  {
  }
}
