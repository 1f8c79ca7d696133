// Integers as JSON text: the integer half of numtostr, which writes them, and of lexer::get_number, which reads
// them.

module Numbers {
  import opened ByteStrings
  import opened Decimal
  import opened JsonValue
  import opened Lexer


  /** The text of an integer. */
  function NumberText(x: int): Text {
    if x < 0 then [MINUS] + Numeral(-x) else Numeral(x)
  }

  //////// numtostr ////////

  /** C++'s / and % truncate towards zero. */
  function Quotient(x: int): int {
    if x < 0 then -(-x / 10) else x / 10
  }

  function Remainder(x: int): int {
    if x < 0 then -(-x % 10) else x % 10
  }

  function Magnitude(x: int): nat {
    if x < 0 then -x else x
  }

  function Reversed(s: Text): (r: Text)
    ensures |r| == |s|
    ensures forall i | 0 <= i < |s| :: r[i] == s[|s| - 1 - i]
  {
    if s == [] then [] else Reversed(s[1..]) + [s[0]]
  }

  lemma ReversedSnoc(s: Text, b: byte)
    ensures Reversed(s + [b]) == [b] + Reversed(s)
  {
    assert forall i | 0 <= i < |s| + 1 :: Reversed(s + [b])[i] == ([b] + Reversed(s))[i];
  }

  function PowerOfTen(k: nat): nat {
    if k == 0 then 1 else 10 * PowerOfTen(k - 1)
  }

  lemma {:induction false} NumeralLength(n: nat, k: nat)
    requires 0 < k && n < PowerOfTen(k)
    ensures |Numeral(n)| <= k
  {
    if n < 10 {
    } else {
      NumeralLength(n / 10, k - 1);
    }
  }

  lemma TwentyDigits(x: nat)
    requires x < 0x1_0000_0000_0000_0000
    ensures |Numeral(x)| <= 20
  {
    assert PowerOfTen(5) == 100000;
    assert PowerOfTen(10) == 10000000000;
    assert PowerOfTen(15) == 1000000000000000;
    assert PowerOfTen(20) == 100000000000000000000;
    NumeralLength(x, 20);
  }

  /** The digits still to come, in front of those that are in the buffer in reverse. */
  function Digits(x: int, done: Text): Text {
    (if x == 0 then [] else Numeral(Magnitude(x))) + Reversed(done)
  }

  /** The digit that x % 10 gives. */
  function LastDigit(x: int): byte {
    DIGIT_0 + Magnitude(Remainder(x))
  }

  lemma NextDigit(x: int, done: Text)
    requires x != 0
    ensures Digits(x, done) == Digits(Quotient(x), done + [LastDigit(x)])
    ensures Magnitude(Quotient(x)) < Magnitude(x)
    ensures |done| < |Digits(x, done)|
  {
    var m := Magnitude(x);
    var d := LastDigit(x);
    ReversedSnoc(done, d);
    assert Magnitude(Quotient(x)) == m / 10 && Magnitude(Remainder(x)) == m % 10;
    if m < 10 {
      assert Numeral(m) == [d];
    } else {
      ConcatAssociative(Numeral(m / 10), [d], Reversed(done));
    }
  }

  /** The loop that fills the buffer with the digits, the last one first. */
  method WriteDigits(buf: array<byte>, value: int) returns (i: nat)
    requires buf.Length == 64 && value != 0 && Magnitude(value) < 0x1_0000_0000_0000_0000
    modifies buf
    ensures i <= 20 && Reversed(buf[..i]) == Numeral(Magnitude(value))
    ensures forall k | i <= k < buf.Length :: buf[k] == old(buf[k])
  {
    TwentyDigits(Magnitude(value));
    ghost var text := Numeral(Magnitude(value));
    assert Digits(value, []) == text + [] == text;
    i := 0;
    var x := value;
    ghost var done: Text := [];
    // the last byte of the buffer stays zero
    while x != 0 && i < buf.Length - 1
      invariant 0 <= i <= |text| && buf[..i] == done && Digits(x, done) == text
      invariant forall k | i <= k < buf.Length :: buf[k] == old(buf[k])
      decreases Magnitude(x)
    {
      NextDigit(x, done);
      done := done + [LastDigit(x)];
      buf[i] := LastDigit(x);
      i := i + 1;
      x := Quotient(x);
    }
    // the bound of the loop is not what ended it
    assert x == 0;
    assert Digits(x, done) == Reversed(done);
  }

  /** std::reverse of the first n bytes. */
  method Reverse(buf: array<byte>, n: nat)
    requires n <= buf.Length
    modifies buf
    ensures buf[..n] == Reversed(old(buf[..n])) && buf[n..] == old(buf[n..])
  {
    var i := 0;
    while i < n / 2
      invariant 0 <= i <= n / 2
      invariant forall k | 0 <= k < i :: buf[k] == old(buf[n - 1 - k]) && buf[n - 1 - k] == old(buf[k])
      invariant forall k | i <= k < n - i :: buf[k] == old(buf[k])
      invariant buf[n..] == old(buf[n..])
    {
      buf[i], buf[n - 1 - i] := buf[n - 1 - i], buf[i];
      i := i + 1;
    }
    ghost var was := old(buf[..n]);
    forall k | 0 <= k < n ensures buf[..n][k] == Reversed(was)[k] {
    }
  }

  lemma ZeroText()
    ensures NumberText(0) == [DIGIT_0]
  {
  }

  /** x_write for integers: the text, in front of null bytes. */
  method Write(buf: array<byte>, x: int) returns (i: nat)
    requires buf.Length == 64 && -0x8000_0000_0000_0000 <= x < 0x1_0000_0000_0000_0000
    modifies buf
    ensures i <= 21 && buf[..i] == NumberText(x) && buf[i..] == old(buf[i..])
  {
    hide Numeral, Reversed, Digits;
    if x == 0 {
      ZeroText();
      buf[0] := DIGIT_0;
      return 1;
    }
    i := WriteDigits(buf, x);
    if x < 0 {
      buf[i] := MINUS;
      assert buf[..i + 1] == buf[..i] + [MINUS];
      ReversedSnoc(buf[..i], MINUS);
      i := i + 1;
    }
    Reverse(buf, i);
  }

  /** A C string: the bytes before the first null byte. */
  function CString(s: Text): Text {
    if s == [] || s[0] == 0 then [] else [s[0]] + CString(s[1..])
  }

  lemma {:induction false} CStringOf(text: Text, rest: Text)
    requires 0 !in text && rest != [] && rest[0] == 0
    ensures CString(text + rest) == text
  {
    if text != [] {
      assert (text + rest)[1..] == text[1..] + rest;
      CStringOf(text[1..], rest);
    } else {
      assert text + rest == rest;
    }
  }

  /** numtostr(x).c_str() is the decimal numeral of every 64-bit integer. */
  method NumToStr(x: int) returns (s: Text)
    requires -0x8000_0000_0000_0000 <= x < 0x1_0000_0000_0000_0000
    ensures s == NumberText(x)
  {
    var buf := new byte[64](_ => 0);
    var i := Write(buf, x);
    assert 0 !in NumberText(x) by {
      assert AllDigits(Numeral(Magnitude(x)));
    }
    assert buf[..] == buf[..i] + buf[i..];
    CStringOf(buf[..i], buf[i..]);
    return CString(buf[..]);
  }

  //////// get_number ////////

  /** get_number for a number token; what does not fit into 64 bits becomes a floating-point number. */
  function GetNumber(text: Text, kind: TokenType): Result<Json> {
    if kind == ValueUnsigned && text != [] && AllDigits(text) && ValueOf(text) < 0x1_0000_0000_0000_0000 then
      Ok(Uint(ValueOf(text)))
    else if kind == ValueInteger && |text| > 1 && text[0] == MINUS && AllDigits(text[1..]) &&
            ValueOf(text[1..]) <= 0x8000_0000_0000_0000 then
      Ok(Int(-(ValueOf(text[1..]) as int)))
    else Err(Unmodelled)
  }

  /** Reading undoes writing for all signed and unsigned integers. */
  lemma GetNumberText(x: int)
    ensures 0 <= x < 0x1_0000_0000_0000_0000 ==> GetNumber(NumberText(x), ValueUnsigned) == Ok(Uint(x))
    ensures -0x8000_0000_0000_0000 <= x < 0 ==> GetNumber(NumberText(x), ValueInteger) == Ok(Int(x))
  {
    if x < 0 {
      ValueOfNumeral(-x);
      var text := NumberText(x);
      assert text[1..] == Numeral(-x) && text[0] == MINUS;
    } else {
      ValueOfNumeral(x);
      assert NumberText(x) == Numeral(x);
    }
  }
}
