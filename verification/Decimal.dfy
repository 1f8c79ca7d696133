// Decimal numerals: std::to_string, the integer half of numtostr, std::stoi and
// the integer parsing of strtoull and strtoll.

module Decimal {
  import opened ByteStrings

  const MINUS: byte := 0x2d
  const DIGIT_0: byte := 0x30

  predicate IsDigit(b: byte) {
    0x30 <= b <= 0x39
  }

  predicate AllDigits(ds: Text) {
    forall i | 0 <= i < |ds| :: IsDigit(ds[i])
  }

  /** The numeral of n without leading zeros. */
  function Numeral(n: nat): (ds: Text)
    ensures ds != [] && AllDigits(ds)
  {
    if n < 10 then [0x30 + n] else Numeral(n / 10) + [0x30 + n % 10]
  }

  /** The number that a string of digits denotes. */
  function ValueOf(ds: Text): nat
    requires AllDigits(ds)
  {
    if ds == [] then 0 else 10 * ValueOf(ds[..|ds| - 1]) + (ds[|ds| - 1] - 0x30)
  }

  lemma {:induction false} ValueOfNumeral(n: nat)
    ensures ValueOf(Numeral(n)) == n
  {
    if n < 10 {
    } else {
      ValueOfNumeral(n / 10);
      assert Numeral(n)[..|Numeral(n)| - 1] == Numeral(n / 10);
    }
  }

  /** Digits without leading zeros are a numeral. */
  lemma {:induction false} NumeralOfValue(ds: Text)
    requires ds != [] && AllDigits(ds) && (ds[0] == 0x30 ==> |ds| == 1)
    ensures Numeral(ValueOf(ds)) == ds
    ensures |ds| > 1 ==> ValueOf(ds) >= 10
  {
    var front, last := ds[..|ds| - 1], ds[|ds| - 1] - 0x30;
    assert ds == front + [ds[|ds| - 1]];
    if front == [] {
      assert ValueOf(front) == 0;
    } else {
      NumeralOfValue(front);
      assert ValueOf(front) > 0;
      assert ValueOf(ds) / 10 == ValueOf(front) && ValueOf(ds) % 10 == last;
    }
  }

  lemma NumeralInjective(m: nat, n: nat)
    requires Numeral(m) == Numeral(n)
    ensures m == n
  {
    ValueOfNumeral(m);
    ValueOfNumeral(n);
  }

  lemma {:induction false} NoLeadingZero(n: nat)
    ensures n != 0 ==> Numeral(n)[0] != 0x30
    ensures n == 0 <==> Numeral(n) == [0x30]
  {
    if n < 10 {
    } else {
      NoLeadingZero(n / 10);
      assert Numeral(n)[0] == Numeral(n / 10)[0];
    }
  }

  /** std::isspace in the "C" locale. */
  predicate IsSpace(b: byte) {
    b == 0x20 || 0x09 <= b <= 0x0d
  }

  function DigitsAhead(s: Text): (n: nat)
    ensures n <= |s| && AllDigits(s[..n])
    ensures n < |s| ==> !IsDigit(s[n])
  {
    if s == [] || !IsDigit(s[0]) then 0 else 1 + DigitsAhead(s[1..])
  }

  const INT_MAX: int := 0x7fff_ffff

  /** std::stoi: blanks, a sign, then as many digits as there are; the rest is ignored. */
  function Stoi(s: Text): Result<int>
  {
    if s != [] && IsSpace(s[0]) then Stoi(s[1..])
    else
      var negative := s != [] && s[0] == 0x2d;
      var body := if s != [] && s[0] in {0x2b, 0x2d} then s[1..] else s;
      var n := DigitsAhead(body);
      if n == 0 then Err(InvalidArgument)
      else
        var magnitude: int := ValueOf(body[..n]);
        var value := if negative then -magnitude else magnitude;
        if -INT_MAX - 1 <= value <= INT_MAX then Ok(value) else Err(OutOfRange)
  }

  /** stoi undoes to_string up to INT_MAX and refuses larger numerals. */
  lemma StoiNumeral(n: nat)
    ensures Stoi(Numeral(n)) == if n <= INT_MAX then Ok(n) else Err(OutOfRange)
  {
    var ds := Numeral(n);
    assert IsDigit(ds[0]);
    assert DigitsAhead(ds) == |ds|;
    assert ds[..|ds|] == ds;
    ValueOfNumeral(n);
  }

  /** Text that stoi reads: white space, a sign, digits, and something that no digit continues. */
  predicate IsNumberText(s: Text, blanks: Text, sign: Text, digits: Text, rest: Text) {
    s == blanks + (sign + (digits + rest)) &&
    (forall i | 0 <= i < |blanks| :: blanks[i] in {0x20, 0x09, 0x0a, 0x0b, 0x0c, 0x0d}) &&
    (sign == [] || sign == [0x2b] || sign == [0x2d]) && digits != [] && AllDigits(digits) &&
    (rest == [] || !(0x30 <= rest[0] <= 0x39))
  }

  lemma {:induction false} DigitsAheadOf(digits: Text, rest: Text)
    requires AllDigits(digits) && (rest == [] || !IsDigit(rest[0]))
    ensures DigitsAhead(digits + rest) == |digits|
  {
    if digits == [] {
      assert digits + rest == rest;
    } else {
      assert IsDigit(digits[0]);
      assert (digits + rest)[1..] == digits[1..] + rest;
      DigitsAheadOf(digits[1..], rest);
    }
  }

  /** stoi returns the number of the digits, with its sign, if it is an int. */
  lemma {:induction false} StoiOfNumberText(s: Text, blanks: Text, sign: Text, digits: Text, rest: Text)
    requires IsNumberText(s, blanks, sign, digits, rest)
    ensures var n := if sign == [0x2d] then -(ValueOf(digits) as int) else ValueOf(digits);
            Stoi(s) == if -0x8000_0000 <= n <= 0x7fff_ffff then Ok(n) else Err(OutOfRange)
    decreases |blanks|
  {
    hide ValueOf, DigitsAhead;
    if blanks == [] {
      assert s == sign + (digits + rest);
      StoiOfSigned(s, sign, digits, rest);
    } else {
      assert s[0] == blanks[0] && s[1..] == blanks[1..] + (sign + (digits + rest));
      StoiOfNumberText(s[1..], blanks[1..], sign, digits, rest);
    }
  }

  lemma StoiOfSigned(s: Text, sign: Text, digits: Text, rest: Text)
    requires s == sign + (digits + rest) && IsNumberText(s, [], sign, digits, rest)
    ensures var n := if sign == [0x2d] then -(ValueOf(digits) as int) else ValueOf(digits);
            Stoi(s) == if -0x8000_0000 <= n <= 0x7fff_ffff then Ok(n) else Err(OutOfRange)
  {
    hide ValueOf, DigitsAhead;
    var body := digits + rest;
    assert digits[0] == body[0] && IsDigit(digits[0]);
    DigitsAheadOf(digits, rest);
    assert body[..|digits|] == digits;
    if sign == [] {
      assert s == body;
    } else {
      assert s[0] == sign[0] && s[1..] == body;
    }
  }

  lemma PartsOfSigned(s: Text) returns (sign: Text, digits: Text, rest: Text)
    requires Stoi(s) != Err(InvalidArgument) && (s == [] || !IsSpace(s[0]))
    ensures IsNumberText(s, [], sign, digits, rest)
  {
    hide ValueOf, DigitsAhead;
    var body := s;
    sign := [];
    if s != [] && s[0] in {0x2b, 0x2d} {
      sign, body := [s[0]], s[1..];
    }
    assert s == sign + body;
    digits, rest := BehindSign(body);
    assert body == digits + rest;
    assert s == [] + (sign + (digits + rest));
  }

  lemma BehindSign(body: Text) returns (digits: Text, rest: Text)
    requires DigitsAhead(body) > 0
    ensures body == digits + rest && digits != [] && AllDigits(digits) && (rest == [] || !IsDigit(rest[0]))
  {
    hide DigitsAhead;
    digits, rest := body[..DigitsAhead(body)], body[DigitsAhead(body)..];
  }

  lemma {:induction false} PartsOfNumberText(s: Text) returns (blanks: Text, sign: Text, digits: Text, rest: Text)
    requires Stoi(s) != Err(InvalidArgument)
    ensures IsNumberText(s, blanks, sign, digits, rest)
  {
    hide ValueOf, DigitsAhead, AllDigits;
    if s != [] && IsSpace(s[0]) {
      blanks, sign, digits, rest := PartsOfNumberText(s[1..]);
      blanks := [s[0]] + blanks;
      assert s == [s[0]] + s[1..];
      ConcatAssociative([s[0]], blanks[1..], sign + (digits + rest));
    } else {
      blanks := [];
      sign, digits, rest := PartsOfSigned(s);
    }
  }

  /** stoi throws std::invalid_argument exactly where no number stands. */
  lemma StoiRefuses(s: Text)
    ensures Stoi(s) == Err(InvalidArgument) <==>
            forall blanks, sign, digits, rest :: !IsNumberText(s, blanks, sign, digits, rest)
  {
    hide Stoi, IsNumberText;
    if Stoi(s) != Err(InvalidArgument) {
      var blanks, sign, digits, rest := PartsOfNumberText(s);
    }
    forall blanks, sign, digits, rest | IsNumberText(s, blanks, sign, digits, rest)
      ensures Stoi(s) != Err(InvalidArgument)
    {
      StoiOfNumberText(s, blanks, sign, digits, rest);
    }
  }

  lemma {:induction false} DigitsAheadStop(s: Text, t: Text)
    requires t != [] && !IsDigit(t[0])
    ensures DigitsAhead(s + t) == DigitsAhead(s)
  {
    if s == [] {
      assert s + t == t;
    } else {
      assert (s + t)[0] == s[0] && (s + t)[1..] == s[1..] + t;
      DigitsAheadStop(s[1..], t);
    }
  }

  /** stoi does not see what follows a byte that is no blank, no sign and no digit. */
  lemma {:induction false} StoiStops(s: Text, t: Text)
    requires t != [] && !IsDigit(t[0]) && !IsSpace(t[0]) && t[0] !in {0x2b, 0x2d}
    ensures Stoi(s + t) == Stoi(s)
  {
    if s == [] {
      assert s + t == t;
      assert DigitsAhead(t) == 0;
    } else {
      assert (s + t)[0] == s[0] && (s + t)[1..] == s[1..] + t;
      if IsSpace(s[0]) {
        StoiStops(s[1..], t);
      } else {
        var body := if s[0] in {0x2b, 0x2d} then s[1..] else s;
        var n := DigitsAhead(body);
        DigitsAheadStop(body, t);
        assert (body + t)[..n] == body[..n];
      }
    }
  }
}
