// utils::HostAndPort, the address of a node, and the text that it has in a reply.

module HostAndPort {
  import opened ByteStrings
  import opened Decimal

  const COLON: byte := 0x3a

  datatype HostAndPort = HostAndPort(host: Text, port: uint32)

  /** A default-constructed address. */
  const NOWHERE: HostAndPort := HostAndPort([], 0)

  function ToString(a: HostAndPort): Text {
    a.host + [COLON] + Numeral(a.port)
  }

  /** FromString; the index of the colon is kept in 32 bits, so that npos + 1 is 0. */
  function FromString(s: Text): Result<HostAndPort>
    requires |s| <= MAX_SIZE
  {
    var colonIdx := FindFirstOf(s, COLON, 0) % 0x1_0000_0000;
    ReadAt(s, colonIdx, (colonIdx + 1) % 0x1_0000_0000)
  }

  /** s.substr(0, end) and the number in s.substr(next). */
  function ReadAt(s: Text, end: nat, next: nat): Result<HostAndPort> {
    if next > |s| then Err(OutOfRange)
    else
      var port :- Stoi(s[next..]);
      Ok(HostAndPort(s[..Min(end, |s|)], port % 0x1_0000_0000))
  }

  /** The hosts and ports whose text is read back. Behind a host of 2^32 - 1 bytes the colon has the index that npos
      is cut to, so that the port is read from the beginning of the text: the host has to begin with it. */
  predicate Readable(a: HostAndPort) {
    COLON !in a.host &&
    if |a.host| == 0xffff_ffff
    then Stoi(a.host).Ok? && Stoi(a.host).value % 0x1_0000_0000 == a.port
    else |a.host| < 0xffff_ffff && a.port <= INT_MAX
  }

  lemma TextParts(a: HostAndPort)
    ensures var s, n := ToString(a), |a.host|;
            n < |s| && s[n] == COLON && s[..n] == a.host && s[n + 1..] == Numeral(a.port)
  {
  }

  lemma ColonOf(a: HostAndPort)
    requires |ToString(a)| <= MAX_SIZE
    ensures var m := FindFirstOf(ToString(a), COLON, 0); m <= |a.host| && (COLON in a.host <==> m < |a.host|)
  {
    var s := ToString(a);
    TextParts(a);
    assert forall i | 0 <= i < |a.host| :: s[i] == a.host[i];
  }

  lemma ReadShortHost(a: HostAndPort)
    requires |ToString(a)| <= MAX_SIZE && COLON !in a.host && |a.host| < 0xffff_ffff
    ensures FromString(ToString(a)) == if a.port <= INT_MAX then Ok(a) else Err(OutOfRange)
  {
    var s, n := ToString(a), |a.host|;
    TextParts(a);
    ColonOf(a);
    StoiNumeral(a.port);
    FitsIn32(n);
    FitsIn32(n + 1);
    FitsIn32(a.port);
    assert FromString(s) == ReadAt(s, n, n + 1);
  }

  lemma FitsIn32(n: nat)
    requires n < 0x1_0000_0000
    ensures n % 0x1_0000_0000 == n
  {
  }

  lemma ReadCutIndex(a: HostAndPort)
    requires |ToString(a)| <= MAX_SIZE && COLON !in a.host && |a.host| == 0xffff_ffff
    ensures FromString(ToString(a)) == Ok(a) <==> Readable(a)
  {
    var s := ToString(a);
    TextParts(a);
    ColonOf(a);
    assert s[0..] == s;
    assert s == a.host + ([COLON] + Numeral(a.port));
    StoiStops(a.host, [COLON] + Numeral(a.port));
  }

  lemma ReadOtherHost(a: HostAndPort)
    requires |ToString(a)| <= MAX_SIZE && (COLON in a.host || |a.host| > 0xffff_ffff)
    ensures FromString(ToString(a)).Ok? ==> |FromString(ToString(a)).value.host| < |a.host|
  {
    hide Stoi, Numeral;
    ColonOf(a);
  }

  /** Reading the text of an address gives the address back if and only if the host has no colon and either it is
      shorter than 2^32 - 1 bytes and the port is below 2^31, or it has 2^32 - 1 bytes and begins with the port. */
  lemma FromStringUndoesToString(a: HostAndPort)
    requires |ToString(a)| <= MAX_SIZE
    ensures FromString(ToString(a)) == Ok(a) <==> Readable(a)
  {
    if COLON in a.host || |a.host| > 0xffff_ffff {
      ReadOtherHost(a);
    } else if |a.host| == 0xffff_ffff {
      ReadCutIndex(a);
    } else {
      ReadShortHost(a);
    }
  }

  /** Any text is cut at its first colon, and what stands behind is read by std::stoi, modulo 2^32. Without a colon, the
      whole text is the host, and the port is read from its beginning. */
  lemma FromStringCutsAtColon(s: Text, n: nat)
    requires |s| < 0xffff_ffff && n <= |s| && 0x3a !in s[..n] && (n < |s| ==> s[n] == 0x3a)
    ensures var port := Stoi(if n < |s| then s[n + 1..] else s);
            FromString(s) == if port.Ok? then Ok(HostAndPort(s[..n], port.value % 0x1_0000_0000)) else Err(port.error)
  {
    hide Stoi, FromString;
    WhereToRead(s, n);
    if n == |s| {
      assert s[..n] == s && s[0..] == s;
    }
  }

  lemma WhereToRead(s: Text, n: nat)
    requires |s| < 0xffff_ffff && n <= |s| && 0x3a !in s[..n] && (n < |s| ==> s[n] == 0x3a)
    ensures FromString(s) == if n < |s| then ReadAt(s, n, n + 1) else ReadAt(s, 0xffff_ffff, 0)
  {
    hide ReadAt, FindFirstOf;
    FirstColon(s, n);
    if n < |s| {
      FitsIn32(n);
      FitsIn32(n + 1);
    }
  }

  lemma FirstColon(s: Text, n: nat)
    requires n <= |s| <= MAX_SIZE && 0x3a !in s[..n] && (n < |s| ==> s[n] == 0x3a)
    ensures FindFirstOf(s, COLON, 0) == if n < |s| then n else NPOS
  {
    var r := FindFirstOf(s, COLON, 0);
    assert forall i | 0 <= i < n :: s[i] == s[..n][i];
  }

  /** The first port that std::stoi cannot read. */
  lemma LargePortIsNotRead()
    ensures FromString(ToString(HostAndPort([0x61], 0x8000_0000))) == Err(OutOfRange)
  {
    ReadShortHost(HostAndPort([0x61], 0x8000_0000));
  }

  /** A host such as "::1" is cut at its first colon. */
  lemma ColonInHostIsNotRead()
    ensures FromString(ToString(HostAndPort([0x3a, 0x3a, 0x31], 80))) != Ok(HostAndPort([0x3a, 0x3a, 0x31], 80))
  {
    FromStringUndoesToString(HostAndPort([0x3a, 0x3a, 0x31], 80));
  }

  /** With 2^32 - 1 bytes, the host "-5xxx..." and the port 2^32 - 5 are read back although no port of that size
      is read behind a shorter host. */
  lemma LongHostReadsItself()
    ensures var a := HostAndPort([0x2d, 0x35] + seq(0xffff_fffd, _ => 0x78), 0xffff_fffb);
            FromString(ToString(a)) == Ok(a)
  {
    var tail: Text := seq(0xffff_fffd, _ => 0x78);
    var host: Text := [0x2d, 0x35] + tail;
    StoiStops([0x2d, 0x35], tail);
    assert Stoi([0x2d, 0x35]) == Ok(-5) by {
      assert [0x2d, 0x35][1..] == [0x35] && [0x35][..1] == [0x35] && DigitsAhead([0x35]) == 1;
      assert [0x35][..0] == [] && ValueOf([0x35]) == 5;
    }
    FromStringUndoesToString(HostAndPort(host, 0xffff_fffb));
  }
}
