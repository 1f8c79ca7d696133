// json_pointer: escaping, the text form, and splitting it again (RFC 6901, sections 3 and 4).

module JsonPointer {
  import opened ByteStrings
  import opened Decimal

  const TILDE: byte := 0x7e
  const SLASH: byte := 0x2f
  const DIGIT_1: byte := 0x31

  //////// replace_substring ////////

  predicate OccursAt(s: Text, f: Text, i: nat) {
    i + |f| <= |s| && s[i..i + |f|] == f
  }

  /** std::string::find: the first occurrence of f at or after position pos. */
  function FindFrom(s: Text, f: Text, pos: nat): (r: Option<nat>)
    ensures r.Some? ==> pos <= r.value && OccursAt(s, f, r.value)
    ensures forall i | pos <= i && (r.Some? ==> i < r.value) :: !OccursAt(s, f, i)
    decreases |s| - pos
  {
    if pos + |f| > |s| then None
    else if s[pos..pos + |f|] == f then Some(pos)
    else if pos == |s| then None
    else FindFrom(s, f, pos + 1)
  }

  /** s with every occurrence of f, taken from left to right, replaced by t. */
  function Replaced(s: Text, f: Text, t: Text): Text
    requires f != []
  {
    if |s| < |f| then s
    else if s[..|f|] == f then t + Replaced(s[|f|..], f, t)
    else [s[0]] + Replaced(s[1..], f, t)
  }

  lemma OccursShift(s: Text, f: Text, n: nat, i: nat)
    requires n <= |s|
    ensures OccursAt(s[n..], f, i) == OccursAt(s, f, n + i)
  {
    if n + i + |f| <= |s| {
      assert s[n..][i..i + |f|] == s[n + i..n + i + |f|];
    }
  }

  lemma ReplacedHit(f: Text, rest: Text, t: Text)
    requires f != []
    ensures Replaced(f + rest, f, t) == t + Replaced(rest, f, t)
  {
    assert (f + rest)[..|f|] == f && (f + rest)[|f|..] == rest;
  }

  lemma ReplacedMiss(c: byte, rest: Text, f: Text, t: Text)
    requires f != [] && !OccursAt([c] + rest, f, 0)
    ensures Replaced([c] + rest, f, t) == [c] + Replaced(rest, f, t)
  {
    assert ([c] + rest)[1..] == rest;
    if |rest| + 1 < |f| {
      assert Replaced(rest, f, t) == rest;
    }
  }

  /** Where no occurrence starts, nothing changes. */
  lemma {:induction false} ReplacedSkip(a: Text, b: Text, f: Text, t: Text)
    requires f != []
    requires forall i | 0 <= i < |a| :: !OccursAt(a + b, f, i)
    ensures Replaced(a + b, f, t) == a + Replaced(b, f, t)
  {
    if a == [] {
      assert a + b == b;
    } else {
      var s, rest := a + b, a[1..] + b;
      assert s == [a[0]] + rest && s[1..] == rest;
      forall i | 0 <= i < |a[1..]| ensures !OccursAt(rest, f, i) {
        OccursShift(s, f, 1, i);
        assert !OccursAt(s, f, i + 1);
      }
      ReplacedMiss(a[0], rest, f, t);
      ReplacedSkip(a[1..], b, f, t);
      assert a == [a[0]] + a[1..];
      ConcatAssociative([a[0]], a[1..], Replaced(b, f, t));
    }
  }

  /** No occurrence between done and position p. */
  lemma SkipTo(s: Text, f: Text, t: Text, done: nat, p: nat)
    requires f != [] && done <= p <= |s|
    requires forall i | done <= i < p :: !OccursAt(s, f, i)
    ensures Replaced(s[done..], f, t) == s[done..p] + Replaced(s[p..], f, t)
  {
    var a, b := s[done..p], s[p..];
    assert s[done..] == a + b;
    forall i | 0 <= i < |a| ensures !OccursAt(a + b, f, i) {
      OccursShift(s, f, done, i);
    }
    ReplacedSkip(a, b, f, t);
  }

  /** The part of s before done is finished, the rest still has to be replaced. */
  predicate HalfReplaced(original: Text, f: Text, t: Text, s: Text, done: nat)
    requires f != []
  {
    done <= |s| && s[..done] + Replaced(s[done..], f, t) == Replaced(original, f, t)
  }

  lemma ReplaceStart(original: Text, f: Text, t: Text)
    requires f != []
    ensures HalfReplaced(original, f, t, original, 0)
  {
    assert original[..0] == [] && original[0..] == original;
    assert [] + Replaced(original, f, t) == Replaced(original, f, t);
  }

  lemma Regroup(a: Text, b: Text, c: Text, d: Text)
    ensures (a + b + c) + d == a + (b + (c + d))
  {
  }

  /** One turn of the loop of replace_substring: p is the next occurrence behind done. */
  lemma ReplaceTurn(original: Text, f: Text, t: Text, s: Text, done: nat, p: nat)
    requires f != [] && HalfReplaced(original, f, t, s, done) && done <= p && OccursAt(s, f, p)
    requires forall i | done <= i < p :: !OccursAt(s, f, i)
    ensures HalfReplaced(original, f, t, s[..p] + t + s[p + |f|..], p + |t|)
  {
    var behind := s[p + |f|..];
    var front := s[..p] + t;
    SkipTo(s, f, t, done, p);
    assert s[p..] == f + behind;
    ReplacedHit(f, behind, t);
    assert s[..p] == s[..done] + s[done..p];
    Regroup(s[..done], s[done..p], t, Replaced(behind, f, t));
    assert (front + behind)[..|front|] == front && (front + behind)[|front|..] == behind;
  }

  lemma ReplaceEnd(original: Text, f: Text, t: Text, s: Text, done: nat)
    requires f != [] && HalfReplaced(original, f, t, s, done) && FindFrom(s, f, done).None?
    ensures s == Replaced(original, f, t)
  {
    SkipTo(s, f, t, done, |s|);
    assert s[|s|..] == [] && s[done..|s|] == s[done..] && s == s[..done] + s[done..];
  }

  /** The in-place loop of replace_substring: replace, then search on behind the replacement. */
  method ReplaceSubstring(original: Text, f: Text, t: Text) returns (s: Text)
    requires f != []
    ensures s == Replaced(original, f, t)
  {
    s := original;
    var done: nat := 0;
    ReplaceStart(original, f, t);
    var pos := FindFrom(s, f, 0);
    while pos != None
      invariant HalfReplaced(original, f, t, s, done) && pos == FindFrom(s, f, done)
      decreases |s| - done
    {
      ReplaceTurn(original, f, t, s, done, pos.value);
      s := s[..pos.value] + t + s[pos.value + |f|..];
      done := pos.value + |t|;
      pos := FindFrom(s, f, done);
    }
    ReplaceEnd(original, f, t, s, done);
  }

  //////// escape and unescape ////////

  /** Section 3 of RFC 6901: "~" is written "~0" and "/" is written "~1". */
  function Escaped(s: Text): Text {
    if s == [] then [] else EscapedByte(s[0]) + Escaped(s[1..])
  }

  function EscapedByte(c: byte): Text {
    if c == TILDE then [TILDE, DIGIT_0] else if c == SLASH then [TILDE, DIGIT_1] else [c]
  }

  /** Section 4 of RFC 6901: first "~1" to "/", then "~0" to "~". */
  function Unescaped(s: Text): Text {
    Replaced(Replaced(s, [TILDE, DIGIT_1], [SLASH]), [TILDE, DIGIT_0], [TILDE])
  }

  method Escape(original: Text) returns (s: Text)
    ensures s == Escaped(original)
  {
    s := ReplaceSubstring(original, [TILDE], [TILDE, DIGIT_0]);
    s := ReplaceSubstring(s, [SLASH], [TILDE, DIGIT_1]);
    EscapedIsReplaced(original);
  }

  method Unescape(original: Text) returns (s: Text)
    ensures s == Unescaped(original)
  {
    s := ReplaceSubstring(original, [TILDE, DIGIT_1], [SLASH]);
    s := ReplaceSubstring(s, [TILDE, DIGIT_0], [TILDE]);
  }

  lemma {:induction false} EscapedIsReplaced(s: Text)
    ensures Replaced(Replaced(s, [TILDE], [TILDE, DIGIT_0]), [SLASH], [TILDE, DIGIT_1]) == Escaped(s)
  {
    if s == [] {
    } else {
      EscapedIsReplaced(s[1..]);
      var c, rest := s[0], Replaced(s[1..], [TILDE], [TILDE, DIGIT_0]);
      assert s == [c] + s[1..];
      if c == TILDE {
        ReplacedHit([TILDE], s[1..], [TILDE, DIGIT_0]);
        assert [TILDE, DIGIT_0] + rest == [TILDE] + ([DIGIT_0] + rest);
        ReplacedMiss(TILDE, [DIGIT_0] + rest, [SLASH], [TILDE, DIGIT_1]);
        ReplacedMiss(DIGIT_0, rest, [SLASH], [TILDE, DIGIT_1]);
      } else {
        ReplacedMiss(c, s[1..], [TILDE], [TILDE, DIGIT_0]);
        if c == SLASH {
          ReplacedHit([SLASH], rest, [TILDE, DIGIT_1]);
        } else {
          ReplacedMiss(c, rest, [SLASH], [TILDE, DIGIT_1]);
        }
      }
    }
  }

  /** Only tildes escaped: what is left of an escaped text after "~1" became "/". */
  function TildeEscaped(s: Text): Text {
    if s == [] then []
    else TildeEscapedByte(s[0]) + TildeEscaped(s[1..])
  }

  function TildeEscapedByte(c: byte): Text {
    if c == TILDE then [TILDE, DIGIT_0] else [c]
  }

  lemma SlashBackAtHead(c: byte, rest: Text)
    ensures Replaced(EscapedByte(c) + rest, [TILDE, DIGIT_1], [SLASH])
            == TildeEscapedByte(c) + Replaced(rest, [TILDE, DIGIT_1], [SLASH])
  {
    var f, t := [TILDE, DIGIT_1], [SLASH];
    if c == SLASH {
      ReplacedHit(f, rest, t);
    } else if c == TILDE {
      var more := [DIGIT_0] + rest;
      assert EscapedByte(c) + rest == [TILDE] + more;
      assert ([TILDE] + more)[0..2][1] == DIGIT_0;
      ReplacedMiss(TILDE, more, f, t);
      assert more[0] == DIGIT_0;
      ReplacedMiss(DIGIT_0, rest, f, t);
      var r := Replaced(rest, f, t);
      assert [TILDE] + ([DIGIT_0] + r) == [TILDE, DIGIT_0] + r;
    } else {
      assert ([c] + rest)[0] == c;
      ReplacedMiss(c, rest, f, t);
    }
  }

  lemma {:induction false} SlashesBack(s: Text)
    ensures Replaced(Escaped(s), [TILDE, DIGIT_1], [SLASH]) == TildeEscaped(s)
  {
    if s == [] {
    } else {
      SlashBackAtHead(s[0], Escaped(s[1..]));
      SlashesBack(s[1..]);
    }
  }

  lemma {:induction false} TildesBack(s: Text)
    ensures Replaced(TildeEscaped(s), [TILDE, DIGIT_0], [TILDE]) == s
  {
    if s == [] {
    } else {
      TildesBack(s[1..]);
      var c, rest := s[0], TildeEscaped(s[1..]);
      if c == TILDE {
        ReplacedHit([TILDE, DIGIT_0], rest, [TILDE]);
      } else {
        assert ([c] + rest)[0] == c;
        ReplacedMiss(c, rest, [TILDE, DIGIT_0], [TILDE]);
      }
      assert s == [c] + s[1..];
    }
  }

  lemma UnescapeUndoesEscape(s: Text)
    ensures Unescaped(Escaped(s)) == s
  {
    SlashesBack(s);
    TildesBack(s);
  }

  lemma {:induction false} EscapedDigits(ds: Text)
    requires AllDigits(ds)
    ensures Escaped(ds) == ds
  {
    if ds == [] {
    } else {
      EscapedDigits(ds[1..]);
      assert IsDigit(ds[0]);
      assert ds == [ds[0]] + ds[1..];
    }
  }

  /** Every "~" is followed by "0" or "1". */
  predicate WellEscaped(s: Text) {
    forall i | 0 <= i < |s| && s[i] == TILDE :: i + 1 < |s| && s[i + 1] in {DIGIT_0, DIGIT_1}
  }

  lemma {:induction false} EscapedWellFormed(s: Text)
    ensures WellEscaped(Escaped(s)) && SLASH !in Escaped(s)
  {
    if s == [] {
    } else {
      EscapedWellFormed(s[1..]);
      var e, rest := Escaped(s), Escaped(s[1..]);
      var n := |e| - |rest|;
      forall i | 0 <= i < |e| && e[i] == TILDE
        ensures i + 1 < |e| && e[i + 1] in {DIGIT_0, DIGIT_1}
      {
        if i >= n { assert rest[i - n] == TILDE && e[i + 1] == rest[i - n + 1]; }
      }
    }
  }

  /** A well-escaped token without slash is the escape of what it unescapes to. */
  lemma {:induction false} EscapeUndoesUnescape(x: Text) returns (s: Text)
    requires WellEscaped(x) && SLASH !in x
    ensures Escaped(s) == x && Unescaped(x) == s
  {
    if x == [] {
      s := [];
    } else if x[0] == TILDE {
      assert x[1] in {DIGIT_0, DIGIT_1};
      WellEscapedRest(x, 2);
      var t := EscapeUndoesUnescape(x[2..]);
      s := [if x[1] == DIGIT_0 then TILDE else SLASH] + t;
      assert s[1..] == t;
      assert x == x[..2] + x[2..];
      UnescapeUndoesEscape(s);
    } else {
      WellEscapedRest(x, 1);
      var t := EscapeUndoesUnescape(x[1..]);
      s := [x[0]] + t;
      assert s[1..] == t;
      assert x == [x[0]] + x[1..];
      UnescapeUndoesEscape(s);
    }
  }

  lemma WellEscapedRest(x: Text, n: nat)
    requires WellEscaped(x) && SLASH !in x && n <= |x|
    ensures WellEscaped(x[n..]) && SLASH !in x[n..]
  {
    forall i | 0 <= i < |x[n..]| && x[n..][i] == TILDE
      ensures i + 1 < |x[n..]| && x[n..][i + 1] in {DIGIT_0, DIGIT_1}
    {
      assert x[n + i] == TILDE;
    }
  }

  //////// to_string and split ////////

  /** json_pointer::to_string */
  function PointerText(tokens: seq<Text>): Text {
    if tokens == [] then [] else [SLASH] + (Escaped(tokens[0]) + PointerText(tokens[1..]))
  }

  lemma {:induction false} PointerTextAppend(a: seq<Text>, b: seq<Text>)
    ensures PointerText(a + b) == PointerText(a) + PointerText(b)
  {
    if a == [] {
      assert a + b == b;
    } else {
      PointerTextAppend(a[1..], b);
      assert (a + b)[0] == a[0] && (a + b)[1..] == a[1..] + b;
      var e, x, y := Escaped(a[0]), PointerText(a[1..]), PointerText(b);
      ConcatAssociative([SLASH], e + x, y);
      ConcatAssociative(e, x, y);
    }
  }

  lemma PointerTextOne(token: Text)
    ensures PointerText([token]) == [SLASH] + Escaped(token)
  {
    assert [token][1..] == [];
  }

  lemma PointerTextCons(token: Text, p: seq<Text>)
    ensures PointerText([token] + p) == [SLASH] + (Escaped(token) + PointerText(p))
  {
    assert ([token] + p)[1..] == p;
  }

  /** The accumulation of to_string, token by token. */
  method ToString(tokens: seq<Text>) returns (s: Text)
    ensures s == PointerText(tokens)
  {
    s := [];
    for i := 0 to |tokens|
      invariant s == PointerText(tokens[..i])
    {
      var e := Escape(tokens[i]);
      PointerTextAppend(tokens[..i], [tokens[i]]);
      PointerTextOne(tokens[i]);
      assert tokens[..i + 1] == tokens[..i] + [tokens[i]];
      s := s + [SLASH] + e;
    }
    assert tokens[..|tokens|] == tokens;
  }

  function SlashAt(s: Text): (n: nat)
    ensures n <= |s| && SLASH !in s[..n] && (n < |s| ==> s[n] == SLASH)
  {
    if s == [] || s[0] == SLASH then 0 else 1 + SlashAt(s[1..])
  }

  /** The tokens of a pointer text behind its first slash, or the escape error of split. */
  function SplitRest(s: Text): Result<seq<Text>> {
    var n := SlashAt(s);
    if !WellEscaped(s[..n]) then Err(DomainError)
    else if n == |s| then Ok([Unescaped(s)])
    else
      var rest :- SplitRest(s[n + 1..]);
      Ok([Unescaped(s[..n])] + rest)
  }

  /** json_pointer::split as a function. */
  function SplitSpec(s: Text): Result<seq<Text>> {
    if s == [] then Ok([])
    else if s[0] != SLASH then Err(DomainError)
    else SplitRest(s[1..])
  }

  function Prepended(tokens: seq<Text>, r: Result<seq<Text>>): Result<seq<Text>> {
    match r
    case Ok(rest) => Ok(tokens + rest)
    case Err(e) => Err(e)
  }

  lemma SplitRestLast(e: Text)
    requires SLASH !in e
    ensures SplitRest(e) == if WellEscaped(e) then Ok([Unescaped(e)]) else Err(DomainError)
  {
    assert e[..|e|] == e;
  }

  lemma {:induction false} SlashAtUnique(s: Text, n: nat)
    requires n < |s| && s[n] == SLASH && SLASH !in s[..n]
    ensures SlashAt(s) == n
  {
    if n == 0 {
    } else {
      assert s[0] == s[..n][0];
      assert s[1..][..n - 1] == s[..n][1..];
      SlashAtUnique(s[1..], n - 1);
    }
  }

  lemma SplitRestCons(e: Text, tail: Text)
    requires SLASH !in e && tail != [] && tail[0] == SLASH
    ensures SplitRest(e + tail) ==
            if !WellEscaped(e) then Err(DomainError) else Prepended([Unescaped(e)], SplitRest(tail[1..]))
  {
    var s, n := e + tail, |e|;
    assert s[..n] == e && s[n] == SLASH && s[n + 1..] == tail[1..];
    SlashAtUnique(s, n);
  }

  lemma {:induction false} SplitRestOfText(tokens: seq<Text>)
    requires tokens != []
    ensures SplitRest(PointerText(tokens)[1..]) == Ok(tokens)
  {
    var e, tail := Escaped(tokens[0]), PointerText(tokens[1..]);
    EscapedWellFormed(tokens[0]);
    UnescapeUndoesEscape(tokens[0]);
    assert PointerText(tokens)[1..] == e + tail;
    if tokens[1..] == [] {
      assert e + tail == e;
      SplitRestLast(e);
      assert tokens == [tokens[0]];
    } else {
      SplitRestCons(e, tail);
      SplitRestOfText(tokens[1..]);
      assert tokens == [tokens[0]] + tokens[1..];
    }
  }

  /** The documented invariant of to_string: parsing the text of a pointer gives the pointer back. */
  lemma SplitUndoesToString(tokens: seq<Text>)
    ensures SplitSpec(PointerText(tokens)) == Ok(tokens)
  {
    if tokens != [] {
      assert PointerText(tokens)[0] == SLASH;
      SplitRestOfText(tokens);
    }
  }

  lemma PointerTextInjective(a: seq<Text>, b: seq<Text>)
    requires PointerText(a) == PointerText(b)
    ensures a == b
  {
    SplitUndoesToString(a);
    SplitUndoesToString(b);
  }

  predicate IsTextOf(s: Text, tokens: seq<Text>) {
    PointerText(tokens) == s
  }

  lemma LastTokenText(e: Text)
    requires WellEscaped(e) && SLASH !in e
    ensures IsTextOf([SLASH] + e, [Unescaped(e)])
  {
    var token := EscapeUndoesUnescape(e);
    PointerTextOne(token);
  }

  lemma MoreTokensText(e: Text, more: Text, rest: seq<Text>)
    requires WellEscaped(e) && SLASH !in e && IsTextOf([SLASH] + more, rest)
    ensures IsTextOf([SLASH] + (e + ([SLASH] + more)), [Unescaped(e)] + rest)
  {
    var token := EscapeUndoesUnescape(e);
    PointerTextCons(token, rest);
  }

  lemma {:induction false} RestTextOfSplit(s: Text)
    requires SplitRest(s).Ok?
    ensures IsTextOf([SLASH] + s, SplitRest(s).value)
  {
    hide IsTextOf, SlashAt;
    var n := SlashAt(s);
    if n == |s| {
      assert s[..n] == s;
      LastTokenText(s);
    } else {
      RestTextOfSplit(s[n + 1..]);
      MoreTokensText(s[..n], s[n + 1..], SplitRest(s[n + 1..]).value);
      assert s == s[..n] + ([SLASH] + s[n + 1..]);
    }
  }

  /** The other direction: split accepts exactly the texts that to_string makes. */
  lemma SplitAcceptsExactlyPointers(s: Text)
    ensures SplitSpec(s).Ok? ==> IsTextOf(s, SplitSpec(s).value)
    ensures SplitSpec(s).Ok? <==> exists tokens :: IsTextOf(s, tokens)
  {
    if SplitSpec(s).Ok? {
      if s != [] {
        RestTextOfSplit(s[1..]);
        assert s == [SLASH] + s[1..];
      }
      var tokens: seq<Text> := SplitSpec(s).value;
      assert IsTextOf(s, tokens);
    }
    if tokens :| IsTextOf(s, tokens) {
      SplitUndoesToString(tokens);
    }
  }

  /** The loop over the tildes of a token. */
  method CheckTildes(token: Text) returns (ok: bool)
    requires |token| <= MAX_SIZE
    ensures ok == WellEscaped(token)
  {
    var pos := FindFirstOf(token, TILDE, 0);
    while pos != NPOS
      invariant pos == NPOS || (pos < |token| && token[pos] == TILDE)
      invariant forall i | 0 <= i < |token| && token[i] == TILDE && (pos == NPOS || i < pos) ::
                  i + 1 < |token| && token[i + 1] in {DIGIT_0, DIGIT_1}
      decreases if pos == NPOS then 0 else 1 + |token| - pos
    {
      if pos == |token| - 1 || (token[pos + 1] != DIGIT_0 && token[pos + 1] != DIGIT_1) {
        return false;
      }
      pos := FindFirstOf(token, TILDE, pos + 1);
    }
    return true;
  }

  lemma PrependedNone(r: Result<seq<Text>>)
    ensures Prepended([], r) == r
  {
    if r.Ok? { assert [] + r.value == r.value; }
  }

  lemma PrependedTwice(a: seq<Text>, b: seq<Text>, r: Result<seq<Text>>)
    ensures Prepended(a + b, r) == Prepended(a, Prepended(b, r))
  {
    if r.Ok? { ConcatAssociative(a, b, r.value); }
  }

  function TokenAt(s: Text, start: nat, slash: nat): Text
    requires start <= |s| && (slash == NPOS || start <= slash <= |s|)
  {
    if slash == NPOS then s[start..] else s[start..slash]
  }

  /** One turn of the loop of split. */
  lemma SplitTurn(s: Text, start: nat, slash: nat, tokens: seq<Text>)
    requires start <= |s| <= MAX_SIZE && slash == FindFirstOf(s, SLASH, start)
    ensures var token := TokenAt(s, start, slash);
            Prepended(tokens, SplitRest(s[start..])) ==
            if !WellEscaped(token) then Err(DomainError)
            else if slash == NPOS then Ok(tokens + [Unescaped(token)])
            else Prepended(tokens + [Unescaped(token)], SplitRest(s[slash + 1..]))
  {
    var token := TokenAt(s, start, slash);
    if slash == NPOS {
      SplitRestLast(token);
    } else {
      assert s[start..] == token + s[slash..] && s[slash..][1..] == s[slash + 1..];
      SplitRestCons(token, s[slash..]);
      PrependedTwice(tokens, [Unescaped(token)], SplitRest(s[slash + 1..]));
    }
  }

  /** slash + 1 in size_t arithmetic: npos + 1 is 0. */
  lemma NposWraps(slash: nat)
    requires slash <= NPOS
    ensures (slash + 1) % (NPOS + 1) == if slash == NPOS then 0 else slash + 1
  {
  }

  /** json_pointer::split with its loop that ends when npos + 1 wraps round to 0. */
  method Split(s: Text) returns (r: Result<seq<Text>>)
    requires |s| <= MAX_SIZE
    ensures r == SplitSpec(s)
  {
    if s == [] {
      return Ok([]);
    }
    if s[0] != SLASH {
      return Err(DomainError);
    }
    var tokens: seq<Text> := [];
    var slash := FindFirstOf(s, SLASH, 1);
    var start := 1;
    PrependedNone(SplitRest(s[1..]));
    while start != 0
      invariant start <= |s|
      invariant start == 0 ==> SplitRest(s[1..]) == Ok(tokens)
      invariant start != 0 ==> slash == FindFirstOf(s, SLASH, start)
      invariant start != 0 ==> SplitRest(s[1..]) == Prepended(tokens, SplitRest(s[start..]))
      decreases if start == 0 then 0 else 1 + |s| - start
    {
      SplitTurn(s, start, slash, tokens);
      // substr(start, slash - start), cut at the end of the text
      var token := TokenAt(s, start, slash);
      var ok := CheckTildes(token);
      if !ok {
        return Err(DomainError);
      }
      token := Unescape(token);
      tokens := tokens + [token];
      NposWraps(slash);
      start := (slash + 1) % (NPOS + 1);
      slash := FindFirstOf(s, SLASH, start);
    }
    return Ok(tokens);
  }
}
