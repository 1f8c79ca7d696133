// dump: a value as JSON text, compact or indented.

module JsonDump {
  import opened ByteStrings
  import opened JsonValue
  import opened JsonString
  import opened Lexer
  import opened Numbers

  const SPACE: byte := 0x20
  const NEWLINE: byte := 0x0a
  const COLON: byte := 0x3a
  const COMMA: byte := 0x2c

  function Deeper(indent: uint32, step: uint32): uint32 {
    (indent + step) % 0x1_0000_0000
  }

  function Shallower(indent: uint32, step: uint32): uint32 {
    (indent - step) % 0x1_0000_0000
  }

  /** The indentation after an array or object is the one before it, even if it has wrapped around. */
  lemma IndentReturns(indent: uint32, step: uint32)
    ensures Shallower(Deeper(indent, step), step) == indent
  {
  }

  /** string_t(n, ' ') */
  function Spaces(n: nat): (s: Text)
    ensures |s| == n && forall i | 0 <= i < n :: s[i] == SPACE
  {
    if n == 0 then [] else Spaces(n - 1) + [SPACE]
  }

  /** Parts with a separator between them. */
  function Listed(parts: seq<Text>, sep: Text): Text {
    if parts == [] then []
    else if |parts| == 1 then parts[0]
    else parts[0] + (sep + Listed(parts[1..], sep))
  }

  function Quoted(s: Text): Text {
    [QUOTE] + Escaped(s) + [QUOTE]
  }

  /** How an array or object is laid out. */
  datatype Layout = Layout(pretty: bool, step: uint32) {
    function Inner(indent: uint32): uint32 {
      if pretty then Deeper(indent, step) else indent
    }

    function Break(): Text {
      if pretty then [NEWLINE] else []
    }

    function Separator(): Text {
      if pretty then [COMMA, NEWLINE] else [COMMA]
    }

    function KeyEnd(): Text {
      if pretty then [QUOTE, COLON, SPACE] else [QUOTE, COLON]
    }
  }

  /** The text of a value. */
  function Dumped(j: Json, f: Layout, indent: uint32): Text
    decreases j, 1
  {
    match j
    case Null => NULL_TEXT
    case Bool(b) => if b then TRUE_TEXT else FALSE_TEXT
    case Int(i) => NumberText(i)
    case Uint(u) => NumberText(u)
    case Str(s) => Quoted(s)
    case Arr(es) =>
      if es == [] then [0x5b, 0x5d]
      else [0x5b] + Block(Listed(DumpedItems(es, f, f.Inner(indent)), f.Separator()), f, indent) + [0x5d]
    case Obj(ms) =>
      if ms == [] then [0x7b, 0x7d]
      else [0x7b] + Block(Listed(DumpedMembers(ms, f, f.Inner(indent)), f.Separator()), f, indent) + [0x7d]
  }

  /** The lines between the brackets. */
  function Block(lines: Text, f: Layout, indent: uint32): Text {
    f.Break() + lines + f.Break() + Spaces(indent)
  }

  function DumpedItem(e: Json, f: Layout, indent: uint32): Text
    decreases e, 2
  {
    Spaces(indent) + Dumped(e, f, indent)
  }

  function DumpedItems(es: seq<Json>, f: Layout, indent: uint32): (parts: seq<Text>)
    ensures |parts| == |es|
    decreases es, 0
  {
    if es == [] then [] else [DumpedItem(es[0], f, indent)] + DumpedItems(es[1..], f, indent)
  }

  function DumpedMember(m: Member, f: Layout, indent: uint32): Text
    decreases m, 2
  {
    Spaces(indent) + [QUOTE] + Escaped(m.key) + f.KeyEnd() + Dumped(m.value, f, indent)
  }

  function DumpedMembers(ms: seq<Member>, f: Layout, indent: uint32): (parts: seq<Text>)
    ensures |parts| == |ms|
    decreases ms, 0
  {
    if ms == [] then [] else [DumpedMember(ms[0], f, indent)] + DumpedMembers(ms[1..], f, indent)
  }

  lemma {:induction false} ItemsSnoc(es: seq<Json>, e: Json, f: Layout, indent: uint32)
    ensures DumpedItems(es + [e], f, indent) == DumpedItems(es, f, indent) + [DumpedItem(e, f, indent)]
  {
    if es == [] {
      assert es + [e] == [e];
      assert DumpedItems([e], f, indent) == [DumpedItem(e, f, indent)] + DumpedItems([], f, indent);
    } else {
      assert (es + [e])[1..] == es[1..] + [e];
      ItemsSnoc(es[1..], e, f, indent);
    }
  }

  lemma {:induction false} MembersSnoc(ms: seq<Member>, m: Member, f: Layout, indent: uint32)
    ensures DumpedMembers(ms + [m], f, indent) == DumpedMembers(ms, f, indent) + [DumpedMember(m, f, indent)]
  {
    if ms == [] {
      assert ms + [m] == [m];
      assert DumpedMembers([m], f, indent) == [DumpedMember(m, f, indent)] + DumpedMembers([], f, indent);
    } else {
      assert (ms + [m])[1..] == ms[1..] + [m];
      MembersSnoc(ms[1..], m, f, indent);
    }
  }

  lemma {:induction false} ListedSnoc(parts: seq<Text>, part: Text, sep: Text)
    ensures Listed(parts + [part], sep) == Listed(parts, sep) + (if parts == [] then [] else sep) + part
  {
    if parts == [] {
      assert parts + [part] == [part];
    } else {
      assert (parts + [part])[1..] == parts[1..] + [part];
      ListedSnoc(parts[1..], part, sep);
      if |parts| == 1 {
        assert Listed(parts + [part], sep) == parts[0] + (sep + part);
      } else {
        var rest := Listed(parts[1..], sep);
        assert Listed(parts + [part], sep) == parts[0] + (sep + (rest + sep + part));
        assert parts[0] + (sep + (rest + sep + part)) == (parts[0] + (sep + rest)) + sep + part;
      }
    }
  }

  /** std::ostream, as dump writes to it. */
  class OutputStream {
    var data: Text

    constructor ()
      ensures data == []
    {
      data := [];
    }

    /** operator<< */
    method Put(s: Text)
      modifies this
      ensures data == old(data) + s
    {
      data := data + s;
    }
  }

  /** dump */
  method Dump(o: OutputStream, j: Json, f: Layout, indent: uint32)
    modifies o
    ensures o.data == old(o.data) + Dumped(j, f, indent)
    decreases j, 1
  {
    match j {
      case Null => o.Put(NULL_TEXT);
      case Bool(b) => o.Put(if b then TRUE_TEXT else FALSE_TEXT);
      case Int(i) =>
        var s := NumToStr(i);
        o.Put(s);
      case Uint(u) =>
        var s := NumToStr(u);
        o.Put(s);
      case Str(s) => DumpString(o, s);
      case Arr(es) =>
        if es == [] {
          o.Put([0x5b, 0x5d]);
        } else {
          DumpArray(o, es, f, indent);
        }
      case Obj(ms) =>
        if ms == [] {
          o.Put([0x7b, 0x7d]);
        } else {
          DumpObject(o, ms, f, indent);
        }
    }
  }

  /** The public dump: compact for a negative argument, and otherwise indented by that many spaces, from column 0 on. */
  method ToText(j: Json, indent: int) returns (s: Text)
    requires -0x8000_0000 <= indent < 0x8000_0000
    ensures s == Dumped(j, if indent >= 0 then Layout(true, indent) else Layout(false, 0), 0)
  {
    var ss := new OutputStream();
    if indent >= 0 {
      Dump(ss, j, Layout(true, indent), 0);
    } else {
      Dump(ss, j, Layout(false, 0), 0);
    }
    s := ss.data;
  }

  method DumpString(o: OutputStream, s: Text)
    modifies o
    ensures o.data == old(o.data) + Quoted(s)
  {
    ghost var before := o.data;
    o.Put([QUOTE]);
    var escaped := EscapeString(s);
    o.Put(escaped);
    o.Put([QUOTE]);
    FourPieces(before, [QUOTE], escaped, [QUOTE]);
  }

  lemma FourPieces(a: Text, b: Text, c: Text, d: Text)
    ensures a + b + c + d == a + (b + c + d)
  {
  }

  /** The brackets, the line breaks and the indentation around the lines. */
  lemma BlockPieces(a: Text, open: Text, lines: Text, f: Layout, indent: uint32, close: Text)
    ensures (((a + open) + f.Break()) + lines) + f.Break() + (Spaces(indent) + close) ==
            a + (open + Block(lines, f, indent) + close)
  {
    var b, s := f.Break(), Spaces(indent);
    assert (((a + open) + b) + lines) + b + (s + close) == a + (open + (b + lines + b + s) + close);
  }

  method DumpArray(o: OutputStream, es: seq<Json>, f: Layout, indent: uint32)
    requires es != []
    modifies o
    ensures o.data == old(o.data) + Dumped(Arr(es), f, indent)
    decreases es, 2
  {
    ghost var before := o.data;
    var newIndent := indent;
    o.Put([0x5b]);
    // one step deeper, modulo 2^32
    if f.pretty {
      newIndent := Deeper(newIndent, f.step);
    }
    o.Put(f.Break());
    DumpElements(o, es, f, newIndent);
    // the subtraction brings back the indentation of the call
    if f.pretty {
      newIndent := Shallower(newIndent, f.step);
      IndentReturns(indent, f.step);
    }
    o.Put(f.Break());
    o.Put(Spaces(newIndent) + [0x5d]);
    BlockPieces(before, [0x5b], Listed(DumpedItems(es, f, f.Inner(indent)), f.Separator()), f, indent, [0x5d]);
  }

  /** The loop over the elements of an array. */
  method DumpElements(o: OutputStream, es: seq<Json>, f: Layout, indent: uint32)
    modifies o
    ensures o.data == old(o.data) + Listed(DumpedItems(es, f, indent), f.Separator())
    decreases es, 0
  {
    ghost var before := o.data;
    for i := 0 to |es|
      invariant o.data == before + Listed(DumpedItems(es[..i], f, indent), f.Separator())
    {
      ghost var done := DumpedItems(es[..i], f, indent);
      if i != 0 {
        o.Put(f.Separator());
      }
      o.Put(Spaces(indent));
      Dump(o, es[i], f, indent);
      assert es[..i + 1] == es[..i] + [es[i]];
      ItemsSnoc(es[..i], es[i], f, indent);
      ListedSnoc(done, DumpedItem(es[i], f, indent), f.Separator());
      AppendPart(before, Listed(done, f.Separator()), if i == 0 then [] else f.Separator(), Spaces(indent),
                 Dumped(es[i], f, indent));
    }
    assert es[..|es|] == es;
  }

  lemma AppendPart(a: Text, b: Text, c: Text, d: Text, e: Text)
    ensures (((a + b) + c) + d) + e == a + (b + c + (d + e))
    ensures c == [] ==> ((a + b) + d) + e == a + (b + c + (d + e))
  {
    assert c == [] ==> (a + b) + c == a + b;
  }

  method DumpObject(o: OutputStream, ms: seq<Member>, f: Layout, indent: uint32)
    requires ms != []
    modifies o
    ensures o.data == old(o.data) + Dumped(Obj(ms), f, indent)
    decreases ms, 2
  {
    ghost var before := o.data;
    var newIndent := indent;
    o.Put([0x7b]);
    // one step deeper, modulo 2^32
    if f.pretty {
      newIndent := Deeper(newIndent, f.step);
    }
    o.Put(f.Break());
    DumpPairs(o, ms, f, newIndent);
    // the subtraction brings back the indentation of the call
    if f.pretty {
      newIndent := Shallower(newIndent, f.step);
      IndentReturns(indent, f.step);
    }
    o.Put(f.Break());
    o.Put(Spaces(newIndent) + [0x7d]);
    BlockPieces(before, [0x7b], Listed(DumpedMembers(ms, f, f.Inner(indent)), f.Separator()), f, indent, [0x7d]);
  }

  /** A key and its value on a line. */
  method DumpPair(o: OutputStream, m: Member, f: Layout, indent: uint32)
    modifies o
    ensures o.data == old(o.data) + DumpedMember(m, f, indent)
    decreases m, 3
  {
    ghost var before := o.data;
    o.Put(Spaces(indent) + [QUOTE]);
    var escaped := EscapeString(m.key);
    o.Put(escaped);
    o.Put(f.KeyEnd());
    FourPieces(before, Spaces(indent) + [QUOTE], escaped, f.KeyEnd());
    Dump(o, m.value, f, indent);
    ConcatAssociative(before, Spaces(indent) + [QUOTE] + escaped + f.KeyEnd(), Dumped(m.value, f, indent));
  }

  /** The loop over the members of an object. */
  method DumpPairs(o: OutputStream, ms: seq<Member>, f: Layout, indent: uint32)
    modifies o
    ensures o.data == old(o.data) + Listed(DumpedMembers(ms, f, indent), f.Separator())
    decreases ms, 0
  {
    ghost var before := o.data;
    for i := 0 to |ms|
      invariant o.data == before + Listed(DumpedMembers(ms[..i], f, indent), f.Separator())
    {
      ghost var done := DumpedMembers(ms[..i], f, indent);
      ghost var part := DumpedMember(ms[i], f, indent);
      if i != 0 {
        o.Put(f.Separator());
      }
      DumpPair(o, ms[i], f, indent);
      assert ms[..i + 1] == ms[..i] + [ms[i]];
      MembersSnoc(ms[..i], ms[i], f, indent);
      ListedSnoc(done, part, f.Separator());
      AppendWhole(before, Listed(done, f.Separator()), if i == 0 then [] else f.Separator(), part);
    }
    assert ms[..|ms|] == ms;
  }

  lemma AppendWhole(a: Text, b: Text, c: Text, d: Text)
    ensures ((a + b) + c) + d == a + (b + c + d)
    ensures c == [] ==> (a + b) + d == a + (b + c + d)
  {
    assert c == [] ==> (a + b) + c == a + b;
  }
}
