/**
 The indenting writer, and that its output is the plain writer's with blanks added outside the
 string literals.
 */
module PrettyWriter {
  import opened Bytes
  import opened Numerals
  import opened Sax
  import opened Streams
  import opened Escaping
  import opened Writer

  class PrettyWriter {
    const base: Writer
    var indentChar: byte
    var indentCharCount: nat
    var singleLineArray: bool

    constructor (base: Writer)
      ensures this.base == base && Layout() == Indented(SPACE, 4, false)
    {
      this.base := base;
      indentChar, indentCharCount, singleLineArray := SPACE, 4, false;
    }

    function Layout(): Format
      reads this
    {
      Indented(indentChar, indentCharCount, singleLineArray)
    }

    ghost predicate Valid()
      reads this
    {
      base.Valid() && Layout().Valid() && this as object != base as object
      && this as object != base.os as object && this as object != base.os.stack as object
      && this as object != base.levelStack as object
    }

    method SetIndent(indentChar: byte, indentCharCount: nat)
      requires IsWhitespace(indentChar)
      modifies this
      ensures Layout() == Indented(indentChar, indentCharCount, old(singleLineArray))
    {
      this.indentChar := indentChar;
      this.indentCharCount := indentCharCount;
    }

    method SetFormatOptions(singleLineArray: bool)
      modifies this
      ensures Layout() == Indented(old(indentChar), old(indentCharCount), singleLineArray)
    {
      this.singleLineArray := singleLineArray;
    }

    method WriteIndent()
      requires Valid()
      modifies base.os, base.os.stack
      ensures base.os.stack.items
           == old(base.os.stack.items) + Repeat(indentChar, |base.levelStack.items| * indentCharCount)
    {
      var count := |base.levelStack.items| * indentCharCount;
      var n := 0;
      base.os.Reserve(count);
      while n < count
        invariant 0 <= n <= count
        invariant base.os.stack.items == old(base.os.stack.items) + Repeat(indentChar, n)
        invariant |base.os.stack.items| + (count - n) <= base.os.limit
      {
        base.os.PutUnsafe(indentChar);
        assert Repeat(indentChar, n + 1) == Repeat(indentChar, n) + [indentChar];
        n := n + 1;
      }
    }

    method WriteNewLine()
      requires Valid()
      modifies base.os, base.os.stack
      ensures base.os.stack.items == old(base.os.stack.items) + NewLine(Layout(), |base.levelStack.items|)
    {
      base.os.Put(LF);
      WriteIndent();
    }

    method PrettyPrefix(isString: bool)
      requires Valid() && MayStart(base.levelStack.items, base.hasRoot, isString)
      modifies base, base.levelStack, base.os, base.os.stack
      ensures base.State() == Prefixed(Layout(), old(base.State()))
    {
      if |base.levelStack.items| != 0 {
        var level := base.levelStack.Top();
        if level.inArray {
          PrefixElement(level);
        } else {
          PrefixMember(level);
        }
        base.levelStack.SetTop(Level(level.valueCount + 1, level.inArray));
      } else {
        base.hasRoot := true;
      }
    }

    method PrefixElement(level: Level)
      requires Valid() && level.inArray
      modifies base.os, base.os.stack
      ensures base.os.stack.items
           == old(base.os.stack.items) + Between(Layout(), |base.levelStack.items|, level)
    {
      if level.valueCount > 0 {
        base.os.Put(COMMA);
        if singleLineArray {
          base.os.Put(SPACE);
        }
      }
      if !singleLineArray {
        WriteNewLine();
      }
    }

    method PrefixMember(level: Level)
      requires Valid() && !level.inArray
      modifies base.os, base.os.stack
      ensures base.os.stack.items
           == old(base.os.stack.items) + Between(Layout(), |base.levelStack.items|, level)
    {
      if level.valueCount > 0 {
        if level.valueCount % 2 == 0 {
          base.os.Put(COMMA);
          base.os.Put(LF);
        } else {
          base.os.Put(COLON);
          base.os.Put(SPACE);
        }
      } else {
        base.os.Put(LF);
      }
      if level.valueCount % 2 == 0 {
        WriteIndent();
      }
    }

    method Scalar(e: Event) returns (ok: bool)
      requires Valid() && IsScalar(e) && Legal(base.levelStack.items, base.hasRoot, e)
      modifies base, base.levelStack, base.os, base.os.stack
      ensures match Step(base.flags, Layout(), old(base.State()), e)
              case Wrote(next) => ok && base.State() == next
              case _ => !ok && Refuses(Layout(), old(base.State()), base.State())
    {
      PrettyPrefix(e.String? || e.Key?);
      ok := base.WriteScalar(e);
    }

    method StartObject()
      requires Valid() && Legal(base.levelStack.items, base.hasRoot, Event.StartObject)
      modifies base, base.levelStack, base.os, base.os.stack
      ensures base.State() == Opened(Layout(), old(base.State()), LBRACE, false)
    {
      PrettyPrefix(false);
      base.levelStack.Push(Level(0, false));
      base.os.Put(LBRACE);
    }

    method StartArray()
      requires Valid() && Legal(base.levelStack.items, base.hasRoot, Event.StartArray)
      modifies base, base.levelStack, base.os, base.os.stack
      ensures base.State() == Opened(Layout(), old(base.State()), LBRACKET, true)
    {
      PrettyPrefix(false);
      base.levelStack.Push(Level(0, true));
      base.os.Put(LBRACKET);
    }

    method EndObject(memberCount: nat)
      requires Valid() && Legal(base.levelStack.items, base.hasRoot, Event.EndObject(memberCount))
      modifies base.levelStack, base.os, base.os.stack
      ensures base.State() == Closed(Layout(), old(base.State()), RBRACE)
    {
      var level := base.levelStack.Pop(1);
      if level[0].valueCount != 0 {
        WriteNewLine();
      }
      base.os.Put(RBRACE);
    }

    method EndArray(elementCount: nat)
      requires Valid() && Legal(base.levelStack.items, base.hasRoot, Event.EndArray(elementCount))
      modifies base.levelStack, base.os, base.os.stack
      ensures base.State() == Closed(Layout(), old(base.State()), RBRACKET)
    {
      var level := base.levelStack.Pop(1);
      if level[0].valueCount != 0 && !singleLineArray {
        WriteNewLine();
      }
      base.os.Put(RBRACKET);
    }

    /** Any event; only a string that has no encoding is refused. */
    method Handle(e: Event) returns (ok: bool)
      requires Valid() && Legal(base.levelStack.items, base.hasRoot, e)
      modifies base, base.levelStack, base.os, base.os.stack
      ensures match Step(base.flags, Layout(), old(base.State()), e)
              case Wrote(next) => ok && base.State() == next
              case _ => !ok && Refuses(Layout(), old(base.State()), base.State())
    {
      ok := true;
      if e.StartObject? {
        StartObject();
      } else if e.StartArray? {
        StartArray();
      } else if e.EndObject? {
        EndObject(e.members);
      } else if e.EndArray? {
        EndArray(e.elements);
      } else {
        ok := Scalar(e);
      }
    }
  }

  // ---------------------------------------------------------------- removing blanks

  /** Where a scan of JSON text stands. */
  datatype Mode = Outside | Inside | Escaped

  function NextMode(m: Mode, c: byte): Mode {
    match m
    case Outside => if c == QUOTE then Inside else Outside
    case Inside => if c == QUOTE then Outside else if c == BACKSLASH then Escaped else Inside
    case Escaped => Inside
  }

  function EndMode(m: Mode, s: seq<byte>): Mode
    decreases |s|
  {
    if s == [] then m else EndMode(NextMode(m, s[0]), s[1..])
  }

  /** The text without the blanks outside its string literals. */
  function Stripped(m: Mode, s: seq<byte>): seq<byte>
    decreases |s|
  {
    if s == [] then []
    else (if m == Outside && IsWhitespace(s[0]) then [] else [s[0]]) + Stripped(NextMode(m, s[0]), s[1..])
  }

  lemma {:induction false} StrippedAppend(m: Mode, a: seq<byte>, b: seq<byte>)
    ensures EndMode(m, a + b) == EndMode(EndMode(m, a), b)
    ensures Stripped(m, a + b) == Stripped(m, a) + Stripped(EndMode(m, a), b)
    decreases |a|
  {
    if a == [] {
      assert a + b == b;
    } else {
      assert (a + b)[1..] == a[1..] + b;
      StrippedAppend(NextMode(m, a[0]), a[1..], b);
    }
  }

  lemma StrippedOne(m: Mode, c: byte)
    ensures EndMode(m, [c]) == NextMode(m, c)
    ensures Stripped(m, [c]) == if m == Outside && IsWhitespace(c) then [] else [c]
  {
    assert [c][1..] == [];
  }

  /** From `m` and back to it, the text `y` is stripped to `x`. */
  predicate StripsTo(m: Mode, y: seq<byte>, x: seq<byte>) {
    EndMode(m, y) == m && Stripped(m, y) == x
  }

  lemma StripsToAppend(m: Mode, a: seq<byte>, x: seq<byte>, b: seq<byte>, y: seq<byte>)
    requires StripsTo(m, a, x) && StripsTo(m, b, y)
    ensures StripsTo(m, a + b, x + y)
  {
    StrippedAppend(m, a, b);
  }

  /** The scan keeps all of `s` and comes back to where it started. */
  predicate Kept(m: Mode, s: seq<byte>) {
    StripsTo(m, s, s)
  }

  /** Bytes that no scan takes for a quote or an escape. */
  lemma {:induction false} PlainIsKept(m: Mode, s: seq<byte>)
    requires !m.Escaped?
    requires forall i :: 0 <= i < |s| ==> s[i] != QUOTE && (m.Outside? ==> !IsWhitespace(s[i])) && s[i] != BACKSLASH
    ensures Kept(m, s)
    decreases |s|
  {
    if s != [] {
      PlainIsKept(m, s[1..]);
    }
  }

  lemma EscapeIsKept(c: byte, rest: seq<byte>)
    requires forall i :: 0 <= i < |rest| ==> rest[i] != QUOTE && rest[i] != BACKSLASH
    ensures Kept(Inside, [BACKSLASH, c] + rest)
  {
    PlainIsKept(Inside, rest);
    StrippedOne(Inside, BACKSLASH);
    StrippedOne(Escaped, c);
    StrippedAppend(Inside, [BACKSLASH], [c]);
    assert [BACKSLASH] + [c] == [BACKSLASH, c];
    StrippedAppend(Inside, [BACKSLASH, c], rest);
  }

  lemma EscapedUnitIsKept(u: nat)
    requires u <= 0xFFFF
    ensures Kept(Inside, EscapedUnit(u))
  {
    EscapeIsKept(LOWER_U, HexChars(u));
  }

  lemma EscapedCodePointIsKept(cp: nat)
    requires Utf8.IsScalar(cp)
    ensures Kept(Inside, EscapedCodePoint(cp))
  {
    if cp <= 0xFFFF {
      EscapedUnitIsKept(cp);
    } else {
      var high, low := EscapedUnit((cp - 0x10000) / 0x400 + 0xD800), EscapedUnit((cp - 0x10000) % 0x400 + 0xDC00);
      EscapedUnitIsKept((cp - 0x10000) / 0x400 + 0xD800);
      EscapedUnitIsKept((cp - 0x10000) % 0x400 + 0xDC00);
      StripsToAppend(Inside, high, high, low, low);
    }
  }

  lemma EscapedByteIsKept(c: byte)
    requires EscapeLetter(c) != 0
    ensures Kept(Inside, EscapedByte(c))
  {
    var tail := if EscapeLetter(c) == LOWER_U then [DIGIT_0, DIGIT_0, HexChar(c / 16), HexChar(c % 16)] else [];
    EscapeIsKept(EscapeLetter(c), tail);
    assert [BACKSLASH, EscapeLetter(c)] + tail == EscapedByte(c);
  }

  /** One unit of the source is written so that the scan stays inside the literal. */
  lemma UnitIsKept(w: WriteFlags, s: seq<byte>, p: nat)
    requires p < |s| && WriteUnit(w, s, p).Written?
    ensures Kept(Inside, WriteUnit(w, s, p).bytes)
  {
    if w.ascii && s[p] >= 0x80 {
      Utf8.DecodedIsScalar(s, p);
      EscapedCodePointIsKept(Utf8.ScalarAt(s, p));
    } else if EscapeLetter(s[p]) != 0 {
      EscapedByteIsKept(s[p]);
    } else if w.validateEncoding && !w.ascii {
      SequenceIsPlain(s, p);
      PlainIsKept(Inside, s[p..p + Utf8.SequenceLength(s, p)]);
    } else {
      PlainIsKept(Inside, [s[p]]);
    }
  }

  lemma {:induction false} BodyIsKept(w: WriteFlags, s: seq<byte>, p: nat)
    requires p <= |s| && Body(w, s, p).Quoted?
    ensures Kept(Inside, Body(w, s, p).text)
    decreases |s| - p
  {
    if p < |s| {
      var unit := WriteUnit(w, s, p);
      UnitIsKept(w, s, p);
      BodyIsKept(w, s, unit.pos);
      StripsToAppend(Inside, unit.bytes, unit.bytes, Body(w, s, unit.pos).text, Body(w, s, unit.pos).text);
    }
  }

  lemma LiteralIsKept(w: WriteFlags, s: seq<byte>)
    requires Literal(w, s).Quoted?
    ensures Kept(Outside, Literal(w, s).text)
  {
    var body := Body(w, s, 0).text;
    BodyIsKept(w, s, 0);
    StrippedOne(Outside, QUOTE);
    StrippedOne(Inside, QUOTE);
    StrippedAppend(Outside, [QUOTE], body);
    StrippedAppend(Outside, [QUOTE] + body, [QUOTE]);
  }

  lemma ScalarIsKept(w: WriteFlags, e: Event)
    requires IsScalar(e) && ScalarText(w, e).Quoted?
    ensures Kept(Outside, ScalarText(w, e).text)
  {
    if e.RawNumber? {
      LiteralIsKept(w, e.text);
    } else if e.String? {
      LiteralIsKept(w, e.str);
    } else if e.Key? {
      LiteralIsKept(w, e.name);
    } else {
      PlainIsKept(Outside, ScalarText(w, e).text);
    }
  }

  // ---------------------------------------------------------------- the two writers agree

  lemma {:induction false} BlanksAreStripped(c: byte, n: nat)
    requires IsWhitespace(c)
    ensures StripsTo(Outside, Repeat(c, n), [])
    decreases n
  {
    if n > 0 {
      assert Repeat(c, n)[1..] == Repeat(c, n - 1);
      BlanksAreStripped(c, n - 1);
    }
  }

  lemma NewLineIsStripped(fmt: Format, depth: nat)
    requires fmt.Valid()
    ensures StripsTo(Outside, NewLine(fmt, depth), [])
  {
    if fmt.Indented? {
      BlanksAreStripped(LF, 1);
      BlanksAreStripped(fmt.indentChar, depth * fmt.indentCharCount);
      assert Repeat(LF, 1) == [LF];
      StripsToAppend(Outside, [LF], [], Repeat(fmt.indentChar, depth * fmt.indentCharCount), []);
    }
  }

  lemma BetweenIsStripped(fmt: Format, depth: nat, l: Level)
    requires fmt.Valid()
    ensures StripsTo(Outside, Between(fmt, depth, l), Between(Compact, depth, l))
  {
    StrippedOne(Outside, COMMA);
    StrippedOne(Outside, COLON);
    StrippedOne(Outside, SPACE);
    NewLineIsStripped(fmt, depth);
    StripsToAppend(Outside, Mark(l), Mark(l), Blank(fmt, depth, l), []);
  }

  /** Two printers that are at the same place, the second with more blanks in its output. */
  predicate SameButBlanks(c: Printer, p: Printer) {
    c.levels == p.levels && c.hasRoot == p.hasRoot && StripsTo(Outside, p.out, c.out)
  }

  predicate Corresponds(c: Outcome, p: Outcome) {
    if c.Wrote? then p.Wrote? && SameButBlanks(c.next, p.next) else c == p
  }

  lemma PrefixedSame(fmt: Format, c: Printer, p: Printer)
    requires fmt.Valid() && SameButBlanks(c, p)
    ensures SameButBlanks(Prefixed(Compact, c), Prefixed(fmt, p))
  {
    if c.levels != [] {
      BetweenIsStripped(fmt, |c.levels|, c.levels[|c.levels| - 1]);
    }
    StripsToAppend(Outside, p.out, c.out, Separator(fmt, p.levels), Separator(Compact, c.levels));
  }

  lemma ClosedSame(fmt: Format, c: Printer, p: Printer, bracket: byte)
    requires fmt.Valid() && SameButBlanks(c, p) && c.levels != []
    requires bracket == RBRACE || bracket == RBRACKET
    ensures SameButBlanks(Closed(Compact, c, bracket), Closed(fmt, p, bracket))
  {
    hide StripsTo;
    var depth := |c.levels| - 1;
    var gap := BeforeClose(fmt, depth, c.levels[depth]);
    assert BeforeClose(Compact, depth, c.levels[depth]) == [];
    NewLineIsStripped(fmt, depth);
    StrippedOne(Outside, bracket);
    StripsToAppend(Outside, gap, [], [bracket], [bracket]);
    StripsToAppend(Outside, p.out, c.out, gap + [bracket], [] + [bracket]);
  }

  lemma StepSame(w: WriteFlags, fmt: Format, c: Printer, p: Printer, e: Event)
    requires fmt.Valid() && SameButBlanks(c, p)
    ensures Corresponds(Step(w, Compact, c, e), Step(w, fmt, p, e))
  {
    if Legal(c.levels, c.hasRoot, e) {
      PrefixedSame(fmt, c, p);
      var c1, p1 := Prefixed(Compact, c), Prefixed(fmt, p);
      if e.EndObject? {
        ClosedSame(fmt, c, p, RBRACE);
      } else if e.EndArray? {
        ClosedSame(fmt, c, p, RBRACKET);
      } else if e.StartObject? {
        StrippedOne(Outside, LBRACE);
        StripsToAppend(Outside, p1.out, c1.out, [LBRACE], [LBRACE]);
      } else if e.StartArray? {
        StrippedOne(Outside, LBRACKET);
        StripsToAppend(Outside, p1.out, c1.out, [LBRACKET], [LBRACKET]);
      } else if ScalarText(w, e).Quoted? {
        ScalarIsKept(w, e);
        StripsToAppend(Outside, p1.out, c1.out, ScalarText(w, e).text, ScalarText(w, e).text);
      }
    }
  }

  /** On every sequence of events both writers do the same, and differ only in blanks outside string literals. */
  lemma {:induction false} PrettyIsCompactPlusBlanks(w: WriteFlags, fmt: Format, c: Printer, p: Printer, es: seq<Event>)
    requires fmt.Valid() && SameButBlanks(c, p)
    ensures Corresponds(Run(w, Compact, c, es), Run(w, fmt, p, es))
    decreases |es|
  {
    if es != [] {
      StepSame(w, fmt, c, p, es[0]);
      if Step(w, Compact, c, es[0]).Wrote? {
        PrettyIsCompactPlusBlanks(w, fmt, Step(w, Compact, c, es[0]).next, Step(w, fmt, p, es[0]).next, es[1..]);
      }
    }
  }
}
