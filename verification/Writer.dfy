/**
 The writer: a handler that prints the events it is sent, keeping for every open container how many
 values it has printed. The specification is shared by the plain and the indenting writer.
 */
module Writer {
  import opened Bytes
  import opened Numerals
  import opened Sax
  import opened Streams
  import opened Escaping

  /** One open container; in an object names and values both count. */
  datatype Level = Level(valueCount: nat, inArray: bool)

  /** Layout: none, or one line for each value with so many indent characters for each open container. */
  datatype Format = Compact | Indented(indentChar: byte, indentCharCount: nat, singleLineArray: bool)
  {
    predicate Valid() {
      Indented? ==> IsWhitespace(indentChar)
    }

    predicate SingleLineArrays() {
      Indented? && singleLineArray
    }
  }

  /** What a writer has printed, and where it is. */
  datatype Printer = Printer(levels: seq<Level>, hasRoot: bool, out: seq<byte>)

  const INITIAL := Printer([], false, [])

  datatype Outcome = Wrote(next: Printer) | Refused | Illegal

  // ---------------------------------------------------------------- separators

  function Repeat(c: byte, n: nat): (cs: seq<byte>)
    ensures |cs| == n
  {
    seq(n, _ => c)
  }

  function NewLine(fmt: Format, depth: nat): seq<byte> {
    if fmt.Compact? then [] else [LF] + Repeat(fmt.indentChar, depth * fmt.indentCharCount)
  }

  /** The mark that separates the next name or value of a container from the last thing printed in it. */
  function Mark(l: Level): seq<byte> {
    if l.valueCount == 0 then [] else if l.inArray || l.valueCount % 2 == 0 then [COMMA] else [COLON]
  }

  /** The blanks after that mark. */
  function Blank(fmt: Format, depth: nat, l: Level): seq<byte> {
    if fmt.Compact? then []
    else if l.inArray && fmt.singleLineArray then (if l.valueCount > 0 then [SPACE] else [])
    else if !l.inArray && l.valueCount % 2 == 1 then [SPACE]
    else NewLine(fmt, depth)
  }

  function Between(fmt: Format, depth: nat, l: Level): seq<byte> {
    Mark(l) + Blank(fmt, depth, l)
  }

  /** What stands before the bracket that closes a container. */
  function BeforeClose(fmt: Format, depth: nat, l: Level): seq<byte> {
    if l.valueCount == 0 || (l.inArray && fmt.SingleLineArrays()) then [] else NewLine(fmt, depth)
  }

  function Separator(fmt: Format, levels: seq<Level>): seq<byte> {
    if levels == [] then [] else Between(fmt, |levels|, levels[|levels| - 1])
  }

  /** The innermost container has one value more. */
  function Counted(levels: seq<Level>): seq<Level> {
    if levels == [] then []
    else var l := levels[|levels| - 1]; levels[|levels| - 1 := Level(l.valueCount + 1, l.inArray)]
  }

  function Prefixed(fmt: Format, st: Printer): Printer {
    Printer(Counted(st.levels), st.hasRoot || st.levels == [], st.out + Separator(fmt, st.levels))
  }

  // ---------------------------------------------------------------- texts

  const NULL_TEXT: seq<byte> := [LOWER_N, LOWER_U, LOWER_L, LOWER_L]
  const TRUE_TEXT: seq<byte> := [LOWER_T, LOWER_R, LOWER_U, LOWER_E]
  const FALSE_TEXT: seq<byte> := [LOWER_F, LOWER_A, LOWER_L, LOWER_S, LOWER_E]

  /** The numerals fit the buffers of 11, 10, 21 and 20 units they are made in. */
  lemma NumeralsFitBuffers(i: int)
    ensures -0x8000_0000 <= i < 0x8000_0000 ==> |IntText(i)| <= 11
    ensures 0 <= i < 0x1_0000_0000 ==> |IntText(i)| <= 10
    ensures -0x8000_0000_0000_0000 <= i < 0x8000_0000_0000_0000 ==> |IntText(i)| <= 20
    ensures 0 <= i < 0x1_0000_0000_0000_0000 ==> |IntText(i)| <= 20
  {
    assert Pow10(5) == 100000;
    assert Pow10(10) == 100000 * Pow10(5);
    assert Pow10(15) == 100000 * Pow10(10);
    assert Pow10(20) == 100000 * Pow10(15);
    assert Pow10(19) == 10000 * Pow10(15);
    var n := if i < 0 then -i else i;
    if n <= 0x8000_0000 || (i >= 0 && n < 0x1_0000_0000) {
      DecimalLength(n, 10);
    }
    if n <= 0x8000_0000_0000_0000 {
      DecimalLength(n, 19);
    }
    if n < 0x1_0000_0000_0000_0000 {
      DecimalLength(n, 20);
    }
  }

  predicate IsScalar(e: Event) {
    !e.StartObject? && !e.StartArray? && !e.EndObject? && !e.EndArray? && !e.Double?
  }

  /** A number kept as text is written as a string. */
  function ScalarText(w: WriteFlags, e: Event): Quoted
    requires IsScalar(e)
  {
    match e
    case Null => Quoted(NULL_TEXT)
    case Bool(b) => Quoted(if b then TRUE_TEXT else FALSE_TEXT)
    case Int(i) => Quoted(IntText(i))
    case Uint(u) => Quoted(IntText(u))
    case Int64(i) => Quoted(IntText(i))
    case Uint64(u) => Quoted(IntText(u))
    case RawNumber(text) => Literal(w, text)
    case String(str) => Literal(w, str)
    case Key(name) => Literal(w, name)
  }

  // ---------------------------------------------------------------- the specification

  /** A value may be printed here: one root only, and in an object every other one is a name. */
  predicate MayStart(levels: seq<Level>, hasRoot: bool, isString: bool) {
    if levels == [] then !hasRoot
    else var l := levels[|levels| - 1]; !l.inArray && l.valueCount % 2 == 0 ==> isString
  }

  /** What the writer demands of its caller. */
  predicate Legal(levels: seq<Level>, hasRoot: bool, e: Event) {
    if e.EndObject? then
      levels != [] && !levels[|levels| - 1].inArray && levels[|levels| - 1].valueCount % 2 == 0
    else if e.EndArray? then levels != [] && levels[|levels| - 1].inArray
    else !e.Double? && MayStart(levels, hasRoot, e.String? || e.Key?)
  }

  function Closed(fmt: Format, st: Printer, bracket: byte): Printer
    requires st.levels != []
  {
    var depth := |st.levels| - 1;
    Printer(st.levels[..depth], st.hasRoot, st.out + (BeforeClose(fmt, depth, st.levels[depth]) + [bracket]))
  }

  function Opened(fmt: Format, st: Printer, bracket: byte, inArray: bool): Printer {
    var pre := Prefixed(fmt, st);
    Printer(pre.levels + [Level(0, inArray)], pre.hasRoot, pre.out + [bracket])
  }

  /** What printing an event does. */
  function Step(w: WriteFlags, fmt: Format, st: Printer, e: Event): Outcome {
    if !Legal(st.levels, st.hasRoot, e) then Illegal
    else if e.StartObject? then Wrote(Opened(fmt, st, LBRACE, false))
    else if e.StartArray? then Wrote(Opened(fmt, st, LBRACKET, true))
    else if e.EndObject? then Wrote(Closed(fmt, st, RBRACE))
    else if e.EndArray? then Wrote(Closed(fmt, st, RBRACKET))
    else match ScalarText(w, e)
      case NotEncoded => Refused
      case Quoted(text) => var pre := Prefixed(fmt, st); Wrote(pre.(out := pre.out + text))
  }

  /** A string that has no encoding is refused only after its separator, and perhaps its beginning, has been printed. */
  predicate Refuses(fmt: Format, before: Printer, after: Printer) {
    var pre := Prefixed(fmt, before);
    after.levels == pre.levels && after.hasRoot == pre.hasRoot && pre.out <= after.out
  }

  function Run(w: WriteFlags, fmt: Format, st: Printer, es: seq<Event>): Outcome
    decreases |es|
  {
    if es == [] then Wrote(st)
    else
      match Step(w, fmt, st, es[0])
      case Wrote(next) => Run(w, fmt, next, es[1..])
      case failed => failed
  }

  lemma {:induction false} RunAppend(w: WriteFlags, fmt: Format, st: Printer, a: seq<Event>, b: seq<Event>)
    ensures Run(w, fmt, st, a + b)
         == match Run(w, fmt, st, a)
            case Wrote(next) => Run(w, fmt, next, b)
            case failed => failed
    decreases |a|
  {
    if a == [] {
      assert a + b == b;
    } else {
      assert (a + b)[1..] == a[1..] + b;
      match Step(w, fmt, st, a[0]) {
        case Wrote(next) => RunAppend(w, fmt, next, a[1..], b);
        case _ =>
      }
    }
  }

  // ---------------------------------------------------------------- the writer

  class Writer {
    const os: StringBuffer
    const levelStack: Stack<Level>
    const flags: WriteFlags
    var hasRoot: bool

    constructor (os: StringBuffer, flags: WriteFlags)
      ensures this.os == os && this.flags == flags && fresh(levelStack) && Valid()
      ensures State() == Printer([], false, os.stack.items)
    {
      this.os := os;
      this.flags := flags;
      levelStack := new Stack<Level>();
      hasRoot := false;
    }

    predicate Valid() {
      os.stack as object != levelStack as object
    }

    function State(): Printer
      reads this, levelStack, os.stack
    {
      Printer(levelStack.items, hasRoot, os.stack.items)
    }

    method Reset()
      requires Valid()
      modifies this, levelStack
      ensures State() == Printer([], false, os.stack.items)
    {
      hasRoot := false;
      levelStack.Clear();
    }

    method Prefix(isString: bool)
      requires Valid() && MayStart(levelStack.items, hasRoot, isString)
      modifies this, levelStack, os, os.stack
      ensures State() == Prefixed(Compact, old(State()))
    {
      if |levelStack.items| != 0 {
        var level := levelStack.Top();
        if level.valueCount > 0 {
          if level.inArray {
            os.Put(COMMA);
          } else {
            os.Put(if level.valueCount % 2 == 0 then COMMA else COLON);
          }
        }
        levelStack.SetTop(Level(level.valueCount + 1, level.inArray));
      } else {
        hasRoot := true;
      }
    }

    /** The text of a scalar, without its separator. */
    method WriteScalar(e: Event) returns (ok: bool)
      requires Valid() && IsScalar(e)
      modifies os, os.stack
      ensures match ScalarText(flags, e)
              case NotEncoded => !ok && levelStack.items == old(levelStack.items) &&
                                 old(os.stack.items) <= os.stack.items
              case Quoted(text) => ok && State() == old(State()).(out := old(State().out) + text)
    {
      ok := true;
      match e {
        case Null => os.Reserve(4); os.PutAllUnsafe(NULL_TEXT);
        case Bool(b) =>
          if b {
            os.Reserve(4);
            os.PutAllUnsafe(TRUE_TEXT);
          } else {
            os.Reserve(5);
            os.PutAllUnsafe(FALSE_TEXT);
          }
        case Int(i) => WriteInteger(i);
        case Uint(u) => WriteInteger(u);
        case Int64(i) => WriteInteger(i);
        case Uint64(u) => WriteInteger(u);
        case RawNumber(text) => ok := WriteString(os, flags, text);
        case String(str) => ok := WriteString(os, flags, str);
        case Key(name) => ok := WriteString(os, flags, name);
      }
    }

    method WriteInteger(i: int)
      requires Valid()
      modifies os, os.stack
      ensures os.stack.items == old(os.stack.items) + IntText(i)
    {
      var text := IntText(i);
      os.Reserve(|text|);
      os.PutAllUnsafe(text);
    }

    method Scalar(e: Event) returns (ok: bool)
      requires Valid() && IsScalar(e) && Legal(levelStack.items, hasRoot, e)
      modifies this, levelStack, os, os.stack
      ensures match Step(flags, Compact, old(State()), e)
              case Wrote(next) => ok && State() == next
              case _ => !ok && Refuses(Compact, old(State()), State())
    {
      Prefix(e.String? || e.Key?);
      ok := WriteScalar(e);
    }

    method StartObject()
      requires Valid() && Legal(levelStack.items, hasRoot, Event.StartObject)
      modifies this, levelStack, os, os.stack
      ensures State() == Opened(Compact, old(State()), LBRACE, false)
    {
      Prefix(false);
      levelStack.Push(Level(0, false));
      os.Put(LBRACE);
    }

    method StartArray()
      requires Valid() && Legal(levelStack.items, hasRoot, Event.StartArray)
      modifies this, levelStack, os, os.stack
      ensures State() == Opened(Compact, old(State()), LBRACKET, true)
    {
      Prefix(false);
      levelStack.Push(Level(0, true));
      os.Put(LBRACKET);
    }

    method EndObject(memberCount: nat)
      requires Valid() && Legal(levelStack.items, hasRoot, Event.EndObject(memberCount))
      modifies levelStack, os, os.stack
      ensures State() == Closed(Compact, old(State()), RBRACE)
    {
      var _ := levelStack.Pop(1);
      os.Put(RBRACE);
    }

    method EndArray(elementCount: nat)
      requires Valid() && Legal(levelStack.items, hasRoot, Event.EndArray(elementCount))
      modifies levelStack, os, os.stack
      ensures State() == Closed(Compact, old(State()), RBRACKET)
    {
      var _ := levelStack.Pop(1);
      os.Put(RBRACKET);
    }

    /** Any event; only a string that has no encoding is refused. */
    method Handle(e: Event) returns (ok: bool)
      requires Valid() && Legal(levelStack.items, hasRoot, e)
      modifies this, levelStack, os, os.stack
      ensures match Step(flags, Compact, old(State()), e)
              case Wrote(next) => ok && State() == next
              case _ => !ok && Refuses(Compact, old(State()), State())
    {
      ok := true;
      if e.StartObject? {
        StartObject();
      } else if e.StartArray? {
        StartArray();
      } else if e.EndObject? {
        EndObject(e.members);
      } else if e.EndArray? {
        EndArray(e.elements);
      } else {
        ok := Scalar(e);
      }
    }
  }
}
