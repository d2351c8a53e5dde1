/**
 The document as a handler: values are built on a stack, and the end of a container pops its
 elements or members into it.
 */
module Document {
  import opened Bytes
  import opened Numerals
  import opened Sax
  import opened Streams
  import opened Dom
  import opened Reader
  import G = Grammar

  // ---------------------------------------------------------------- specification

  datatype Built = Built(stack: seq<Value>) | Broken

  /** The members that interleaved names and values make up. */
  function Paired(vs: seq<Value>): seq<Member>
    requires |vs| % 2 == 0
    requires forall i :: 0 <= i < |vs| && i % 2 == 0 ==> vs[i].String?
  {
    seq(|vs| / 2, i requires 0 <= i < |vs| / 2 => Member(vs[2 * i].s, vs[2 * i + 1]))
  }

  predicate NamesAreStrings(vs: seq<Value>) {
    |vs| % 2 == 0 && forall i :: 0 <= i < |vs| && i % 2 == 0 ==> vs[i].String?
  }

  /** What the stack must hold for the event: enough values for the end of a container, integers in range. */
  predicate Buildable(st: seq<Value>, e: Event) {
    match e
    case Int(i) => IsInt(i)
    case Uint(u) => IsUint(u)
    case Int64(i) => IsInt64(i)
    case Uint64(u) => IsUint64(u)
    case EndObject(n) => 2 * n < |st| && NamesAreStrings(st[|st| - 2 * n..])
    case EndArray(n) => n < |st|
    case _ => true
  }

  function BuildStep(st: seq<Value>, e: Event): seq<Value>
    requires Buildable(st, e)
  {
    match e
    case Null => st + [Value.Null]
    case Bool(b) => st + [Value.Bool(b)]
    case Int(i) => st + [Number(FromInt(i))]
    case Uint(u) => st + [Number(FromUint(u))]
    case Int64(i) => st + [Number(FromInt64(i))]
    case Uint64(u) => st + [Number(FromUint64(u))]
    case Double(d) => st + [Number(Real(d))]
    case RawNumber(text) => st + [Value.String(text)]
    case String(str) => st + [Value.String(str)]
    case Key(name) => st + [Value.String(name)]
    case StartObject => st + [Object([])]
    case StartArray => st + [Array([])]
    case EndObject(n) => st[..|st| - 2 * n - 1] + [Object(Paired(st[|st| - 2 * n..]))]
    case EndArray(n) => st[..|st| - n - 1] + [Array(st[|st| - n..])]
  }

  function Build(st: seq<Value>, es: seq<Event>): Built
    decreases |es|
  {
    if es == [] then Built(st)
    else if Buildable(st, es[0]) then Build(BuildStep(st, es[0]), es[1..])
    else Broken
  }

  lemma {:induction false} BuildAppend(st: seq<Value>, a: seq<Event>, b: seq<Event>)
    ensures Build(st, a + b) == if Build(st, a).Built? then Build(Build(st, a).stack, b) else Broken
    decreases |a|
  {
    if a == [] {
      assert a + b == b;
    } else {
      assert (a + b)[1..] == a[1..] + b;
      if Buildable(st, a[0]) {
        BuildAppend(BuildStep(st, a[0]), a[1..], b);
      }
    }
  }

  // ---------------------------------------------------------------- the handler

  class GenericDocument {
    const stack: Stack<Value>
    var root: Value
    var parseResult: ParseResult

    constructor ()
      ensures root == Value.Null && parseResult == Success && fresh(stack) && stack.items == []
    {
      root := Value.Null;
      parseResult := Success;
      stack := new Stack<Value>();
    }

    method EndObject(memberCount: nat)
      requires Buildable(stack.items, Event.EndObject(memberCount))
      modifies stack
      ensures stack.items == BuildStep(old(stack.items), Event.EndObject(memberCount))
    {
      ghost var was := stack.items;
      var members := stack.Pop(2 * memberCount);
      assert stack.items == was[..|was| - 2 * memberCount] && members == was[|was| - 2 * memberCount..];
      ghost var below := stack.items;
      var _ := stack.Pop(1);
      assert stack.items == below[..|below| - 1];
      stack.Push(Object(Paired(members)));
    }

    method EndArray(elementCount: nat)
      requires Buildable(stack.items, Event.EndArray(elementCount))
      modifies stack
      ensures stack.items == BuildStep(old(stack.items), Event.EndArray(elementCount))
    {
      ghost var was := stack.items;
      var elements := stack.Pop(elementCount);
      assert stack.items == was[..|was| - elementCount] && elements == was[|was| - elementCount..];
      ghost var below := stack.items;
      var _ := stack.Pop(1);
      assert stack.items == below[..|below| - 1];
      stack.Push(Array(elements));
    }

    method Handle(e: Event)
      requires Buildable(stack.items, e)
      modifies stack
      ensures stack.items == BuildStep(old(stack.items), e)
    {
      match e {
        case Null => stack.Push(Value.Null);
        case Bool(b) => stack.Push(Value.Bool(b));
        case Int(i) => stack.Push(Number(FromInt(i)));
        case Uint(u) => stack.Push(Number(FromUint(u)));
        case Int64(i) => stack.Push(Number(FromInt64(i)));
        case Uint64(u) => stack.Push(Number(FromUint64(u)));
        case Double(d) => stack.Push(Number(Real(d)));
        case RawNumber(text) => stack.Push(Value.String(text));
        case String(str) => stack.Push(Value.String(str));
        case Key(name) => stack.Push(Value.String(name));
        case StartObject => stack.Push(Object([]));
        case StartArray => stack.Push(Array([]));
        case EndObject(n) => EndObject(n);
        case EndArray(n) => EndArray(n);
      }
    }
  }

  // ---------------------------------------------------------------- building a value back

  /** The event a reader publishes for the text of this one: integers come back by sign and size, or as their text. */
  function Normal(f: G.Flags, e: Event): Event {
    match e
    case Int(i) => if IsInt(i) then Numeral(f, i) else e
    case Int64(i) => if IsInt64(i) then Numeral(f, i) else e
    case Uint(u) => if IsUint(u) then Numeral(f, u) else e
    case Uint64(u) => if IsUint64(u) then Numeral(f, u) else e
    case _ => e
  }

  function Numeral(f: G.Flags, i: int): Event
    requires IsInt64(i) || IsUint64(i)
  {
    if f.numbersAsStrings then RawNumber(IntText(i)) else G.IntegerEvent(i < 0, if i < 0 then -i else i)
  }

  function NormalAll(f: G.Flags, es: seq<Event>): (ns: seq<Event>)
    ensures |ns| == |es|
  {
    if es == [] then [] else [Normal(f, es[0])] + NormalAll(f, es[1..])
  }

  lemma {:induction false} NormalAllAppend(f: G.Flags, a: seq<Event>, b: seq<Event>)
    ensures NormalAll(f, a + b) == NormalAll(f, a) + NormalAll(f, b)
    decreases |a|
  {
    if a == [] {
      assert a + b == b;
    } else {
      assert (a + b)[1..] == a[1..] + b;
      NormalAllAppend(f, a[1..], b);
    }
  }

  /** Which integer event a number arrives by makes no difference to the value built. */
  lemma NormalBuildsSame(f: G.Flags, st: seq<Value>, e: Event)
    requires !f.numbersAsStrings
    ensures Buildable(st, Normal(f, e)) <==> Buildable(st, e)
    ensures Buildable(st, e) ==> BuildStep(st, Normal(f, e)) == BuildStep(st, e)
  {
    match e {
      case Int(i) => ConstructorsAgree(i);
      case Int64(i) => ConstructorsAgree(i);
      case Uint(u) => ConstructorsAgree(u);
      case Uint64(u) => ConstructorsAgree(u);
      case _ =>
    }
  }

  lemma {:induction false} NormalAllBuildsSame(f: G.Flags, st: seq<Value>, es: seq<Event>)
    requires !f.numbersAsStrings
    ensures Build(st, NormalAll(f, es)) == Build(st, es)
    decreases |es|
  {
    if es != [] {
      NormalBuildsSame(f, st, es[0]);
      assert NormalAll(f, es)[1..] == NormalAll(f, es[1..]);
      if Buildable(st, es[0]) {
        NormalAllBuildsSame(f, BuildStep(st, es[0]), es[1..]);
      }
    }
  }

  lemma BuildOne(st: seq<Value>, e: Event)
    requires Buildable(st, e)
    ensures Build(st, [e]) == Built(BuildStep(st, e))
  {
    assert [e][1..] == [];
  }

  lemma BuildAround(st: seq<Value>, open: Event, es: seq<Event>, close: Event, mid: seq<Value>)
    requires Buildable(st, open) && Buildable(mid, close)
    requires Build(BuildStep(st, open), es) == Built(mid)
    ensures Build(st, [open] + es + [close]) == Built(BuildStep(mid, close))
  {
    BuildAppend(st, [open] + es, [close]);
    BuildAppend(st, [open], es);
    BuildOne(st, open);
    BuildOne(mid, close);
  }

  /** Building from a value's own events leaves the value, and nothing else, on the stack. */
  lemma {:induction false} BuildEvents(st: seq<Value>, v: Value)
    requires Valid(v)
    ensures Build(st, Events(v)) == Built(st + [v])
    decreases v, 1
  {
    match v {
      case Array(vs) =>
        BuildElementEvents(st + [Array([])], vs);
        CloseArray(st, vs);
        BuildAround(st, StartArray, ElementEvents(vs), Event.EndArray(|vs|), st + [Array([])] + vs);
      case Object(ms) =>
        BuildMemberEvents(st + [Object([])], ms);
        CloseObject(st, ms);
        BuildAround(st, StartObject, MemberEvents(ms), Event.EndObject(|ms|), st + [Object([])] + Interleaved(ms));
      case Number(n) =>
        if n.Integer? {
          ConstructorsAgree(IntegerValue(n));
        }
        BuildOne(st, NumberEvent(n));
      case _ =>
        BuildOne(st, Events(v)[0]);
    }
  }

  lemma CloseArray(st: seq<Value>, vs: seq<Value>)
    ensures var mid := st + [Array([])] + vs;
            Buildable(mid, Event.EndArray(|vs|)) && BuildStep(mid, Event.EndArray(|vs|)) == st + [Array(vs)]
  {
    var mid := st + [Array([])] + vs;
    assert mid[..|st|] == st && mid[|st| + 1..] == vs;
  }

  lemma ClosePairs(st: seq<Value>, kv: seq<Value>, n: nat)
    requires |kv| == 2 * n && NamesAreStrings(kv)
    ensures var mid := st + [Object([])] + kv;
            Buildable(mid, Event.EndObject(n)) && BuildStep(mid, Event.EndObject(n)) == st + [Object(Paired(kv))]
  {
    hide Paired, NamesAreStrings;
    var mid := st + [Object([])] + kv;
    assert mid[..|st|] == st && mid[|st| + 1..] == kv;
  }

  lemma CloseObject(st: seq<Value>, ms: seq<Member>)
    ensures var mid := st + [Object([])] + Interleaved(ms);
            Buildable(mid, Event.EndObject(|ms|)) && BuildStep(mid, Event.EndObject(|ms|)) == st + [Object(ms)]
  {
    PairedInterleaved(ms);
    ClosePairs(st, Interleaved(ms), |ms|);
    hide Buildable, BuildStep, Paired, NamesAreStrings, Interleaved;
  }

  lemma {:induction false} BuildElementEvents(st: seq<Value>, vs: seq<Value>)
    requires forall v :: v in vs ==> Valid(v)
    ensures Build(st, ElementEvents(vs)) == Built(st + vs)
    decreases vs, 0
  {
    hide Buildable, BuildStep, Valid, Events;
    if vs == [] {
      assert st + vs == st;
    } else {
      BuildAppend(st, Events(vs[0]), ElementEvents(vs[1..]));
      BuildEvents(st, vs[0]);
      BuildElementEvents(st + [vs[0]], vs[1..]);
      assert st + [vs[0]] + vs[1..] == st + vs;
    }
  }

  /** Names and values as they lie on the stack. */
  function Interleaved(ms: seq<Member>): (vs: seq<Value>)
    ensures |vs| == 2 * |ms|
    ensures forall i :: 0 <= i < |ms| ==> vs[2 * i] == Value.String(ms[i].name) && vs[2 * i + 1] == ms[i].value
  {
    if ms == [] then [] else [Value.String(ms[0].name), ms[0].value] + Interleaved(ms[1..])
  }

  lemma InterleavedCons(st: seq<Value>, ms: seq<Member>)
    requires ms != []
    ensures st + [Value.String(ms[0].name)] + [ms[0].value] + Interleaved(ms[1..]) == st + Interleaved(ms)
  {
    var name, value := Value.String(ms[0].name), ms[0].value;
    assert Interleaved(ms) == [name, value] + Interleaved(ms[1..]);
    assert [name] + [value] == [name, value];
  }

  lemma PairedInterleaved(ms: seq<Member>)
    ensures NamesAreStrings(Interleaved(ms)) && Paired(Interleaved(ms)) == ms
  {
    var vs := Interleaved(ms);
    forall i | 0 <= i < |vs| && i % 2 == 0
      ensures vs[i].String?
    {
      assert vs[2 * (i / 2)].String?;
    }
  }

  lemma BuildMember(st: seq<Value>, m: Member)
    requires Valid(m.value)
    ensures Build(st, [Key(m.name)] + Events(m.value)) == Built(st + [Value.String(m.name)] + [m.value])
    decreases m.value, 2
  {
    BuildAppend(st, [Key(m.name)], Events(m.value));
    BuildOne(st, Key(m.name));
    BuildEvents(st + [Value.String(m.name)], m.value);
  }

  lemma {:induction false} BuildMemberEvents(st: seq<Value>, ms: seq<Member>)
    requires forall m :: m in ms ==> Valid(m.value)
    ensures Build(st, MemberEvents(ms)) == Built(st + Interleaved(ms))
    decreases ms, 0
  {
    hide Buildable, BuildStep, Valid, Events;
    if ms == [] {
      assert st + Interleaved(ms) == st;
    } else {
      var name, value := Value.String(ms[0].name), ms[0].value;
      BuildMember(st, ms[0]);
      BuildAppend(st, [Key(ms[0].name)] + Events(value), MemberEvents(ms[1..]));
      BuildMemberEvents(st + [name] + [value], ms[1..]);
      InterleavedCons(st, ms);
    }
  }

  // ---------------------------------------------------------------- numbers kept as text

  /** The value with each integer replaced by a string, its numeral. */
  function Spelled(v: Value): Value
    decreases v, 1
  {
    match v
    case Number(n) => if n.Integer? then Value.String(IntText(IntegerValue(n))) else v
    case Array(vs) => Array(SpelledElements(vs))
    case Object(ms) => Object(SpelledMembers(ms))
    case _ => v
  }

  function SpelledElements(vs: seq<Value>): (ws: seq<Value>)
    ensures |ws| == |vs|
    decreases vs, 0
  {
    if vs == [] then [] else [Spelled(vs[0])] + SpelledElements(vs[1..])
  }

  function SpelledMembers(ms: seq<Member>): (ns: seq<Member>)
    ensures |ns| == |ms|
    decreases ms, 0
  {
    if ms == [] then [] else [Member(ms[0].name, Spelled(ms[0].value))] + SpelledMembers(ms[1..])
  }

  predicate HoldsNoInteger(v: Value) {
    match v
    case Number(n) => !n.Integer?
    case Array(vs) => forall x :: x in vs ==> HoldsNoInteger(x)
    case Object(ms) => forall m :: m in ms ==> HoldsNoInteger(m.value)
    case _ => true
  }

  /** Spelling changes a value exactly if it holds an integer somewhere. */
  lemma {:induction false} SpelledIsSame(v: Value)
    ensures Spelled(v) == v <==> HoldsNoInteger(v)
    decreases v, 1
  {
    match v {
      case Array(vs) => SpelledElementsAreSame(vs);
      case Object(ms) => SpelledMembersAreSame(ms);
      case _ =>
    }
  }

  lemma {:induction false} SpelledElementsAreSame(vs: seq<Value>)
    ensures SpelledElements(vs) == vs <==> forall x :: x in vs ==> HoldsNoInteger(x)
    decreases vs, 0
  {
    if vs != [] {
      SpelledIsSame(vs[0]);
      SpelledElementsAreSame(vs[1..]);
      assert vs == [vs[0]] + vs[1..];
      assert SpelledElements(vs)[1..] == SpelledElements(vs[1..]);
    }
  }

  lemma {:induction false} SpelledMembersAreSame(ms: seq<Member>)
    ensures SpelledMembers(ms) == ms <==> forall m :: m in ms ==> HoldsNoInteger(m.value)
    decreases ms, 0
  {
    if ms != [] {
      SpelledIsSame(ms[0].value);
      SpelledMembersAreSame(ms[1..]);
      assert ms == [ms[0]] + ms[1..];
      assert SpelledMembers(ms)[1..] == SpelledMembers(ms[1..]);
    }
  }

  /** Numerals kept as text are built as strings. */
  function AsString(e: Event): Event {
    if e.RawNumber? then Event.String(e.text) else e
  }

  function AllAsStrings(es: seq<Event>): (ss: seq<Event>)
    ensures |ss| == |es|
  {
    if es == [] then [] else [AsString(es[0])] + AllAsStrings(es[1..])
  }

  lemma {:induction false} AllAsStringsAppend(a: seq<Event>, b: seq<Event>)
    ensures AllAsStrings(a + b) == AllAsStrings(a) + AllAsStrings(b)
    decreases |a|
  {
    if a == [] {
      assert a + b == b;
    } else {
      assert (a + b)[1..] == a[1..] + b;
      AllAsStringsAppend(a[1..], b);
    }
  }

  lemma {:induction false} AsStringsBuildSame(st: seq<Value>, es: seq<Event>)
    ensures Build(st, AllAsStrings(es)) == Build(st, es)
    decreases |es|
  {
    if es != [] {
      assert AllAsStrings(es)[1..] == AllAsStrings(es[1..]);
      if Buildable(st, es[0]) {
        assert BuildStep(st, AsString(es[0])) == BuildStep(st, es[0]);
        AsStringsBuildSame(BuildStep(st, es[0]), es[1..]);
      }
    }
  }

  /** What is read for a value's events, as the events of the spelled value. */
  function ReadAll(f: G.Flags, es: seq<Event>): seq<Event> {
    AllAsStrings(NormalAll(f, es))
  }

  lemma ReadAllAppend(f: G.Flags, a: seq<Event>, b: seq<Event>)
    ensures ReadAll(f, a + b) == ReadAll(f, a) + ReadAll(f, b)
  {
    NormalAllAppend(f, a, b);
    AllAsStringsAppend(NormalAll(f, a), NormalAll(f, b));
  }

  lemma ReadOne(f: G.Flags, e: Event)
    ensures ReadAll(f, [e]) == [AsString(Normal(f, e))]
  {
    assert [e][1..] == [] && [Normal(f, e)][1..] == [];
  }

  lemma {:induction false} SpelledEvents(f: G.Flags, v: Value)
    requires f.numbersAsStrings && Valid(v) && DoubleFree(v)
    ensures ReadAll(f, Events(v)) == Events(Spelled(v))
    decreases v, 1
  {
    hide ReadAll;
    match v {
      case Array(vs) =>
        SpelledElementEvents(f, vs);
        ReadAround(f, StartArray, ElementEvents(vs), Event.EndArray(|vs|));
      case Object(ms) =>
        SpelledMemberEvents(f, ms);
        ReadAround(f, StartObject, MemberEvents(ms), Event.EndObject(|ms|));
      case Number(n) =>
        NumberIsRead(f, n);
        ReadOne(f, NumberEvent(n));
      case _ =>
        ReadOne(f, Events(v)[0]);
    }
  }

  lemma NumberIsRead(f: G.Flags, n: Number)
    requires f.numbersAsStrings && Valid(Number(n)) && n.Integer?
    ensures Normal(f, NumberEvent(n)) == RawNumber(IntText(IntegerValue(n)))
  {
    hide IntText;
    ConstructorsAgree(IntegerValue(n));
  }

  lemma ReadAround(f: G.Flags, open: Event, es: seq<Event>, close: Event)
    requires AsString(Normal(f, open)) == open && AsString(Normal(f, close)) == close
    ensures ReadAll(f, [open] + es + [close]) == [open] + ReadAll(f, es) + [close]
  {
    hide ReadAll, AsString, Normal;
    ReadAllAppend(f, [open] + es, [close]);
    ReadAllAppend(f, [open], es);
    ReadOne(f, open);
    ReadOne(f, close);
  }

  lemma {:induction false} SpelledElementEvents(f: G.Flags, vs: seq<Value>)
    requires f.numbersAsStrings && forall x :: x in vs ==> Valid(x) && DoubleFree(x)
    ensures ReadAll(f, ElementEvents(vs)) == ElementEvents(SpelledElements(vs))
    decreases vs, 0
  {
    if vs != [] {
      hide Events, Valid, DoubleFree, Spelled;
      SpelledEvents(f, vs[0]);
      SpelledElementEvents(f, vs[1..]);
      ReadAllAppend(f, Events(vs[0]), ElementEvents(vs[1..]));
      assert SpelledElements(vs)[1..] == SpelledElements(vs[1..]);
    }
  }

  lemma {:induction false} SpelledMemberEvents(f: G.Flags, ms: seq<Member>)
    requires f.numbersAsStrings && forall m :: m in ms ==> Valid(m.value) && DoubleFree(m.value)
    ensures ReadAll(f, MemberEvents(ms)) == MemberEvents(SpelledMembers(ms))
    decreases ms, 0
  {
    if ms != [] {
      var key, ev := Key(ms[0].name), Events(ms[0].value);
      ReadOne(f, key);
      assert AsString(Normal(f, key)) == key;
      assert ms[0] in ms;
      hide Events, Valid, DoubleFree, Spelled, ReadAll, AsString, Normal;
      SpelledEvents(f, ms[0].value);
      SpelledMemberEvents(f, ms[1..]);
      ReadAllAppend(f, [key] + ev, MemberEvents(ms[1..]));
      ReadAllAppend(f, [key], ev);
      assert SpelledMembers(ms)[1..] == SpelledMembers(ms[1..]);
    }
  }

  lemma {:induction false} SpelledIsValid(v: Value)
    requires Valid(v) && DoubleFree(v)
    ensures Valid(Spelled(v))
    decreases v, 1
  {
    match v {
      case Array(vs) =>
        forall x | x in SpelledElements(vs)
          ensures Valid(x)
        {
          SpelledElementIs(vs, x);
          var y :| y in vs && x == Spelled(y);
          SpelledIsValid(y);
        }
      case Object(ms) =>
        forall m | m in SpelledMembers(ms)
          ensures |m.name| < SIZE_LIMIT && Valid(m.value)
        {
          SpelledMemberIs(ms, m);
          var y :| y in ms && m == Member(y.name, Spelled(y.value));
          SpelledIsValid(y.value);
        }
      case Number(n) =>
        NumeralIsShort(IntegerValue(n));
      case _ =>
    }
  }

  lemma {:induction false} SpelledIsDoubleFree(v: Value)
    requires DoubleFree(v)
    ensures DoubleFree(Spelled(v))
    decreases v, 1
  {
    match v {
      case Array(vs) =>
        forall x | x in SpelledElements(vs)
          ensures DoubleFree(x)
        {
          SpelledElementIs(vs, x);
          var y :| y in vs && x == Spelled(y);
          SpelledIsDoubleFree(y);
        }
      case Object(ms) =>
        forall m | m in SpelledMembers(ms)
          ensures DoubleFree(m.value)
        {
          SpelledMemberIs(ms, m);
          var y :| y in ms && m == Member(y.name, Spelled(y.value));
          SpelledIsDoubleFree(y.value);
        }
      case _ =>
    }
  }

  lemma {:induction false} SpelledElementIs(vs: seq<Value>, x: Value)
    requires x in SpelledElements(vs)
    ensures exists y :: y in vs && x == Spelled(y)
    decreases vs
  {
    if x == Spelled(vs[0]) {
      assert vs[0] in vs;
    } else {
      SpelledElementIs(vs[1..], x);
    }
  }

  lemma {:induction false} SpelledMemberIs(ms: seq<Member>, m: Member)
    requires m in SpelledMembers(ms)
    ensures exists y :: y in ms && m == Member(y.name, Spelled(y.value))
    decreases ms
  {
    if m == Member(ms[0].name, Spelled(ms[0].value)) {
      assert ms[0] in ms;
    } else {
      SpelledMemberIs(ms[1..], m);
    }
  }

  lemma NumeralIsShort(i: int)
    requires IsInt64(i) || IsUint64(i)
    ensures |IntText(i)| < SIZE_LIMIT
  {
    var n := if i < 0 then -i else i;
    assert Pow10(5) == 100000;
    assert Pow10(10) == 10000000000;
    assert Pow10(15) == 1000000000000000;
    assert Pow10(20) == 100000000000000000000;
    DecimalLength(n, 20);
  }

  /** The document built from the text of a value. */
  function Restored(f: G.Flags, v: Value): Value {
    if f.numbersAsStrings then Spelled(v) else v
  }

  lemma ReadEventsBuild(f: G.Flags, v: Value)
    requires Valid(v) && DoubleFree(v)
    ensures Build([], NormalAll(f, Events(v))) == Built([Restored(f, v)])
  {
    hide Events, Spelled, NormalAll, Valid, DoubleFree, AllAsStrings;
    if f.numbersAsStrings {
      AsStringsBuildSame([], NormalAll(f, Events(v)));
      SpelledEvents(f, v);
      SpelledIsValid(v);
      BuildEvents([], Spelled(v));
    } else {
      NormalAllBuildsSame(f, [], Events(v));
      BuildEvents([], v);
    }
    assert [] + [Restored(f, v)] == [Restored(f, v)];
  }
}
