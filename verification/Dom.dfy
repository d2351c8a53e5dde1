/**
 The document object model: values, the integer constructors with their type flags, and `Accept`,
 which publishes a value's events.
 */
module Dom {
  import opened Bytes
  import opened Sax

  /** Which integer types a number can be read as. */
  datatype NumberFlags = NumberFlags(isInt: bool, isUint: bool, isInt64: bool, isUint64: bool)

  /** An integer is a raw 64-bit pattern with its flags. */
  datatype Number = Integer(bits: nat, flags: NumberFlags) | Real(d: Double)

  datatype Value =
    | Null
    | Bool(b: bool)
    | Number(n: Number)
    | String(s: seq<byte>)
    | Array(elements: seq<Value>)
    | Object(members: seq<Member>)

  datatype Member = Member(name: seq<byte>, value: Value)

  const TWO_31: nat := 0x8000_0000
  const TWO_32: nat := 0x1_0000_0000
  const TWO_63: nat := 0x8000_0000_0000_0000
  const TWO_64: nat := 0x1_0000_0000_0000_0000

  // ---------------------------------------------------------------- integers

  predicate IsInt(i: int) { -(TWO_31 as int) <= i < TWO_31 }
  predicate IsUint(i: int) { 0 <= i < TWO_32 }
  predicate IsInt64(i: int) { -(TWO_63 as int) <= i < TWO_63 }
  predicate IsUint64(i: int) { 0 <= i < TWO_64 }

  /** The pattern of an integer in two's complement. */
  function Pattern(i: int): (bits: nat)
    requires -(TWO_63 as int) <= i < TWO_64
    ensures bits < TWO_64
  {
    if i < 0 then i + TWO_64 else i
  }

  function FromInt(i: int): Number
    requires IsInt(i)
  {
    Integer(Pattern(i), NumberFlags(true, i >= 0, true, i >= 0))
  }

  // The flags of the wider constructors are set by masks; what these test is in module Words.

  function FromUint(u: nat): Number
    requires IsUint(u)
  {
    Integer(u, NumberFlags(u < TWO_31, true, true, true))
  }

  function FromInt64(i: int): Number
    requires IsInt64(i)
  {
    Integer(Pattern(i), NumberFlags(-(TWO_31 as int) <= i < TWO_31, 0 <= i < TWO_32, true, i >= 0))
  }

  function FromUint64(u: nat): Number
    requires IsUint64(u)
  {
    Integer(u, NumberFlags(u < TWO_31, u < TWO_32, u < TWO_63, true))
  }

  /** Low 32 bits as a signed integer, and all 64 as a signed integer. */
  function GetInt(bits: nat): int {
    var low := bits % TWO_32;
    if low >= TWO_31 then low - TWO_32 else low
  }

  function GetUint(bits: nat): nat {
    bits % TWO_32
  }

  function GetInt64(bits: nat): int {
    if bits >= TWO_63 then bits - TWO_64 else bits
  }

  /** The integer a pattern with these flags stands for. */
  function IntegerValue(n: Number): int
    requires n.Integer?
  {
    if n.flags.isUint64 then n.bits else GetInt64(n.bits)
  }

  /** The number every constructor that takes the integer makes of it. */
  function Canonical(i: int): Number
    requires -(TWO_63 as int) <= i < TWO_64
  {
    Integer(Pattern(i), NumberFlags(IsInt(i), IsUint(i), IsInt64(i), IsUint64(i)))
  }

  lemma ConstructorsAgree(i: int)
    ensures IsInt(i) ==> FromInt(i) == Canonical(i)
    ensures IsUint(i) ==> FromUint(i) == Canonical(i)
    ensures IsInt64(i) ==> FromInt64(i) == Canonical(i)
    ensures IsUint64(i) ==> FromUint64(i) == Canonical(i)
    ensures -(TWO_63 as int) <= i < TWO_64 ==> IntegerValue(Canonical(i)) == i
  {
  }

  /** `operator==` on integers compares the patterns. */
  predicate IntegerEqual(a: Number, b: Number)
    requires a.Integer? && b.Integer?
  {
    a.bits == b.bits
  }

  /** Equal patterns are equal integers, except for a negative integer and the unsigned one 2^64 above it. */
  lemma IntegerEqualIsEquality(i: int, j: int)
    requires -(TWO_63 as int) <= i < TWO_64 && -(TWO_63 as int) <= j < TWO_64
    ensures IntegerEqual(Canonical(i), Canonical(j)) <==> i == j || i == j + TWO_64 || j == i + TWO_64
  {
  }

  /** So -1 compares equal to the largest unsigned integer. */
  lemma MinusOneEqualsMax()
    ensures IntegerEqual(Canonical(-1), Canonical(TWO_64 - 1))
  {
    IntegerEqualIsEquality(-1, TWO_64 - 1);
  }

  // ---------------------------------------------------------------- well-formed values

  /** Numbers the constructors can make, and sizes that fit a SizeType. */
  predicate Valid(v: Value) {
    match v
    case Number(Integer(bits, flags)) => bits < TWO_64 && v.n == Canonical(IntegerValue(v.n))
    case String(s) => |s| < SIZE_LIMIT
    case Array(vs) => |vs| < SIZE_LIMIT && forall x :: x in vs ==> Valid(x)
    case Object(ms) => |ms| < SIZE_LIMIT && forall m :: m in ms ==> |m.name| < SIZE_LIMIT && Valid(m.value)
    case _ => true
  }

  predicate DoubleFree(v: Value) {
    match v
    case Number(n) => n.Integer?
    case Array(vs) => forall x :: x in vs ==> DoubleFree(x)
    case Object(ms) => forall m :: m in ms ==> DoubleFree(m.value)
    case _ => true
  }

  // ---------------------------------------------------------------- events

  function NumberEvent(n: Number): Event {
    match n
    case Real(d) => Event.Double(d)
    case Integer(bits, flags) =>
      if flags.isInt then Event.Int(GetInt(bits))
      else if flags.isUint then Event.Uint(GetUint(bits))
      else if flags.isInt64 then Event.Int64(GetInt64(bits))
      else Event.Uint64(bits)
  }

  /** Everything `Accept` publishes when the handler takes it all. */
  function Events(v: Value): (es: seq<Event>)
    ensures es != []
    decreases v, 1
  {
    match v
    case Null => [Event.Null]
    case Bool(b) => [Event.Bool(b)]
    case Number(n) => [NumberEvent(n)]
    case String(s) => [Event.String(s)]
    case Array(vs) => [StartArray] + ElementEvents(vs) + [EndArray(|vs|)]
    case Object(ms) => [StartObject] + MemberEvents(ms) + [EndObject(|ms|)]
  }

  function ElementEvents(vs: seq<Value>): seq<Event>
    decreases vs, 0
  {
    if vs == [] then [] else Events(vs[0]) + ElementEvents(vs[1..])
  }

  function MemberEvents(ms: seq<Member>): seq<Event>
    decreases ms, 0
  {
    if ms == [] then [] else [Key(ms[0].name)] + Events(ms[0].value) + MemberEvents(ms[1..])
  }

  /** Sending events to a handler until it refuses one. */
  function Send(accept: Acceptance, log: seq<Event>, es: seq<Event>): (seq<Event>, bool)
    decreases |es|
  {
    if es == [] then (log, true)
    else if !accept(log + [es[0]]) then (log + [es[0]], false)
    else Send(accept, log + [es[0]], es[1..])
  }

  lemma {:induction false} SendAppend(accept: Acceptance, log: seq<Event>, a: seq<Event>, b: seq<Event>)
    ensures var (log1, ok) := Send(accept, log, a);
            Send(accept, log, a + b) == if ok then Send(accept, log1, b) else (log1, false)
    decreases |a|
  {
    if a == [] {
      assert a + b == b;
    } else {
      assert (a + b)[1..] == a[1..] + b;
      if accept(log + [a[0]]) {
        SendAppend(accept, log + [a[0]], a[1..], b);
      }
    }
  }

  /** A handler that takes everything ends up with all the events. */
  lemma {:induction false} SendAll(accept: Acceptance, log: seq<Event>, es: seq<Event>)
    requires forall l :: accept(l)
    ensures Send(accept, log, es) == (log + es, true)
    decreases |es|
  {
    if es != [] {
      SendAll(accept, log + [es[0]], es[1..]);
      assert log + [es[0]] + es[1..] == log + es;
    } else {
      assert log + es == log;
    }
  }

  method Accept(v: Value, h: Handler) returns (ok: bool)
    modifies h
    ensures (h.log, ok) == Send(h.accept, old(h.log), Events(v))
    decreases v, 1
  {
    match v {
      case Null => ok := h.Handle(Event.Null);
      case Bool(b) => ok := h.Handle(Event.Bool(b));
      case Number(n) => ok := h.Handle(NumberEvent(n));
      case String(s) => ok := h.Handle(Event.String(s));
      case Array(vs) =>
        SendAppend(h.accept, h.log, [StartArray] + ElementEvents(vs), [EndArray(|vs|)]);
        SendAppend(h.accept, h.log, [StartArray], ElementEvents(vs));
        ok := h.Handle(StartArray);
        if ok {
          ok := AcceptElements(vs, h);
        }
        if ok {
          ok := h.Handle(EndArray(|vs|));
        }
      case Object(ms) =>
        SendAppend(h.accept, h.log, [StartObject] + MemberEvents(ms), [EndObject(|ms|)]);
        SendAppend(h.accept, h.log, [StartObject], MemberEvents(ms));
        ok := h.Handle(StartObject);
        if ok {
          ok := AcceptMembers(ms, h);
        }
        if ok {
          ok := h.Handle(EndObject(|ms|));
        }
    }
  }

  method AcceptElements(vs: seq<Value>, h: Handler) returns (ok: bool)
    modifies h
    ensures (h.log, ok) == Send(h.accept, old(h.log), ElementEvents(vs))
    decreases vs, 0
  {
    ok := true;
    var i := 0;
    while i < |vs|
      invariant 0 <= i <= |vs| && ok
      invariant Send(h.accept, old(h.log), ElementEvents(vs)) == Send(h.accept, h.log, ElementEvents(vs[i..]))
    {
      SendAppend(h.accept, h.log, Events(vs[i]), ElementEvents(vs[i + 1..]));
      assert vs[i..][1..] == vs[i + 1..];
      ok := Accept(vs[i], h);
      if !ok {
        return;
      }
      i := i + 1;
    }
  }

  method AcceptMembers(ms: seq<Member>, h: Handler) returns (ok: bool)
    modifies h
    ensures (h.log, ok) == Send(h.accept, old(h.log), MemberEvents(ms))
    decreases ms, 0
  {
    ok := true;
    var i := 0;
    while i < |ms|
      invariant 0 <= i <= |ms| && ok
      invariant Send(h.accept, old(h.log), MemberEvents(ms)) == Send(h.accept, h.log, MemberEvents(ms[i..]))
    {
      SendAppend(h.accept, h.log, [Key(ms[i].name)] + Events(ms[i].value), MemberEvents(ms[i + 1..]));
      SendAppend(h.accept, h.log, [Key(ms[i].name)], Events(ms[i].value));
      assert ms[i..][1..] == ms[i + 1..];
      ok := h.Handle(Key(ms[i].name));
      if !ok {
        return;
      }
      ok := Accept(ms[i].value, h);
      if !ok {
        return;
      }
      i := i + 1;
    }
  }
}
