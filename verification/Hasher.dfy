/**
 The hasher, a handler that reduces a value's events to one 64-bit hash: elements are folded in order,
 members are combined by exclusive or, so that their order does not matter.
 */
module Hasher {
  import opened Bytes
  import opened Sax
  import opened Streams
  import opened Words
  import D = Dom

  const PRIME: bv64 := 0x0000_0100_0000_01b3
  const OFFSET_BASIS: bv64 := 0x8422_2325_cbf2_9ce4

  const NULL_TYPE: bv64 := 0
  const FALSE_TYPE: bv64 := 1
  const TRUE_TYPE: bv64 := 2
  const OBJECT_TYPE: bv64 := 3
  const ARRAY_TYPE: bv64 := 4
  const STRING_TYPE: bv64 := 5
  const NUMBER_TYPE: bv64 := 6

  function Hash(h: bv64, d: bv64): bv64 {
    Xor(h, d) * PRIME
  }

  function Word(c: byte): bv64 {
    c as bv64
  }

  function HashBytes(h: bv64, data: seq<byte>): bv64
    decreases |data|
  {
    if data == [] then h else Hash(HashBytes(h, data[..|data| - 1]), Word(data[|data| - 1]))
  }

  function BufferHash(t: bv64, data: seq<byte>): bv64 {
    HashBytes(Hash(OFFSET_BASIS, t), data)
  }

  /**
   The bytes that stand for doubles: of the double an integer converts to, and of the record that is made
   for a double.
   */
  datatype Doubles = Doubles(ofInteger: int -> seq<byte>, ofDouble: Double -> seq<byte>)

  /** The bytes of a number: its 64-bit pattern, low byte first, and its double. */
  function NumberBytes(i: int, f: Doubles): seq<byte>
    requires -0x8000_0000_0000_0000 <= i < 0x1_0000_0000_0000_0000
  {
    PatternBytes(D.Pattern(i), 8) + f.ofInteger(i)
  }

  function PatternBytes(bits: nat, n: nat): seq<byte>
    decreases n
  {
    if n == 0 then [] else [bits % 256] + PatternBytes(bits / 256, n - 1)
  }

  /** A scalar or a name; integers in range. */
  predicate IsLeaf(e: Event) {
    match e
    case Null => true
    case Bool(_) => true
    case Int(i) => D.IsInt(i)
    case Uint(i) => D.IsUint(i)
    case Int64(i) => D.IsInt64(i)
    case Uint64(i) => D.IsUint64(i)
    case Double(_) => true
    case RawNumber(_) => true
    case String(_) => true
    case Key(_) => true
    case _ => false
  }

  function LeafHash(e: Event, f: Doubles): bv64
    requires IsLeaf(e)
  {
    match e
    case Null => BufferHash(NULL_TYPE, [])
    case Bool(b) => BufferHash(if b then TRUE_TYPE else FALSE_TYPE, [])
    case Int(i) => BufferHash(NUMBER_TYPE, NumberBytes(i, f))
    case Uint(i) => BufferHash(NUMBER_TYPE, NumberBytes(i, f))
    case Int64(i) => BufferHash(NUMBER_TYPE, NumberBytes(i, f))
    case Uint64(i) => BufferHash(NUMBER_TYPE, NumberBytes(i, f))
    case Double(d) => BufferHash(NUMBER_TYPE, f.ofDouble(d))
    case RawNumber(text) => BufferHash(NUMBER_TYPE, text)
    case String(str) => BufferHash(STRING_TYPE, str)
    case Key(name) => BufferHash(STRING_TYPE, name)
  }

  // ---------------------------------------------------------------- the hash of a value

  /** Names and values alternate; each pair is hashed and all are combined. */
  function XorPairs(kv: seq<bv64>, h: bv64): bv64
    requires |kv| % 2 == 0
    decreases |kv|
  {
    if kv == [] then h else XorPairs(kv[2..], Xor(h, Hash(kv[0], kv[1])))
  }

  function FoldHashes(es: seq<bv64>, h: bv64): bv64
    decreases |es|
  {
    if es == [] then h else FoldHashes(es[1..], Hash(h, es[0]))
  }

  function HashOf(v: D.Value, f: Doubles): bv64
    requires D.Valid(v)
    decreases v, 1
  {
    match v
    case Array(vs) => FoldHashes(ElementHashes(vs, f), Hash(0, ARRAY_TYPE))
    case Object(ms) => XorPairs(MemberHashes(ms, f), Hash(0, OBJECT_TYPE))
    case _ =>
      LeafEvent(v);
      LeafHash(D.Events(v)[0], f)
  }

  lemma LeafEvent(v: D.Value)
    requires D.Valid(v) && !v.Array? && !v.Object?
    ensures D.Events(v) == [D.Events(v)[0]] && IsLeaf(D.Events(v)[0])
  {
    if v.Number? && v.n.Integer? {
      D.ConstructorsAgree(D.IntegerValue(v.n));
    }
  }

  function ElementHashes(vs: seq<D.Value>, f: Doubles): (hs: seq<bv64>)
    requires forall v :: v in vs ==> D.Valid(v)
    ensures |hs| == |vs|
    decreases vs, 0
  {
    if vs == [] then [] else [HashOf(vs[0], f)] + ElementHashes(vs[1..], f)
  }

  predicate HashableMembers(ms: seq<D.Member>) {
    forall m :: m in ms ==> D.Valid(m.value)
  }

  function MemberHashes(ms: seq<D.Member>, f: Doubles): (hs: seq<bv64>)
    requires HashableMembers(ms)
    ensures |hs| == 2 * |ms|
    decreases ms, 0
  {
    if ms == [] then []
    else
      assert ms[0] in ms;
      [BufferHash(STRING_TYPE, ms[0].name), HashOf(ms[0].value, f)] + MemberHashes(ms[1..], f)
  }

  // ---------------------------------------------------------------- the handler

  predicate Hashable(st: seq<bv64>, e: Event) {
    if e.EndObject? then 2 * e.members <= |st|
    else if e.EndArray? then e.elements <= |st|
    else e.StartObject? || e.StartArray? || IsLeaf(e)
  }

  function HashStep(st: seq<bv64>, e: Event, f: Doubles): seq<bv64>
    requires Hashable(st, e)
  {
    if e.StartObject? || e.StartArray? then st
    else if e.EndObject? then
      var k := |st| - 2 * e.members; st[..k] + [XorPairs(st[k..], Hash(0, OBJECT_TYPE))]
    else if e.EndArray? then
      var k := |st| - e.elements; st[..k] + [FoldHashes(st[k..], Hash(0, ARRAY_TYPE))]
    else st + [LeafHash(e, f)]
  }

  /** The stack after events, if each finds what it needs there. */
  datatype Hashed = Hashed(stack: seq<bv64>) | Stuck

  function HashAll(st: seq<bv64>, es: seq<Event>, f: Doubles): Hashed
    decreases |es|
  {
    if es == [] then Hashed(st)
    else if Hashable(st, es[0]) then HashAll(HashStep(st, es[0], f), es[1..], f)
    else Stuck
  }

  class Hasher {
    const stack: Stack<bv64>
    const doubles: Doubles

    constructor (doubles: Doubles)
      ensures fresh(stack) && stack.items == [] && this.doubles == doubles
    {
      this.doubles := doubles;
      stack := new Stack<bv64>();
    }

    method WriteBuffer(t: bv64, data: seq<byte>)
      modifies stack
      ensures stack.items == old(stack.items) + [BufferHash(t, data)]
    {
      hide Hash, Word;
      var h := Hash(OFFSET_BASIS, t);
      var i := 0;
      while i < |data|
        invariant 0 <= i <= |data| && h == HashBytes(Hash(OFFSET_BASIS, t), data[..i]) &&
                  stack.items == old(stack.items)
      {
        assert data[..i + 1][..i] == data[..i];
        h := Hash(h, Word(data[i]));
        i := i + 1;
      }
      assert data[..i] == data;
      stack.Push(h);
    }

    method EndObject(memberCount: nat)
      requires 2 * memberCount <= |stack.items|
      modifies stack
      ensures stack.items == HashStep(old(stack.items), Event.EndObject(memberCount), doubles)
    {
      hide Hash, Xor;
      ghost var was := stack.items;
      var h := Hash(0, OBJECT_TYPE);
      var kv := stack.Pop(2 * memberCount);
      ghost var k := |was| - 2 * memberCount;
      assert kv == was[k..] && stack.items == was[..k];
      var i := 0;
      while i < memberCount
        invariant 0 <= i <= memberCount && stack.items == was[..k]
        invariant XorPairs(kv[2 * i..], h) == XorPairs(kv, Hash(0, OBJECT_TYPE))
      {
        assert kv[2 * i..][2..] == kv[2 * (i + 1)..];
        h := Xor(h, Hash(kv[i * 2], kv[i * 2 + 1]));
        i := i + 1;
      }
      stack.Push(h);
    }

    method EndArray(elementCount: nat)
      requires elementCount <= |stack.items|
      modifies stack
      ensures stack.items == HashStep(old(stack.items), Event.EndArray(elementCount), doubles)
    {
      hide Hash;
      ghost var was := stack.items;
      var h := Hash(0, ARRAY_TYPE);
      var e := stack.Pop(elementCount);
      ghost var k := |was| - elementCount;
      assert e == was[k..] && stack.items == was[..k];
      var i := 0;
      while i < elementCount
        invariant 0 <= i <= elementCount && stack.items == was[..k]
        invariant FoldHashes(e[i..], h) == FoldHashes(e, Hash(0, ARRAY_TYPE))
      {
        assert e[i..][1..] == e[i + 1..];
        h := Hash(h, e[i]);
        i := i + 1;
      }
      stack.Push(h);
    }

    method Handle(e: Event)
      requires Hashable(stack.items, e)
      modifies stack
      ensures stack.items == HashStep(old(stack.items), e, doubles)
    {
      hide BufferHash, NumberBytes, XorPairs, FoldHashes;
      if e.EndObject? {
        EndObject(e.members);
      } else if e.EndArray? {
        EndArray(e.elements);
      } else if e.Null? {
        WriteBuffer(NULL_TYPE, []);
      } else if e.Bool? {
        WriteBuffer(if e.b then TRUE_TYPE else FALSE_TYPE, []);
      } else if e.Int? {
        WriteBuffer(NUMBER_TYPE, NumberBytes(e.i, doubles));
      } else if e.Uint? {
        WriteBuffer(NUMBER_TYPE, NumberBytes(e.u, doubles));
      } else if e.Int64? {
        WriteBuffer(NUMBER_TYPE, NumberBytes(e.i64, doubles));
      } else if e.Uint64? {
        WriteBuffer(NUMBER_TYPE, NumberBytes(e.u64, doubles));
      } else if e.Double? {
        WriteBuffer(NUMBER_TYPE, doubles.ofDouble(e.d));
      } else if e.RawNumber? {
        WriteBuffer(NUMBER_TYPE, e.text);
      } else if e.String? {
        WriteBuffer(STRING_TYPE, e.str);
      } else if e.Key? {
        WriteBuffer(STRING_TYPE, e.name);
      }
    }
  }

  // ---------------------------------------------------------------- one hash for a value

  lemma {:induction false} HashAppend(st: seq<bv64>, a: seq<Event>, b: seq<Event>, f: Doubles)
    ensures HashAll(st, a + b, f) == if HashAll(st, a, f).Hashed? then HashAll(HashAll(st, a, f).stack, b, f) else Stuck
    decreases |a|
  {
    hide HashStep, Hashable;
    if a == [] {
      assert a + b == b;
    } else {
      assert (a + b)[1..] == a[1..] + b;
      if Hashable(st, a[0]) {
        HashAppend(HashStep(st, a[0], f), a[1..], b, f);
      }
    }
  }

  lemma HashThen(st: seq<bv64>, a: seq<Event>, mid: seq<bv64>, b: seq<Event>, end: seq<bv64>, f: Doubles)
    requires HashAll(st, a, f) == Hashed(mid) && HashAll(mid, b, f) == Hashed(end)
    ensures HashAll(st, a + b, f) == Hashed(end)
  {
    HashAppend(st, a, b, f);
  }

  lemma HashOne(st: seq<bv64>, e: Event, f: Doubles)
    requires Hashable(st, e)
    ensures HashAll(st, [e], f) == Hashed(HashStep(st, e, f))
  {
    hide HashStep, Hashable;
    assert [e][1..] == [];
  }

  /** A value's events leave exactly its hash on the stack. */
  lemma {:induction false} HashesToOne(st: seq<bv64>, v: D.Value, f: Doubles)
    requires D.Valid(v)
    ensures HashAll(st, D.Events(v), f) == Hashed(st + [HashOf(v, f)])
    decreases v, 1
  {
    match v {
      case Array(vs) => ArrayHashes(st, vs, f);
      case Object(ms) => ObjectHashes(st, ms, f);
      case _ =>
        LeafEvent(v);
        HashOne(st, D.Events(v)[0], f);
    }
  }

  lemma ArrayHashes(st: seq<bv64>, vs: seq<D.Value>, f: Doubles)
    requires D.Valid(D.Array(vs))
    ensures HashAll(st, D.Events(D.Array(vs)), f) == Hashed(st + [HashOf(D.Array(vs), f)])
    decreases vs, 1
  {
    hide Hash;
    var hs, end := ElementHashes(vs, f), EndArray(|vs|);
    ElementsHash(st, vs, f);
    HashOne(st, StartArray, f);
    HashThen(st, [StartArray], st, D.ElementEvents(vs), st + hs, f);
    assert (st + hs)[..|st|] == st && (st + hs)[|st|..] == hs;
    HashOne(st + hs, end, f);
    HashThen(st, [StartArray] + D.ElementEvents(vs), st + hs, [end], st + [HashOf(D.Array(vs), f)], f);
  }

  lemma ElementHashesCons(st: seq<bv64>, vs: seq<D.Value>, f: Doubles)
    requires vs != [] && forall v :: v in vs ==> D.Valid(v)
    ensures st + [HashOf(vs[0], f)] + ElementHashes(vs[1..], f) == st + ElementHashes(vs, f)
  {
    hide HashOf, D.Valid;
  }

  lemma MemberHashesCons(st: seq<bv64>, ms: seq<D.Member>, f: Doubles)
    requires ms != [] && HashableMembers(ms)
    ensures D.Valid(ms[0].value)
    ensures st + [BufferHash(STRING_TYPE, ms[0].name), HashOf(ms[0].value, f)] + MemberHashes(ms[1..], f)
         == st + MemberHashes(ms, f)
  {
    hide HashOf, D.Valid, BufferHash;
    assert ms[0] in ms;
  }

  lemma {:induction false} ElementsHash(st: seq<bv64>, vs: seq<D.Value>, f: Doubles)
    requires forall v :: v in vs ==> D.Valid(v)
    ensures HashAll(st, D.ElementEvents(vs), f) == Hashed(st + ElementHashes(vs, f))
    decreases vs, 0
  {
    hide HashOf, D.Valid, D.Events;
    if vs == [] {
      assert st + [] == st;
    } else {
      hide HashAll, ElementHashes;
      ElementHashesCons(st, vs, f);
      HashesToOne(st, vs[0], f);
      ElementsHash(st + [HashOf(vs[0], f)], vs[1..], f);
      HashThen(st, D.Events(vs[0]), st + [HashOf(vs[0], f)], D.ElementEvents(vs[1..]),
               st + [HashOf(vs[0], f)] + ElementHashes(vs[1..], f), f);
    }
  }

  lemma ObjectHashes(st: seq<bv64>, ms: seq<D.Member>, f: Doubles)
    requires D.Valid(D.Object(ms))
    ensures HashAll(st, D.Events(D.Object(ms)), f) == Hashed(st + [HashOf(D.Object(ms), f)])
    decreases ms, 1
  {
    hide Hash;
    var hs, end := MemberHashes(ms, f), EndObject(|ms|);
    MembersHash(st, ms, f);
    HashOne(st, StartObject, f);
    HashThen(st, [StartObject], st, D.MemberEvents(ms), st + hs, f);
    assert (st + hs)[..|st|] == st && (st + hs)[|st|..] == hs;
    HashOne(st + hs, end, f);
    HashThen(st, [StartObject] + D.MemberEvents(ms), st + hs, [end], st + [HashOf(D.Object(ms), f)], f);
  }

  lemma MemberHash(st: seq<bv64>, m: D.Member, f: Doubles)
    requires D.Valid(m.value)
    ensures HashAll(st, [Key(m.name)] + D.Events(m.value), f)
         == Hashed(st + [BufferHash(STRING_TYPE, m.name), HashOf(m.value, f)])
    decreases m, 0
  {
    hide Hash, HashOf, D.Events, BufferHash;
    var k := BufferHash(STRING_TYPE, m.name);
    HashOne(st, Key(m.name), f);
    HashesToOne(st + [k], m.value, f);
    HashThen(st, [Key(m.name)], st + [k], D.Events(m.value), st + [k] + [HashOf(m.value, f)], f);
    assert st + [k] + [HashOf(m.value, f)] == st + [k, HashOf(m.value, f)];
  }

  lemma {:induction false} MembersHash(st: seq<bv64>, ms: seq<D.Member>, f: Doubles)
    requires HashableMembers(ms)
    ensures HashAll(st, D.MemberEvents(ms), f) == Hashed(st + MemberHashes(ms, f))
    decreases ms, 0
  {
    hide HashOf, D.Valid, D.Events, BufferHash;
    if ms == [] {
      assert st + [] == st;
    } else {
      hide HashAll, MemberHashes;
      MemberHashesCons(st, ms, f);
      var m := ms[0];
      var pair := [BufferHash(STRING_TYPE, m.name), HashOf(m.value, f)];
      MemberHash(st, m, f);
      MembersHash(st + pair, ms[1..], f);
      HashThen(st, [Key(m.name)] + D.Events(m.value), st + pair, D.MemberEvents(ms[1..]),
               st + pair + MemberHashes(ms[1..], f), f);
    }
  }

  // ---------------------------------------------------------------- member order

  /** The same value up to the order of members, at any depth. */
  ghost predicate Permuted(v: D.Value, w: D.Value)
    decreases v, 1
  {
    match v
    case Array(vs) => w.Array? && PermutedElements(vs, w.elements)
    case Object(ms) => w.Object? && PermutedMembers(ms, w.members)
    case _ => v == w
  }

  ghost predicate PermutedElements(vs: seq<D.Value>, ws: seq<D.Value>)
    decreases vs, 0
  {
    |vs| == |ws| && forall i :: 0 <= i < |vs| ==> Permuted(vs[i], ws[i])
  }

  function Without(ns: seq<D.Member>, k: nat): seq<D.Member>
    requires k < |ns|
  {
    ns[..k] + ns[k + 1..]
  }

  /** Some member of `ns` matches the first of `ms`, and the others match the rest. */
  ghost predicate PermutedMembers(ms: seq<D.Member>, ns: seq<D.Member>)
    decreases ms, 0
  {
    |ms| == |ns|
    && (ms != [] ==> exists k :: 0 <= k < |ns| && ns[k].name == ms[0].name && Permuted(ms[0].value, ns[k].value)
                                 && PermutedMembers(ms[1..], Without(ns, k)))
  }

  lemma {:induction false} XorPairsStart(kv: seq<bv64>, h: bv64, g: bv64)
    requires |kv| % 2 == 0
    ensures XorPairs(kv, Xor(h, g)) == Xor(XorPairs(kv, h), g)
    decreases |kv|
  {
    hide Hash, Xor;
    if kv != [] {
      var d := Hash(kv[0], kv[1]);
      XorSwaps(h, g, d);
      XorPairsStart(kv[2..], Xor(h, d), g);
    }
  }

  /** Any one pair can be taken out and combined at the end. */
  lemma {:induction false} XorWithout(ns: seq<D.Member>, k: nat, h: bv64, f: Doubles)
    requires k < |ns| && HashableMembers(ns)
    ensures HashableMembers(Without(ns, k)) && D.Valid(ns[k].value)
    ensures XorPairs(MemberHashes(ns, f), h)
         == Xor(XorPairs(MemberHashes(Without(ns, k), f), h),
                Hash(BufferHash(STRING_TYPE, ns[k].name), HashOf(ns[k].value, f)))
    decreases k
  {
    hide Hash, Xor, HashOf, BufferHash, D.Valid;
    assert ns[k] in ns;
    var hs := MemberHashes(ns, f);
    var d := Hash(hs[0], hs[1]);
    assert hs[2..] == MemberHashes(ns[1..], f);
    if k == 0 {
      assert Without(ns, 0) == ns[1..];
      XorPairsStart(hs[2..], h, d);
    } else {
      var rest := Without(ns, k);
      assert rest[0] == ns[0] && rest[1..] == Without(ns[1..], k - 1);
      assert MemberHashes(rest, f)[2..] == MemberHashes(rest[1..], f);
      XorWithout(ns[1..], k - 1, Xor(h, d), f);
    }
  }

  /** The hash does not depend on the order of members. */
  lemma {:induction false} HashIgnoresOrder(v: D.Value, w: D.Value, f: Doubles)
    requires Permuted(v, w) && D.Valid(v) && D.Valid(w)
    ensures HashOf(v, f) == HashOf(w, f)
    decreases v, 1
  {
    match v {
      case Array(vs) => ElementsIgnoreOrder(vs, w.elements, f);
      case Object(ms) => MembersIgnoreOrder(ms, w.members, Hash(0, OBJECT_TYPE), f);
      case _ =>
    }
  }

  lemma {:induction false} ElementsIgnoreOrder(vs: seq<D.Value>, ws: seq<D.Value>, f: Doubles)
    requires PermutedElements(vs, ws)
    requires forall v :: v in vs ==> D.Valid(v)
    requires forall w :: w in ws ==> D.Valid(w)
    ensures ElementHashes(vs, f) == ElementHashes(ws, f)
    decreases vs, 0
  {
    hide HashOf, Permuted;
    if vs != [] {
      HashIgnoresOrder(vs[0], ws[0], f);
      ElementsIgnoreOrder(vs[1..], ws[1..], f);
    }
  }

  lemma {:induction false} MembersIgnoreOrder(ms: seq<D.Member>, ns: seq<D.Member>, h: bv64, f: Doubles)
    requires PermutedMembers(ms, ns) && HashableMembers(ms) && HashableMembers(ns)
    ensures XorPairs(MemberHashes(ms, f), h) == XorPairs(MemberHashes(ns, f), h)
    decreases ms, 0
  {
    hide HashOf, Permuted, Hash, Xor, BufferHash;
    if ms != [] {
      var k :| 0 <= k < |ns| && ns[k].name == ms[0].name && Permuted(ms[0].value, ns[k].value) &&
               PermutedMembers(ms[1..], Without(ns, k));
      assert Without(ms, 0) == ms[1..] && ms[0] in ms;
      XorWithout(ms, 0, h, f);
      XorWithout(ns, k, h, f);
      HashIgnoresOrder(ms[0].value, ns[k].value, f);
      MembersIgnoreOrder(ms[1..], Without(ns, k), h, f);
    }
  }
}
