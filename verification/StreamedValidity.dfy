/**
 Feeding a value's events to a validator: it ends up valid exactly when the value satisfies the
 schema, and then with every open context as it was but for the events its own validators have had.
 */
module StreamedValidity {
  import opened Bytes
  import opened Sax
  import opened Schema
  import opened Wrappers
  import opened Validator
  import D = Dom
  import Utf8

  // ---------------------------------------------------------------- validators fed many events

  function FedEach(root: Schema, ws: seq<Validator>, es: seq<Event>): (r: seq<Validator>)
    requires forall w :: w in ws ==> w.root < root && WellFormed(w)
    ensures |r| == |ws|
    ensures forall i :: 0 <= i < |ws| ==> WellFormed(ws[i]) && r[i] == FeedAll(ws[i], es)
    ensures forall w :: w in r ==> w.root < root && WellFormed(w)
  {
    if ws == [] then [] else [FeedAll(ws[0], es)] + FedEach(root, ws[1..], es)
  }

  function Fed(root: Schema, c: Context, es: seq<Event>): (r: Context)
    requires Fits(root, c)
    ensures Fits(root, r)
  {
    c.(validators := FedEach(root, c.validators, es))
  }

  ghost predicate AllFit(root: Schema, cs: seq<Context>) {
    forall c :: c in cs ==> Fits(root, c)
  }

  function FedStack(root: Schema, cs: seq<Context>, es: seq<Event>): (r: seq<Context>)
    requires AllFit(root, cs)
    ensures |r| == |cs| && AllFit(root, r)
    ensures forall i :: 0 <= i < |cs| ==> Fits(root, cs[i]) && r[i] == Fed(root, cs[i], es)
  {
    if cs == [] then [] else [Fed(root, cs[0], es)] + FedStack(root, cs[1..], es)
  }

  lemma {:induction false} FeedAllAppend(v: Validator, a: seq<Event>, b: seq<Event>)
    requires WellFormed(v)
    ensures FeedAll(v, a + b) == FeedAll(FeedAll(v, a), b)
    decreases |a|
  {
    hide WellFormed, Feed;
    if a == [] {
      assert a + b == b;
    } else {
      assert (a + b)[1..] == a[1..] + b;
      FeedAllAppend(Feed(v, a[0]), a[1..], b);
    }
  }

  lemma FeedAllOne(v: Validator, e: Event)
    requires WellFormed(v)
    ensures FeedAll(v, [e]) == Feed(v, e)
  {
    hide WellFormed, Feed;
    assert [e][1..] == [];
  }

  lemma FedOne(root: Schema, c: Context, e: Event)
    requires Fits(root, c)
    ensures FeedContext(root, c, e) == Fed(root, c, [e])
  {
    hide WellFormed, Feed, FeedAll;
    forall i | 0 <= i < |c.validators|
      ensures FeedEach(root, c.validators, e)[i] == FedEach(root, c.validators, [e])[i]
    {
      FeedAllOne(c.validators[i], e);
    }
    assert FeedEach(root, c.validators, e) == FedEach(root, c.validators, [e]);
  }

  lemma FedStackOne(root: Schema, cs: seq<Context>, e: Event)
    requires AllFit(root, cs)
    ensures FeedStack(root, cs, e) == FedStack(root, cs, [e])
  {
    hide Fits, FeedContext, Fed;
    forall i | 0 <= i < |cs|
      ensures FeedStack(root, cs, e)[i] == FedStack(root, cs, [e])[i]
    {
      FedOne(root, cs[i], e);
    }
  }

  lemma FedTwice(root: Schema, c: Context, a: seq<Event>, b: seq<Event>)
    requires Fits(root, c)
    ensures Fed(root, Fed(root, c, a), b) == Fed(root, c, a + b)
  {
    hide WellFormed, FeedAll;
    var ws := c.validators;
    forall i | 0 <= i < |ws|
      ensures FedEach(root, FedEach(root, ws, a), b)[i] == FedEach(root, ws, a + b)[i]
    {
      FeedAllAppend(ws[i], a, b);
    }
    assert FedEach(root, FedEach(root, ws, a), b) == FedEach(root, ws, a + b);
  }

  lemma FedStackTwice(root: Schema, cs: seq<Context>, a: seq<Event>, b: seq<Event>)
    requires AllFit(root, cs)
    ensures FedStack(root, FedStack(root, cs, a), b) == FedStack(root, cs, a + b)
  {
    hide Fits, Fed;
    forall i | 0 <= i < |cs|
      ensures FedStack(root, FedStack(root, cs, a), b)[i] == FedStack(root, cs, a + b)[i]
    {
      FedTwice(root, cs[i], a, b);
    }
  }

  lemma FedNothing(root: Schema, c: Context)
    requires Fits(root, c)
    ensures Fed(root, c, []) == c
  {
    assert FedEach(root, c.validators, []) == c.validators;
  }

  lemma FedStackNothing(root: Schema, cs: seq<Context>)
    requires AllFit(root, cs)
    ensures FedStack(root, cs, []) == cs
  {
    hide Fits, Fed;
    forall i | 0 <= i < |cs|
      ensures FedStack(root, cs, [])[i] == cs[i]
    {
      FedNothing(root, cs[i]);
    }
  }

  lemma FedStackTop(root: Schema, cs: seq<Context>, c: Context, es: seq<Event>)
    requires AllFit(root, cs) && Fits(root, c)
    ensures AllFit(root, cs + [c])
    ensures FedStack(root, cs + [c], es) == FedStack(root, cs, es) + [Fed(root, c, es)]
  {
    hide Fits, Fed;
  }

  // ---------------------------------------------------------------- the checks at the end of a value

  /** The part of satisfaction that the parallel validators decide. */
  ghost predicate Combined(s: Schema, x: D.Value) {
    && (forall t :: t in s.allOf ==> Satisfies(t, x))
    && (s.anyOf == [] || exists t :: t in s.anyOf && Satisfies(t, x))
    && (s.oneOf == [] || OnlyOne(s.oneOf, x))
    && (s.negated.Some? ==> !Satisfies(s.negated.value, x))
  }

  ghost predicate ContentOk(s: Schema, x: D.Value) {
    match x
    case Number(n) => n.Integer? ==> InRange(s.range, D.IntegerValue(n))
    case String(str) => LengthOk(s, str)
    case Array(vs) => ElementsSatisfy(s, vs)
    case Object(ms) => MembersSatisfy(s, ms) && DependenciesSatisfied(s, x)
    case _ => true
  }

  lemma SatisfiesParts(s: Schema, x: D.Value)
    ensures Satisfies(s, x) <==> TypeOk(s, x) && ContentOk(s, x) && Combined(s, x)
  {
    hide TypeOk, InRange, LengthOk, ElementsSatisfy, MembersSatisfy, DependenciesSatisfied;
  }

  /** The validators of a context say which of the parallel schemas the value satisfies. */
  ghost predicate Decided(c: Context, x: D.Value) {
    && |c.validators| == |Parallel(c.schema)|
    && forall i :: 0 <= i < |c.validators| ==> (c.validators[i].valid <==> Satisfies(Parallel(c.schema)[i], x))
  }

  lemma {:induction false} AnyValidIff(c: Context, i: nat, n: nat)
    ensures AnyValid(c, i, n) <==> exists k :: i <= k < i + n && ValidAt(c, k)
    decreases n
  {
    if n > 0 {
      AnyValidIff(c, i + 1, n - 1);
    }
  }

  ghost predicate SingleValid(c: Context, i: nat, n: nat) {
    exists k :: i <= k < i + n && ValidAt(c, k) && forall j :: i <= j < i + n && ValidAt(c, j) ==> j == k
  }

  lemma {:induction false} OneValidIff(c: Context, i: nat, n: nat, found: bool)
    ensures found ==> (OneValid(c, i, n, found) <==> forall k :: i <= k < i + n ==> !ValidAt(c, k))
    ensures !found ==> (OneValid(c, i, n, found) <==> SingleValid(c, i, n))
    decreases n
  {
    if n > 0 {
      OneValidIff(c, i + 1, n - 1, found || ValidAt(c, i));
    }
  }

  /** What a range of parallel validators says. */
  lemma RangeDecided(c: Context, x: D.Value, b: nat, ts: seq<Schema>)
    requires Decided(c, x) && b + |ts| <= |Parallel(c.schema)|
    requires forall i :: 0 <= i < |ts| ==> Parallel(c.schema)[b + i] == ts[i]
    ensures forall k :: b <= k < b + |ts| ==> (ValidAt(c, k) <==> Satisfies(ts[k - b], x))
  {
    hide Satisfies, Parallel;
    forall k | b <= k < b + |ts|
      ensures ValidAt(c, k) <==> Satisfies(ts[k - b], x)
    {
      assert Parallel(c.schema)[b + (k - b)] == ts[k - b];
    }
  }

  lemma AllDecided(c: Context, x: D.Value)
    requires Decided(c, x)
    ensures (forall i :: 0 <= i < |c.schema.allOf| ==> ValidAt(c, i))
       <==> (forall t :: t in c.schema.allOf ==> Satisfies(t, x))
  {
    hide Satisfies, Parallel, ValidAt, Decided;
    var ts := c.schema.allOf;
    ParallelAt(c.schema);
    RangeDecided(c, x, 0, ts);
    if forall i :: 0 <= i < |ts| ==> ValidAt(c, i) {
      forall t | t in ts
        ensures Satisfies(t, x)
      {
        var i :| 0 <= i < |ts| && ts[i] == t;
        assert ValidAt(c, i);
      }
    }
    if forall t :: t in ts ==> Satisfies(t, x) {
      forall i | 0 <= i < |ts|
        ensures ValidAt(c, i)
      {
        assert ts[i] in ts;
      }
    }
  }

  lemma AnyDecided(c: Context, x: D.Value)
    requires Decided(c, x)
    ensures AnyValid(c, AnyBegin(c.schema), |c.schema.anyOf|) <==> exists t :: t in c.schema.anyOf && Satisfies(t, x)
  {
    hide Satisfies, Parallel, ValidAt, Decided, AnyValid, AnyBegin;
    var b, ts := AnyBegin(c.schema), c.schema.anyOf;
    AnyValidIff(c, b, |ts|);
    ParallelAt(c.schema);
    RangeDecided(c, x, b, ts);
    if k :| b <= k < b + |ts| && ValidAt(c, k) {
      assert ts[k - b] in ts && Satisfies(ts[k - b], x);
    }
    if t :| t in ts && Satisfies(t, x) {
      var i :| 0 <= i < |ts| && ts[i] == t;
      assert ts[b + i - b] == t;
      assert ValidAt(c, b + i);
    }
  }

  ghost predicate OnlyOne(ts: seq<Schema>, x: D.Value) {
    exists i :: 0 <= i < |ts| && Satisfies(ts[i], x) && forall j :: 0 <= j < |ts| && Satisfies(ts[j], x) ==> j == i
  }

  ghost predicate Reflects(c: Context, b: nat, ts: seq<Schema>, x: D.Value) {
    forall i :: 0 <= i < |ts| ==> (ValidAt(c, b + i) <==> Satisfies(ts[i], x))
  }

  lemma SingleIsOnly(c: Context, b: nat, ts: seq<Schema>, x: D.Value)
    requires Reflects(c, b, ts, x) && SingleValid(c, b, |ts|)
    ensures OnlyOne(ts, x)
  {
    hide Satisfies, ValidAt;
    var k :| b <= k < b + |ts| && ValidAt(c, k) && forall j :: b <= j < b + |ts| && ValidAt(c, j) ==> j == k;
    forall j | 0 <= j < |ts| && Satisfies(ts[j], x)
      ensures j == k - b
    {
      assert ValidAt(c, b + j);
    }
    assert ValidAt(c, b + (k - b)) && Satisfies(ts[k - b], x);
  }

  lemma OnlyIsSingle(c: Context, b: nat, ts: seq<Schema>, x: D.Value)
    requires Reflects(c, b, ts, x) && OnlyOne(ts, x)
    ensures SingleValid(c, b, |ts|)
  {
    hide Satisfies, ValidAt;
    var k :| 0 <= k < |ts| && Satisfies(ts[k], x) && forall j :: 0 <= j < |ts| && Satisfies(ts[j], x) ==> j == k;
    forall j | b <= j < b + |ts| && ValidAt(c, j)
      ensures j == b + k
    {
      assert ValidAt(c, b + (j - b)) && Satisfies(ts[j - b], x);
    }
    assert ValidAt(c, b + k);
  }

  lemma RangeReflects(c: Context, x: D.Value, b: nat, ts: seq<Schema>)
    requires Decided(c, x) && b + |ts| <= |Parallel(c.schema)|
    requires forall i :: 0 <= i < |ts| ==> Parallel(c.schema)[b + i] == ts[i]
    ensures Reflects(c, b, ts, x)
  {
    hide Satisfies, Parallel;
  }

  lemma OneDecided(c: Context, x: D.Value)
    requires Decided(c, x)
    ensures OneValid(c, OneBegin(c.schema), |c.schema.oneOf|, false) <==> OnlyOne(c.schema.oneOf, x)
  {
    hide Satisfies, Parallel, ValidAt, Decided, OneValid, OneBegin, OnlyOne, Reflects, SingleValid;
    var b, ts := OneBegin(c.schema), c.schema.oneOf;
    OneValidIff(c, b, |ts|, false);
    ParallelAt(c.schema);
    RangeReflects(c, x, b, ts);
    if SingleValid(c, b, |ts|) {
      SingleIsOnly(c, b, ts, x);
    }
    if OnlyOne(ts, x) {
      OnlyIsSingle(c, b, ts, x);
    }
  }

  lemma NotDecided(c: Context, x: D.Value)
    requires Decided(c, x) && c.schema.negated.Some?
    ensures ValidAt(c, NotIndex(c.schema)) <==> Satisfies(c.schema.negated.value, x)
  {
    hide Satisfies, Parallel;
    ParallelAt(c.schema);
  }

  lemma EndAcceptsIff(c: Context, x: D.Value)
    requires Decided(c, x)
    ensures EndAccepts(c) <==> Combined(c.schema, x)
  {
    hide Satisfies, Decided, AnyValid, OneValid, ValidAt, AnyBegin, OneBegin, NotIndex;
    AllDecided(c, x);
    AnyDecided(c, x);
    OneDecided(c, x);
    if c.schema.negated.Some? {
      NotDecided(c, x);
    }
  }

  // ---------------------------------------------------------------- scalars

  lemma {:induction false} CountBound(s: seq<byte>, p: nat)
    requires p <= |s| && Utf8.DecodeAll(s, p).Decoded?
    ensures |Utf8.DecodeAll(s, p).cps| <= |s| - p
    decreases |s| - p
  {
    if p < |s| {
      CountBound(s, p + Utf8.SequenceLength(s, p));
    }
  }

  lemma ScalarAccepts(s: Schema, x: D.Value)
    requires !x.Array? && !x.Object? && D.Valid(x) && D.DoubleFree(x)
    ensures TypeAccepts(s, D.Events(x)[0]) <==> TypeOk(s, x) && ContentOk(s, x)
  {
    match x {
      case Number(n) =>
        NumberEventOf(D.IntegerValue(n));
        ChecksAreComparisons(s.range, D.IntegerValue(n));
      case String(str) =>
        if Utf8.DecodeAll(str, 0).Decoded? {
          CountBound(str, 0);
        }
      case _ =>
    }
  }

  /** An integer is published with its own value, signed or unsigned. */
  lemma NumberEventOf(i: int)
    requires -0x8000_0000_0000_0000 <= i < 0x1_0000_0000_0000_0000
    ensures D.NumberEvent(D.Canonical(i))
         == if D.IsInt(i) then Int(i) else if D.IsUint(i) then Uint(i) else if D.IsInt64(i) then Int64(i) else Uint64(i)
  {
    var bits := D.Pattern(i);
    if D.IsInt(i) {
      assert D.GetInt(bits) == i;
    }
  }

  // ---------------------------------------------------------------- one value

  /** What feeding a value's events comes to. */
  ghost predicate Outcome(v: Validator, below: seq<Context>, s: Schema, x: D.Value, r: Validator)
    requires AllFit(v.root, below)
  {
    if Satisfies(s, x) then r == Validator(v.root, FedStack(v.root, below, D.Events(x)), true) else !r.valid
  }

  ghost predicate Begins(v: Validator, below: seq<Context>, s: Schema) {
    WellFormed(v) && v.valid && AllFit(v.root, below) && Within(s, v.root) && BeginValue(v) == Some((below, s))
  }

  lemma InvalidFrom(v: Validator, es: seq<Event>)
    requires WellFormed(v) && es != [] && !Feed(v, es[0]).valid
    ensures !FeedAll(v, es).valid
  {
  }

  /** The validators opened for a value, fed the whole value, decide it. */
  lemma ParallelDecide(root: Schema, s: Schema, e: Event, x: D.Value)
    requires Within(s, root) && D.Valid(x) && D.DoubleFree(x)
    ensures Fits(root, Opened(s, e)) && Decided(Fed(root, Opened(s, e), D.Events(x)), x)
    decreases x, s, 3
  {
    hide Satisfies, FeedAll, Fits, Parallel;
    OpenedFits(root, s, e);
    ParallelSmaller(s);
    var c := Fed(root, Opened(s, e), D.Events(x));
    forall i | 0 <= i < |c.validators|
      ensures c.validators[i].valid <==> Satisfies(Parallel(s)[i], x)
    {
      var t := Parallel(s)[i];
      assert t in Parallel(s);
      FreshFed(t, x);
    }
  }

  lemma FreshFed(t: Schema, x: D.Value)
    requires D.Valid(x) && D.DoubleFree(x)
    ensures FeedAll(Fresh(t), D.Events(x)).valid <==> Satisfies(t, x)
    decreases x, t, 6
  {
    hide Satisfies, FeedAll;
    ValueFed(Fresh(t), x, [], t);
  }

  lemma ValueFed(v: Validator, x: D.Value, below: seq<Context>, s: Schema)
    requires Begins(v, below, s) && D.Valid(x) && D.DoubleFree(x)
    ensures Outcome(v, below, s, x, FeedAll(v, D.Events(x)))
    decreases x, s, 5
  {
    hide Begins, Outcome, FeedAll;
    match x {
      case Array(vs) => ArrayFed(v, vs, below, s);
      case Object(ms) => ObjectFed(v, ms, below, s);
      case _ => ScalarFed(v, x, below, s);
    }
  }

  /** The contexts after a value has begun. */
  lemma BegunStack(root: Schema, below: seq<Context>, s: Schema, e: Event)
    requires AllFit(root, below) && Within(s, root)
    ensures Fits(root, Opened(s, e)) && AllFit(root, below + [Opened(s, e)])
    ensures FeedStack(root, below + [Opened(s, e)], e) == FedStack(root, below, [e]) + [Fed(root, Opened(s, e), [e])]
  {
    hide Opened, Within, Fits;
    OpenedFits(root, s, e);
    FedStackTop(root, below, Opened(s, e), [e]);
    FedStackOne(root, below + [Opened(s, e)], e);
  }

  lemma ScalarFed(v: Validator, x: D.Value, below: seq<Context>, s: Schema)
    requires Begins(v, below, s) && D.Valid(x) && D.DoubleFree(x) && !x.Array? && !x.Object?
    ensures Outcome(v, below, s, x, FeedAll(v, D.Events(x)))
    decreases x, s, 4, 1
  {
    hide FedStack, Fed, FeedStack, D.Events, D.Valid, D.DoubleFree;
    hide Satisfies, TypeAccepts, EndAccepts, Combined, Decided, Fits, Within, FeedAll, WellFormed, Opened,
         ContentOk, TypeOk, BeginValue;
    var e := D.Events(x)[0];
    ScalarEvents(x);
    FeedAllOne(v, e);
    SatisfiesParts(s, x);
    ScalarAccepts(s, x);
    BegunStack(v.root, below, s, e);
    ParallelDecide(v.root, s, e, x);
    OpenedSchema(s, e);
    EndAcceptsIff(Fed(v.root, Opened(s, e), [e]), x);
  }

  lemma ScalarEvents(x: D.Value)
    requires !x.Array? && !x.Object?
    ensures D.Events(x) == [D.Events(x)[0]]
    ensures var e := D.Events(x)[0]; !e.Key? && !e.EndObject? && !e.EndArray? && !e.StartObject? && !e.StartArray?
  {
  }

  lemma OpenedSchema(s: Schema, e: Event)
    ensures Opened(s, e).schema == s && Opened(s, e).inArray == e.StartArray? && Opened(s, e).arrayElementIndex == 0
    ensures e.StartObject? ==> Opened(s, e).propertyExist == seq(|s.properties|, _ => false)
  {
  }

  // ---------------------------------------------------------------- containers

  /** A container's context after its content: the same schema, its validators fed all the events. */
  ghost predicate Filled(root: Schema, c2: Context, c: Context, es: seq<Event>) {
    Fits(root, c) && Fits(root, c2) && c2.schema == c.schema && c2.validators == Fed(root, c, es).validators
  }

  /** The validator after the content of a container. */
  ghost predicate InContainer(r: Validator, root: Schema, below: seq<Context>, c: Context, es: seq<Event>) {
    && r.valid && r.root == root && WellFormed(r) && AllFit(root, below) && |r.stack| == |below| + 1
    && r.stack[..|below|] == FedStack(root, below, es) && Filled(root, r.stack[|below|], c, es)
  }

  /** The context a container ends with, fed everything up to its end. */
  function Final(root: Schema, c: Context, end: Event): Context
    requires Fits(root, c)
  {
    Fed(root, c, [end])
  }

  lemma FilledFinal(root: Schema, o: Context, start: Event, es: seq<Event>, end: Event, c2: Context)
    requires Fits(root, o) && Filled(root, c2, Fed(root, o, [start]), es)
    ensures Final(root, c2, end).validators == Fed(root, o, [start] + es + [end]).validators
  {
    hide Fits;
    FedTwice(root, o, [start], es);
    FedTwice(root, o, [start] + es, [end]);
  }

  lemma ClosingStack(root: Schema, below: seq<Context>, start: Event, es: seq<Event>, end: Event, c2: Context)
    requires AllFit(root, below) && Fits(root, c2)
    ensures var l := FedStack(root, FedStack(root, below, [start]), es);
            AllFit(root, l + [c2]) &&
            FeedStack(root, l + [c2], end) == FedStack(root, below, [start] + es + [end]) + [Final(root, c2, end)]
  {
    hide Fits;
    var l := FedStack(root, FedStack(root, below, [start]), es);
    FedStackTop(root, l, c2, [end]);
    FedStackOne(root, l + [c2], end);
    FedStackTwice(root, below, [start], es);
    FedStackTwice(root, below, [start] + es, [end]);
  }

  /** Closing a container whose content has been accepted. */
  lemma ClosedFed(r: Validator, root: Schema, below: seq<Context>, s: Schema, start: Event, es: seq<Event>, end: Event,
                  x: D.Value)
    requires Within(s, root) && AllFit(root, below) && Fits(root, Opened(s, start)) &&
             Fits(root, Fed(root, Opened(s, start), [start]))
    requires InContainer(r, root, FedStack(root, below, [start]), Fed(root, Opened(s, start), [start]), es)
    requires D.Valid(x) && D.DoubleFree(x) && D.Events(x) == [start] + es + [end] && (end.EndObject? || end.EndArray?)
    ensures var c3 := Final(root, r.stack[|below|], end);
            && Decided(c3, x) && c3.schema == s && c3.propertyExist == r.stack[|below|].propertyExist
            && if CloseAccepts(c3, end) && Combined(s, x) then
                 Feed(r, end) == Validator(root, FedStack(root, below, D.Events(x)), true)
               else
                 !Feed(r, end).valid
    decreases x, s, 4, 1
  {
    hide Fits, Within, Opened, Satisfies, Combined, CloseAccepts, EndAccepts, WellFormed, Parallel, FeedStack,
         FedStack, Final, Decided, D.Events, D.Valid, D.DoubleFree;
    var c2 := r.stack[|below|];
    var c3 := Final(root, c2, end);
    assert r.stack == FedStack(root, FedStack(root, below, [start]), es) + [c2];
    OpenedSchema(s, start);
    FilledFinal(root, Opened(s, start), start, es, end, c2);
    ParallelDecide(root, s, start, x);
    FinalParts(root, c2, end);
    SameDecision(c3, Fed(root, Opened(s, start), D.Events(x)), x);
    EndAcceptsIff(c3, x);
    ClosingStack(root, below, start, es, end, c2);
    var cs := FeedStack(root, r.stack, end);
    assert cs[|cs| - 1] == c3 && cs[..|cs| - 1] == FedStack(root, below, D.Events(x));
    assert Feed(r, end) == FeedClose(r, end);
  }

  lemma FinalParts(root: Schema, c: Context, end: Event)
    requires Fits(root, c)
    ensures Final(root, c, end).schema == c.schema && Final(root, c, end).propertyExist == c.propertyExist
  {
  }

  lemma SameDecision(c: Context, d: Context, x: D.Value)
    requires Decided(d, x) && c.schema == d.schema && c.validators == d.validators
    ensures Decided(c, x)
  {
    hide Satisfies, Parallel;
  }

  /** The first event of a value where none may stand. */
  lemma NoPlace(v: Validator, x: D.Value)
    requires WellFormed(v) && v.valid && BeginValue(v).None?
    ensures !FeedAll(v, D.Events(x)).valid
  {
    hide WellFormed, BeginValue;
    var e := D.Events(x)[0];
    assert !e.Key? && !e.EndObject? && !e.EndArray?;
    InvalidFrom(v, D.Events(x));
  }

  /** The same context but for where its next value goes. */
  predicate SameValidators(c: Context, d: Context) {
    c.schema == d.schema && c.validators == d.validators
  }

  lemma FilledThen(root: Schema, c: Context, d: Context, a: seq<Event>, b: seq<Event>, c2: Context)
    requires Fits(root, c) && Fits(root, d) && SameValidators(c, d) && Filled(root, c2, Fed(root, d, a), b)
    ensures Filled(root, c2, c, a + b)
  {
    hide WellFormed;
    FedTwice(root, d, a, b);
  }

  lemma InContainerThen(r: Validator, root: Schema, below: seq<Context>, c: Context, d: Context, a: seq<Event>,
                        b: seq<Event>)
    requires AllFit(root, below) && Fits(root, c) && Fits(root, d) && SameValidators(c, d)
    requires InContainer(r, root, FedStack(root, below, a), Fed(root, d, a), b)
    ensures InContainer(r, root, below, c, a + b)
  {
    hide WellFormed, Filled, Fits, Fed;
    FilledThen(root, c, d, a, b, r.stack[|below|]);
    FedStackTwice(root, below, a, b);
  }

  lemma InContainerNothing(v: Validator, below: seq<Context>, c: Context)
    requires WellFormed(v) && v.valid && v.stack == below + [c] && AllFit(v.root, below) && Fits(v.root, c)
    ensures InContainer(v, v.root, below, c, [])
  {
    hide WellFormed, Fits;
    FedStackNothing(v.root, below);
    FedNothing(v.root, c);
  }

  lemma StackFits(v: Validator, below: seq<Context>, c: Context)
    requires v.stack == below + [c]
    ensures WellFormed(v) <==> AllFit(v.root, below) && Fits(v.root, c)
  {
    hide Fits;
    if WellFormed(v) {
      assert c in v.stack;
      forall d | d in below
        ensures Fits(v.root, d)
      {
        assert d in v.stack;
      }
    }
  }

  // ---------------------------------------------------------------- arrays

  ghost predicate ElementsOk(s: Schema, vs: seq<D.Value>, i: nat) {
    forall j :: i <= j < |vs| ==> ElementSchema(s, j).Some? && Satisfies(ElementSchema(s, j).value, vs[j])
  }

  lemma ElementsOkStep(s: Schema, vs: seq<D.Value>, i: nat)
    requires i <= |vs|
    ensures ElementsOk(s, vs, i) <==>
            i == |vs| ||
            (ElementSchema(s, i).Some? && Satisfies(ElementSchema(s, i).value, vs[i]) && ElementsOk(s, vs, i + 1))
  {
    hide ElementSchema, Satisfies;
  }

  function InElement(c: Context, s: Schema): Context {
    c.(valueSchema := s, arrayElementIndex := c.arrayElementIndex + 1)
  }

  lemma PlaceInArray(v: Validator, below: seq<Context>, c: Context)
    requires WellFormed(v) && v.valid && v.stack == below + [c] && c.inArray
    ensures match ElementSchema(c.schema, c.arrayElementIndex)
            case None => BeginValue(v) == None
            case Some(s) => Fits(v.root, InElement(c, s)) && Begins(v, below + [InElement(c, s)], s)
  {
    StackFits(v, below, c);
    WithinElement(c.schema, v.root);
    assert (below + [c])[..|below|] == below;
  }

  lemma ElementsFed(v: Validator, below: seq<Context>, c: Context, vs: seq<D.Value>, i: nat)
    requires WellFormed(v) && v.valid && v.stack == below + [c] && AllFit(v.root, below) && Fits(v.root, c)
    requires c.inArray && c.arrayElementIndex == i <= |vs|
    requires forall x :: x in vs ==> D.Valid(x) && D.DoubleFree(x)
    ensures var es := D.ElementEvents(vs[i..]);
            if ElementsOk(c.schema, vs, i) then
              InContainer(FeedAll(v, es), v.root, below, c, es)
            else
              !FeedAll(v, es).valid
    decreases vs, c.schema, 4, |vs| - i
  {
    hide ElementSchema, ElementsOk;
    hide WellFormed, Fits, Satisfies, FeedAll, InContainer, Begins, Outcome, Fed, FedStack, SameValidators,
         BeginValue, D.Valid, D.DoubleFree, D.Events, AllFit;
    ElementsOkStep(c.schema, vs, i);
    if i == |vs| {
      assert vs[i..] == [];
      InContainerNothing(v, below, c);
      FeedAllNothing(v);
    } else {
      var x := vs[i];
      var ev, rest := D.Events(x), D.ElementEvents(vs[i + 1..]);
      assert vs[i..][1..] == vs[i + 1..];
      FeedAllAppend(v, ev, rest);
      PlaceInArray(v, below, c);
      match ElementSchema(c.schema, i) {
        case None =>
          NoPlace(v, x);
          StaysInvalid(FeedAll(v, ev), rest);
        case Some(s) =>
          var d := InElement(c, s);
          ValueFed(v, x, below + [d], s);
          if Satisfies(s, x) {
            AfterValue(v, below, d, s, x);
            SameValidatorsIn(c, s);
            var r := FeedAll(v, ev);
            ElementsFed(r, FedStack(v.root, below, ev), Fed(v.root, d, ev), vs, i + 1);
            if ElementsOk(c.schema, vs, i + 1) {
              InContainerThen(FeedAll(r, rest), v.root, below, c, d, ev, rest);
            }
          } else {
            NotSatisfied(v, below + [d], s, x);
            StaysInvalid(FeedAll(v, ev), rest);
          }
      }
    }
  }

  lemma FeedAllNothing(v: Validator)
    requires WellFormed(v)
    ensures FeedAll(v, []) == v
  {
  }

  lemma StaysInvalid(v: Validator, es: seq<Event>)
    requires WellFormed(v) && !v.valid
    ensures !FeedAll(v, es).valid
  {
  }

  lemma SameValidatorsIn(c: Context, s: Schema)
    ensures SameValidators(c, InElement(c, s)) && InElement(c, s).inArray == c.inArray
  {
  }

  lemma NotSatisfied(v: Validator, below: seq<Context>, s: Schema, x: D.Value)
    requires Begins(v, below, s) && Outcome(v, below, s, x, FeedAll(v, D.Events(x))) && !Satisfies(s, x)
    ensures !FeedAll(v, D.Events(x)).valid
  {
  }

  /** After a value that is satisfied, its container goes on. */
  lemma AfterValue(v: Validator, below: seq<Context>, d: Context, s: Schema, x: D.Value)
    requires Begins(v, below + [d], s) && Outcome(v, below + [d], s, x, FeedAll(v, D.Events(x))) && Satisfies(s, x)
    requires AllFit(v.root, below) && Fits(v.root, d)
    ensures var r := FeedAll(v, D.Events(x)); var c := Fed(v.root, d, D.Events(x));
            && WellFormed(r) && r.valid && r.root == v.root && r.stack == FedStack(v.root, below, D.Events(x)) + [c]
            && AllFit(v.root, FedStack(v.root, below, D.Events(x))) && Fits(v.root, c)
            && c.schema == d.schema && c.inArray == d.inArray && c.arrayElementIndex == d.arrayElementIndex
            && c.propertyExist == d.propertyExist && c.valueSchema == d.valueSchema
  {
    hide WellFormed, Fits, Satisfies, FeedAll, BeginValue;
    FedStackTop(v.root, below, d, D.Events(x));
  }

  lemma ArrayFed(v: Validator, vs: seq<D.Value>, below: seq<Context>, s: Schema)
    requires Begins(v, below, s) && D.Valid(D.Array(vs)) && D.DoubleFree(D.Array(vs))
    ensures Outcome(v, below, s, D.Array(vs), FeedAll(v, D.Events(D.Array(vs))))
    decreases D.Array(vs), s, 4, 2
  {
    hide WellFormed, Fits, Satisfies, FeedAll, InContainer, Fed, FedStack, Opened, Combined, BeginValue, Within,
         Final, Decided;
    var x, root, es, end := D.Array(vs), v.root, D.ElementEvents(vs), EndArray(|vs|);
    var o := Opened(s, StartArray);
    assert D.Events(x) == [StartArray] + es + [end];
    SatisfiesParts(s, x);
    FeedSplit(v, StartArray, es, end);
    BegunStack(root, below, s, StartArray);
    OpenedSchema(s, StartArray);
    var v1 := Feed(v, StartArray);
    if ArrayType in s.types {
      var below1, c1 := FedStack(root, below, [StartArray]), Fed(root, o, [StartArray]);
      assert v1 == Validator(root, below1 + [c1], true);
      FedParts(root, o, [StartArray]);
      ElementsFed(v1, below1, c1, vs, 0);
      assert vs[0..] == vs;
      if ElementsOk(s, vs, 0) {
        ClosedFed(FeedAll(v1, es), root, below, s, StartArray, es, end, x);
      }
    }
  }

  lemma FedParts(root: Schema, c: Context, es: seq<Event>)
    requires Fits(root, c)
    ensures var d := Fed(root, c, es);
            d.schema == c.schema && d.inArray == c.inArray && d.arrayElementIndex == c.arrayElementIndex &&
            d.propertyExist == c.propertyExist
  {
  }

  lemma FeedSplit(v: Validator, start: Event, es: seq<Event>, end: Event)
    requires WellFormed(v)
    ensures FeedAll(v, [start] + es + [end]) == Feed(FeedAll(Feed(v, start), es), end)
    ensures !Feed(v, start).valid ==> !FeedAll(v, [start] + es + [end]).valid
    ensures !FeedAll(Feed(v, start), es).valid ==> !FeedAll(v, [start] + es + [end]).valid
  {
    hide WellFormed, Feed;
    FeedAllAppend(v, [start] + es, [end]);
    FeedAllAppend(v, [start], es);
    FeedAllOne(v, start);
    FeedAllOne(FeedAll(Feed(v, start), es), end);
  }

  // ---------------------------------------------------------------- objects

  ghost predicate MembersOk(s: Schema, ms: seq<D.Member>, i: nat) {
    forall j :: i <= j < |ms| ==>
                  MemberSchema(s, ms[j].name).Some? && Satisfies(MemberSchema(s, ms[j].name).value, ms[j].value)
  }

  function Marked(exist: seq<bool>, k: nat): seq<bool> {
    if k < |exist| then exist[k := true] else exist
  }

  /** The properties found present once the members from `i` on have been seen. */
  function MarkedAll(ps: seq<Property>, exist: seq<bool>, ms: seq<D.Member>, i: nat): seq<bool>
    requires i <= |ms|
    decreases |ms| - i
  {
    if i == |ms| then exist else MarkedAll(ps, Marked(exist, FindProperty(ps, ms[i].name)), ms, i + 1)
  }

  lemma {:induction false} MarkedAllIff(ps: seq<Property>, exist: seq<bool>, ms: seq<D.Member>, i: nat, k: nat)
    requires i <= |ms| && k < |exist|
    ensures |MarkedAll(ps, exist, ms, i)| == |exist|
    ensures MarkedAll(ps, exist, ms, i)[k]
       <==> exist[k] || exists j :: i <= j < |ms| && FindProperty(ps, ms[j].name) == k
    decreases |ms| - i
  {
    if i < |ms| {
      MarkedAllIff(ps, Marked(exist, FindProperty(ps, ms[i].name)), ms, i + 1, k);
    }
  }

  /** A name is looked up, noted and published to the parallel validators. */
  lemma NameFed(v: Validator, below: seq<Context>, c: Context, name: seq<byte>)
    requires WellFormed(v) && v.valid && v.stack == below + [c] && AllFit(v.root, below) && Fits(v.root, c)
    ensures match KeyIn(c, name)
            case None => !Feed(v, Key(name)).valid
            case Some(d) =>
              && SameValidators(c, d) && Fits(v.root, d)
              && Feed(v, Key(name)) ==
                   Validator(v.root, FedStack(v.root, below, [Key(name)]) + [Fed(v.root, d, [Key(name)])], true)
  {
    hide WellFormed, FedStack, Fed, FeedStack;
    WithinElement(c.schema, v.root);
    assert (below + [c])[..|below|] == below;
    assert Feed(v, Key(name)) == FeedKey(v, Key(name));
    if KeyIn(c, name).Some? {
      var d := KeyIn(c, name).value;
      FedStackTop(v.root, below, d, [Key(name)]);
      FedStackOne(v.root, below + [d], Key(name));
    }
  }

  lemma KeyParts(c: Context, name: seq<byte>)
    ensures KeyIn(c, name).Some? <==> MemberSchema(c.schema, name).Some?
    ensures KeyIn(c, name).Some? ==>
              var d := KeyIn(c, name).value;
              && d.schema == c.schema && d.inArray == c.inArray && d.valueSchema == MemberSchema(c.schema, name).value
              && d.propertyExist == Marked(c.propertyExist, FindProperty(c.schema.properties, name))
  {
  }

  lemma PlaceInObject(v: Validator, below: seq<Context>, c: Context)
    requires WellFormed(v) && v.valid && v.stack == below + [c] && !c.inArray
    ensures Begins(v, below + [c], c.valueSchema)
  {
    StackFits(v, below, c);
    assert (below + [c])[..|below|] == below;
  }

  /** A name and its value. */
  lemma MemberFed(v: Validator, below: seq<Context>, c: Context, m: D.Member)
    requires WellFormed(v) && v.valid && v.stack == below + [c] && AllFit(v.root, below) && Fits(v.root, c) &&
             !c.inArray
    requires D.Valid(m.value) && D.DoubleFree(m.value)
    ensures var es := [Key(m.name)] + D.Events(m.value); var r := FeedAll(v, es);
            var t := MemberSchema(c.schema, m.name);
            if t.Some? && Satisfies(t.value, m.value) then
              && KeyIn(c, m.name).Some? && SameValidators(c, KeyIn(c, m.name).value) &&
                 Fits(v.root, KeyIn(c, m.name).value)
              && var d := KeyIn(c, m.name).value;
              && WellFormed(r) && r.valid && r.root == v.root && !Fed(v.root, d, es).inArray
              && r.stack == FedStack(v.root, below, es) + [Fed(v.root, d, es)]
              && Fed(v.root, d, es).schema == c.schema
              && Fed(v.root, d, es).propertyExist == Marked(c.propertyExist, FindProperty(c.schema.properties, m.name))
            else !r.valid
    decreases m, c.schema, 4
  {
    hide WellFormed, Fits, Satisfies, Feed, FeedAll, Begins, Outcome, Fed, FedStack, SameValidators, KeyIn, D.Valid,
         D.DoubleFree, D.Events, AllFit, MemberSchema, FindProperty, Marked;
    var key, ev, x := Key(m.name), D.Events(m.value), m.value;
    NameFed(v, below, c, m.name);
    KeyParts(c, m.name);
    FeedAllAppend(v, [key], ev);
    FeedAllOne(v, key);
    var v1 := Feed(v, key);
    if KeyIn(c, m.name).Some? {
      var d := KeyIn(c, m.name).value;
      var s := d.valueSchema;
      var below1, c1 := FedStack(v.root, below, [key]), Fed(v.root, d, [key]);
      FedKeeps(v.root, d, [key]);
      PlaceInObject(v1, below1, c1);
      ValueFed(v1, x, below1 + [c1], s);
      if Satisfies(s, x) {
        AfterValue(v1, below1, c1, s, x);
        FedTwice(v.root, d, [key], ev);
        FedStackTwice(v.root, below, [key], ev);
      } else {
        NotSatisfied(v1, below1 + [c1], s, x);
      }
    } else {
      StaysInvalid(v1, ev);
    }
  }

  lemma FedKeeps(root: Schema, c: Context, es: seq<Event>)
    requires Fits(root, c)
    ensures Fed(root, c, es) == c.(validators := Fed(root, c, es).validators)
  {
  }

  lemma MembersFed(v: Validator, below: seq<Context>, c: Context, ms: seq<D.Member>, i: nat)
    requires WellFormed(v) && v.valid && v.stack == below + [c] && AllFit(v.root, below) && Fits(v.root, c)
    requires !c.inArray && i <= |ms|
    requires forall m :: m in ms ==> D.Valid(m.value) && D.DoubleFree(m.value)
    ensures var es := D.MemberEvents(ms[i..]); var r := FeedAll(v, es);
            if MembersOk(c.schema, ms, i) then
              && InContainer(r, v.root, below, c, es)
              && r.stack[|below|].propertyExist == MarkedAll(c.schema.properties, c.propertyExist, ms, i)
            else !r.valid
    decreases ms, c.schema, 4, |ms| - i
  {
    hide WellFormed, Fits, Satisfies, FeedAll, InContainer, Fed, FedStack, SameValidators, KeyIn, D.Valid,
         D.DoubleFree, D.Events, AllFit, MemberSchema, FindProperty;
    if i == |ms| {
      assert ms[i..] == [];
      InContainerNothing(v, below, c);
      FeedAllNothing(v);
    } else {
      var m := ms[i];
      assert m in ms;
      var ev, rest := [Key(m.name)] + D.Events(m.value), D.MemberEvents(ms[i + 1..]);
      assert ms[i..][1..] == ms[i + 1..];
      FeedAllAppend(v, ev, rest);
      MemberFed(v, below, c, m);
      var t := MemberSchema(c.schema, m.name);
      if t.Some? && Satisfies(t.value, m.value) {
        var d := KeyIn(c, m.name).value;
        var r := FeedAll(v, ev);
        var below1, c1 := FedStack(v.root, below, ev), Fed(v.root, d, ev);
        MembersFed(r, below1, c1, ms, i + 1);
        if MembersOk(c.schema, ms, i + 1) {
          InContainerThen(FeedAll(r, rest), v.root, below, c, d, ev, rest);
        }
      } else {
        StaysInvalid(FeedAll(v, ev), rest);
      }
    }
  }

  /** A context whose notes say which properties are present. */
  ghost predicate Noted(c: Context, ms: seq<D.Member>) {
    forall k :: 0 <= k < |c.schema.properties| ==> (Exists(c, k) <==> Present(c.schema, ms, k))
  }

  lemma NotedIsPresent(ms: seq<D.Member>, c: Context)
    requires c.propertyExist == MarkedAll(c.schema.properties, seq(|c.schema.properties|, _ => false), ms, 0)
    ensures Noted(c, ms)
  {
    hide FindProperty;
    forall k | 0 <= k < |c.schema.properties|
      ensures Exists(c, k) <==> Present(c.schema, ms, k)
    {
      MarkedAllIff(c.schema.properties, seq(|c.schema.properties|, _ => false), ms, 0, k);
    }
  }

  lemma DependencyDecided(c: Context, x: D.Value, k: nat)
    requires Decided(c, x) && k < |c.schema.properties| && c.schema.properties[k].dependency.OnSchema?
    ensures ValidAt(c, DependenciesBegin(c.schema) + DependencyIndex(c.schema.properties, k))
       <==> Satisfies(c.schema.properties[k].dependency.schema, x)
  {
    hide Satisfies, Parallel, DependencySchemas;
    ParallelAt(c.schema);
  }

  /** One property's dependency, as the end of the object checks it and as satisfaction has it. */
  lemma OneDependency(c: Context, ms: seq<D.Member>, k: nat)
    requires Decided(c, D.Object(ms)) && Noted(c, ms) && k < |c.schema.properties|
    ensures DependencyNoted(c, k)
       <==> (match c.schema.properties[k].dependency
             case NoDependency => true
             case OnProperties(targets) => forall t :: t in targets && t < |c.schema.properties| ==>
                                                         Present(c.schema, ms, t)
             case OnSchema(schema) => Satisfies(schema, D.Object(ms)))
  {
    hide Satisfies, Parallel, Decided, Exists, Present, ValidAt;
    if c.schema.properties[k].dependency.OnSchema? {
      DependencyDecided(c, D.Object(ms), k);
    }
  }

  lemma DependenciesAccepted(c: Context, ms: seq<D.Member>)
    requires Decided(c, D.Object(ms)) && Noted(c, ms)
    ensures DependenciesNoted(c) <==> DependenciesSatisfied(c.schema, D.Object(ms))
  {
    hide Satisfies, Parallel, Decided, Exists, Present, ValidAt, DependencyIndex, DependencyNoted;
    forall k | 0 <= k < |c.schema.properties|
      ensures DependencyNoted(c, k)
         <==> (match c.schema.properties[k].dependency
               case NoDependency => true
               case OnProperties(targets) => forall t :: t in targets && t < |c.schema.properties| ==>
                                                           Present(c.schema, ms, t)
               case OnSchema(schema) => Satisfies(schema, D.Object(ms)))
    {
      OneDependency(c, ms, k);
    }
  }

  lemma RequiredAccepted(c: Context, ms: seq<D.Member>)
    requires Noted(c, ms)
    ensures RequiredNoted(c) <==> RequiredPresent(c.schema, ms)
  {
    hide Exists, Present;
  }

  lemma ObjectCloses(c: Context, ms: seq<D.Member>)
    requires Decided(c, D.Object(ms)) && Noted(c, ms) && MembersOk(c.schema, ms, 0)
    ensures CloseAccepts(c, EndObject(|ms|)) <==> ContentOk(c.schema, D.Object(ms))
  {
    hide Satisfies, Decided, Noted, DependenciesNoted, DependenciesSatisfied, RequiredNoted, RequiredPresent;
    DependenciesAccepted(c, ms);
    RequiredAccepted(c, ms);
  }

  lemma ObjectFed(v: Validator, ms: seq<D.Member>, below: seq<Context>, s: Schema)
    requires Begins(v, below, s) && D.Valid(D.Object(ms)) && D.DoubleFree(D.Object(ms))
    ensures Outcome(v, below, s, D.Object(ms), FeedAll(v, D.Events(D.Object(ms))))
    decreases D.Object(ms), s, 4, 2
  {
    hide WellFormed, Fits, Satisfies, FeedAll, InContainer, Fed, FedStack, Opened, Combined, BeginValue, Within,
         Final, Decided, MarkedAll, CloseAccepts, MembersOk, DependenciesSatisfied, Noted;
    var x, root, es, end := D.Object(ms), v.root, D.MemberEvents(ms), EndObject(|ms|);
    var o := Opened(s, StartObject);
    assert D.Events(x) == [StartObject] + es + [end];
    SatisfiesParts(s, x);
    ContentNeedsMembers(s, ms);
    FeedSplit(v, StartObject, es, end);
    BegunStack(root, below, s, StartObject);
    OpenedSchema(s, StartObject);
    var v1 := Feed(v, StartObject);
    if ObjectType in s.types {
      var below1, c1 := FedStack(root, below, [StartObject]), Fed(root, o, [StartObject]);
      assert v1 == Validator(root, below1 + [c1], true);
      FedParts(root, o, [StartObject]);
      MembersFed(v1, below1, c1, ms, 0);
      assert ms[0..] == ms;
      if MembersOk(s, ms, 0) {
        var r := FeedAll(v1, es);
        ClosedFed(r, root, below, s, StartObject, es, end, x);
        InContainerTop(r, root, below1, c1, es);
        var c3 := Final(root, r.stack[|below|], end);
        NotedIsPresent(ms, c3);
        ObjectCloses(c3, ms);
      }
    }
  }

  lemma InContainerTop(r: Validator, root: Schema, below: seq<Context>, c: Context, es: seq<Event>)
    requires InContainer(r, root, below, c, es)
    ensures |r.stack| == |below| + 1 && Fits(root, r.stack[|below|])
  {
  }

  lemma ContentNeedsMembers(s: Schema, ms: seq<D.Member>)
    ensures ContentOk(s, D.Object(ms)) ==> MembersOk(s, ms, 0)
  {
    hide Satisfies;
  }

  // ---------------------------------------------------------------- the theorem

  /** A fresh validator accepts a value's events, all of them, exactly when the value satisfies the schema. */
  lemma StreamingIsSatisfaction(s: Schema, x: D.Value)
    requires D.Valid(x) && D.DoubleFree(x)
    ensures FeedAll(Fresh(s), D.Events(x)).valid <==> Satisfies(s, x)
    ensures Satisfies(s, x) ==> FeedAll(Fresh(s), D.Events(x)) == Fresh(s)
  {
    hide Satisfies, FeedAll;
    ValueFed(Fresh(s), x, [], s);
  }

  // ---------------------------------------------------------------- required properties with a default

  function WithoutRequired(ps: seq<Property>): (qs: seq<Property>)
    ensures |qs| == |ps| && forall i :: 0 <= i < |ps| ==> qs[i] == ps[i].(required := false)
  {
    seq(|ps|, i requires 0 <= i < |ps| => ps[i].(required := false))
  }

  /** The schema without its `required` keyword. */
  function NothingRequired(s: Schema): Schema {
    s.(properties := WithoutRequired(s.properties))
  }

  lemma {:induction false} SameNamesFound(ps: seq<Property>, name: seq<byte>)
    ensures FindProperty(WithoutRequired(ps), name) == FindProperty(ps, name)
  {
    if ps != [] {
      assert WithoutRequired(ps)[1..] == WithoutRequired(ps[1..]);
      SameNamesFound(ps[1..], name);
    }
  }

  lemma SameMemberSchema(s: Schema, name: seq<byte>)
    ensures MemberSchema(NothingRequired(s), name) == MemberSchema(s, name)
  {
    SameNamesFound(s.properties, name);
  }

  lemma SamePresent(s: Schema, ms: seq<D.Member>, k: nat)
    ensures Present(NothingRequired(s), ms, k) <==> Present(s, ms, k)
  {
    hide FindProperty;
    forall j | 0 <= j < |ms|
      ensures FindProperty(WithoutRequired(s.properties), ms[j].name) == FindProperty(s.properties, ms[j].name)
    {
      SameNamesFound(s.properties, ms[j].name);
    }
  }

  lemma SameDependencies(s: Schema, x: D.Value)
    requires x.Object?
    ensures DependenciesSatisfied(NothingRequired(s), x) <==> DependenciesSatisfied(s, x)
  {
    hide Present, Satisfies;
    forall k: nat
      ensures Present(NothingRequired(s), x.members, k) <==> Present(s, x.members, k)
    {
      SamePresent(s, x.members, k);
    }
  }

  lemma SameMembers(s: Schema, ms: seq<D.Member>)
    ensures MembersSatisfy(s, ms) <==> MembersSatisfy(NothingRequired(s), ms) && RequiredPresent(s, ms)
  {
    hide MemberSchema, Present, Satisfies;
    forall i | 0 <= i < |ms|
      ensures MemberSchema(NothingRequired(s), ms[i].name) == MemberSchema(s, ms[i].name)
    {
      SameMemberSchema(s, ms[i].name);
    }
  }

  lemma SameElements(s: Schema, vs: seq<D.Value>)
    ensures ElementsSatisfy(NothingRequired(s), vs) <==> ElementsSatisfy(s, vs)
  {
    assert forall i: nat :: ElementSchema(NothingRequired(s), i) == ElementSchema(s, i);
    hide ElementSchema, Satisfies;
  }

  /**
   What `required` adds to a schema: an absent required property is reported exactly when its own schema
   has no default string.
   */
  lemma DefaultExempts(s: Schema, x: D.Value)
    requires D.Valid(x) && D.DoubleFree(x)
    ensures FeedAll(Fresh(s), D.Events(x)).valid
       <==> && FeedAll(Fresh(NothingRequired(s)), D.Events(x)).valid
            && (x.Object? ==>
                  forall k :: 0 <= k < |s.properties| && s.properties[k].required && !Present(s, x.members, k) ==>
                                            s.properties[k].schema.defaultValueLength > 0)
  {
    hide FeedAll, Satisfies, MembersSatisfy, DependenciesSatisfied, ElementsSatisfy, Present;
    StreamingIsSatisfaction(s, x);
    StreamingIsSatisfaction(NothingRequired(s), x);
    SatisfiesParts(s, x);
    SatisfiesParts(NothingRequired(s), x);
    if x.Object? {
      SameMembers(s, x.members);
      SameDependencies(s, x);
    } else if x.Array? {
      SameElements(s, x.elements);
    }
  }

  /** So an empty object is accepted although a property is required. */
  lemma AbsentYetAccepted()
    ensures var p := Property([LOWER_A], TYPELESS.(defaultValueLength := 1), true, NoDependency);
            FeedAll(Fresh(TYPELESS.(properties := [p])), D.Events(D.Value.Object([]))).valid
  {
    var p := Property([LOWER_A], TYPELESS.(defaultValueLength := 1), true, NoDependency);
    StreamingIsSatisfaction(TYPELESS.(properties := [p]), D.Value.Object([]));
  }
}
