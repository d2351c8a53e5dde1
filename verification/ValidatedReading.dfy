/**
 Validating while parsing: what a reader publishes for a value differs from what the document publishes
 only in the kind of the number events, which makes no difference to a validator.
 */
module ValidatedReading {
  import opened Sax
  import opened Schema
  import opened Validator
  import opened StreamedValidity
  import opened Document
  import D = Dom
  import G = Grammar

  /** The same event, or scalars that no schema tells apart. */
  ghost predicate Alike(e: Event, n: Event) {
    e == n || (Scalar(e) && Scalar(n) && forall s: Schema :: TypeAccepts(s, e) <==> TypeAccepts(s, n))
  }

  predicate Scalar(e: Event) {
    !e.Key? && !e.StartObject? && !e.StartArray? && !e.EndObject? && !e.EndArray?
  }

  /** Numbers the events may carry. */
  predicate InWidth(e: Event) {
    match e
    case Int(i) => D.IsInt(i)
    case Int64(i) => D.IsInt64(i)
    case Uint(u) => D.IsUint(u)
    case Uint64(u) => D.IsUint64(u)
    case _ => true
  }

  /** An integer is checked alike however it arrives. */
  lemma NormalIsAlike(f: G.Flags, e: Event)
    requires !f.numbersAsStrings && InWidth(e)
    ensures Alike(e, Normal(f, e))
  {
    hide CheckInt, CheckUint, InRange;
    var n := Normal(f, e);
    if e != n {
      forall s: Schema
        ensures TypeAccepts(s, e) <==> TypeAccepts(s, n)
      {
        match e {
          case Int(i) => ChecksAreComparisons(s.range, i);
          case Int64(i) => ChecksAreComparisons(s.range, i);
          case Uint(u) => ChecksAreComparisons(s.range, u);
          case Uint64(u) => ChecksAreComparisons(s.range, u);
        }
      }
    }
  }

  lemma StringIsAlike(e: Event)
    ensures Alike(e, AsString(e))
  {
  }

  lemma {:induction false} AlikeFed(v: Validator, e: Event, n: Event)
    requires WellFormed(v) && Alike(e, n)
    ensures Feed(v, e) == Feed(v, n)
    decreases v.root, 1
  {
    if e != n && v.valid {
      AlikeBegun(v, e, n);
    }
  }

  lemma {:induction false} AlikeBegun(v: Validator, e: Event, n: Event)
    requires WellFormed(v) && v.valid && Alike(e, n) && Scalar(e) && Scalar(n)
    ensures FeedBegin(v, e) == FeedBegin(v, n)
    decreases v.root, 0, 1
  {
    hide FeedBegin, AfterScalar, WellFormed, Fits, TypeAccepts, EndAccepts, FeedStack, BeginValue, Opened, Alike;
    ScalarBegun(v, e);
    ScalarBegun(v, n);
    if BeginValue(v).Some? {
      var (below, s) := BeginValue(v).value;
      AlikeOpened(s, e, n);
      AlikeFedStack(v.root, below + [Opened(s, e)], e, n);
      AfterAlike(v, below, s, e, n);
    }
  }

  lemma AfterAlike(v: Validator, below: seq<Context>, s: Schema, e: Event, n: Event)
    requires forall c :: c in below + [Opened(s, e)] ==> Fits(v.root, c)
    requires Opened(s, e) == Opened(s, n) && (TypeAccepts(s, e) <==> TypeAccepts(s, n))
    requires FeedStack(v.root, below + [Opened(s, e)], e) == FeedStack(v.root, below + [Opened(s, e)], n)
    ensures AfterScalar(v, below, s, e) == AfterScalar(v, below, s, n)
  {
    hide Fits, TypeAccepts, EndAccepts, FeedStack, Opened;
  }

  /** What becomes of a validator whose next value, on top of `below`, is a scalar. */
  ghost function AfterScalar(v: Validator, below: seq<Context>, s: Schema, e: Event): Validator
    requires forall c :: c in below + [Opened(s, e)] ==> Fits(v.root, c)
  {
    if !TypeAccepts(s, e) then v.(stack := below + [Opened(s, e)], valid := false)
    else
      var cs := FeedStack(v.root, below + [Opened(s, e)], e);
      if EndAccepts(cs[|below|]) then v.(stack := cs[..|below|]) else v.(stack := cs, valid := false)
  }

  lemma ScalarBegun(v: Validator, e: Event)
    requires WellFormed(v) && v.valid && Scalar(e)
    ensures BeginValue(v).None? ==> FeedBegin(v, e) == v.(valid := false)
    ensures BeginValue(v).Some? ==>
              && (forall c :: c in BeginValue(v).value.0 + [Opened(BeginValue(v).value.1, e)] ==> Fits(v.root, c))
              && FeedBegin(v, e) == AfterScalar(v, BeginValue(v).value.0, BeginValue(v).value.1, e)
  {
    hide WellFormed, Fits, TypeAccepts, EndAccepts, FeedStack, BeginValue, Opened;
    if BeginValue(v).Some? {
      OpenedFits(v.root, BeginValue(v).value.1, e);
    }
  }

  lemma AlikeOpened(s: Schema, e: Event, n: Event)
    requires Alike(e, n) && Scalar(e) && Scalar(n)
    ensures Opened(s, e) == Opened(s, n) && (TypeAccepts(s, e) <==> TypeAccepts(s, n))
  {
    hide TypeAccepts;
  }

  lemma {:induction false} AlikeFedStack(root: Schema, cs: seq<Context>, e: Event, n: Event)
    requires (forall c :: c in cs ==> Fits(root, c)) && Alike(e, n)
    ensures FeedStack(root, cs, e) == FeedStack(root, cs, n)
    decreases root, 0, 0
  {
    hide WellFormed, Feed, FeedStack, FeedEach, Alike;
    var a, b := FeedStack(root, cs, e), FeedStack(root, cs, n);
    forall i | 0 <= i < |cs|
      ensures a[i] == b[i]
    {
      assert cs[i] in cs;
      var ws := cs[i].validators;
      var x, y := FeedEach(root, ws, e), FeedEach(root, ws, n);
      forall j | 0 <= j < |ws|
        ensures x[j] == y[j]
      {
        AlikeFed(ws[j], e, n);
      }
      assert x == y;
    }
  }

  lemma {:induction false} AlikeFedAll(v: Validator, es: seq<Event>, ns: seq<Event>)
    requires WellFormed(v) && |es| == |ns| && forall i :: 0 <= i < |es| ==> Alike(es[i], ns[i])
    ensures FeedAll(v, es) == FeedAll(v, ns)
    decreases |es|
  {
    hide WellFormed, Feed, Alike;
    if es != [] {
      AlikeFed(v, es[0], ns[0]);
      AlikeFedAll(Feed(v, es[0]), es[1..], ns[1..]);
    }
  }

  lemma {:induction false} EventsInWidth(x: D.Value)
    requires D.Valid(x)
    ensures forall e :: e in D.Events(x) ==> InWidth(e)
    decreases x, 1
  {
    match x {
      case Array(vs) => ElementEventsInWidth(vs);
      case Object(ms) => MemberEventsInWidth(ms);
      case Number(n) =>
        if n.Integer? {
          D.ConstructorsAgree(D.IntegerValue(n));
        }
      case _ =>
    }
  }

  lemma {:induction false} ElementEventsInWidth(vs: seq<D.Value>)
    requires forall x :: x in vs ==> D.Valid(x)
    ensures forall e :: e in D.ElementEvents(vs) ==> InWidth(e)
    decreases vs, 0
  {
    hide D.Events, D.Valid;
    if vs != [] {
      EventsInWidth(vs[0]);
      ElementEventsInWidth(vs[1..]);
    }
  }

  lemma {:induction false} MemberEventsInWidth(ms: seq<D.Member>)
    requires forall m :: m in ms ==> D.Valid(m.value)
    ensures forall e :: e in D.MemberEvents(ms) ==> InWidth(e)
    decreases ms, 0
  {
    hide D.Events, D.Valid;
    if ms != [] {
      assert ms[0] in ms;
      EventsInWidth(ms[0].value);
      MemberEventsInWidth(ms[1..]);
    }
  }

  lemma {:induction false} NormalAllAt(f: G.Flags, es: seq<Event>, i: nat)
    requires i < |es|
    ensures NormalAll(f, es)[i] == Normal(f, es[i])
  {
    if i > 0 {
      NormalAllAt(f, es[1..], i - 1);
    }
  }

  lemma {:induction false} AllAsStringsAt(es: seq<Event>, i: nat)
    requires i < |es|
    ensures AllAsStrings(es)[i] == AsString(es[i])
  {
    if i > 0 {
      AllAsStringsAt(es[1..], i - 1);
    }
  }

  /**
   A validator that is sent what a reader publishes for a value's text ends valid exactly when the value the
   document would hold satisfies the schema.
   */
  lemma ReadingIsSatisfaction(s: Schema, x: D.Value, f: G.Flags)
    requires D.Valid(x) && D.DoubleFree(x)
    ensures FeedAll(Fresh(s), NormalAll(f, D.Events(x))).valid <==> Satisfies(s, Restored(f, x))
  {
    hide FeedAll, Satisfies, D.Events, NormalAll, Normal, AllAsStrings, Spelled, Alike, D.Valid, D.DoubleFree;
    var v, es := Fresh(s), NormalAll(f, D.Events(x));
    if f.numbersAsStrings {
      SpelledEvents(f, x);
      SpelledIsValid(x);
      SpelledIsDoubleFree(x);
      forall i | 0 <= i < |es|
        ensures Alike(es[i], AllAsStrings(es)[i])
      {
        AllAsStringsAt(es, i);
        StringIsAlike(es[i]);
      }
      AlikeFedAll(v, es, AllAsStrings(es));
      StreamingIsSatisfaction(s, Spelled(x));
    } else {
      EventsInWidth(x);
      forall i | 0 <= i < |es|
        ensures Alike(D.Events(x)[i], es[i])
      {
        NormalAllAt(f, D.Events(x), i);
        NormalIsAlike(f, D.Events(x)[i]);
      }
      AlikeFedAll(v, D.Events(x), es);
      StreamingIsSatisfaction(s, x);
    }
  }
}
