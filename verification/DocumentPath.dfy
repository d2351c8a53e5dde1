/**
 The path a validator keeps while it streams: in a run without errors it leads, as a JSON Pointer, to
 the value in progress.
 */
module DocumentPath {
  import opened Bytes
  import opened Numerals
  import opened Wrappers
  import opened Sax
  import opened Schema
  import opened Validator
  import opened StreamedValidity
  import D = Dom
  import M = MembersMap
  import PointerText
  import A = PointerAccess

  type Path = seq<seq<byte>>

  // ---------------------------------------------------------------- how the path changes

  predicate BeginsValue(e: Event) {
    !e.Key? && !e.EndObject? && !e.EndArray?
  }

  function Dropped(path: Path): Path {
    if path == [] then [] else path[..|path| - 1]
  }

  /** The path of a value that begins: in an array its index is appended. */
  function PathBegin(v: Validator, path: Path): Path {
    if v.stack != [] && v.stack[|v.stack| - 1].inArray then
      path + [Decimal(v.stack[|v.stack| - 1].arrayElementIndex)]
    else path
  }

  /** The path after an event that the validator accepts. */
  function PathAfter(v: Validator, path: Path, e: Event): Path {
    if e.Key? then path + [e.name]
    else if e.EndObject? || e.EndArray? then Dropped(path)
    else if e.StartObject? || e.StartArray? then PathBegin(v, path)
    else Dropped(PathBegin(v, path))
  }

  function PathAll(v: Validator, path: Path, es: seq<Event>): Path
    requires WellFormed(v)
    decreases |es|
  {
    if es == [] then path else PathAll(Feed(v, es[0]), PathAfter(v, path, es[0]), es[1..])
  }

  /** The paths at which values begin. */
  function Trace(v: Validator, path: Path, es: seq<Event>): seq<Path>
    requires WellFormed(v)
    decreases |es|
  {
    if es == [] then []
    else (if BeginsValue(es[0]) then [PathBegin(v, path)] else []) +
         Trace(Feed(v, es[0]), PathAfter(v, path, es[0]), es[1..])
  }

  lemma {:induction false} PathAllMore(v: Validator, path: Path, es: seq<Event>, e: Event)
    requires WellFormed(v)
    ensures PathAll(v, path, es + [e]) == PathAfter(FeedAll(v, es), PathAll(v, path, es), e)
    decreases |es|
  {
    hide WellFormed, Feed, PathAfter;
    if es == [] {
      assert es + [e] == [e] && [e][1..] == [];
    } else {
      assert (es + [e])[1..] == es[1..] + [e];
      PathAllMore(Feed(v, es[0]), PathAfter(v, path, es[0]), es[1..], e);
    }
  }

  /** The path when an event is refused: that of the value the event is about. */
  function PathRefused(v: Validator, path: Path, e: Event): Path {
    if e.Key? then path + [e.name]
    else if e.EndObject? || e.EndArray? then path
    else PathBegin(v, path)
  }

  // ---------------------------------------------------------------- the paths of a tree

  /** A value in a tree and its path. */
  datatype Visit = Visit(path: Path, value: D.Value)

  /** All values of a tree with their paths, in the order in which they begin. */
  function Walk(x: D.Value, p: Path): seq<Visit>
    decreases x, 1, 0
  {
    [Visit(p, x)]
    + (match x
       case Array(vs) => WalkElements(vs, 0, p)
       case Object(ms) => WalkMembers(ms, 0, p)
       case _ => [])
  }

  function WalkElements(vs: seq<D.Value>, i: nat, p: Path): seq<Visit>
    requires i <= |vs|
    decreases vs, 0, |vs| - i
  {
    if i == |vs| then [] else Walk(vs[i], p + [Decimal(i)]) + WalkElements(vs, i + 1, p)
  }

  function WalkMembers(ms: seq<D.Member>, i: nat, p: Path): seq<Visit>
    requires i <= |ms|
    decreases ms, 0, |ms| - i
  {
    if i == |ms| then [] else Walk(ms[i].value, p + [ms[i].name]) + WalkMembers(ms, i + 1, p)
  }

  function Paths(vs: seq<Visit>): seq<Path> {
    seq(|vs|, i requires 0 <= i < |vs| => vs[i].path)
  }

  lemma PathsAppend(a: seq<Visit>, b: seq<Visit>)
    ensures Paths(a + b) == Paths(a) + Paths(b)
  {
  }

  /** The value that the event at `k` is about: the one it begins, names or ends. */
  function EventAt(x: D.Value, p: Path, k: nat): Visit
    requires k < |D.Events(x)|
    decreases x, 1, 0
  {
    if k == 0 || k + 1 == |D.Events(x)| then Visit(p, x)
    else
      match x
      case Array(vs) => assert vs[0..] == vs; ElementAt(vs, 0, p, k - 1)
      case Object(ms) => assert ms[0..] == ms; MemberAt(ms, 0, p, k - 1)
      case _ => Visit(p, x)
  }

  function ElementAt(vs: seq<D.Value>, i: nat, p: Path, k: nat): Visit
    requires i <= |vs| && k < |D.ElementEvents(vs[i..])|
    decreases vs, 0, |vs| - i
  {
    assert vs[i..][1..] == vs[i + 1..];
    var n := |D.Events(vs[i])|;
    if k < n then EventAt(vs[i], p + [Decimal(i)], k) else ElementAt(vs, i + 1, p, k - n)
  }

  function MemberAt(ms: seq<D.Member>, i: nat, p: Path, k: nat): Visit
    requires i <= |ms| && k < |D.MemberEvents(ms[i..])|
    decreases ms, 0, |ms| - i
  {
    assert ms[i..][1..] == ms[i + 1..];
    var n, q := |D.Events(ms[i].value)| + 1, p + [ms[i].name];
    if k == 0 then Visit(q, ms[i].value)
    else if k < n then EventAt(ms[i].value, q, k - 1)
    else MemberAt(ms, i + 1, p, k - n)
  }

  /** The value in progress after `k` events: the innermost one that is open, or the one just named. */
  function InProgress(x: D.Value, p: Path, k: nat): Visit
    requires 0 < k < |D.Events(x)|
    decreases x, 1, 0
  {
    match x
    case Array(vs) => assert vs[0..] == vs; ElementInProgress(vs, 0, p, k - 1)
    case Object(ms) => assert ms[0..] == ms; MemberInProgress(ms, 0, p, k - 1)
    case _ => Visit(p, x)
  }

  function ElementInProgress(vs: seq<D.Value>, i: nat, p: Path, k: nat): Visit
    requires i <= |vs| && k <= |D.ElementEvents(vs[i..])|
    decreases vs, 0, |vs| - i
  {
    if k == 0 then Visit(p, D.Array(vs))
    else
      assert vs[i..][1..] == vs[i + 1..];
      var n := |D.Events(vs[i])|;
      if k < n then InProgress(vs[i], p + [Decimal(i)], k) else ElementInProgress(vs, i + 1, p, k - n)
  }

  function MemberInProgress(ms: seq<D.Member>, i: nat, p: Path, k: nat): Visit
    requires i <= |ms| && k <= |D.MemberEvents(ms[i..])|
    decreases ms, 0, |ms| - i
  {
    if k == 0 then Visit(p, D.Object(ms))
    else
      assert ms[i..][1..] == ms[i + 1..];
      var n, q := |D.Events(ms[i].value)| + 1, p + [ms[i].name];
      if k == 1 then Visit(q, ms[i].value)
      else if k < n then InProgress(ms[i].value, q, k - 1)
      else MemberInProgress(ms, i + 1, p, k - n)
  }

  // ---------------------------------------------------------------- the path depends on the events only

  /** What the path depends on in an open context. */
  datatype Place = Place(inArray: bool, index: nat)

  datatype Track = Track(places: seq<Place>, path: Path)

  function Shape(cs: seq<Context>): (ps: seq<Place>)
    ensures |ps| == |cs| && forall i :: 0 <= i < |cs| ==> ps[i] == Place(cs[i].inArray, cs[i].arrayElementIndex)
  {
    seq(|cs|, i requires 0 <= i < |cs| => Place(cs[i].inArray, cs[i].arrayElementIndex))
  }

  function Begun(t: Track): Path {
    if t.places != [] && t.places[|t.places| - 1].inArray then
      t.path + [Decimal(t.places[|t.places| - 1].index)]
    else t.path
  }

  function Counted(ps: seq<Place>): seq<Place> {
    if ps != [] && ps[|ps| - 1].inArray then ps[|ps| - 1 := Place(true, ps[|ps| - 1].index + 1)] else ps
  }

  function Step(t: Track, e: Event): Track {
    if e.Key? then Track(t.places, t.path + [e.name])
    else if e.EndObject? || e.EndArray? then
      Track(if t.places == [] then [] else t.places[..|t.places| - 1], Dropped(t.path))
    else if e.StartObject? || e.StartArray? then Track(Counted(t.places) + [Place(e.StartArray?, 0)], Begun(t))
    else Track(Counted(t.places), Dropped(Begun(t)))
  }

  function StepAll(t: Track, es: seq<Event>): Track
    decreases |es|
  {
    if es == [] then t else StepAll(Step(t, es[0]), es[1..])
  }

  function Starts(t: Track, es: seq<Event>): seq<Path>
    decreases |es|
  {
    if es == [] then [] else (if BeginsValue(es[0]) then [Begun(t)] else []) + Starts(Step(t, es[0]), es[1..])
  }

  function About(t: Track, e: Event): Path {
    if e.Key? then t.path + [e.name] else if e.EndObject? || e.EndArray? then t.path else Begun(t)
  }

  lemma FedShape(root: Schema, cs: seq<Context>, e: Event)
    requires forall c :: c in cs ==> Fits(root, c)
    ensures Shape(FeedStack(root, cs, e)) == Shape(cs)
  {
    hide Fits;
  }

  lemma KeyInFits(root: Schema, c: Context, name: seq<byte>)
    requires Fits(root, c) && KeyIn(c, name).Some?
    ensures var d := KeyIn(c, name).value;
            Fits(root, d) && d.inArray == c.inArray && d.arrayElementIndex == c.arrayElementIndex
  {
    hide MemberSchema, FindProperty, WellFormed;
    WithinElement(c.schema, root);
  }

  lemma KeyStep(v: Validator, path: Path, e: Event)
    requires WellFormed(v) && v.valid && e.Key? && FeedKey(v, e).valid
    ensures Shape(FeedKey(v, e).stack) == Shape(v.stack)
  {
    hide Fits, FeedStack, KeyIn;
    var last := |v.stack| - 1;
    assert v.stack[last] in v.stack;
    KeyInFits(v.root, v.stack[last], e.name);
    FedShape(v.root, v.stack[..last] + [KeyIn(v.stack[last], e.name).value], e);
  }

  lemma CloseStep(v: Validator, path: Path, e: Event)
    requires WellFormed(v) && v.valid && (e.EndObject? || e.EndArray?) && FeedClose(v, e).valid
    ensures v.stack != [] && Shape(FeedClose(v, e).stack) == Shape(v.stack)[..|v.stack| - 1]
  {
    hide Fits, FeedStack, CloseAccepts, EndAccepts;
    FedShape(v.root, v.stack, e);
  }

  lemma BegunShape(v: Validator)
    requires WellFormed(v) && BeginValue(v).Some?
    ensures Shape(BeginValue(v).value.0) == Counted(Shape(v.stack))
  {
    hide Fits, ElementSchema, WellFormed;
  }

  lemma OpenedShape(below: seq<Context>, s: Schema, e: Event)
    ensures Shape(below + [Opened(s, e)]) == Shape(below) + [Place(e.StartArray?, 0)]
  {
  }

  lemma BeginStep(v: Validator, path: Path, e: Event)
    requires WellFormed(v) && v.valid && BeginsValue(e) && FeedBegin(v, e).valid
    ensures Shape(FeedBegin(v, e).stack) == Step(Track(Shape(v.stack), path), e).places
  {
    var (below, s) := BeginValue(v).value;
    OpenedFits(v.root, s, e);
    hide Fits, FeedStack, TypeAccepts, EndAccepts, WellFormed, BeginValue, Counted, Begun, Opened, Shape, Dropped;
    BegunShape(v);
    OpenedShape(below, s, e);
    var cs := FeedStack(v.root, below + [Opened(s, e)], e);
    FedShape(v.root, below + [Opened(s, e)], e);
    PoppedShape(cs, Counted(Shape(v.stack)), Place(e.StartArray?, 0));
  }

  lemma PoppedShape(cs: seq<Context>, ps: seq<Place>, p: Place)
    requires Shape(cs) == ps + [p]
    ensures |cs| > 0 && Shape(cs[..|cs| - 1]) == ps
  {
    assert ps == (ps + [p])[..|ps|];
  }

  /** One accepted event. */
  lemma ShapeStep(v: Validator, path: Path, e: Event)
    requires WellFormed(v) && Feed(v, e).valid
    ensures v.valid && Track(Shape(Feed(v, e).stack), PathAfter(v, path, e)) == Step(Track(Shape(v.stack), path), e)
    ensures PathBegin(v, path) == Begun(Track(Shape(v.stack), path))
  {
    hide WellFormed, FeedKey, FeedClose, FeedBegin;
    if e.Key? {
      KeyStep(v, path, e);
    } else if e.EndObject? || e.EndArray? {
      CloseStep(v, path, e);
    } else {
      BeginStep(v, path, e);
    }
  }

  /** A run without errors moves the path as its events alone say. */
  lemma {:induction false} RunIsTracked(v: Validator, path: Path, es: seq<Event>)
    requires WellFormed(v) && FeedAll(v, es).valid
    ensures Track(Shape(FeedAll(v, es).stack), PathAll(v, path, es)) == StepAll(Track(Shape(v.stack), path), es)
    ensures Trace(v, path, es) == Starts(Track(Shape(v.stack), path), es)
    decreases |es|
  {
    hide WellFormed, Feed, PathAfter, PathBegin, Step, Begun;
    if es != [] {
      ShapeStep(v, path, es[0]);
      RunIsTracked(Feed(v, es[0]), PathAfter(v, path, es[0]), es[1..]);
    }
  }

  // ---------------------------------------------------------------- tracking the events of a tree

  lemma {:induction false} TrackAppend(t: Track, a: seq<Event>, b: seq<Event>)
    ensures StepAll(t, a + b) == StepAll(StepAll(t, a), b)
    ensures Starts(t, a + b) == Starts(t, a) + Starts(StepAll(t, a), b)
    decreases |a|
  {
    hide Step, Begun;
    if a == [] {
      assert a + b == b;
    } else {
      assert (a + b)[1..] == a[1..] + b;
      TrackAppend(Step(t, a[0]), a[1..], b);
    }
  }

  lemma TrackOne(t: Track, e: Event)
    ensures StepAll(t, [e]) == Step(t, e)
    ensures Starts(t, [e]) == if BeginsValue(e) then [Begun(t)] else []
  {
    hide Step, Begun;
    assert [e][1..] == [];
  }

  /** A value's events visit the values of its tree, and end with the path of what is around it. */
  lemma {:induction false} ValueTracked(t: Track, x: D.Value)
    ensures StepAll(t, D.Events(x)) == Track(Counted(t.places), Dropped(Begun(t)))
    ensures Starts(t, D.Events(x)) == Paths(Walk(x, Begun(t)))
    decreases x, 1, 0
  {
    hide StepAll, Starts, D.ElementEvents, D.MemberEvents;
    match x {
      case Array(vs) =>
        assert vs[0..] == vs;
        ElementsTracked(Step(t, StartArray), vs, 0);
        ContainerTracked(t, x, StartArray, D.ElementEvents(vs), EndArray(|vs|), WalkElements(vs, 0, Begun(t)));
      case Object(ms) =>
        assert ms[0..] == ms;
        MembersTracked(Step(t, StartObject), ms, 0);
        ContainerTracked(t, x, StartObject, D.MemberEvents(ms), EndObject(|ms|), WalkMembers(ms, 0, Begun(t)));
      case _ =>
        TrackOne(t, D.Events(x)[0]);
        assert Walk(x, Begun(t)) == [Visit(Begun(t), x)];
    }
  }

  lemma ContainerTracked(t: Track, x: D.Value, start: Event, es: seq<Event>, end: Event, content: seq<Visit>)
    requires D.Events(x) == [start] + es + [end] && (start.StartArray? || start.StartObject?) &&
             (end.EndArray? || end.EndObject?)
    requires Walk(x, Begun(t)) == [Visit(Begun(t), x)] + content
    requires Starts(Step(t, start), es) == Paths(content)
    requires StepAll(Step(t, start), es).path == Begun(t) && |StepAll(Step(t, start), es).places| == |t.places| + 1
    requires StepAll(Step(t, start), es).places[..|t.places|] == Counted(t.places)
    ensures StepAll(t, D.Events(x)) == Track(Counted(t.places), Dropped(Begun(t)))
    ensures Starts(t, D.Events(x)) == Paths(Walk(x, Begun(t)))
  {
    hide Begun, Counted, Dropped, Walk, D.Events, StepAll, Starts;
    TrackOne(t, start);
    TrackAppend(t, [start], es);
    TrackAppend(t, [start] + es, [end]);
    TrackOne(StepAll(t, [start] + es), end);
    PathsAppend([Visit(Begun(t), x)], content);
    assert [Begun(t)] + Paths(content) + [] == Paths(Walk(x, Begun(t)));
  }

  /** In an array whose next element is `i`. */
  predicate InArrayAt(t: Track, i: nat) {
    t.places != [] && t.places[|t.places| - 1] == Place(true, i)
  }

  predicate InObject(t: Track) {
    t.places != [] && !t.places[|t.places| - 1].inArray
  }

  /** An element leaves everything but the index as it was. */
  lemma ElementTracked(t: Track, x: D.Value, i: nat)
    requires InArrayAt(t, i) && StepAll(t, D.Events(x)) == Track(Counted(t.places), Dropped(Begun(t)))
    ensures StepAll(t, D.Events(x)) == Track(t.places[|t.places| - 1 := Place(true, i + 1)], t.path)
    ensures Begun(t) == t.path + [Decimal(i)]
  {
    hide StepAll, D.Events;
  }

  lemma {:induction false} ElementsTracked(t: Track, vs: seq<D.Value>, i: nat)
    requires i <= |vs| && InArrayAt(t, i)
    ensures StepAll(t, D.ElementEvents(vs[i..])) == Track(t.places[|t.places| - 1 := Place(true, |vs|)], t.path)
    ensures Starts(t, D.ElementEvents(vs[i..])) == Paths(WalkElements(vs, i, t.path))
    decreases vs, 0, |vs| - i
  {
    hide Step, Begun, Counted, Walk, D.Events;
    if i < |vs| {
      assert vs[i..][1..] == vs[i + 1..];
      ValueTracked(t, vs[i]);
      ElementTracked(t, vs[i], i);
      var t1 := StepAll(t, D.Events(vs[i]));
      ElementsTracked(t1, vs, i + 1);
      TrackAppend(t, D.Events(vs[i]), D.ElementEvents(vs[i + 1..]));
      PathsAppend(Walk(vs[i], t.path + [Decimal(i)]), WalkElements(vs, i + 1, t.path));
    }
  }

  /** A name is followed by a value at the longer path. */
  lemma NameTracked(t: Track, name: seq<byte>, es: seq<Event>)
    requires InObject(t)
    ensures Step(t, Key(name)) == Track(t.places, t.path + [name]) && Begun(Step(t, Key(name))) == t.path + [name]
    ensures Counted(t.places) == t.places && Dropped(t.path + [name]) == t.path
    ensures StepAll(t, [Key(name)] + es) == StepAll(Step(t, Key(name)), es)
    ensures Starts(t, [Key(name)] + es) == Starts(Step(t, Key(name)), es)
  {
    assert ([Key(name)] + es)[1..] == es;
  }

  lemma {:induction false} MembersTracked(t: Track, ms: seq<D.Member>, i: nat)
    requires i <= |ms| && InObject(t)
    ensures StepAll(t, D.MemberEvents(ms[i..])) == t
    ensures Starts(t, D.MemberEvents(ms[i..])) == Paths(WalkMembers(ms, i, t.path))
    decreases ms, 0, |ms| - i
  {
    hide Step, Begun, Counted, Walk, D.Events;
    if i < |ms| {
      assert ms[i..][1..] == ms[i + 1..];
      var m := ms[i];
      var es := [Key(m.name)] + D.Events(m.value);
      NameTracked(t, m.name, D.Events(m.value));
      ValueTracked(Step(t, Key(m.name)), m.value);
      MembersTracked(t, ms, i + 1);
      TrackAppend(t, es, D.MemberEvents(ms[i + 1..]));
      PathsAppend(Walk(m.value, t.path + [m.name]), WalkMembers(ms, i + 1, t.path));
    }
  }

  // ---------------------------------------------------------------- in the middle of a tree

  /**
   Halfway through a value's events the path is that of the value in progress, and the next event's that of its value.
   */
  lemma {:induction false} ValueMidway(t: Track, x: D.Value, k: nat)
    requires k < |D.Events(x)|
    ensures About(StepAll(t, D.Events(x)[..k]), D.Events(x)[k]) == EventAt(x, Begun(t), k).path
    ensures k > 0 ==> StepAll(t, D.Events(x)[..k]).path == InProgress(x, Begun(t), k).path
    decreases x, 1, 0
  {
    hide StepAll, About, ElementAt, MemberAt, ElementInProgress, MemberInProgress;
    if k == 0 {
      assert D.Events(x)[..0] == [];
      StartMidway(t, D.Events(x)[0]);
    } else if x.Array? {
      ArrayMidway(t, x.elements, k);
    } else if x.Object? {
      ObjectMidway(t, x.members, k);
    }
  }

  lemma StartMidway(t: Track, e: Event)
    ensures StepAll(t, []) == t && (BeginsValue(e) ==> About(t, e) == Begun(t))
  {
  }

  lemma {:induction false} ArrayMidway(t: Track, vs: seq<D.Value>, k: nat)
    requires 0 < k < |D.Events(D.Array(vs))|
    ensures var es := D.Events(D.Array(vs));
            About(StepAll(t, es[..k]), es[k]) == EventAt(D.Array(vs), Begun(t), k).path
    ensures StepAll(t, D.Events(D.Array(vs))[..k]).path == InProgress(D.Array(vs), Begun(t), k).path
    decreases D.Array(vs), 0, 0
  {
    hide StepAll, ElementAt, ElementInProgress, D.ElementEvents, Counted;
    assert vs[0..] == vs;
    var t1, es := Step(t, StartArray), D.ElementEvents(vs);
    assert D.Events(D.Array(vs)) == [StartArray] + es + [EndArray(|vs|)];
    assert t1.path == Begun(t) && InArrayAt(t1, 0);
    ContainerMidway(t, D.Array(vs), StartArray, es, EndArray(|vs|), k - 1);
    ElementsMidway(t1, vs, 0, k - 1);
    if k - 1 == |es| {
      assert es[..k - 1] == es;
      ElementsTracked(t1, vs, 0);
    }
  }

  lemma {:induction false} ObjectMidway(t: Track, ms: seq<D.Member>, k: nat)
    requires 0 < k < |D.Events(D.Object(ms))|
    ensures var es := D.Events(D.Object(ms));
            About(StepAll(t, es[..k]), es[k]) == EventAt(D.Object(ms), Begun(t), k).path
    ensures StepAll(t, D.Events(D.Object(ms))[..k]).path == InProgress(D.Object(ms), Begun(t), k).path
    decreases D.Object(ms), 0, 0
  {
    hide StepAll, MemberAt, MemberInProgress, D.MemberEvents, Counted;
    assert ms[0..] == ms;
    var t1, es := Step(t, StartObject), D.MemberEvents(ms);
    assert D.Events(D.Object(ms)) == [StartObject] + es + [EndObject(|ms|)];
    assert t1.path == Begun(t) && InObject(t1);
    ContainerMidway(t, D.Object(ms), StartObject, es, EndObject(|ms|), k - 1);
    MembersMidway(t1, ms, 0, k - 1);
    if k - 1 == |es| {
      assert es[..k - 1] == es;
      MembersTracked(t1, ms, 0);
    }
  }

  lemma ContainerMidway(t: Track, x: D.Value, start: Event, es: seq<Event>, end: Event, j: nat)
    requires D.Events(x) == [start] + es + [end] && j <= |es|
    ensures StepAll(t, D.Events(x)[..j + 1]) == StepAll(Step(t, start), es[..j])
    ensures D.Events(x)[j + 1] == if j < |es| then es[j] else end
  {
    hide Step, StepAll, D.Events;
    assert D.Events(x)[..j + 1] == [start] + es[..j];
    TrackAppend(t, [start], es[..j]);
    TrackOne(t, start);
  }

  lemma {:induction false} ElementsMidway(t: Track, vs: seq<D.Value>, i: nat, j: nat)
    requires i <= |vs| && InArrayAt(t, i) && j <= |D.ElementEvents(vs[i..])|
    ensures StepAll(t, D.ElementEvents(vs[i..])[..j]).path == ElementInProgress(vs, i, t.path, j).path
    ensures j < |D.ElementEvents(vs[i..])| ==>
              About(StepAll(t, D.ElementEvents(vs[i..])[..j]), D.ElementEvents(vs[i..])[j]) ==
              ElementAt(vs, i, t.path, j).path
    decreases vs, 0, |vs| - i
  {
    hide Step, Begun, Counted, D.Events, About;
    var es := D.ElementEvents(vs[i..]);
    if i < |vs| {
      assert vs[i..][1..] == vs[i + 1..];
      var ev, rest := D.Events(vs[i]), D.ElementEvents(vs[i + 1..]);
      var n := |ev|;
      ValueTracked(t, vs[i]);
      ElementTracked(t, vs[i], i);
      if j < n {
        assert es[..j] == ev[..j] && es[j] == ev[j];
        ValueMidway(t, vs[i], j);
      } else {
        assert es[..j] == ev + rest[..j - n];
        TrackAppend(t, ev, rest[..j - n]);
        ElementsMidway(StepAll(t, ev), vs, i + 1, j - n);
      }
    }
  }

  lemma {:induction false} MembersMidway(t: Track, ms: seq<D.Member>, i: nat, j: nat)
    requires i <= |ms| && InObject(t) && j <= |D.MemberEvents(ms[i..])|
    ensures StepAll(t, D.MemberEvents(ms[i..])[..j]).path == MemberInProgress(ms, i, t.path, j).path
    ensures j < |D.MemberEvents(ms[i..])| ==>
              About(StepAll(t, D.MemberEvents(ms[i..])[..j]), D.MemberEvents(ms[i..])[j]) ==
              MemberAt(ms, i, t.path, j).path
    decreases ms, 0, |ms| - i
  {
    hide Step, Begun, Counted, D.Events;
    var es := D.MemberEvents(ms[i..]);
    if i < |ms| {
      assert ms[i..][1..] == ms[i + 1..];
      var m := ms[i];
      var ev, rest := D.Events(m.value), D.MemberEvents(ms[i + 1..]);
      var key, n := Key(m.name), |ev| + 1;
      assert es == [key] + ev + rest;
      if j == 0 {
        assert es[0] == key && es[..0] == [];
      } else if j < n {
        NameTracked(t, m.name, ev[..j - 1]);
        assert es[..j] == [key] + ev[..j - 1] && es[j] == ev[j - 1];
        ValueMidway(Step(t, key), m.value, j - 1);
      } else {
        NameTracked(t, m.name, ev);
        ValueTracked(Step(t, key), m.value);
        assert es[..j] == ([key] + ev) + rest[..j - n];
        TrackAppend(t, [key] + ev, rest[..j - n]);
        MembersMidway(t, ms, i + 1, j - n);
      }
    }
  }

  // ---------------------------------------------------------------- both are values of the tree

  lemma {:induction false} EventIsVisited(x: D.Value, p: Path, k: nat)
    requires k < |D.Events(x)|
    ensures EventAt(x, p, k) in Walk(x, p)
    ensures k > 0 ==> InProgress(x, p, k) in Walk(x, p)
    decreases x, 1, 0
  {
    assert Walk(x, p)[0] == Visit(p, x);
    match x {
      case Array(vs) =>
        assert vs[0..] == vs;
        if k > 0 {
          ElementIsVisited(vs, 0, p, k - 1);
        }
      case Object(ms) =>
        assert ms[0..] == ms;
        if k > 0 {
          MemberIsVisited(ms, 0, p, k - 1);
        }
      case _ =>
    }
  }

  lemma {:induction false} ElementIsVisited(vs: seq<D.Value>, i: nat, p: Path, k: nat)
    requires i <= |vs| && k <= |D.ElementEvents(vs[i..])|
    ensures k < |D.ElementEvents(vs[i..])| ==> ElementAt(vs, i, p, k) in WalkElements(vs, i, p)
    ensures ElementInProgress(vs, i, p, k) == Visit(p, D.Array(vs)) ||
            ElementInProgress(vs, i, p, k) in WalkElements(vs, i, p)
    decreases vs, 0, |vs| - i
  {
    hide D.Events, Walk, EventAt, InProgress;
    if i < |vs| {
      assert vs[i..][1..] == vs[i + 1..];
      var n := |D.Events(vs[i])|;
      if k < n {
        EventIsVisited(vs[i], p + [Decimal(i)], k);
      } else {
        ElementIsVisited(vs, i + 1, p, k - n);
      }
    }
  }

  lemma {:induction false} MemberIsVisited(ms: seq<D.Member>, i: nat, p: Path, k: nat)
    requires i <= |ms| && k <= |D.MemberEvents(ms[i..])|
    ensures k < |D.MemberEvents(ms[i..])| ==> MemberAt(ms, i, p, k) in WalkMembers(ms, i, p)
    ensures MemberInProgress(ms, i, p, k) == Visit(p, D.Object(ms)) ||
            MemberInProgress(ms, i, p, k) in WalkMembers(ms, i, p)
    decreases ms, 0, |ms| - i
  {
    hide D.Events, Walk, EventAt, InProgress;
    if i < |ms| {
      assert ms[i..][1..] == ms[i + 1..];
      var n, q := |D.Events(ms[i].value)| + 1, p + [ms[i].name];
      NamedIsVisited(ms[i].value, q);
      if 0 < k < n {
        EventIsVisited(ms[i].value, q, k - 1);
      } else if k >= n {
        MemberIsVisited(ms, i + 1, p, k - n);
      }
    }
  }

  lemma NamedIsVisited(x: D.Value, p: Path)
    ensures Visit(p, x) in Walk(x, p)
  {
    assert Walk(x, p)[0] == Visit(p, x);
  }

  // ---------------------------------------------------------------- paths lead to their values

  function TokenOf(name: seq<byte>): PointerText.Token {
    PointerText.Token(name, PointerText.IndexOf(name))
  }

  function TokensOf(path: Path): (ts: seq<PointerText.Token>)
    ensures |ts| == |path| && PointerText.Canonical(ts)
  {
    seq(|path|, i requires 0 <= i < |path| => TokenOf(path[i]))
  }

  /** Names are distinct at every level. */
  ghost predicate DistinctNames(x: D.Value) {
    match x
    case Array(vs) => forall v :: v in vs ==> DistinctNames(v)
    case Object(ms) => M.NamesDistinct(ms) && forall m :: m in ms ==> DistinctNames(m.value)
    case _ => true
  }

  lemma {:induction false} GetThrough(root: D.Value, ts: seq<PointerText.Token>, t: PointerText.Token, i: nat,
                                      x: D.Value)
    requires i <= |ts| && A.Get(root, ts, i) == A.Found(x) && A.Child(x, t).Some?
    ensures A.Get(root, ts + [t], i) == A.Found(A.Child(x, t).value)
    decreases |ts| - i
  {
    if i < |ts| {
      assert (ts + [t])[i] == ts[i];
      GetThrough(A.Child(root, ts[i]).value, ts, t, i + 1, x);
    } else {
      assert (ts + [t])[i] == t;
      assert A.Get(A.Child(x, t).value, ts + [t], i + 1) == A.Found(A.Child(x, t).value);
    }
  }

  lemma TokensOfMore(path: Path, name: seq<byte>)
    ensures TokensOf(path + [name]) == TokensOf(path) + [TokenOf(name)]
  {
  }

  /** The token of an index is that index. */
  lemma IndexToken(i: nat)
    requires i < PointerText.INVALID_INDEX
    ensures TokenOf(Decimal(i)).index == i
  {
    NatOfDecimal(i);
    DecimalIsNumeral(i);
    PointerText.IndexIsNumber(Decimal(i));
  }

  lemma DecimalIsNumeral(i: nat)
    ensures PointerText.IsNumeral(Decimal(i))
  {
    NatOfDecimal(i);
    assert DigitRun(Decimal(i), 0, |Decimal(i)|);
  }

  lemma {:induction false} WalkResolves(root: D.Value, x: D.Value, p: Path, k: nat)
    requires A.Get(root, TokensOf(p), 0) == A.Found(x) && DistinctNames(x) && D.Valid(x) && k < |Walk(x, p)|
    ensures A.Get(root, TokensOf(Walk(x, p)[k].path), 0) == A.Found(Walk(x, p)[k].value)
    decreases x, 1, 0
  {
    hide A.Get, TokensOf;
    if k > 0 {
      match x {
        case Array(vs) => ElementsResolve(root, vs, p, 0, k - 1);
        case Object(ms) => MembersResolve(root, ms, p, 0, k - 1);
      }
    }
  }

  lemma {:induction false} ElementsResolve(root: D.Value, vs: seq<D.Value>, p: Path, i: nat, k: nat)
    requires A.Get(root, TokensOf(p), 0) == A.Found(D.Array(vs)) && DistinctNames(D.Array(vs)) && D.Valid(D.Array(vs))
    requires i <= |vs| && k < |WalkElements(vs, i, p)|
    ensures A.Get(root, TokensOf(WalkElements(vs, i, p)[k].path), 0) == A.Found(WalkElements(vs, i, p)[k].value)
    decreases vs, 0, |vs| - i
  {
    hide A.Get, TokensOf, Walk;
    var here := Walk(vs[i], p + [Decimal(i)]);
    if k < |here| {
      IndexToken(i);
      GetThrough(root, TokensOf(p), TokenOf(Decimal(i)), 0, D.Array(vs));
      TokensOfMore(p, Decimal(i));
      WalkResolves(root, vs[i], p + [Decimal(i)], k);
    } else {
      ElementsResolve(root, vs, p, i + 1, k - |here|);
    }
  }

  lemma {:induction false} MembersResolve(root: D.Value, ms: seq<D.Member>, p: Path, i: nat, k: nat)
    requires A.Get(root, TokensOf(p), 0) == A.Found(D.Object(ms)) && DistinctNames(D.Object(ms)) &&
             D.Valid(D.Object(ms))
    requires i <= |ms| && k < |WalkMembers(ms, i, p)|
    ensures A.Get(root, TokensOf(WalkMembers(ms, i, p)[k].path), 0) == A.Found(WalkMembers(ms, i, p)[k].value)
    decreases ms, 0, |ms| - i
  {
    hide A.Get, TokensOf, Walk;
    var here := Walk(ms[i].value, p + [ms[i].name]);
    if k < |here| {
      assert ms[i] in ms;
      M.UniquelyNamed(ms, ms[i].name, i);
      GetThrough(root, TokensOf(p), TokenOf(ms[i].name), 0, D.Object(ms));
      TokensOfMore(p, ms[i].name);
      WalkResolves(root, ms[i].value, p + [ms[i].name], k);
    } else {
      MembersResolve(root, ms, p, i + 1, k - |here|);
    }
  }

  // ---------------------------------------------------------------- the theorem

  /**
   Streaming a value through any schema, as long as no event is refused: the paths at which values have
   begun are those of the values of the tree, in order, and the path is that of the value in progress.
   When the next event is refused, it is the path of the value that event is about.
   */
  lemma PathsOfRun(s: Schema, x: D.Value, k: nat)
    requires k <= |D.Events(x)| && FeedAll(Fresh(s), D.Events(x)[..k]).valid
    ensures var v, path := FeedAll(Fresh(s), D.Events(x)[..k]), PathAll(Fresh(s), [], D.Events(x)[..k]);
            && Trace(Fresh(s), [], D.Events(x)[..k]) <= Paths(Walk(x, []))
            && path == (if 0 < k < |D.Events(x)| then InProgress(x, [], k).path else [])
            && (k < |D.Events(x)| ==> PathRefused(v, path, D.Events(x)[k]) == EventAt(x, [], k).path)
  {
    hide FeedAll, PathAll, Trace, StepAll, Starts, D.Events, Walk, EventAt, InProgress, WellFormed;
    var es := D.Events(x);
    var t := Track([], []);
    FreshIsWellFormed(s);
    RunIsTracked(Fresh(s), [], es[..k]);
    assert Shape([]) == [];
    ValueTracked(t, x);
    assert es == es[..k] + es[k..];
    TrackAppend(t, es[..k], es[k..]);
    if k < |es| {
      ValueMidway(t, x, k);
      RefusedIsAbout(FeedAll(Fresh(s), es[..k]), PathAll(Fresh(s), [], es[..k]), es[k]);
      if k == 0 {
        TrackNothing(t);
      }
    } else {
      assert es[..k] == es;
    }
  }

  lemma FreshIsWellFormed(s: Schema)
    ensures WellFormed(Fresh(s)) && Fresh(s).stack == []
  {
  }

  lemma TrackNothing(t: Track)
    ensures StepAll(t, []) == t
  {
  }

  lemma RefusedIsAbout(v: Validator, path: Path, e: Event)
    ensures PathRefused(v, path, e) == About(Track(Shape(v.stack), path), e)
  {
  }

  /** With distinct names each of these paths resolves to its value. */
  lemma PathsResolve(x: D.Value, k: nat)
    requires D.Valid(x) && DistinctNames(x) && k < |D.Events(x)|
    ensures A.Get(x, TokensOf(EventAt(x, [], k).path), 0) == A.Found(EventAt(x, [], k).value)
    ensures k > 0 ==> A.Get(x, TokensOf(InProgress(x, [], k).path), 0) == A.Found(InProgress(x, [], k).value)
  {
    hide D.Events, Walk, EventAt, InProgress, D.Valid, DistinctNames;
    EventIsVisited(x, [], k);
    var i :| 0 <= i < |Walk(x, [])| && Walk(x, [])[i] == EventAt(x, [], k);
    WalkResolves(x, x, [], i);
    if k > 0 {
      var j :| 0 <= j < |Walk(x, [])| && Walk(x, [])[j] == InProgress(x, [], k);
      WalkResolves(x, x, [], j);
    }
  }

  /**
   A value that satisfies the schema is streamed to the end: all its values are visited, and the path is empty again.
   */
  lemma PathsLeadToValues(s: Schema, x: D.Value)
    requires D.Valid(x) && D.DoubleFree(x) && Satisfies(s, x)
    ensures Trace(Fresh(s), [], D.Events(x)) == Paths(Walk(x, [])) && PathAll(Fresh(s), [], D.Events(x)) == []
    ensures DistinctNames(x) ==>
              forall k :: 0 <= k < |Walk(x, [])| ==>
                            A.Get(x, TokensOf(Walk(x, [])[k].path), 0) == A.Found(Walk(x, [])[k].value)
  {
    hide Satisfies, Walk, Trace, PathAll, FeedAll, D.Events, StepAll, Starts;
    StreamingIsSatisfaction(s, x);
    FreshIsWellFormed(s);
    RunIsTracked(Fresh(s), [], D.Events(x));
    assert Shape([]) == [];
    ValueTracked(Track([], []), x);
    if DistinctNames(x) {
      forall k | 0 <= k < |Walk(x, [])|
        ensures A.Get(x, TokensOf(Walk(x, [])[k].path), 0) == A.Found(Walk(x, [])[k].value)
      {
        WalkResolves(x, x, [], k);
      }
    }
  }
}
