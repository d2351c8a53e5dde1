/**
 Every complete sequence of events that a writer accepts prints a tree: the same text as the events of one
 value. So what holds of printed values holds of all such sequences.
 */
module EventTrees {
  import opened Bytes
  import opened Numerals
  import opened Wrappers
  import opened Sax
  import opened Escaping
  import opened Writer
  import opened PrettyWriter
  import opened Printing
  import opened Document
  import opened RoundTrip
  import D = Dom
  import G = Grammar
  import P = Pushdown
  import Utf8

  // ---------------------------------------------------------------- trees under construction

  /** An open container: its elements, its members, or its members and one more name. */
  datatype Partial = Elements(vs: seq<D.Value>) | Members(ms: seq<D.Member>) | Named(ms: seq<D.Member>, name: seq<byte>)

  datatype Pile = Pile(root: Option<D.Value>, open: seq<Partial>)

  function PartialEvents(p: Partial): seq<Event> {
    match p
    case Elements(vs) => [StartArray] + D.ElementEvents(vs)
    case Members(ms) => [StartObject] + D.MemberEvents(ms)
    case Named(ms, name) => [StartObject] + D.MemberEvents(ms) + [Key(name)]
  }

  function OpenEvents(ps: seq<Partial>): seq<Event> {
    if ps == [] then [] else OpenEvents(ps[..|ps| - 1]) + PartialEvents(ps[|ps| - 1])
  }

  function PileEvents(pile: Pile): seq<Event> {
    if pile.root.Some? then D.Events(pile.root.value) else OpenEvents(pile.open)
  }

  /** The value of a scalar, as it is printed. */
  function ScalarValue(e: Event): D.Value
    requires IsScalar(e) && Carried(e)
  {
    match e
    case Null => D.Value.Null
    case Bool(b) => D.Value.Bool(b)
    case Int(i) => D.Number(D.Canonical(i))
    case Uint(u) => D.Number(D.Canonical(u))
    case Int64(i) => D.Number(D.Canonical(i))
    case Uint64(u) => D.Number(D.Canonical(u))
    case RawNumber(text) => D.Value.String(text)
    case String(str) => D.Value.String(str)
    case Key(name) => D.Value.String(name)
  }

  /** What the types of the handler's parameters can carry. */
  predicate Carried(e: Event) {
    match e
    case Int(i) => D.IsInt(i)
    case Uint(u) => D.IsUint(u)
    case Int64(i) => D.IsInt64(i)
    case Uint64(u) => D.IsUint64(u)
    case RawNumber(text) => |text| < SIZE_LIMIT
    case String(str) => |str| < SIZE_LIMIT
    case Key(name) => |name| < SIZE_LIMIT
    case _ => true
  }

  /** Where a value may be put. */
  predicate Awaits(pile: Pile) {
    pile.root.None? && (pile.open == [] || !pile.open[|pile.open| - 1].Members?)
  }

  function PutIn(p: Partial, v: D.Value): Partial
    requires !p.Members?
  {
    if p.Elements? then Elements(p.vs + [v]) else Members(p.ms + [D.Member(p.name, v)])
  }

  function Put(pile: Pile, v: D.Value): Pile
    requires Awaits(pile)
  {
    if pile.open == [] then Pile(Some(v), [])
    else
      var last := |pile.open| - 1;
      Pile(None, pile.open[..last] + [PutIn(pile.open[last], v)])
  }

  function Whole(p: Partial): D.Value
    requires !p.Named?
  {
    if p.Elements? then D.Array(p.vs) else D.Object(p.ms)
  }

  /** The pile after an event; none when the event does not fit. */
  function Next(pile: Pile, e: Event): Option<Pile>
    requires Carried(e)
  {
    var last := |pile.open| - 1;
    if e.EndObject? || e.EndArray? then
      if pile.open == [] || pile.root.Some? || pile.open[last].Named? || !Awaits(Pile(None, pile.open[..last])) then
        None
      else Some(Put(Pile(None, pile.open[..last]), Whole(pile.open[last])))
    else if pile.open != [] && pile.open[last].Members? && pile.root.None? then
      if e.String? then Some(Pile(None, pile.open[..last] + [Named(pile.open[last].ms, e.str)]))
      else if e.Key? then Some(Pile(None, pile.open[..last] + [Named(pile.open[last].ms, e.name)]))
      else None
    else if !Awaits(pile) || e.Double? then None
    else if e.StartArray? then Some(Pile(None, pile.open + [Elements([])]))
    else if e.StartObject? then Some(Pile(None, pile.open + [Members([])]))
    else Some(Put(pile, ScalarValue(e)))
  }

  // ---------------------------------------------------------------- the pile's events grow with it

  lemma {:induction false} ElementEventsSnoc(vs: seq<D.Value>, v: D.Value)
    ensures D.ElementEvents(vs + [v]) == D.ElementEvents(vs) + D.Events(v)
    decreases |vs|
  {
    hide D.Events;
    if vs == [] {
      assert vs + [v] == [v] && [v][1..] == [];
    } else {
      assert (vs + [v])[1..] == vs[1..] + [v];
      ElementEventsSnoc(vs[1..], v);
    }
  }

  lemma {:induction false} MemberEventsSnoc(ms: seq<D.Member>, m: D.Member)
    ensures D.MemberEvents(ms + [m]) == D.MemberEvents(ms) + [Key(m.name)] + D.Events(m.value)
    decreases |ms|
  {
    hide D.Events;
    if ms == [] {
      assert ms + [m] == [m] && [m][1..] == [];
    } else {
      assert (ms + [m])[1..] == ms[1..] + [m];
      MemberEventsSnoc(ms[1..], m);
    }
  }

  lemma OpenEventsSnoc(ps: seq<Partial>, p: Partial)
    ensures OpenEvents(ps + [p]) == OpenEvents(ps) + PartialEvents(p)
  {
    hide PartialEvents;
    assert (ps + [p])[..|ps|] == ps;
  }

  lemma PutInEvents(p: Partial, v: D.Value)
    requires !p.Members?
    ensures PartialEvents(PutIn(p, v)) == PartialEvents(p) + D.Events(v)
  {
    hide D.Events, D.ElementEvents, D.MemberEvents;
    if p.Elements? {
      ElementEventsSnoc(p.vs, v);
    } else {
      MemberEventsSnoc(p.ms, D.Member(p.name, v));
    }
  }

  lemma PutEvents(pile: Pile, v: D.Value)
    requires Awaits(pile)
    ensures PileEvents(Put(pile, v)) == PileEvents(pile) + D.Events(v)
  {
    hide D.Events, PartialEvents, OpenEvents;
    if pile.open == [] {
      NothingOpen();
      assert [] + D.Events(v) == D.Events(v);
    } else {
      var last := |pile.open| - 1;
      var front, p := pile.open[..last], pile.open[last];
      assert pile.open == front + [p];
      OpenEventsSnoc(front, p);
      OpenEventsSnoc(front, PutIn(p, v));
      PutInEvents(p, v);
    }
  }

  lemma NothingOpen()
    ensures OpenEvents([]) == []
  {
  }

  /** The event of the kind that the document would publish. */
  function Settled(pile: Pile, e: Event): Event
    requires Carried(e)
  {
    var last := |pile.open| - 1;
    if e.EndObject? || e.EndArray? then
      if pile.open != [] && pile.open[last].Elements? then EndArray(|pile.open[last].vs|)
      else if pile.open != [] && pile.open[last].Members? then EndObject(|pile.open[last].ms|)
      else e
    else if e.StartArray? || e.StartObject? || e.Double? then e
    else if pile.open != [] && pile.open[last].Members? then (if e.String? then Key(e.str) else e)
    else D.Events(ScalarValue(e))[0]
  }

  lemma NextEvents(pile: Pile, e: Event)
    requires Carried(e) && Next(pile, e).Some?
    ensures PileEvents(Next(pile, e).value) == PileEvents(pile) + [Settled(pile, e)]
  {
    hide D.ElementEvents, D.MemberEvents, OpenEvents;
    var last := |pile.open| - 1;
    if e.EndObject? || e.EndArray? {
      ClosedEvents(pile, e);
    } else if pile.open != [] && pile.open[last].Members? && pile.root.None? {
      var front, p := pile.open[..last], pile.open[last];
      assert pile.open == front + [p];
      OpenEventsSnoc(front, p);
      OpenEventsSnoc(front, Named(p.ms, if e.String? then e.str else e.name));
    } else if e.StartArray? {
      NoMembers();
      OpenEventsSnoc(pile.open, Elements([]));
    } else if e.StartObject? {
      NoMembers();
      OpenEventsSnoc(pile.open, Members([]));
    } else {
      PutEvents(pile, ScalarValue(e));
      assert D.Events(ScalarValue(e)) == [D.Events(ScalarValue(e))[0]];
    }
  }

  lemma NoMembers()
    ensures D.ElementEvents([]) == [] && D.MemberEvents([]) == []
  {
  }

  lemma ClosedEvents(pile: Pile, e: Event)
    requires Carried(e) && (e.EndObject? || e.EndArray?) && Next(pile, e).Some?
    ensures PileEvents(Next(pile, e).value) == PileEvents(pile) + [Settled(pile, e)]
  {
    var last := |pile.open| - 1;
    var front, p := pile.open[..last], pile.open[last];
    assert pile.open == front + [p];
    assert D.Events(Whole(p)) == PartialEvents(p) + [Settled(pile, e)];
    hide D.Events, PartialEvents, OpenEvents;
    OpenEventsSnoc(front, p);
    PutEvents(Pile(None, front), Whole(p));
  }

  // ---------------------------------------------------------------- pile and levels go together

  function CountOf(p: Partial, top: bool): nat {
    match p
    case Elements(vs) => if top then |vs| else |vs| + 1
    case Members(ms) => 2 * |ms|
    case Named(ms, _) => if top then 2 * |ms| + 1 else 2 * |ms| + 2
  }

  function LevelOf(p: Partial, top: bool): Level {
    Level(CountOf(p, top), p.Elements?)
  }

  /** The writer's levels count what the open containers hold, and what is open in them. */
  ghost predicate Matches(levels: seq<Level>, hasRoot: bool, pile: Pile) {
    && |levels| == |pile.open| && hasRoot == (pile.root.Some? || pile.open != [])
    && (pile.root.Some? ==> pile.open == [])
    && (forall i :: 0 <= i < |levels| ==> levels[i] == LevelOf(pile.open[i], i + 1 == |levels|))
    && (forall i :: 0 <= i < |levels| - 1 ==> !pile.open[i].Members?)
  }

  /** An event that begins or is a value finds a place for it, unless it is a name. */
  lemma LegalIsAwaited(levels: seq<Level>, hasRoot: bool, pile: Pile, isString: bool)
    requires Matches(levels, hasRoot, pile) && MayStart(levels, hasRoot, isString)
    ensures pile.root.None? && (Awaits(pile) || (pile.open != [] && pile.open[|pile.open| - 1].Members? && isString))
  {
  }

  lemma PutMatches(levels: seq<Level>, hasRoot: bool, pile: Pile, v: D.Value)
    requires Matches(levels, hasRoot, pile) && Awaits(pile)
    ensures Matches(Counted(levels), hasRoot || levels == [], Put(pile, v))
  {
  }

  lemma NameMatches(levels: seq<Level>, hasRoot: bool, pile: Pile, name: seq<byte>)
    requires Matches(levels, hasRoot, pile) && pile.root.None? && pile.open != [] && pile.open[|pile.open| - 1].Members?
    ensures var last := |pile.open| - 1;
            Matches(Counted(levels), true, Pile(None, pile.open[..last] + [Named(pile.open[last].ms, name)]))
  {
  }

  lemma StartMatches(levels: seq<Level>, hasRoot: bool, pile: Pile, inArray: bool)
    requires Matches(levels, hasRoot, pile) && Awaits(pile)
    ensures Matches(Counted(levels) + [Level(0, inArray)], true,
                    Pile(None, pile.open + [if inArray then Elements([]) else Members([])]))
  {
  }

  lemma EndMatches(levels: seq<Level>, hasRoot: bool, pile: Pile, v: D.Value)
    requires Matches(levels, hasRoot, pile) && pile.open != []
    ensures var outer := Pile(None, pile.open[..|pile.open| - 1]);
            Awaits(outer) && Matches(levels[..|levels| - 1], hasRoot, Put(outer, v))
  {
  }

  lemma NextMatches(w: WriteFlags, fmt: Format, st: Printer, pile: Pile, e: Event)
    requires Matches(st.levels, st.hasRoot, pile) && Carried(e) && Step(w, fmt, st, e).Wrote?
    ensures Next(pile, e).Some? &&
            Matches(Step(w, fmt, st, e).next.levels, Step(w, fmt, st, e).next.hasRoot, Next(pile, e).value)
  {
    hide Counted, Put, LevelOf, ScalarText, Separator, BeforeClose;
    if e.EndObject? || e.EndArray? {
      EndFits(st, pile, e);
      EndMatches(st.levels, st.hasRoot, pile, Whole(pile.open[|pile.open| - 1]));
    } else {
      LegalIsAwaited(st.levels, st.hasRoot, pile, e.String? || e.Key?);
      if !Awaits(pile) {
        NameMatches(st.levels, st.hasRoot, pile, if e.String? then e.str else e.name);
      } else if e.StartArray? || e.StartObject? {
        StartMatches(st.levels, st.hasRoot, pile, e.StartArray?);
      } else {
        PutMatches(st.levels, st.hasRoot, pile, ScalarValue(e));
      }
      hide Matches;
    }
  }

  /** The container that ends is of the right kind, with no name left over. */
  lemma EndFits(st: Printer, pile: Pile, e: Event)
    requires Matches(st.levels, st.hasRoot, pile) && (e.EndObject? || e.EndArray?) && Legal(st.levels, st.hasRoot, e)
    ensures pile.root.None? && pile.open != []
    ensures if e.EndArray? then pile.open[|pile.open| - 1].Elements? else pile.open[|pile.open| - 1].Members?
  {
  }

  /** It prints the same as the event the document would publish. */
  lemma SettledPrints(w: WriteFlags, fmt: Format, st: Printer, pile: Pile, e: Event)
    requires Matches(st.levels, st.hasRoot, pile) && Carried(e) && Step(w, fmt, st, e).Wrote?
    ensures Step(w, fmt, st, Settled(pile, e)) == Step(w, fmt, st, e)
  {
    hide Counted, Separator, BeforeClose, Literal, IntText;
    if e.EndObject? || e.EndArray? {
      EndFits(st, pile, e);
    } else if e.Int? {
      NumberEventText(w, e.i);
    } else if e.Uint? {
      NumberEventText(w, e.u);
    } else if e.Int64? {
      NumberEventText(w, e.i64);
    } else if e.Uint64? {
      NumberEventText(w, e.u64);
    } else if e.RawNumber? {
      LegalIsAwaited(st.levels, st.hasRoot, pile, false);
    }
    hide Matches;
  }

  // ---------------------------------------------------------------- all of it can be printed and read

  /** A text that is written, is not too long, and passes the reader's check if there is one. */
  predicate TextOk(f: G.Flags, w: WriteFlags, str: seq<byte>) {
    Literal(w, str).Quoted? && |str| < SIZE_LIMIT && (f.validateEncoding ==> Utf8.WellFormed(str))
  }

  predicate EventOk(f: G.Flags, e: Event) {
    && Carried(e)
    && (f.validateEncoding ==>
          && (e.String? ==> Utf8.WellFormed(e.str)) && (e.Key? ==> Utf8.WellFormed(e.name))
          && (e.RawNumber? ==> Utf8.WellFormed(e.text)))
  }

  predicate ValueOk(f: G.Flags, w: WriteFlags, v: D.Value) {
    Printable(w, v) && Readable(f, v) && D.Valid(v)
  }

  predicate MembersOk(f: G.Flags, w: WriteFlags, ms: seq<D.Member>) {
    forall m :: m in ms ==> TextOk(f, w, m.name) && ValueOk(f, w, m.value)
  }

  predicate PartialOk(f: G.Flags, w: WriteFlags, p: Partial) {
    match p
    case Elements(vs) => forall v :: v in vs ==> ValueOk(f, w, v)
    case Members(ms) => MembersOk(f, w, ms)
    case Named(ms, name) => MembersOk(f, w, ms) && TextOk(f, w, name)
  }

  predicate PileOk(f: G.Flags, w: WriteFlags, pile: Pile) {
    (pile.root.Some? ==> ValueOk(f, w, pile.root.value)) && forall p :: p in pile.open ==> PartialOk(f, w, p)
  }

  lemma {:induction false} EventsOutnumber(vs: seq<D.Value>)
    ensures |vs| <= |D.ElementEvents(vs)|
  {
    hide D.Events;
    if vs != [] {
      EventsOutnumber(vs[1..]);
    }
  }

  lemma {:induction false} EventsOutnumberMembers(ms: seq<D.Member>)
    ensures |ms| <= |D.MemberEvents(ms)|
  {
    hide D.Events;
    if ms != [] {
      EventsOutnumberMembers(ms[1..]);
    }
  }

  lemma WholeOk(f: G.Flags, w: WriteFlags, p: Partial)
    requires PartialOk(f, w, p) && !p.Named? && |PartialEvents(p)| < SIZE_LIMIT
    ensures ValueOk(f, w, Whole(p))
  {
    hide D.ElementEvents, D.MemberEvents;
    if p.Elements? {
      EventsOutnumber(p.vs);
    } else {
      EventsOutnumberMembers(p.ms);
    }
  }

  lemma ScalarOk(f: G.Flags, w: WriteFlags, e: Event)
    requires IsScalar(e) && EventOk(f, e) && ScalarText(w, e).Quoted?
    ensures ValueOk(f, w, ScalarValue(e))
  {
    hide Literal, Utf8.WellFormed;
    match e {
      case Int(i) => D.ConstructorsAgree(i);
      case Uint(u) => D.ConstructorsAgree(u);
      case Int64(i) => D.ConstructorsAgree(i);
      case Uint64(u) => D.ConstructorsAgree(u);
      case _ =>
    }
  }

  lemma PutOk(f: G.Flags, w: WriteFlags, pile: Pile, v: D.Value)
    requires PileOk(f, w, pile) && ValueOk(f, w, v) && Awaits(pile)
    ensures PileOk(f, w, Put(pile, v))
  {
    hide ValueOk, TextOk;
    if pile.open != [] {
      var last := |pile.open| - 1;
      assert pile.open[last] in pile.open;
      PutInOk(f, w, pile.open[last], v);
      hide PartialOk;
    }
  }

  lemma PutInOk(f: G.Flags, w: WriteFlags, p: Partial, v: D.Value)
    requires PartialOk(f, w, p) && ValueOk(f, w, v) && !p.Members?
    ensures PartialOk(f, w, PutIn(p, v))
  {
    hide ValueOk, TextOk;
  }

  lemma NextOk(f: G.Flags, w: WriteFlags, pile: Pile, e: Event)
    requires PileOk(f, w, pile) && EventOk(f, e) && Next(pile, e).Some? && |PileEvents(pile)| < SIZE_LIMIT
    requires IsScalar(e) ==> ScalarText(w, e).Quoted?
    ensures PileOk(f, w, Next(pile, e).value)
  {
    hide ValueOk, Literal, Utf8.WellFormed, ScalarValue, Put;
    var last := |pile.open| - 1;
    if pile.open != [] {
      assert pile.open[last] in pile.open;
    }
    if e.EndObject? || e.EndArray? {
      assert pile.open == pile.open[..last] + [pile.open[last]];
      OpenEventsSnoc(pile.open[..last], pile.open[last]);
      WholeOk(f, w, pile.open[last]);
      PutOk(f, w, Pile(None, pile.open[..last]), Whole(pile.open[last]));
    } else if IsScalar(e) && Awaits(pile) {
      ScalarOk(f, w, e);
      PutOk(f, w, pile, ScalarValue(e));
    }
  }

  // ---------------------------------------------------------------- a run builds a pile that prints the same

  function Grown(pile: Pile, es: seq<Event>): Option<Pile>
    requires forall e :: e in es ==> Carried(e)
    decreases |es|
  {
    if es == [] then Some(pile)
    else
      match Next(pile, es[0])
      case None => None
      case Some(next) => Grown(next, es[1..])
  }

  lemma {:induction false} RunGrows(f: G.Flags, w: WriteFlags, fmt: Format, st: Printer, pile: Pile, es: seq<Event>)
    requires Matches(st.levels, st.hasRoot, pile) && PileOk(f, w, pile) &&
             Run(w, fmt, INITIAL, PileEvents(pile)) == Wrote(st)
    requires Run(w, fmt, st, es).Wrote? && |PileEvents(pile)| + |es| < SIZE_LIMIT
    requires forall e :: e in es ==> EventOk(f, e) && Carried(e)
    ensures Grown(pile, es).Some?
    ensures var last, end := Grown(pile, es).value, Run(w, fmt, st, es).next;
            && Matches(end.levels, end.hasRoot, last) && PileOk(f, w, last)
            && Run(w, fmt, INITIAL, PileEvents(last)) == Wrote(end)
    decreases |es|
  {
    hide Matches, PileOk, PileEvents, Next, Step, Settled;
    if es != [] {
      var e := es[0];
      assert e in es;
      var st1, pile1 := Step(w, fmt, st, e).next, Next(pile, e);
      NextMatches(w, fmt, st, pile, e);
      SettledPrints(w, fmt, st, pile, e);
      NextEvents(pile, e);
      WrittenText(w, fmt, st, e);
      NextOk(f, w, pile, e);
      RunAppend(w, fmt, INITIAL, PileEvents(pile), [Settled(pile, e)]);
      RunOne(w, fmt, st, Settled(pile, e));
      RunGrows(f, w, fmt, st1, pile1.value, es[1..]);
    }
  }

  lemma WrittenText(w: WriteFlags, fmt: Format, st: Printer, e: Event)
    requires Step(w, fmt, st, e).Wrote?
    ensures IsScalar(e) ==> ScalarText(w, e).Quoted?
  {
    hide ScalarText;
  }

  // ---------------------------------------------------------------- the theorems

  /** A complete sequence of events prints what the events of some value print, in every layout. */
  lemma CompleteIsTree(f: G.Flags, w: WriteFlags, fmt: Format, es: seq<Event>) returns (v: D.Value)
    requires fmt.Valid() && |es| < SIZE_LIMIT && forall e :: e in es ==> EventOk(f, e)
    requires Run(w, Compact, INITIAL, es).Wrote?
    requires Run(w, Compact, INITIAL, es).next.levels == [] && Run(w, Compact, INITIAL, es).next.hasRoot
    ensures ValueOk(f, w, v)
    ensures Run(w, Compact, INITIAL, es).next.out == Print(w, Compact, 0, v)
    ensures Run(w, fmt, INITIAL, es).Wrote? && Run(w, fmt, INITIAL, es).next.out == Print(w, fmt, 0, v)
  {
    hide ValueOk, D.Events, Print, Run, StripsTo;
    var pile := Pile(None, []);
    NothingPiled(f, w, pile);
    NothingPrinted(w, Compact, pile);
    NothingPrinted(w, fmt, pile);
    PrettyIsCompactPlusBlanks(w, fmt, INITIAL, INITIAL, es);
    RunGrows(f, w, Compact, INITIAL, pile, es);
    RunGrows(f, w, fmt, INITIAL, pile, es);
    v := Grown(pile, es).value.root.value;
    PrintedOut(f, w, Compact, v);
    PrintedOut(f, w, fmt, v);
  }

  lemma NothingPiled(f: G.Flags, w: WriteFlags, pile: Pile)
    requires pile == Pile(None, [])
    ensures Matches(INITIAL.levels, INITIAL.hasRoot, pile) && PileOk(f, w, pile) && PileEvents(pile) == []
  {
  }

  lemma NothingPrinted(w: WriteFlags, fmt: Format, pile: Pile)
    requires pile == Pile(None, [])
    ensures Run(w, fmt, INITIAL, PileEvents(pile)) == Wrote(INITIAL) && StripsTo(Outside, INITIAL.out, INITIAL.out)
  {
  }

  lemma PrintedOut(f: G.Flags, w: WriteFlags, fmt: Format, v: D.Value)
    requires ValueOk(f, w, v)
    ensures Run(w, fmt, INITIAL, D.Events(v)).Wrote? &&
            Run(w, fmt, INITIAL, D.Events(v)).next.out == Print(w, fmt, 0, v)
  {
    hide Print, D.Events, Run;
    WriterPrints(w, fmt, INITIAL, v);
    assert [] + ([] + Print(w, fmt, 0, v)) == Print(w, fmt, 0, v);
  }

  /**
   Whatever complete sequence of events both writers are sent, the indented text is the plain one but for
   blanks outside strings, and both are read as the same events by either parser.
   */
  lemma LayoutsReadAlike(c: G.Context, p: G.Context, w: WriteFlags, fmt: Format, es: seq<Event>)
    requires Lenient(c) && Lenient(p) && c.f.numbersAsStrings == p.f.numbersAsStrings
    requires fmt.Valid() && |es| < SIZE_LIMIT && forall e :: e in es ==> EventOk(c.f, e) && EventOk(p.f, e)
    requires var end := Run(w, Compact, INITIAL, es);
             end.Wrote? && end.next.levels == [] && end.next.hasRoot && c.s == end.next.out
    requires var end := Run(w, fmt, INITIAL, es); end.Wrote? ==> p.s == end.next.out
    ensures G.Document(c, 0, []).Go? && G.Document(p, 0, []).Go? && G.Document(p, 0, []).log == G.Document(c, 0, []).log
    ensures P.IterativeDocument(c, 0, []) == G.Document(c, 0, []) &&
            P.IterativeDocument(p, 0, []) == G.Document(p, 0, [])
    ensures StripsTo(Outside, p.s, c.s)
  {
    hide G.Document, P.IterativeDocument, Run, Print, D.Events, StripsTo, EventOk, NormalAll, Printable, Readable,
         D.Valid;
    // the stricter reader's checks hold of all texts
    var f := if c.f.validateEncoding then c.f else p.f;
    var v := CompleteIsTree(f, w, fmt, es);
    ReadableAlike(f, c.f, v);
    ReadableAlike(f, p.f, v);
    NothingPrinted(w, Compact, Pile(None, []));
    PrettyIsCompactPlusBlanks(w, fmt, INITIAL, INITIAL, es);
    PrintedReadsBack(c, w, Compact, v);
    PrintedReadsBack(p, w, fmt, v);
    NormalAllAlike(c.f, p.f, D.Events(v));
  }

  lemma {:induction false} ReadableAlike(f: G.Flags, g: G.Flags, v: D.Value)
    requires Readable(f, v) && (g.validateEncoding ==> f.validateEncoding)
    ensures Readable(g, v)
    decreases v
  {
    hide Utf8.WellFormed;
    match v {
      case Array(vs) =>
        forall x | x in vs
          ensures Readable(g, x)
        {
          ReadableAlike(f, g, x);
        }
      case Object(ms) =>
        forall m | m in ms
          ensures Readable(g, m.value)
        {
          ReadableAlike(f, g, m.value);
        }
      case _ =>
    }
  }

  lemma {:induction false} NormalAllAlike(f: G.Flags, g: G.Flags, es: seq<Event>)
    requires f.numbersAsStrings == g.numbersAsStrings
    ensures NormalAll(f, es) == NormalAll(g, es)
  {
    if es != [] {
      NormalAllAlike(f, g, es[1..]);
    }
  }
}
