/** The text of a value, compact or indented, and that the writers print exactly that. */
module Printing {
  import opened Bytes
  import opened Numerals
  import opened Sax
  import opened Escaping
  import opened Writer
  import D = Dom
  import G = Grammar
  import Utf8

  // ---------------------------------------------------------------- the text of a value

  /** No doubles, and every name and string can be written. */
  predicate Printable(w: WriteFlags, v: D.Value) {
    match v
    case Number(n) => n.Integer?
    case String(s) => Literal(w, s).Quoted?
    case Array(vs) => forall x :: x in vs ==> Printable(w, x)
    case Object(ms) => forall m :: m in ms ==> Literal(w, m.name).Quoted? && Printable(w, m.value)
    case _ => true
  }

  /** Every name and string passes the reader's check of the encoding. */
  predicate Readable(f: G.Flags, v: D.Value) {
    match v
    case String(s) => f.validateEncoding ==> Utf8.WellFormed(s)
    case Array(vs) => forall x :: x in vs ==> Readable(f, x)
    case Object(ms) => forall m :: m in ms ==> (f.validateEncoding ==> Utf8.WellFormed(m.name)) && Readable(f, m.value)
    case _ => true
  }

  /** The text of a value that stands inside `depth` open containers. */
  function Print(w: WriteFlags, fmt: Format, depth: nat, v: D.Value): seq<byte>
    requires Printable(w, v)
    decreases v, 1
  {
    match v
    case Array(vs) => [LBRACKET] + PrintElements(w, fmt, depth + 1, vs, 0)
    case Object(ms) => [LBRACE] + PrintMembers(w, fmt, depth + 1, ms, 0)
    case _ => ScalarText(w, D.Events(v)[0]).text
  }

  /** The elements that follow the first `n`, and the closing bracket. */
  function PrintElements(w: WriteFlags, fmt: Format, depth: nat, vs: seq<D.Value>, n: nat): seq<byte>
    requires depth > 0 && forall x :: x in vs ==> Printable(w, x)
    decreases vs, 0
  {
    if vs == [] then BeforeClose(fmt, depth - 1, Level(n, true)) + [RBRACKET]
    else Between(fmt, depth, Level(n, true)) +
         (Print(w, fmt, depth, vs[0]) + PrintElements(w, fmt, depth, vs[1..], n + 1))
  }

  predicate PrintableMembers(w: WriteFlags, ms: seq<D.Member>) {
    forall m :: m in ms ==> Literal(w, m.name).Quoted? && Printable(w, m.value)
  }

  /** A member's name, the colon and its value. */
  function PrintMember(w: WriteFlags, fmt: Format, depth: nat, m: D.Member, n: nat): seq<byte>
    requires Literal(w, m.name).Quoted? && Printable(w, m.value)
    decreases m, 0
  {
    Literal(w, m.name).text + (Between(fmt, depth, Level(2 * n + 1, false)) + Print(w, fmt, depth, m.value))
  }

  /** The members that follow the first `n`, and the closing brace. */
  function PrintMembers(w: WriteFlags, fmt: Format, depth: nat, ms: seq<D.Member>, n: nat): seq<byte>
    requires depth > 0 && PrintableMembers(w, ms)
    decreases ms, 0
  {
    if ms == [] then BeforeClose(fmt, depth - 1, Level(2 * n, false)) + [RBRACE]
    else
      assert ms[0] in ms;
      Between(fmt, depth, Level(2 * n, false)) +
      (PrintMember(w, fmt, depth, ms[0], n) + PrintMembers(w, fmt, depth, ms[1..], n + 1))
  }

  // ---------------------------------------------------------------- the writers print it

  /** The printer after it has printed text for one value. */
  function Advanced(st: Printer, text: seq<byte>): Printer {
    Printer(Counted(st.levels), st.hasRoot || st.levels == [], st.out + text)
  }

  /** The containers `outer`, and one in them that holds `n` names and values. */
  function Within(outer: seq<Level>, n: nat, inArray: bool): seq<Level> {
    outer + [Level(n, inArray)]
  }

  lemma RunOne(w: WriteFlags, fmt: Format, st: Printer, e: Event)
    ensures Run(w, fmt, st, [e]) == Step(w, fmt, st, e)
  {
    assert [e][1..] == [];
  }

  lemma RunThen(w: WriteFlags, fmt: Format, st: Printer, a: seq<Event>, mid: Printer, b: seq<Event>, end: Printer)
    requires Run(w, fmt, st, a) == Wrote(mid) && Run(w, fmt, mid, b) == Wrote(end)
    ensures Run(w, fmt, st, a + b) == Wrote(end)
  {
    RunAppend(w, fmt, st, a, b);
  }

  lemma Assoc<T>(a: seq<T>, b: seq<T>, c: seq<T>)
    ensures a + b + c == a + (b + c)
  {
  }

  lemma CountedWithin(outer: seq<Level>, n: nat, inArray: bool)
    ensures Counted(Within(outer, n, inArray)) == Within(outer, n + 1, inArray)
    ensures |Within(outer, n, inArray)| == |outer| + 1
    ensures Within(outer, n, inArray)[|outer|] == Level(n, inArray)
    ensures Within(outer, n, inArray)[..|outer|] == outer
  {
  }

  lemma OpenPrinted(w: WriteFlags, fmt: Format, st: Printer, inArray: bool)
    requires MayStart(st.levels, st.hasRoot, false)
    ensures Run(w, fmt, st, [if inArray then StartArray else StartObject])
         == Wrote(Printer(Within(Counted(st.levels), 0, inArray), st.hasRoot || st.levels == [],
                          st.out + (Separator(fmt, st.levels) + [if inArray then LBRACKET else LBRACE])))
  {
    RunOne(w, fmt, st, if inArray then StartArray else StartObject);
    Assoc(st.out, Separator(fmt, st.levels), [if inArray then LBRACKET else LBRACE]);
  }

  lemma ArrayClosed(w: WriteFlags, fmt: Format, outer: seq<Level>, hasRoot: bool, out: seq<byte>, n: nat, total: nat)
    ensures Run(w, fmt, Printer(Within(outer, n, true), hasRoot, out), [EndArray(total)])
         == Wrote(Printer(outer, hasRoot, out + (BeforeClose(fmt, |outer|, Level(n, true)) + [RBRACKET])))
  {
    CountedWithin(outer, n, true);
    RunOne(w, fmt, Printer(Within(outer, n, true), hasRoot, out), EndArray(total));
  }

  lemma ObjectClosed(w: WriteFlags, fmt: Format, outer: seq<Level>, hasRoot: bool, out: seq<byte>, n: nat, total: nat)
    requires n % 2 == 0
    ensures Run(w, fmt, Printer(Within(outer, n, false), hasRoot, out), [EndObject(total)])
         == Wrote(Printer(outer, hasRoot, out + (BeforeClose(fmt, |outer|, Level(n, false)) + [RBRACE])))
  {
    CountedWithin(outer, n, false);
    RunOne(w, fmt, Printer(Within(outer, n, false), hasRoot, out), EndObject(total));
  }

  lemma ScalarPrinted(w: WriteFlags, fmt: Format, st: Printer, e: Event)
    requires Legal(st.levels, st.hasRoot, e) && IsScalar(e) && ScalarText(w, e).Quoted?
    ensures Run(w, fmt, st, [e]) == Wrote(Advanced(st, Separator(fmt, st.levels) + ScalarText(w, e).text))
  {
    RunOne(w, fmt, st, e);
    Assoc(st.out, Separator(fmt, st.levels), ScalarText(w, e).text);
  }

  lemma {:induction false} WriterPrints(w: WriteFlags, fmt: Format, st: Printer, v: D.Value)
    requires Printable(w, v) && MayStart(st.levels, st.hasRoot, false)
    ensures Run(w, fmt, st, D.Events(v))
         == Wrote(Advanced(st, Separator(fmt, st.levels) + Print(w, fmt, |st.levels|, v)))
    decreases v, 1
  {
    if v.Array? {
      ArrayPrinted(w, fmt, st, v.elements);
    } else if v.Object? {
      ObjectPrinted(w, fmt, st, v.members);
    } else {
      var e := D.Events(v)[0];
      assert D.Events(v) == [e];
      ScalarPrinted(w, fmt, st, e);
    }
  }

  lemma ArrayPrinted(w: WriteFlags, fmt: Format, st: Printer, vs: seq<D.Value>)
    requires MayStart(st.levels, st.hasRoot, false) && forall x :: x in vs ==> Printable(w, x)
    ensures Run(w, fmt, st, D.Events(D.Array(vs)))
         == Wrote(Advanced(st, Separator(fmt, st.levels) + Print(w, fmt, |st.levels|, D.Array(vs))))
    decreases vs, 1
  {
    hide Run, PrintElements, Separator, MayStart, Printable;
    var es := D.ElementEvents(vs) + [EndArray(|vs|)];
    var outer, hasRoot := Counted(st.levels), st.hasRoot || st.levels == [];
    var open := Separator(fmt, st.levels) + [LBRACKET];
    var t := PrintElements(w, fmt, |outer| + 1, vs, 0);
    OpenPrinted(w, fmt, st, true);
    WriterPrintsElements(w, fmt, outer, hasRoot, st.out + open, vs, 0, |vs|);
    RunThen(w, fmt, st, [StartArray], Printer(Within(outer, 0, true), hasRoot, st.out + open), es,
            Printer(outer, hasRoot, st.out + open + t));
    Assoc([StartArray], D.ElementEvents(vs), [EndArray(|vs|)]);
    Assoc(Separator(fmt, st.levels), [LBRACKET], t);
    Assoc(st.out, open, t);
  }

  lemma ObjectPrinted(w: WriteFlags, fmt: Format, st: Printer, ms: seq<D.Member>)
    requires MayStart(st.levels, st.hasRoot, false) && PrintableMembers(w, ms)
    ensures Run(w, fmt, st, D.Events(D.Object(ms)))
         == Wrote(Advanced(st, Separator(fmt, st.levels) + Print(w, fmt, |st.levels|, D.Object(ms))))
    decreases ms, 1
  {
    hide Run, PrintMembers, Separator, MayStart, Literal, Printable;
    var es := D.MemberEvents(ms) + [EndObject(|ms|)];
    var outer, hasRoot := Counted(st.levels), st.hasRoot || st.levels == [];
    var open := Separator(fmt, st.levels) + [LBRACE];
    var t := PrintMembers(w, fmt, |outer| + 1, ms, 0);
    OpenPrinted(w, fmt, st, false);
    WriterPrintsMembers(w, fmt, outer, hasRoot, st.out + open, ms, 0, |ms|);
    RunThen(w, fmt, st, [StartObject], Printer(Within(outer, 0, false), hasRoot, st.out + open), es,
            Printer(outer, hasRoot, st.out + open + t));
    Assoc([StartObject], D.MemberEvents(ms), [EndObject(|ms|)]);
    Assoc(Separator(fmt, st.levels), [LBRACE], t);
    Assoc(st.out, open, t);
  }

  lemma ElementPrinted(w: WriteFlags, fmt: Format, outer: seq<Level>, hasRoot: bool, out: seq<byte>, v: D.Value, n: nat)
    requires Printable(w, v)
    ensures Run(w, fmt, Printer(Within(outer, n, true), hasRoot, out), D.Events(v))
         == Wrote(Printer(Within(outer, n + 1, true), hasRoot,
                          out + (Between(fmt, |outer| + 1, Level(n, true)) + Print(w, fmt, |outer| + 1, v))))
    decreases v, 2
  {
    CountedWithin(outer, n, true);
    WriterPrints(w, fmt, Printer(Within(outer, n, true), hasRoot, out), v);
  }

  lemma {:induction false} WriterPrintsElements(w: WriteFlags, fmt: Format, outer: seq<Level>, hasRoot: bool,
                                                out: seq<byte>, vs: seq<D.Value>, n: nat, total: nat)
    requires forall x :: x in vs ==> Printable(w, x)
    ensures Run(w, fmt, Printer(Within(outer, n, true), hasRoot, out), D.ElementEvents(vs) + [EndArray(total)])
         == Wrote(Printer(outer, hasRoot, out + PrintElements(w, fmt, |outer| + 1, vs, n)))
    decreases vs, 0
  {
    var depth := |outer| + 1;
    if vs == [] {
      assert D.ElementEvents(vs) + [EndArray(total)] == [EndArray(total)];
      ArrayClosed(w, fmt, outer, hasRoot, out, n, total);
    } else {
      var a, b, t := Between(fmt, depth, Level(n, true)), Print(w, fmt, depth, vs[0]),
                     PrintElements(w, fmt, depth, vs[1..], n + 1);
      ElementPrinted(w, fmt, outer, hasRoot, out, vs[0], n);
      WriterPrintsElements(w, fmt, outer, hasRoot, out + (a + b), vs[1..], n + 1, total);
      RunThen(w, fmt, Printer(Within(outer, n, true), hasRoot, out), D.Events(vs[0]),
              Printer(Within(outer, n + 1, true), hasRoot, out + (a + b)), D.ElementEvents(vs[1..]) + [EndArray(total)],
              Printer(outer, hasRoot, out + (a + b) + t));
      Assoc(D.Events(vs[0]), D.ElementEvents(vs[1..]), [EndArray(total)]);
      Assoc(a, b, t);
      Assoc(out, a + b, t);
    }
  }

  lemma NamePrinted(w: WriteFlags, fmt: Format, outer: seq<Level>, hasRoot: bool, out: seq<byte>, name: seq<byte>,
                    n: nat)
    requires Literal(w, name).Quoted?
    ensures Run(w, fmt, Printer(Within(outer, n, false), hasRoot, out), [Key(name)])
         == Wrote(Printer(Within(outer, n + 1, false), hasRoot,
                          out + (Between(fmt, |outer| + 1, Level(n, false)) + Literal(w, name).text)))
  {
    CountedWithin(outer, n, false);
    ScalarPrinted(w, fmt, Printer(Within(outer, n, false), hasRoot, out), Key(name));
  }

  lemma MemberValuePrinted(w: WriteFlags, fmt: Format, outer: seq<Level>, hasRoot: bool, out: seq<byte>, v: D.Value,
                           n: nat)
    requires Printable(w, v) && n % 2 == 1
    ensures Run(w, fmt, Printer(Within(outer, n, false), hasRoot, out), D.Events(v))
         == Wrote(Printer(Within(outer, n + 1, false), hasRoot,
                          out + (Between(fmt, |outer| + 1, Level(n, false)) + Print(w, fmt, |outer| + 1, v))))
    decreases v, 2
  {
    CountedWithin(outer, n, false);
    WriterPrints(w, fmt, Printer(Within(outer, n, false), hasRoot, out), v);
  }

  lemma MemberPrinted(w: WriteFlags, fmt: Format, outer: seq<Level>, hasRoot: bool, out: seq<byte>, m: D.Member, n: nat)
    requires Literal(w, m.name).Quoted? && Printable(w, m.value)
    ensures Run(w, fmt, Printer(Within(outer, 2 * n, false), hasRoot, out), [Key(m.name)] + D.Events(m.value))
         == Wrote(Printer(Within(outer, 2 * (n + 1), false), hasRoot,
                          out +
                          (Between(fmt, |outer| + 1, Level(2 * n, false)) + PrintMember(w, fmt, |outer| + 1, m, n))))
    decreases m, 0
  {
    hide Run, Between, Literal, Printable, Print;
    var depth := |outer| + 1;
    var a, b := Between(fmt, depth, Level(2 * n, false)), Literal(w, m.name).text;
    var c := Between(fmt, depth, Level(2 * n + 1, false)) + Print(w, fmt, depth, m.value);
    NamePrinted(w, fmt, outer, hasRoot, out, m.name, 2 * n);
    MemberValuePrinted(w, fmt, outer, hasRoot, out + (a + b), m.value, 2 * n + 1);
    RunThen(w, fmt, Printer(Within(outer, 2 * n, false), hasRoot, out), [Key(m.name)],
            Printer(Within(outer, 2 * n + 1, false), hasRoot, out + (a + b)), D.Events(m.value),
            Printer(Within(outer, 2 * (n + 1), false), hasRoot, out + (a + b) + c));
    Assoc(a, b, c);
    Assoc(out, a + b, c);
  }

  lemma {:induction false} WriterPrintsMembers(w: WriteFlags, fmt: Format, outer: seq<Level>, hasRoot: bool,
                                               out: seq<byte>, ms: seq<D.Member>, n: nat, total: nat)
    requires PrintableMembers(w, ms)
    ensures Run(w, fmt, Printer(Within(outer, 2 * n, false), hasRoot, out), D.MemberEvents(ms) + [EndObject(total)])
         == Wrote(Printer(outer, hasRoot, out + PrintMembers(w, fmt, |outer| + 1, ms, n)))
    decreases ms, 0
  {
    var depth := |outer| + 1;
    if ms == [] {
      assert D.MemberEvents(ms) + [EndObject(total)] == [EndObject(total)];
      ObjectClosed(w, fmt, outer, hasRoot, out, 2 * n, total);
    } else {
      var m := ms[0];
      assert m in ms;
      var es := [Key(m.name)] + D.Events(m.value);
      var a, b := Between(fmt, depth, Level(2 * n, false)), PrintMember(w, fmt, depth, m, n);
      var t := PrintMembers(w, fmt, depth, ms[1..], n + 1);
      MemberPrinted(w, fmt, outer, hasRoot, out, m, n);
      WriterPrintsMembers(w, fmt, outer, hasRoot, out + (a + b), ms[1..], n + 1, total);
      RunThen(w, fmt, Printer(Within(outer, 2 * n, false), hasRoot, out), es,
              Printer(Within(outer, 2 * (n + 1), false), hasRoot, out + (a + b)),
              D.MemberEvents(ms[1..]) + [EndObject(total)],
              Printer(outer, hasRoot, out + (a + b) + t));
      Assoc(es, D.MemberEvents(ms[1..]), [EndObject(total)]);
      Assoc(a, b, t);
      Assoc(out, a + b, t);
    }
  }
}
