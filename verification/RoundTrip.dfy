/**
 Printing and parsing undo each other: what either writer prints for a value, either parser reads
 back as events from which the document builds the same value.
 */
module RoundTrip {
  import opened Bytes
  import opened Numerals
  import opened Sax
  import opened Escaping
  import opened Writer
  import opened Printing
  import opened Document
  import opened ParsedDocument
  import opened PrettyWriter
  import opened Streams
  import D = Dom
  import G = Grammar
  import P = Pushdown
  import Utf8

  /** A handler that takes every event. */
  ghost predicate Lenient(c: G.Context) {
    forall log :: c.accept(log)
  }

  // ---------------------------------------------------------------- blanks

  predicate Blanks(g: seq<byte>) {
    forall i :: 0 <= i < |g| ==> IsWhitespace(g[i])
  }

  /** What neither a blank nor a comment starts with. */
  predicate Solid(b: byte) {
    !IsWhitespace(b) && b != SLASH
  }

  lemma {:induction false} WhitespaceSkipped(s: seq<byte>, p: nat, q: nat)
    requires p <= q <= |s| && (forall i :: p <= i < q ==> IsWhitespace(s[i])) && !IsWhitespace(At(s, q))
    ensures G.SkipWhitespace(s, p) == q
    decreases q - p
  {
    if p < q {
      WhitespaceSkipped(s, p + 1, q);
    }
  }

  lemma GapSkipped(c: G.Context, p: nat, g: seq<byte>, log: seq<Event>)
    requires TextAt(c.s, p, g) && Blanks(g) && Solid(At(c.s, p + |g|))
    ensures G.Skip(c, p, log) == G.Go(p + |g|, log)
  {
    forall i | p <= i < p + |g|
      ensures IsWhitespace(c.s[i])
    {
      assert c.s[p + (i - p)] == g[i - p];
    }
    WhitespaceSkipped(c.s, p, p + |g|);
  }

  lemma NothingSkipped(c: G.Context, p: nat, log: seq<Event>)
    requires p <= |c.s| && Solid(At(c.s, p))
    ensures G.Skip(c, p, log) == G.Go(p, log)
  {
    GapSkipped(c, p, [], log);
  }

  lemma NewLineBlank(fmt: Format, depth: nat)
    requires fmt.Valid()
    ensures Blanks(NewLine(fmt, depth))
  {
  }

  lemma BlankBlank(fmt: Format, depth: nat, l: Level)
    requires fmt.Valid()
    ensures Blanks(Blank(fmt, depth, l)) && Blanks(BeforeClose(fmt, depth, l))
  {
    NewLineBlank(fmt, depth);
  }

  lemma HeadAt(s: seq<byte>, p: nat, b: byte, t: seq<byte>)
    requires TextAt(s, p, [b] + t)
    ensures p < |s| && s[p] == b && TextAt(s, p + 1, t)
  {
    TextAtSplit(s, p, [b], t);
    assert s[p] == [b][0];
  }

  /** The mark and the blanks of a separator where it stands in a text. */
  lemma BetweenAt(s: seq<byte>, p: nat, fmt: Format, depth: nat, l: Level)
    requires fmt.Valid() && TextAt(s, p, Between(fmt, depth, l))
    ensures Blanks(Blank(fmt, depth, l)) && |Between(fmt, depth, l)| == |Mark(l)| + |Blank(fmt, depth, l)|
    ensures TextAt(s, p + |Mark(l)|, Blank(fmt, depth, l))
    ensures if l.valueCount == 0 then |Mark(l)| == 0
            else |Mark(l)| == 1 && At(s, p) == if l.inArray || l.valueCount % 2 == 0 then COMMA else COLON
  {
    TextAtSplit(s, p, Mark(l), Blank(fmt, depth, l));
    BlankBlank(fmt, depth, l);
    if l.valueCount > 0 {
      assert s[p] == Mark(l)[0];
    }
  }

  lemma CloseAt(s: seq<byte>, p: nat, fmt: Format, depth: nat, l: Level, bracket: byte)
    requires fmt.Valid() && TextAt(s, p, BeforeClose(fmt, depth, l) + [bracket])
    ensures Blanks(BeforeClose(fmt, depth, l)) && TextAt(s, p, BeforeClose(fmt, depth, l))
    ensures p + |BeforeClose(fmt, depth, l)| < |s| && s[p + |BeforeClose(fmt, depth, l)|] == bracket
  {
    TextAtSplit(s, p, BeforeClose(fmt, depth, l), [bracket]);
    BlankBlank(fmt, depth, l);
    assert s[p + |BeforeClose(fmt, depth, l)| + 0] == [bracket][0];
  }

  // ---------------------------------------------------------------- scalars

  /** What cannot continue a number. */
  predicate Ends(b: byte) {
    !IsDigit(b) && b != DOT && b != LOWER_E && b != UPPER_E
  }

  lemma {:induction false} MatchingText(s: seq<byte>, p: nat, lit: seq<byte>)
    requires NUL !in lit && TextAt(s, p, lit)
    ensures G.Matching(s, p, lit) == |lit|
    decreases |lit|
  {
    if lit != [] {
      assert s[p] == lit[0];
      TextAtSplit(s, p, [lit[0]], lit[1..]);
      assert [lit[0]] + lit[1..] == lit;
      MatchingText(s, p + 1, lit[1..]);
    }
  }

  lemma LiteralRead(c: G.Context, p: nat, first: byte, tail: seq<byte>, e: Event, log: seq<Event>)
    requires Lenient(c) && NUL !in tail && TextAt(c.s, p, [first] + tail) && !G.IsBracket(e)
    ensures At(c.s, p) == first && G.Literal(c, p, tail, e, log) == G.Go(p + 1 + |tail|, log + [e])
  {
    TextAtSplit(c.s, p, [first], tail);
    assert c.s[p] == [first][0];
    MatchingText(c.s, p + 1, tail);
  }

  lemma NullRead(c: G.Context, p: nat, log: seq<Event>)
    requires Lenient(c) && TextAt(c.s, p, NULL_TEXT)
    ensures G.Value(c, p, log) == G.Go(p + |NULL_TEXT|, log + [Null])
  {
    assert NULL_TEXT == [LOWER_N] + G.NULL_TAIL;
    LiteralRead(c, p, LOWER_N, G.NULL_TAIL, Null, log);
  }

  lemma TrueRead(c: G.Context, p: nat, log: seq<Event>)
    requires Lenient(c) && TextAt(c.s, p, TRUE_TEXT)
    ensures G.Value(c, p, log) == G.Go(p + |TRUE_TEXT|, log + [Bool(true)])
  {
    assert TRUE_TEXT == [LOWER_T] + G.TRUE_TAIL;
    LiteralRead(c, p, LOWER_T, G.TRUE_TAIL, Bool(true), log);
  }

  lemma FalseRead(c: G.Context, p: nat, log: seq<Event>)
    requires Lenient(c) && TextAt(c.s, p, FALSE_TEXT)
    ensures G.Value(c, p, log) == G.Go(p + |FALSE_TEXT|, log + [Bool(false)])
  {
    assert FALSE_TEXT == [LOWER_F] + G.FALSE_TAIL;
    LiteralRead(c, p, LOWER_F, G.FALSE_TAIL, Bool(false), log);
  }

  lemma StringRead(c: G.Context, w: WriteFlags, p: nat, str: seq<byte>, isKey: bool, log: seq<Event>)
    requires Lenient(c) && Literal(w, str).Quoted? && TextAt(c.s, p, Literal(w, str).text)
    requires c.f.validateEncoding ==> Utf8.WellFormed(str)
    ensures At(c.s, p) == QUOTE && p < |c.s|
    ensures G.StringAt(c, p, isKey, log)
         == G.Go(p + |Literal(w, str).text|, log + [if isKey then Key(str) else String(str)])
  {
    LiteralReadsBack(w, str, c.s, c.f, p);
  }

  /** The digits of a numeral where they stand in a text. */
  lemma DecimalRead(s: seq<byte>, p: nat, n: nat)
    requires TextAt(s, p, Decimal(n))
    ensures var q := p + |Decimal(n)|; DigitRun(s, p, q) && NatOf(s, p, q) == n
    ensures IsDigit(s[p]) && (s[p] == DIGIT_0 ==> |Decimal(n)| == 1)
  {
    hide Decimal, NatOf;
    var ds := Decimal(n);
    assert s[p] == ds[0];
    assert s[p..p + |ds|] == ds[0..|ds|];
    NatOfDecimal(n);
    NatOfShift(ds, 0, |ds|, s, p);
  }

  /** An integer's layout has no fraction and no exponent. */
  lemma IntegerLayout(s: seq<byte>, f: G.Flags, p: nat, minus: bool, n: nat)
    requires TextAt(s, if minus then p + 1 else p, Decimal(n)) && (minus ==> p < |s| && s[p] == MINUS)
    requires Ends(At(s, (if minus then p + 1 else p) + |Decimal(n)|))
    ensures var i := if minus then p + 1 else p; var q := i + |Decimal(n)|;
            G.NumberLayout(s, f, p) == G.Layout(G.Parts(p, minus, G.Plain, i, q, q, false, q, q))
  {
    var i := if minus then p + 1 else p;
    var q := i + |Decimal(n)|;
    DecimalRead(s, i, n);
    if s[i] != DIGIT_0 {
      DigitsEndUnique(s, i, q);
    }
    assert G.ExponentLayout(s, p, minus, G.Plain, i, q, q)
        == G.Layout(G.Parts(p, minus, G.Plain, i, q, q, false, q, q));
    assert G.FractionLayout(s, p, minus, G.Plain, i, q) == G.ExponentLayout(s, p, minus, G.Plain, i, q, q);
  }

  /** What a plain numeral is read as. */
  lemma IntegerNumeral(s: seq<byte>, f: G.Flags, strtod: G.Strtod, n: G.Parts, i: int)
    requires n.Valid(s) && -0x8000_0000_0000_0000 <= i < 0x1_0000_0000_0000_0000
    requires !n.HasFraction() && !n.HasExponent() && n.special.Plain? && n.minus == (i < 0)
    requires NatOf(s, n.intBegin, n.intEnd) == if i < 0 then -i else i
    requires s[n.start..n.end] == IntText(i)
    ensures G.NumeralOf(s, f, strtod, n) == G.Numeral(Numeral(f, i))
  {
    hide NatOf, IntText;
  }

  lemma IntegerRead(c: G.Context, p: nat, i: int, log: seq<Event>)
    requires Lenient(c) && -0x8000_0000_0000_0000 <= i < 0x1_0000_0000_0000_0000
    requires TextAt(c.s, p, IntText(i)) && Ends(At(c.s, p + |IntText(i)|))
    ensures G.Value(c, p, log)
         == G.Go(p + |IntText(i)|, log + [Numeral(c.f, i)])
  {
    hide G.Value, G.NumeralOf, G.NumberLayout, NatOf, Decimal;
    var n := if i < 0 then -i else i;
    var b := if i < 0 then p + 1 else p;
    if i < 0 {
      TextAtSplit(c.s, p, [MINUS], Decimal(n));
      assert c.s[p] == [MINUS][0];
    }
    DecimalRead(c.s, b, n);
    IntegerLayout(c.s, c.f, p, i < 0, n);
    var q := b + |Decimal(n)|;
    var parts := G.Parts(p, i < 0, G.Plain, b, q, q, false, q, q);
    assert c.s[p..q] == IntText(i);
    IntegerNumeral(c.s, c.f, c.strtod, parts, i);
    ValueIsNumber(c, p, log);
  }

  lemma ValueIsNumber(c: G.Context, p: nat, log: seq<Event>)
    requires IsDigit(At(c.s, p)) || At(c.s, p) == MINUS
    ensures p < |c.s| && G.Value(c, p, log) == G.NumberAt(c, p, log)
  {
    hide G.NumberAt;
  }

  /** The event of a number, its text, and the event the text is read as. */
  lemma NumberEventText(w: WriteFlags, i: int)
    requires -0x8000_0000_0000_0000 <= i < 0x1_0000_0000_0000_0000
    ensures var e := D.NumberEvent(D.Canonical(i));
            && IsScalar(e) && ScalarText(w, e) == Quoted(IntText(i))
            && forall f: G.Flags :: Normal(f, e) == Numeral(f, i)
  {
    var bits := D.Pattern(i);
    if D.IsInt(i) {
      assert D.GetInt(bits) == i;
      assert D.NumberEvent(D.Canonical(i)) == Int(i);
    } else if D.IsUint(i) {
      assert D.NumberEvent(D.Canonical(i)) == Uint(i);
    } else if D.IsInt64(i) {
      assert D.NumberEvent(D.Canonical(i)) == Int64(i);
    } else {
      assert D.NumberEvent(D.Canonical(i)) == Uint64(i);
    }
  }

  lemma NormalOne(f: G.Flags, e: Event)
    ensures NormalAll(f, [e]) == [Normal(f, e)]
  {
    assert [e][1..] == [];
  }

  // ---------------------------------------------------------------- values

  /** The first unit of a value's text. */
  predicate Starts(b: byte) {
    Solid(b) && b != NUL && b != RBRACKET && b != RBRACE && b != COMMA && b != COLON
  }

  lemma PrintStarts(w: WriteFlags, fmt: Format, depth: nat, v: D.Value)
    requires Printable(w, v) && D.Valid(v)
    ensures Print(w, fmt, depth, v) != [] && Starts(Print(w, fmt, depth, v)[0])
  {
    match v {
      case Number(n) =>
        NumberEventText(w, D.IntegerValue(n));
      case _ =>
    }
  }

  lemma {:induction false} ReadsBack(c: G.Context, w: WriteFlags, fmt: Format, depth: nat, v: D.Value, p: nat,
                                     log: seq<Event>)
    requires Lenient(c) && fmt.Valid() && Printable(w, v) && Readable(c.f, v) && D.Valid(v)
    requires TextAt(c.s, p, Print(w, fmt, depth, v)) && Ends(At(c.s, p + |Print(w, fmt, depth, v)|))
    ensures G.Value(c, p, log) == G.Go(p + |Print(w, fmt, depth, v)|, log + NormalAll(c.f, D.Events(v)))
    decreases v, 1
  {
    match v {
      case Array(vs) => ArrayReadsBack(c, w, fmt, depth, vs, p, log);
      case Object(ms) => ObjectReadsBack(c, w, fmt, depth, ms, p, log);
      case Null => NormalOne(c.f, Null); NullRead(c, p, log);
      case Bool(b) =>
        NormalOne(c.f, Bool(b));
        if b {
          TrueRead(c, p, log);
        } else {
          FalseRead(c, p, log);
        }
      case String(s) => NormalOne(c.f, String(s)); StringRead(c, w, p, s, false, log);
      case Number(n) =>
        NumberEventText(w, D.IntegerValue(n));
        NormalOne(c.f, D.NumberEvent(n));
        IntegerRead(c, p, D.IntegerValue(n), log);
    }
  }

  /** Where parsing goes on in an array with `n` elements read: at the next element or the closing bracket. */
  function ArrayRest(c: G.Context, p: nat, n: nat, log: seq<Event>): G.Step
    requires p <= |c.s|
  {
    match G.Skip(c, p, log)
    case Go(q, l) => ArrayNext(c, q, n, l)
    case stop => stop
  }

  lemma ArrayOpened(c: G.Context, p: nat, log: seq<Event>)
    requires Lenient(c) && At(c.s, p) == LBRACKET
    ensures p < |c.s| && G.Value(c, p, log) == ArrayRest(c, p + 1, 0, log + [StartArray])
  {
  }

  lemma ElementThen(c: G.Context, p: nat, n: nat, log: seq<Event>, q: nat, log1: seq<Event>)
    requires p <= |c.s| && G.Value(c, p, log) == G.Go(q, log1)
    ensures q <= |c.s| && G.Element(c, p, n, log) == ArrayRest(c, q, n + 1, log1)
  {
  }

  lemma ArrayReadsBack(c: G.Context, w: WriteFlags, fmt: Format, depth: nat, vs: seq<D.Value>, p: nat, log: seq<Event>)
    requires Lenient(c) && fmt.Valid() && |vs| < SIZE_LIMIT
    requires forall x :: x in vs ==> Printable(w, x) && Readable(c.f, x) && D.Valid(x)
    requires TextAt(c.s, p, [LBRACKET] + PrintElements(w, fmt, depth + 1, vs, 0))
    ensures G.Value(c, p, log)
         == G.Go(p + 1 + |PrintElements(w, fmt, depth + 1, vs, 0)|, log + NormalAll(c.f, D.Events(D.Array(vs))))
    decreases vs, 1
  {
    hide TextAt, ArrayRest, G.Value, Printable, Readable, PrintElements, NormalAll, D.ElementEvents, Lenient;
    var t := PrintElements(w, fmt, depth + 1, vs, 0);
    HeadAt(c.s, p, LBRACKET, t);
    ArrayOpened(c, p, log);
    ElementsReadBack(c, w, fmt, depth + 1, vs, 0, p + 1, log + [StartArray]);
    AroundNormal(c.f, log, StartArray, D.ElementEvents(vs), EndArray(|vs|));
  }

  /** The events of a container among those read before. */
  lemma AroundNormal(f: G.Flags, log: seq<Event>, open: Event, es: seq<Event>, close: Event)
    requires Normal(f, open) == open && Normal(f, close) == close
    ensures log + [open] + (NormalAll(f, es) + [close]) == log + NormalAll(f, [open] + es + [close])
  {
    hide Normal;
    NormalOne(f, open);
    NormalOne(f, close);
    NormalAllAppend(f, [open] + es, [close]);
    NormalAllAppend(f, [open], es);
  }

  lemma {:induction false} ElementsReadBack(c: G.Context, w: WriteFlags, fmt: Format, depth: nat, vs: seq<D.Value>,
                                            n: nat, p: nat, log: seq<Event>)
    requires Lenient(c) && fmt.Valid() && n + |vs| < SIZE_LIMIT && depth > 0
    requires forall x :: x in vs ==> Printable(w, x) && Readable(c.f, x) && D.Valid(x)
    requires TextAt(c.s, p, PrintElements(w, fmt, depth, vs, n))
    ensures ArrayRest(c, p, n, log)
         == G.Go(p + |PrintElements(w, fmt, depth, vs, n)|,
                 log + (NormalAll(c.f, D.ElementEvents(vs)) + [EndArray(n + |vs|)]))
    decreases vs, 0
  {
    hide ArrayRest, TextAt, Ends, Print, Between, BeforeClose, NormalAll, D.Events;
    if vs == [] {
      ArrayEnds(c, fmt, depth, n, p, log);
      assert D.ElementEvents(vs) == [];
    } else {
      var between, t := Between(fmt, depth, Level(n, true)), Print(w, fmt, depth, vs[0]);
      var rest := PrintElements(w, fmt, depth, vs[1..], n + 1);
      var q := p + |between|;
      var r := q + |t|;
      TextAtSplit(c.s, p, between, t + rest);
      TextAtSplit(c.s, q, t, rest);
      ElementEnds(w, fmt, depth, vs[1..], n + 1, c.s, r);
      ElementReadsBack(c, w, fmt, depth, vs[0], n, p, log);
      var log1 := log + NormalAll(c.f, D.Events(vs[0]));
      ElementsReadBack(c, w, fmt, depth, vs[1..], n + 1, r, log1);
      NormalAllAppend(c.f, D.Events(vs[0]), D.ElementEvents(vs[1..]));
      Regrouped(log, NormalAll(c.f, D.Events(vs[0])), NormalAll(c.f, D.ElementEvents(vs[1..])), [EndArray(n + |vs|)]);
    }
  }

  /** At the closing bracket, or over the comma at the next element. */
  function ArrayNext(c: G.Context, p: nat, n: nat, log: seq<Event>): G.Step
    requires p <= |c.s|
  {
    if n == 0 then G.ArrayFirst(c, p, log) else G.AfterElement(c, p, n - 1, log)
  }

  lemma ArrayNextCloses(c: G.Context, p: nat, n: nat, log: seq<Event>)
    requires Lenient(c) && At(c.s, p) == RBRACKET && n < SIZE_LIMIT
    ensures p < |c.s| && ArrayNext(c, p, n, log) == G.Go(p + 1, log + [EndArray(n)])
  {
  }

  lemma ArrayEnds(c: G.Context, fmt: Format, depth: nat, n: nat, p: nat, log: seq<Event>)
    requires Lenient(c) && fmt.Valid() && n < SIZE_LIMIT && depth > 0
    requires TextAt(c.s, p, BeforeClose(fmt, depth - 1, Level(n, true)) + [RBRACKET])
    ensures ArrayRest(c, p, n, log)
         == G.Go(p + |BeforeClose(fmt, depth - 1, Level(n, true)) + [RBRACKET]|, log + ([] + [EndArray(n)]))
  {
    hide BeforeClose, TextAt, Blanks, G.Skip, ArrayNext, Lenient;
    var gap := BeforeClose(fmt, depth - 1, Level(n, true));
    CloseAt(c.s, p, fmt, depth - 1, Level(n, true), RBRACKET);
    GapSkipped(c, p, gap, log);
    ArrayNextCloses(c, p + |gap|, n, log);
    assert [] + [EndArray(n)] == [EndArray(n)];
  }

  lemma ElementReadsBack(c: G.Context, w: WriteFlags, fmt: Format, depth: nat, v: D.Value, n: nat, p: nat,
                         log: seq<Event>)
    requires Lenient(c) && fmt.Valid() && n < SIZE_LIMIT && Printable(w, v) && Readable(c.f, v) && D.Valid(v)
    requires TextAt(c.s, p, Between(fmt, depth, Level(n, true)))
    requires TextAt(c.s, p + |Between(fmt, depth, Level(n, true))|, Print(w, fmt, depth, v))
    requires Ends(At(c.s, p + |Between(fmt, depth, Level(n, true))| + |Print(w, fmt, depth, v)|))
    ensures ArrayRest(c, p, n, log)
         == ArrayRest(c, p + |Between(fmt, depth, Level(n, true))| + |Print(w, fmt, depth, v)|, n + 1,
                      log + NormalAll(c.f, D.Events(v)))
    decreases v, 2
  {
    hide ArrayRest, G.Element, G.Value, Between, NormalAll, D.Events, Ends;
    var q, t := p + |Between(fmt, depth, Level(n, true))|, Print(w, fmt, depth, v);
    PrintStarts(w, fmt, depth, v);
    assert c.s[q] == t[0];
    ToElement(c, fmt, depth, n, p, log);
    ReadsBack(c, w, fmt, depth, v, q, log);
    ElementThen(c, q, n, log, q + |t|, log + NormalAll(c.f, D.Events(v)));
  }

  lemma Regrouped<T>(a: seq<T>, b: seq<T>, c: seq<T>, d: seq<T>)
    ensures a + b + (c + d) == a + ((b + c) + d)
  {
  }

  lemma FirstElement(c: G.Context, p: nat, log: seq<Event>)
    requires p <= |c.s| && At(c.s, p) != RBRACKET
    ensures ArrayNext(c, p, 0, log) == G.Element(c, p, 0, log)
  {
  }

  lemma CommaElement(c: G.Context, p: nat, q: nat, n: nat, log: seq<Event>)
    requires p < |c.s| && c.s[p] == COMMA && 0 < n < SIZE_LIMIT
    requires G.Skip(c, p + 1, log) == G.Go(q, log) && At(c.s, q) != RBRACKET
    ensures ArrayNext(c, p, n, log) == G.Element(c, q, n, log)
  {
    hide G.Skip, G.Element;
    assert G.AfterElementComma(c, q, n, log) == G.Element(c, q, n, log);
  }

  /** From the end of an element over the comma to the next one. */
  lemma ToElement(c: G.Context, fmt: Format, depth: nat, n: nat, p: nat, log: seq<Event>)
    requires fmt.Valid() && TextAt(c.s, p, Between(fmt, depth, Level(n, true))) && n < SIZE_LIMIT
    requires var q := p + |Between(fmt, depth, Level(n, true))|; q < |c.s| && Starts(c.s[q])
    ensures var q := p + |Between(fmt, depth, Level(n, true))|;
            ArrayRest(c, p, n, log) == G.Element(c, q, n, log)
  {
    hide G.Skip, ArrayNext, TextAt, Blanks, Blank, Mark, Between, G.Element;
    var l := Level(n, true);
    var q := p + |Between(fmt, depth, l)|;
    BetweenAt(c.s, p, fmt, depth, l);
    GapSkipped(c, p + |Mark(l)|, Blank(fmt, depth, l), log);
    if n == 0 {
      FirstElement(c, q, log);
    } else {
      NothingSkipped(c, p, log);
      CommaElement(c, p, q, n, log);
    }
  }

  /** A value is followed by a comma, a blank or the closing bracket. */
  lemma ElementEnds(w: WriteFlags, fmt: Format, depth: nat, vs: seq<D.Value>, n: nat, s: seq<byte>, p: nat)
    requires fmt.Valid() && depth > 0 && n > 0 && forall x :: x in vs ==> Printable(w, x)
    requires TextAt(s, p, PrintElements(w, fmt, depth, vs, n))
    ensures Ends(At(s, p))
  {
    var t := PrintElements(w, fmt, depth, vs, n);
    BlankBlank(fmt, depth - 1, Level(n, true));
    if vs == [] {
      assert t == BeforeClose(fmt, depth - 1, Level(n, true)) + [RBRACKET];
    } else {
      assert t[0] == Between(fmt, depth, Level(n, true))[0] == COMMA;
    }
    assert s[p] == t[0];
  }

  /** Where parsing goes on in an object with `n` members read: at the next member or the closing brace. */
  function ObjectRest(c: G.Context, p: nat, n: nat, log: seq<Event>): G.Step
    requires p <= |c.s|
  {
    match G.Skip(c, p, log)
    case Go(q, l) => ObjectNext(c, q, n, l)
    case stop => stop
  }

  lemma ObjectOpened(c: G.Context, p: nat, log: seq<Event>)
    requires Lenient(c) && At(c.s, p) == LBRACE
    ensures p < |c.s| && G.Value(c, p, log) == ObjectRest(c, p + 1, 0, log + [StartObject])
  {
  }

  lemma MemberValueThen(c: G.Context, p: nat, n: nat, log: seq<Event>, q: nat, log1: seq<Event>)
    requires p <= |c.s| && G.Value(c, p, log) == G.Go(q, log1)
    ensures q <= |c.s| && G.MemberValue(c, p, n, log) == ObjectRest(c, q, n + 1, log1)
  {
  }

  lemma ObjectReadsBack(c: G.Context, w: WriteFlags, fmt: Format, depth: nat, ms: seq<D.Member>, p: nat,
                        log: seq<Event>)
    requires Lenient(c) && fmt.Valid() && |ms| < SIZE_LIMIT && PrintableMembers(w, ms)
    requires forall m :: m in ms ==> ReadableMember(c.f, m)
    requires TextAt(c.s, p, [LBRACE] + PrintMembers(w, fmt, depth + 1, ms, 0))
    ensures G.Value(c, p, log)
         == G.Go(p + 1 + |PrintMembers(w, fmt, depth + 1, ms, 0)|, log + NormalAll(c.f, D.Events(D.Object(ms))))
    decreases ms, 1
  {
    hide TextAt, ObjectRest, G.Value, PrintMembers, ReadableMember, PrintableMembers, NormalAll, D.MemberEvents,
         Lenient;
    var t := PrintMembers(w, fmt, depth + 1, ms, 0);
    HeadAt(c.s, p, LBRACE, t);
    ObjectOpened(c, p, log);
    MembersReadBack(c, w, fmt, depth + 1, ms, 0, p + 1, log + [StartObject]);
    AroundNormal(c.f, log, StartObject, D.MemberEvents(ms), EndObject(|ms|));
  }

  predicate ReadableMember(f: G.Flags, m: D.Member) {
    (f.validateEncoding ==> Utf8.WellFormed(m.name)) && Readable(f, m.value) && D.Valid(m.value)
  }

  lemma NameReadsBack(c: G.Context, w: WriteFlags, name: seq<byte>, n: nat, p: nat, log: seq<Event>)
    requires Lenient(c) && Literal(w, name).Quoted? && (c.f.validateEncoding ==> Utf8.WellFormed(name))
    requires TextAt(c.s, p, Literal(w, name).text) && At(c.s, p + |Literal(w, name).text|) == COLON
    ensures p <= |c.s| && G.Member(c, p, n, log) == G.AfterKey(c, p + |Literal(w, name).text|, n, log + [Key(name)])
  {
    StringRead(c, w, p, name, true, log);
    NothingSkipped(c, p + |Literal(w, name).text|, log + [Key(name)]);
  }

  lemma ColonReadsBack(c: G.Context, fmt: Format, depth: nat, n: nat, k: nat, p: nat, log: seq<Event>)
    requires fmt.Valid() && k % 2 == 1 && TextAt(c.s, p, Between(fmt, depth, Level(k, false)))
    requires Solid(At(c.s, p + |Between(fmt, depth, Level(k, false))|))
    ensures At(c.s, p) == COLON
    ensures G.AfterKey(c, p, n, log) == G.MemberValue(c, p + |Between(fmt, depth, Level(k, false))|, n, log)
  {
    var l := Level(k, false);
    BetweenAt(c.s, p, fmt, depth, l);
    GapSkipped(c, p + 1, Blank(fmt, depth, l), log);
  }

  lemma MemberReadsBack(c: G.Context, w: WriteFlags, fmt: Format, depth: nat, m: D.Member, n: nat, p: nat,
                        log: seq<Event>)
    requires Lenient(c) && fmt.Valid() && Literal(w, m.name).Quoted? && Printable(w, m.value) && ReadableMember(c.f, m)
    requires TextAt(c.s, p, PrintMember(w, fmt, depth, m, n)) && Ends(At(c.s, p + |PrintMember(w, fmt, depth, m, n)|))
    ensures At(c.s, p) == QUOTE
    ensures G.Member(c, p, n, log)
         == ObjectRest(c, p + |PrintMember(w, fmt, depth, m, n)|, n + 1,
                       log + ([Key(m.name)] + NormalAll(c.f, D.Events(m.value))))
    decreases m, 0
  {
    hide Printable, Literal, Lenient, Print, Utf8.WellFormed, D.Valid, Readable;
    hide ObjectRest, G.Member, G.MemberValue, G.AfterKey, G.Value, G.StringAt, Between, Ends, NormalAll, D.Events;
    var name, t := Literal(w, m.name).text, Print(w, fmt, depth, m.value);
    var colon := Between(fmt, depth, Level(2 * n + 1, false));
    TextAtSplit(c.s, p, name, colon + t);
    TextAtSplit(c.s, p + |name|, colon, t);
    PrintStarts(w, fmt, depth, m.value);
    var q := p + |name| + |colon|;
    assert c.s[q] == t[0];
    StringRead(c, w, p, m.name, true, log);
    ColonReadsBack(c, fmt, depth, n, 2 * n + 1, p + |name|, log + [Key(m.name)]);
    NameReadsBack(c, w, m.name, n, p, log);
    ReadsBack(c, w, fmt, depth, m.value, q, log + [Key(m.name)]);
    MemberValueThen(c, q, n, log + [Key(m.name)], q + |t|, log + [Key(m.name)] + NormalAll(c.f, D.Events(m.value)));
    Assoc(log, [Key(m.name)], NormalAll(c.f, D.Events(m.value)));
  }

  lemma FirstMember(c: G.Context, p: nat, log: seq<Event>)
    requires p <= |c.s| && At(c.s, p) != RBRACE
    ensures ObjectNext(c, p, 0, log) == G.Member(c, p, 0, log)
  {
  }

  lemma CommaMember(c: G.Context, p: nat, q: nat, n: nat, log: seq<Event>)
    requires p < |c.s| && c.s[p] == COMMA && 0 < n < SIZE_LIMIT
    requires G.Skip(c, p + 1, log) == G.Go(q, log) && At(c.s, q) != RBRACE
    ensures ObjectNext(c, p, n, log) == G.Member(c, q, n, log)
  {
    hide G.Skip, G.Member;
    assert G.AfterMemberComma(c, q, n, log) == G.Member(c, q, n, log);
  }

  /** From the end of a member over the comma to the next name. */
  lemma ToMember(c: G.Context, fmt: Format, depth: nat, n: nat, p: nat, log: seq<Event>)
    requires fmt.Valid() && TextAt(c.s, p, Between(fmt, depth, Level(2 * n, false))) && n < SIZE_LIMIT
    requires At(c.s, p + |Between(fmt, depth, Level(2 * n, false))|) == QUOTE
    ensures var q := p + |Between(fmt, depth, Level(2 * n, false))|;
            ObjectRest(c, p, n, log) == G.Member(c, q, n, log)
  {
    hide G.Skip, ObjectNext, TextAt, Blanks, Blank, Mark, Between, G.Member;
    var l := Level(2 * n, false);
    var q := p + |Between(fmt, depth, l)|;
    BetweenAt(c.s, p, fmt, depth, l);
    GapSkipped(c, p + |Mark(l)|, Blank(fmt, depth, l), log);
    if n == 0 {
      FirstMember(c, q, log);
    } else {
      NothingSkipped(c, p, log);
      CommaMember(c, p, q, n, log);
    }
  }

  lemma MemberEnds(w: WriteFlags, fmt: Format, depth: nat, ms: seq<D.Member>, n: nat, s: seq<byte>, p: nat)
    requires fmt.Valid() && depth > 0 && n > 0 && PrintableMembers(w, ms)
    requires TextAt(s, p, PrintMembers(w, fmt, depth, ms, n))
    ensures Ends(At(s, p))
  {
    var t := PrintMembers(w, fmt, depth, ms, n);
    BlankBlank(fmt, depth - 1, Level(2 * n, false));
    if ms == [] {
      assert t == BeforeClose(fmt, depth - 1, Level(2 * n, false)) + [RBRACE];
    } else {
      assert t[0] == Between(fmt, depth, Level(2 * n, false))[0] == COMMA;
    }
    assert s[p] == t[0];
  }

  lemma {:induction false} MembersReadBack(c: G.Context, w: WriteFlags, fmt: Format, depth: nat, ms: seq<D.Member>,
                                           n: nat, p: nat, log: seq<Event>)
    requires Lenient(c) && fmt.Valid() && n + |ms| < SIZE_LIMIT && depth > 0 && PrintableMembers(w, ms)
    requires forall m :: m in ms ==> ReadableMember(c.f, m)
    requires TextAt(c.s, p, PrintMembers(w, fmt, depth, ms, n))
    ensures ObjectRest(c, p, n, log)
         == G.Go(p + |PrintMembers(w, fmt, depth, ms, n)|,
                 log + (NormalAll(c.f, D.MemberEvents(ms)) + [EndObject(n + |ms|)]))
    decreases ms, 0
  {
    hide ObjectRest, G.Member, TextAt, Ends, PrintMember, Between, BeforeClose, NormalAll, D.Events, ReadableMember;
    if ms == [] {
      ObjectEnds(c, fmt, depth, n, p, log);
      assert D.MemberEvents(ms) == [];
    } else {
      var m := ms[0];
      assert m in ms;
      var between, t := Between(fmt, depth, Level(2 * n, false)), PrintMember(w, fmt, depth, m, n);
      var rest := PrintMembers(w, fmt, depth, ms[1..], n + 1);
      var q := p + |between|;
      var r := q + |t|;
      TextAtSplit(c.s, p, between, t + rest);
      TextAtSplit(c.s, q, t, rest);
      MemberEnds(w, fmt, depth, ms[1..], n + 1, c.s, r);
      MemberReadsBack(c, w, fmt, depth, m, n, q, log);
      ToMember(c, fmt, depth, n, p, log);
      var ns := [Key(m.name)] + NormalAll(c.f, D.Events(m.value));
      MembersReadBack(c, w, fmt, depth, ms[1..], n + 1, r, log + ns);
      NormalMembers(c.f, ms);
      Regrouped(log, ns, NormalAll(c.f, D.MemberEvents(ms[1..])), [EndObject(n + |ms|)]);
    }
  }

  lemma NormalMembers(f: G.Flags, ms: seq<D.Member>)
    requires ms != []
    ensures NormalAll(f, D.MemberEvents(ms))
         == [Key(ms[0].name)] + NormalAll(f, D.Events(ms[0].value)) + NormalAll(f, D.MemberEvents(ms[1..]))
  {
    assert Normal(f, Key(ms[0].name)) == Key(ms[0].name);
    hide NormalAll, Normal, D.Events;
    NormalAllAppend(f, [Key(ms[0].name)] + D.Events(ms[0].value), D.MemberEvents(ms[1..]));
    NormalAllAppend(f, [Key(ms[0].name)], D.Events(ms[0].value));
    NormalOne(f, Key(ms[0].name));
  }

  /** At the closing brace, or over the comma at the next name. */
  function ObjectNext(c: G.Context, p: nat, n: nat, log: seq<Event>): G.Step
    requires p <= |c.s|
  {
    if n == 0 then G.ObjectFirst(c, p, log) else G.AfterMember(c, p, n - 1, log)
  }

  lemma ObjectNextCloses(c: G.Context, p: nat, n: nat, log: seq<Event>)
    requires Lenient(c) && At(c.s, p) == RBRACE && n < SIZE_LIMIT
    ensures p < |c.s| && ObjectNext(c, p, n, log) == G.Go(p + 1, log + [EndObject(n)])
  {
  }

  lemma ObjectEnds(c: G.Context, fmt: Format, depth: nat, n: nat, p: nat, log: seq<Event>)
    requires Lenient(c) && fmt.Valid() && n < SIZE_LIMIT && depth > 0
    requires TextAt(c.s, p, BeforeClose(fmt, depth - 1, Level(2 * n, false)) + [RBRACE])
    ensures ObjectRest(c, p, n, log)
         == G.Go(p + |BeforeClose(fmt, depth - 1, Level(2 * n, false)) + [RBRACE]|, log + ([] + [EndObject(n)]))
  {
    hide BeforeClose, TextAt, Blanks, G.Skip, ObjectNext, Lenient;
    var gap := BeforeClose(fmt, depth - 1, Level(2 * n, false));
    CloseAt(c.s, p, fmt, depth - 1, Level(2 * n, false), RBRACE);
    GapSkipped(c, p, gap, log);
    ObjectNextCloses(c, p + |gap|, n, log);
    assert [] + [EndObject(n)] == [EndObject(n)];
  }

  // ---------------------------------------------------------------- whole documents

  /**
   What is printed for a value, in either layout, both parsers accept as a whole, and the document
   rebuilds the value from it: same order, same integers with the same types, nothing else left over. With
   numbers kept as text each integer is its numeral instead.
   */
  lemma PrintedReadsBack(c: G.Context, w: WriteFlags, fmt: Format, v: D.Value)
    requires Lenient(c) && fmt.Valid() && Printable(w, v) && Readable(c.f, v) && D.Valid(v)
    requires c.s == Print(w, fmt, 0, v)
    ensures G.Document(c, 0, []) == G.Go(|c.s|, NormalAll(c.f, D.Events(v)))
    ensures P.IterativeDocument(c, 0, []) == G.Document(c, 0, [])
    ensures StackOf(NormalAll(c.f, D.Events(v))) == [Restored(c.f, v)]
  {
    hide G.Value, G.Skip, Print, NormalAll, D.Events, Printable, Readable, D.Valid, TextAt;
    PrintStarts(w, fmt, 0, v);
    NothingSkipped(c, 0, []);
    TextAtWhole(c.s);
    ReadsBack(c, w, fmt, 0, v, 0, []);
    NothingSkipped(c, |c.s|, NormalAll(c.f, D.Events(v)));
    assert [] + NormalAll(c.f, D.Events(v)) == NormalAll(c.f, D.Events(v));
    PrintableIsDoubleFree(w, v);
    ReadEventsBuild(c.f, v);
    P.StartsAtOnce(c, 0);
  }

  lemma PrintableIsDoubleFree(w: WriteFlags, v: D.Value)
    requires Printable(w, v)
    ensures D.DoubleFree(v)
  {
  }

  lemma TextAtWhole(s: seq<byte>)
    ensures TextAt(s, 0, s)
  {
  }

  // ---------------------------------------------------------------- end to end

  /** Publishes the value's events to a writer. */
  method PrintCompact(w: WriteFlags, v: D.Value) returns (text: seq<byte>)
    requires Printable(w, v)
    ensures text == Print(w, Compact, 0, v)
  {
    var h := new Handler(EVERY);
    var ok := D.Accept(v, h);
    D.SendAll(EVERY, [], D.Events(v));
    assert [] + D.Events(v) == D.Events(v);
    var os := new StringBuffer();
    var writer := new Writer(os, w);
    WriterPrints(w, Compact, INITIAL, v);
    WriteAll(writer, h.log);
    text := os.stack.items;
    assert [] + ([] + Print(w, Compact, 0, v)) == Print(w, Compact, 0, v);
  }

  method WriteAll(writer: Writer, es: seq<Event>)
    requires writer.Valid() && Run(writer.flags, Compact, writer.State(), es).Wrote?
    modifies writer, writer.levelStack, writer.os, writer.os.stack
    ensures Run(writer.flags, Compact, old(writer.State()), es) == Wrote(writer.State())
  {
    hide Step, Legal;
    var i := 0;
    while i < |es|
      invariant 0 <= i <= |es|
      invariant Run(writer.flags, Compact, writer.State(), es[i..])
             == Run(writer.flags, Compact, old(writer.State()), es)
    {
      assert es[i..][1..] == es[i + 1..];
      StepWrites(writer.flags, Compact, writer.State(), es[i]);
      var _ := writer.Handle(es[i]);
      i := i + 1;
    }
  }

  lemma StepWrites(w: WriteFlags, fmt: Format, st: Printer, e: Event)
    ensures Step(w, fmt, st, e).Wrote? ==> Legal(st.levels, st.hasRoot, e)
  {
  }

  method PrettyWriteAll(writer: PrettyWriter, es: seq<Event>)
    requires writer.Valid() && Run(writer.base.flags, writer.Layout(), writer.base.State(), es).Wrote?
    modifies writer.base, writer.base.levelStack, writer.base.os, writer.base.os.stack
    ensures Run(writer.base.flags, writer.Layout(), old(writer.base.State()), es) == Wrote(writer.base.State())
  {
    hide Step, Legal;
    ghost var fmt := writer.Layout();
    var i := 0;
    while i < |es|
      invariant 0 <= i <= |es| && writer.Valid() && writer.Layout() == fmt
      invariant Run(writer.base.flags, fmt, writer.base.State(), es[i..])
             == Run(writer.base.flags, fmt, old(writer.base.State()), es)
    {
      assert es[i..][1..] == es[i + 1..];
      StepWrites(writer.base.flags, fmt, writer.base.State(), es[i]);
      var _ := writer.Handle(es[i]);
      i := i + 1;
    }
  }

  method PrintIndented(w: WriteFlags, indentChar: byte, indentCharCount: nat, singleLineArray: bool, v: D.Value)
    returns (text: seq<byte>)
    requires Printable(w, v) && IsWhitespace(indentChar)
    ensures text == Print(w, Indented(indentChar, indentCharCount, singleLineArray), 0, v)
  {
    ghost var fmt := Indented(indentChar, indentCharCount, singleLineArray);
    var h := new Handler(EVERY);
    var ok := D.Accept(v, h);
    D.SendAll(EVERY, [], D.Events(v));
    assert [] + D.Events(v) == D.Events(v);
    var os := new StringBuffer();
    var base := new Writer(os, w);
    var writer := new PrettyWriter(base);
    writer.SetIndent(indentChar, indentCharCount);
    writer.SetFormatOptions(singleLineArray);
    WriterPrints(w, fmt, INITIAL, v);
    PrettyWriteAll(writer, h.log);
    text := os.stack.items;
    assert [] + ([] + Print(w, fmt, 0, v)) == Print(w, fmt, 0, v);
  }

  method PrintInLayout(w: WriteFlags, fmt: Format, v: D.Value) returns (text: seq<byte>)
    requires Printable(w, v) && fmt.Valid()
    ensures text == Print(w, fmt, 0, v)
  {
    match fmt {
      case Compact => text := PrintCompact(w, v);
      case Indented(c, n, singleLine) => text := PrintIndented(w, c, n, singleLine, v);
    }
  }

  /**
   Prints a value in either layout, parses the text by either algorithm and gives back what the document
   then holds: the same value, unless numbers are kept as text and there is one.
   */
  method PrintThenParse(w: WriteFlags, fmt: Format, v: D.Value, f: G.Flags, strtod: G.Strtod, iterative: bool)
    returns (root: D.Value)
    requires Printable(w, v) && Readable(f, v) && D.Valid(v) && fmt.Valid()
    requires |Print(w, fmt, 0, v)| < SIZE_LIMIT
    ensures root == Restored(f, v)
    ensures root == v <==> !f.numbersAsStrings || HoldsNoInteger(v)
  {
    hide Print, Printable, Readable, D.Valid, G.Document, P.IterativeDocument, NormalAll, D.Events;
    var text := PrintInLayout(w, fmt, v);
    PrintedReadsBack(G.Context(text, f, EVERY, strtod), w, fmt, v);
    SpelledIsSame(v);
    var d := new GenericDocument();
    ParseStream(d, text, f, strtod, iterative);
    root := d.root;
  }
}
