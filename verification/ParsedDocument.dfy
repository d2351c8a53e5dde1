/**
 What any parse publishes can be built: the document never pops more than its stack holds, and after
 a successful parse the stack holds exactly one value more.
 */
module ParsedDocument {
  import opened Bytes
  import opened Sax
  import opened Document
  import opened Streams
  import opened Reader
  import D = Dom
  import G = Grammar
  import P = Pushdown

  /** The events published between two points of a parse take the stack from `st` to `st1`. */
  ghost predicate Builds(st: seq<D.Value>, log: seq<Event>, log1: seq<Event>, st1: seq<D.Value>) {
    log <= log1 && Build(st, log1[|log|..]) == Built(st1)
  }

  /** One value more on the stack. */
  predicate Pushed(st: seq<D.Value>, st1: seq<D.Value>) {
    |st1| == |st| + 1 && st1[..|st|] == st
  }

  /** What a step publishes can be built on `st`, and a value that is read to its end is pushed. */
  ghost predicate Grows(below: seq<D.Value>, st: seq<D.Value>, log: seq<Event>, r: G.Step, st1: seq<D.Value>) {
    Builds(st, log, r.log, st1) && (r.Go? ==> Pushed(below, st1))
  }

  lemma BuildsNothing(st: seq<D.Value>, log: seq<Event>)
    ensures Builds(st, log, log, st)
  {
  }

  lemma BuildsThen(st: seq<D.Value>, a: seq<Event>, b: seq<Event>, st1: seq<D.Value>, c: seq<Event>, st2: seq<D.Value>)
    requires Builds(st, a, b, st1) && Builds(st1, b, c, st2)
    ensures Builds(st, a, c, st2)
  {
    assert c[|a|..] == b[|a|..] + c[|b|..];
    BuildAppend(st, b[|a|..], c[|b|..]);
  }

  lemma BuildsEvent(st: seq<D.Value>, log: seq<Event>, e: Event)
    requires Buildable(st, e)
    ensures Builds(st, log, log + [e], BuildStep(st, e))
  {
    assert (log + [e])[|log|..] == [e];
    BuildOne(st, e);
  }

  predicate IsLeaf(e: Event) {
    !e.StartObject? && !e.StartArray? && !e.EndObject? && !e.EndArray?
  }

  /** A scalar pushes one value, whatever lies below. */
  lemma LeafBuilds(st: seq<D.Value>, log: seq<Event>, e: Event) returns (v: D.Value)
    requires IsLeaf(e) && Buildable([], e)
    ensures Builds(st, log, log + [e], st + [v])
    ensures e.Key? || e.String? ==> v.String?
  {
    v := BuildStep([], e)[0];
    assert BuildStep(st, e) == st + [v];
    BuildsEvent(st, log, e);
  }

  lemma PushedOne(st: seq<D.Value>, v: D.Value)
    ensures Pushed(st, st + [v])
  {
  }

  // ---------------------------------------------------------------- scalars

  /** The number published is one that a value can hold. */
  lemma NumberBuilds(c: G.Context, p: nat, log: seq<Event>, st: seq<D.Value>) returns (st1: seq<D.Value>)
    requires p <= |c.s|
    ensures Grows(st, st, log, G.NumberAt(c, p, log), st1)
  {
    st1 := st;
    var layout := G.NumberLayout(c.s, c.f, p);
    if layout.Layout? {
      var numeral := G.NumeralOf(c.s, c.f, c.strtod, layout.parts);
      if numeral.Numeral? {
        assert IsLeaf(numeral.event) && Buildable([], numeral.event);
        var v := LeafBuilds(st, log, numeral.event);
        st1 := st + [v];
      }
    }
  }

  lemma LiteralBuilds(c: G.Context, p: nat, tail: seq<byte>, e: Event, log: seq<Event>, st: seq<D.Value>)
    returns (st1: seq<D.Value>)
    requires p < |c.s| && NUL !in tail && IsLeaf(e) && Buildable([], e) && !G.IsBracket(e)
    ensures Grows(st, st, log, G.Literal(c, p, tail, e, log), st1)
  {
    st1 := st;
    if G.Literal(c, p, tail, e, log).log != log {
      var v := LeafBuilds(st, log, e);
      st1 := st + [v];
    }
  }

  lemma StringBuilds(c: G.Context, p: nat, isKey: bool, log: seq<Event>, st: seq<D.Value>) returns (st1: seq<D.Value>)
    requires p < |c.s|
    ensures Grows(st, st, log, G.StringAt(c, p, isKey, log), st1)
    ensures G.StringAt(c, p, isKey, log).Go? ==> st1[|st|].String?
  {
    st1 := st;
    var body := G.StringBody(c.s, c.f, p + 1, []);
    if body.Decoded? {
      var v := LeafBuilds(st, log, if isKey then Key(body.text) else String(body.text));
      st1 := st + [v];
    }
  }

  lemma ScalarBuilds(c: G.Context, p: nat, log: seq<Event>, st: seq<D.Value>) returns (st1: seq<D.Value>)
    requires p <= |c.s| && At(c.s, p) != LBRACE && At(c.s, p) != LBRACKET
    ensures Grows(st, st, log, G.Value(c, p, log), st1)
  {
    hide Grows, G.NumberAt, G.Literal, G.StringAt;
    var b := At(c.s, p);
    if b == LOWER_N {
      st1 := LiteralBuilds(c, p, G.NULL_TAIL, Null, log, st);
    } else if b == LOWER_T {
      st1 := LiteralBuilds(c, p, G.TRUE_TAIL, Bool(true), log, st);
    } else if b == LOWER_F {
      st1 := LiteralBuilds(c, p, G.FALSE_TAIL, Bool(false), log, st);
    } else if b == QUOTE {
      st1 := StringBuilds(c, p, false, log, st);
    } else {
      st1 := NumberBuilds(c, p, log, st);
    }
  }

  // ---------------------------------------------------------------- by the structure of the grammar

  lemma ValueBuilds(c: G.Context, p: nat, log: seq<Event>, st: seq<D.Value>) returns (st1: seq<D.Value>)
    requires p <= |c.s| < SIZE_LIMIT
    ensures Grows(st, st, log, G.Value(c, p, log), st1)
    decreases |c.s| - p, 0
  {
    hide Builds, G.Skip, G.NumberAt, Buildable, BuildStep, Pushed;
    var b := At(c.s, p);
    if b == LBRACE || b == LBRACKET {
      var open := if b == LBRACE then StartObject else StartArray;
      var mid := st + [if b == LBRACE then D.Object([]) else D.Array([])];
      StartBuilds(st, log, b == LBRACE);
      st1 := mid;
      if c.accept(log + [open]) {
        var s := G.Skip(c, p + 1, log + [open]);
        if s.Go? {
          if b == LBRACE {
            st1 := ObjectFirstBuilds(c, s.pos, log + [open], st);
          } else {
            st1 := ArrayFirstBuilds(c, s.pos, log + [open], st);
          }
          BuildsThen(st, log, log + [open], mid, G.Value(c, p, log).log, st1);
        } else {
          SkipKeepsLog(c, p + 1, log + [open]);
        }
      }
    } else {
      st1 := ScalarBuilds(c, p, log, st);
    }
  }

  lemma SkipKeepsLog(c: G.Context, p: nat, log: seq<Event>)
    requires p <= |c.s|
    ensures G.Skip(c, p, log).log == log
  {
  }

  lemma StartBuilds(st: seq<D.Value>, log: seq<Event>, isObject: bool)
    ensures isObject ==> Builds(st, log, log + [StartObject], st + [D.Object([])])
    ensures !isObject ==> Builds(st, log, log + [StartArray], st + [D.Array([])])
  {
    BuildsEvent(st, log, if isObject then StartObject else StartArray);
  }

  /** Blanks, then a step that grows the stack. */
  lemma BlanksThen(c: G.Context, p: nat, log: seq<Event>, st: seq<D.Value>)
    requires p <= |c.s|
    ensures Builds(st, log, G.Skip(c, p, log).log, st)
  {
    BuildsNothing(st, log);
  }

  // ---------------------------------------------------------------- arrays

  lemma ArrayEndBuilds(st: seq<D.Value>, log: seq<Event>, vs: seq<D.Value>) returns (st1: seq<D.Value>)
    ensures Builds(st + [D.Array([])] + vs, log, log + [EndArray(|vs|)], st1) && Pushed(st, st1)
  {
    CloseArray(st, vs);
    BuildsEvent(st + [D.Array([])] + vs, log, EndArray(|vs|));
    PushedOne(st, D.Array(vs));
    st1 := st + [D.Array(vs)];
  }

  lemma ArrayFirstBuilds(c: G.Context, p: nat, log: seq<Event>, st: seq<D.Value>) returns (st1: seq<D.Value>)
    requires p <= |c.s| < SIZE_LIMIT
    ensures Grows(st, st + [D.Array([])], log, G.ArrayFirst(c, p, log), st1)
    decreases |c.s| - p, 4
  {
    hide Builds, Pushed;
    assert st + [D.Array([])] + [] == st + [D.Array([])];
    if At(c.s, p) == RBRACKET {
      st1 := ArrayEndBuilds(st, log, []);
    } else {
      st1 := ElementBuilds(c, p, log, st, []);
    }
  }

  lemma ElementBuilds(c: G.Context, p: nat, log: seq<Event>, st: seq<D.Value>, vs: seq<D.Value>)
    returns (st1: seq<D.Value>)
    requires |vs| <= p <= |c.s| < SIZE_LIMIT
    ensures Grows(st, st + [D.Array([])] + vs, log, G.Element(c, p, |vs|, log), st1)
    decreases |c.s| - p, 3
  {
    hide Builds, G.Skip;
    var base := st + [D.Array([])] + vs;
    var r := G.Value(c, p, log);
    st1 := ValueBuilds(c, p, log, base);
    if r.Go? {
      var mid := st1;
      var v := mid[|base|];
      assert mid == st + [D.Array([])] + (vs + [v]);
      BlanksThen(c, r.pos, r.log, mid);
      var s := G.Skip(c, r.pos, r.log);
      if s.Go? {
        st1 := AfterElementBuilds(c, s.pos, r.log, st, vs + [v]);
      }
      BuildsThen(base, log, r.log, mid, G.Element(c, p, |vs|, log).log, st1);
    }
  }

  lemma AfterElementBuilds(c: G.Context, p: nat, log: seq<Event>, st: seq<D.Value>, vs: seq<D.Value>)
    returns (st1: seq<D.Value>)
    requires 0 < |vs| <= p <= |c.s| < SIZE_LIMIT
    ensures Grows(st, st + [D.Array([])] + vs, log, G.AfterElement(c, p, |vs| - 1, log), st1)
    decreases |c.s| - p, 3
  {
    hide Builds, G.Skip, Pushed;
    st1 := st + [D.Array([])] + vs;
    BuildsNothing(st1, log);
    if At(c.s, p) == COMMA {
      BlanksThen(c, p + 1, log, st1);
      if G.Skip(c, p + 1, log).Go? {
        st1 := AfterElementCommaBuilds(c, G.Skip(c, p + 1, log).pos, log, st, vs);
      }
    } else if At(c.s, p) == RBRACKET {
      st1 := ArrayEndBuilds(st, log, vs);
    }
  }

  lemma AfterElementCommaBuilds(c: G.Context, p: nat, log: seq<Event>, st: seq<D.Value>, vs: seq<D.Value>)
    returns (st1: seq<D.Value>)
    requires |vs| <= p <= |c.s| < SIZE_LIMIT
    ensures Grows(st, st + [D.Array([])] + vs, log, G.AfterElementComma(c, p, |vs|, log), st1)
    decreases |c.s| - p, 4
  {
    hide Builds, Pushed;
    if c.f.trailingCommas && At(c.s, p) == RBRACKET {
      st1 := ArrayEndBuilds(st, log, vs);
    } else {
      st1 := ElementBuilds(c, p, log, st, vs);
    }
  }

  // ---------------------------------------------------------------- objects

  lemma ObjectEndBuilds(st: seq<D.Value>, log: seq<Event>, vs: seq<D.Value>) returns (st1: seq<D.Value>)
    requires NamesAreStrings(vs)
    ensures Builds(st + [D.Object([])] + vs, log, log + [EndObject(|vs| / 2)], st1) && Pushed(st, st1)
  {
    var mid := st + [D.Object([])] + vs;
    assert mid[..|st|] == st && mid[|st| + 1..] == vs;
    BuildsEvent(mid, log, EndObject(|vs| / 2));
    PushedOne(st, D.Object(Paired(vs)));
    st1 := st + [D.Object(Paired(vs))];
  }

  lemma ObjectFirstBuilds(c: G.Context, p: nat, log: seq<Event>, st: seq<D.Value>) returns (st1: seq<D.Value>)
    requires p <= |c.s| < SIZE_LIMIT
    ensures Grows(st, st + [D.Object([])], log, G.ObjectFirst(c, p, log), st1)
    decreases |c.s| - p, 4
  {
    hide Builds, Pushed;
    assert st + [D.Object([])] + [] == st + [D.Object([])];
    if At(c.s, p) == RBRACE {
      st1 := ObjectEndBuilds(st, log, []);
    } else {
      st1 := MemberBuilds(c, p, log, st, []);
    }
  }

  lemma MemberBuilds(c: G.Context, p: nat, log: seq<Event>, st: seq<D.Value>, vs: seq<D.Value>)
    returns (st1: seq<D.Value>)
    requires NamesAreStrings(vs) && |vs| / 2 <= p <= |c.s| < SIZE_LIMIT
    ensures Grows(st, st + [D.Object([])] + vs, log, G.Member(c, p, |vs| / 2, log), st1)
    decreases |c.s| - p, 3
  {
    hide Builds, G.Skip, G.StringAt;
    var base := st + [D.Object([])] + vs;
    st1 := base;
    BuildsNothing(base, log);
    if At(c.s, p) == QUOTE {
      var r := G.StringAt(c, p, true, log);
      st1 := StringBuilds(c, p, true, log, base);
      if r.Go? {
        var mid := st1;
        assert mid == base + [mid[|base|]];
        BlanksThen(c, r.pos, r.log, mid);
        var s := G.Skip(c, r.pos, r.log);
        if s.Go? {
          st1 := AfterKeyBuilds(c, s.pos, r.log, st, vs, mid[|base|]);
        }
        BuildsThen(base, log, r.log, mid, G.Member(c, p, |vs| / 2, log).log, st1);
      }
    }
  }

  lemma AfterKeyBuilds(c: G.Context, p: nat, log: seq<Event>, st: seq<D.Value>, vs: seq<D.Value>, name: D.Value)
    returns (st1: seq<D.Value>)
    requires NamesAreStrings(vs) && name.String? && |vs| / 2 <= p <= |c.s| < SIZE_LIMIT
    ensures Grows(st, st + [D.Object([])] + vs + [name], log, G.AfterKey(c, p, |vs| / 2, log), st1)
    decreases |c.s| - p, 3
  {
    hide Builds, G.Skip, Pushed;
    st1 := st + [D.Object([])] + vs + [name];
    BuildsNothing(st1, log);
    if At(c.s, p) == COLON {
      BlanksThen(c, p + 1, log, st1);
      if G.Skip(c, p + 1, log).Go? {
        st1 := MemberValueBuilds(c, G.Skip(c, p + 1, log).pos, log, st, vs, name);
      }
    }
  }

  lemma Named(st: seq<D.Value>, vs: seq<D.Value>, name: D.Value, value: D.Value)
    requires NamesAreStrings(vs) && name.String?
    ensures NamesAreStrings(vs + [name, value])
    ensures st + [D.Object([])] + vs + [name] + [value] == st + [D.Object([])] + (vs + [name, value])
  {
  }

  lemma MemberValueBuilds(c: G.Context, p: nat, log: seq<Event>, st: seq<D.Value>, vs: seq<D.Value>, name: D.Value)
    returns (st1: seq<D.Value>)
    requires NamesAreStrings(vs) && name.String? && |vs| / 2 <= p <= |c.s| < SIZE_LIMIT
    ensures Grows(st, st + [D.Object([])] + vs + [name], log, G.MemberValue(c, p, |vs| / 2, log), st1)
    decreases |c.s| - p, 3
  {
    hide Builds, G.Skip, NamesAreStrings;
    var base := st + [D.Object([])] + vs + [name];
    var r := G.Value(c, p, log);
    st1 := ValueBuilds(c, p, log, base);
    if r.Go? {
      var mid := st1;
      var value := mid[|base|];
      assert mid == base + [value];
      Named(st, vs, name, value);
      BlanksThen(c, r.pos, r.log, mid);
      var s := G.Skip(c, r.pos, r.log);
      if s.Go? {
        st1 := AfterMemberBuilds(c, s.pos, r.log, st, vs + [name, value]);
      }
      BuildsThen(base, log, r.log, mid, G.MemberValue(c, p, |vs| / 2, log).log, st1);
    }
  }

  lemma AfterMemberBuilds(c: G.Context, p: nat, log: seq<Event>, st: seq<D.Value>, vs: seq<D.Value>)
    returns (st1: seq<D.Value>)
    requires NamesAreStrings(vs) && 0 < |vs| / 2 <= p <= |c.s| < SIZE_LIMIT
    ensures Grows(st, st + [D.Object([])] + vs, log, G.AfterMember(c, p, |vs| / 2 - 1, log), st1)
    decreases |c.s| - p, 3
  {
    hide Builds, G.Skip, Pushed;
    st1 := st + [D.Object([])] + vs;
    BuildsNothing(st1, log);
    if At(c.s, p) == COMMA {
      BlanksThen(c, p + 1, log, st1);
      if G.Skip(c, p + 1, log).Go? {
        st1 := AfterMemberCommaBuilds(c, G.Skip(c, p + 1, log).pos, log, st, vs);
      }
    } else if At(c.s, p) == RBRACE {
      st1 := ObjectEndBuilds(st, log, vs);
    }
  }

  lemma AfterMemberCommaBuilds(c: G.Context, p: nat, log: seq<Event>, st: seq<D.Value>, vs: seq<D.Value>)
    returns (st1: seq<D.Value>)
    requires NamesAreStrings(vs) && |vs| / 2 <= p <= |c.s| < SIZE_LIMIT
    ensures Grows(st, st + [D.Object([])] + vs, log, G.AfterMemberComma(c, p, |vs| / 2, log), st1)
    decreases |c.s| - p, 4
  {
    hide Builds, Pushed;
    if c.f.trailingCommas && At(c.s, p) == RBRACE {
      st1 := ObjectEndBuilds(st, log, vs);
    } else {
      st1 := MemberBuilds(c, p, log, st, vs);
    }
  }

  // ---------------------------------------------------------------- whole documents

  /** The values that a list of events leaves on an empty stack. */
  function StackOf(es: seq<Event>): seq<D.Value> {
    match Build([], es)
    case Built(st) => st
    case Broken => []
  }

  /**
   Whatever the text, the flags and the handler: all events published can be built, and after a
   successful parse there is exactly one value. Shorter texts cannot make a 32-bit count wrap.
   */
  lemma DocumentBuildsOne(c: G.Context)
    requires |c.s| < SIZE_LIMIT
    ensures Build([], G.Document(c, 0, []).log).Built?
    ensures G.Document(c, 0, []).Go? ==> |StackOf(G.Document(c, 0, []).log)| == 1
  {
    hide G.Value, G.Skip;
    SkipKeepsLog(c, 0, []);
    var s := G.Skip(c, 0, []);
    var r := G.Document(c, 0, []);
    if s.Go? && At(c.s, s.pos) != NUL {
      var st := ValueBuilds(c, s.pos, [], []);
      var v := G.Value(c, s.pos, []);
      if v.Go? && !c.f.stopWhenDone {
        SkipKeepsLog(c, v.pos, v.log);
      }
      assert r.log == v.log;
      assert r.log[0..] == r.log;
    }
  }

  /** A document takes every event. */
  const EVERY: Acceptance := _ => true

  method Replay(d: GenericDocument, log: seq<Event>)
    requires Build(d.stack.items, log).Built?
    modifies d.stack
    ensures Build(old(d.stack.items), log) == Built(d.stack.items)
  {
    var i := 0;
    while i < |log|
      invariant 0 <= i <= |log|
      invariant Build(d.stack.items, log[i..]) == Build(old(d.stack.items), log)
    {
      assert log[i..][1..] == log[i + 1..];
      d.Handle(log[i]);
      i := i + 1;
    }
  }

  /** Parsing into a document: the root is replaced by the one value parsed, or kept when the text does not parse. */
  method ParseStream(d: GenericDocument, text: seq<byte>, f: G.Flags, strtod: G.Strtod, iterative: bool)
    requires |text| < SIZE_LIMIT && d.stack.items == []
    modifies d, d.stack
    ensures d.stack.items == []
    ensures var c := G.Context(text, f, EVERY, strtod);
            var r := if iterative then P.IterativeDocument(c, 0, []) else G.Document(c, 0, []);
            if r.Go? then d.parseResult == Success && StackOf(r.log) == [d.root]
            else d.parseResult == Error(r.code, r.offset) && d.root == old(d.root)
  {
    hide G.Document, P.IterativeDocument, Build;
    ghost var c := G.Context(text, f, EVERY, strtod);
    DocumentBuildsOne(c);
    IterativeBuildsOne(c);
    var reader := new GenericReader(strtod);
    var input := new StringStream(text);
    var h := new Handler(EVERY);
    if iterative {
      reader.IterativeParse(input, h, f);
    } else {
      reader.Parse(input, h, f);
    }
    Replay(d, h.log);
    d.parseResult := reader.parseResult;
    if d.parseResult.Success? {
      d.root := d.stack.Top();
    }
    d.stack.Clear();
  }

  lemma IterativeBuildsOne(c: G.Context)
    requires |c.s| < SIZE_LIMIT
    ensures Build([], P.IterativeDocument(c, 0, []).log).Built?
    ensures P.IterativeDocument(c, 0, []).Go? ==> |StackOf(P.IterativeDocument(c, 0, []).log)| == 1
  {
    DocumentBuildsOne(c);
  }
}
