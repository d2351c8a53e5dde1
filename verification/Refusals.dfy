/**
 Where parsing stops when the handler refuses the event of a bracket: the iterative parser stays in front of the
 bracket, recursive descent behind it, unless it closes behind a trailing comma.
 */
module Refusals {
  import opened Bytes
  import opened Numerals
  import opened Sax
  import opened Grammar

  // ---------------------------------------------------------------- tokens

  /** The end of the token that begins at `p`; `p` itself if none does. */
  function TokenEnd(s: seq<byte>, f: Flags, p: nat): (q: nat)
    requires p <= |s|
    ensures p <= q <= |s|
  {
    var b := At(s, p);
    if b == LBRACE || b == RBRACE || b == LBRACKET || b == RBRACKET || b == COMMA || b == COLON then p + 1
    else if b == LOWER_N then WordEnd(s, p, NULL_TAIL)
    else if b == LOWER_T then WordEnd(s, p, TRUE_TAIL)
    else if b == LOWER_F then WordEnd(s, p, FALSE_TAIL)
    else if b == QUOTE then
      (match StringBody(s, f, p + 1, [])
       case Decoded(q, _) => q
       case BadString(_, _) => p)
    else
      match NumberLayout(s, f, p)
      case Layout(n) => n.end
      case BadLayout(_, _) => p
  }

  function WordEnd(s: seq<byte>, p: nat, tail: seq<byte>): (q: nat)
    requires p < |s| && NUL !in tail
    ensures p <= q <= |s|
  {
    if Matching(s, p + 1, tail) == |tail| then p + 1 + |tail| else p
  }

  /** Reading token after token, with blanks between them, leads from `p` to the end of one at `q`. */
  predicate Leads(s: seq<byte>, f: Flags, p: nat, q: nat)
    requires p <= |s|
    decreases |s| - p
  {
    || p == q
    || match SkipBlank(s, f, p)
       case Skipped(t) => t < TokenEnd(s, f, t) && Leads(s, f, TokenEnd(s, f, t), q)
       case Unclosed(_) => false
  }

  /** The token at `q` comes right after a comma. */
  predicate FollowsComma(s: seq<byte>, f: Flags, q: nat) {
    exists p :: 0 <= p < |s| && s[p] == COMMA && Leads(s, f, 0, p + 1) && SkipBlank(s, f, p + 1) == Skipped(q)
  }

  /**
   Where the two parsers stop when the handler refuses `last`: at the same place, but for a bracket the iterative
   parser stays in front of it and recursive descent behind it, unless the bracket closes behind a trailing comma.
   */
  predicate StopsApart(s: seq<byte>, f: Flags, last: Event, recursive: nat, iterative: nat) {
    && (iterative == recursive || (IsBracket(last) && iterative + 1 == recursive))
    && (last.StartObject? || last.StartArray? ==> iterative != recursive)
    && (IsEnd(last) ==> (iterative == recursive <==> FollowsComma(s, f, iterative)))
    && (IsEnd(last) && iterative == recursive ==> f.trailingCommas)
  }

  /** What is stopped at the event of a closing bracket is stopped at the bracket exactly if it follows a comma. */
  predicate Placed(c: Context, r: Step) {
    r.Stop? && r.code.Termination? && r.log != [] && IsEnd(Last(r.log)) ==>
      && (r.rewind == 0 ==> FollowsComma(c.s, c.f, r.offset))
      && (0 < r.rewind <= r.offset ==> !FollowsComma(c.s, c.f, r.offset - r.rewind))
  }

  /** A token begins at `p`. */
  predicate Begins(c: Context, p: nat) {
    exists q :: 0 <= q <= |c.s| && Leads(c.s, c.f, 0, q) && SkipBlank(c.s, c.f, q) == Skipped(p)
  }

  predicate Solid(b: byte) {
    b != COMMA && !IsWhitespace(b)
  }

  /** A token that is no comma ends at `p`. */
  predicate Ended(c: Context, p: nat) {
    0 < p <= |c.s| && Solid(c.s[p - 1]) && Leads(c.s, c.f, 0, p)
  }

  lemma {:induction false} LeadsOn(s: seq<byte>, f: Flags, p: nat, q: nat, r: nat)
    requires p <= |s| && q <= |s| && Leads(s, f, p, q) && Leads(s, f, q, r)
    ensures Leads(s, f, p, r)
    decreases |s| - p
  {
    hide TokenEnd, SkipBlank;
    if p != q {
      LeadsOn(s, f, TokenEnd(s, f, SkipBlank(s, f, p).pos), q, r);
    }
  }

  lemma {:induction false} LeadsForward(s: seq<byte>, f: Flags, p: nat, q: nat)
    requires p <= |s| && Leads(s, f, p, q)
    ensures p <= q <= |s|
    ensures p < q ==> SkipBlank(s, f, p).Skipped? && SkipBlank(s, f, p).pos < q
    decreases |s| - p
  {
    hide TokenEnd, SkipBlank;
    if p != q {
      LeadsForward(s, f, TokenEnd(s, f, SkipBlank(s, f, p).pos), q);
    }
  }

  /** There is one way to read on. */
  lemma {:induction false} LeadsInOrder(s: seq<byte>, f: Flags, p: nat, q: nat, r: nat)
    requires p <= |s| && q <= |s| && Leads(s, f, p, q) && Leads(s, f, p, r) && q <= r
    ensures Leads(s, f, q, r)
    decreases |s| - p
  {
    hide TokenEnd, SkipBlank;
    LeadsForward(s, f, p, q);
    if p != q {
      LeadsInOrder(s, f, TokenEnd(s, f, SkipBlank(s, f, p).pos), q, r);
    }
  }

  /** From the end of one token to the beginning of the next. */
  lemma NextBegins(c: Context, p: nat)
    requires p <= |c.s| && Leads(c.s, c.f, 0, p) && SkipBlank(c.s, c.f, p).Skipped?
    ensures Begins(c, SkipBlank(c.s, c.f, p).pos)
  {
  }

  lemma TokenEnds(c: Context, p: nat)
    requires p <= |c.s| && Begins(c, p) && p < TokenEnd(c.s, c.f, p)
    ensures Leads(c.s, c.f, 0, TokenEnd(c.s, c.f, p))
  {
    hide TokenEnd, SkipBlank;
    var q :| 0 <= q <= |c.s| && Leads(c.s, c.f, 0, q) && SkipBlank(c.s, c.f, q) == Skipped(p);
    assert Leads(c.s, c.f, q, TokenEnd(c.s, c.f, p)) by {
      assert Leads(c.s, c.f, TokenEnd(c.s, c.f, p), TokenEnd(c.s, c.f, p));
    }
    LeadsOn(c.s, c.f, 0, q, TokenEnd(c.s, c.f, p));
  }

  /** What comes after a token that is no comma follows no comma. */
  lemma SolidThenClear(c: Context, p: nat)
    requires p <= |c.s| && Ended(c, p) && SkipBlank(c.s, c.f, p).Skipped?
    ensures !FollowsComma(c.s, c.f, SkipBlank(c.s, c.f, p).pos)
  {
    hide TokenEnd, SkipBlank;
    forall k | 0 <= k < |c.s| && c.s[k] == COMMA && Leads(c.s, c.f, 0, k + 1)
      ensures SkipBlank(c.s, c.f, k + 1) != SkipBlank(c.s, c.f, p)
    {
      if k + 1 < p {
        LeadsInOrder(c.s, c.f, 0, k + 1, p);
        LeadsForward(c.s, c.f, k + 1, p);
      } else if p < k + 1 {
        LeadsInOrder(c.s, c.f, 0, p, k + 1);
        LeadsForward(c.s, c.f, p, k + 1);
      }
    }
  }

  // ---------------------------------------------------------------- how scalars end

  lemma {:induction false} MatchingLast(s: seq<byte>, p: nat, lit: seq<byte>)
    requires p <= |s| && NUL !in lit && lit != [] && Matching(s, p, lit) == |lit|
    ensures s[p + |lit| - 1] == lit[|lit| - 1]
    decreases |lit|
  {
    if |lit| > 1 {
      MatchingLast(s, p + 1, lit[1..]);
    }
  }

  lemma {:induction false} StringEnds(s: seq<byte>, f: Flags, p: nat, out: seq<byte>)
    requires p <= |s| && StringBody(s, f, p, out).Decoded?
    ensures s[StringBody(s, f, p, out).pos - 1] == QUOTE
    decreases |s| - p
  {
    var chunk := StringChunk(s, f, p);
    if chunk.Bytes? {
      StringEnds(s, f, chunk.pos, out + chunk.bytes);
    }
  }

  lemma NumberEnds(s: seq<byte>, f: Flags, p: nat)
    requires p <= |s| && NumberLayout(s, f, p).Layout?
    ensures Solid(s[NumberLayout(s, f, p).parts.end - 1])
  {
    var n := NumberLayout(s, f, p).parts;
    if n.HasExponent() {
      assert IsDigit(s[n.end - 1]);
    } else if n.HasFraction() {
      assert IsDigit(s[n.end - 1]);
    } else if n.special.Plain? {
      IntegerEnds(s, f, p);
    } else {
      SpelledEnds(s, f, p);
    }
  }

  lemma NumberBegins(s: seq<byte>, f: Flags, p: nat)
    requires p <= |s| && NumberLayout(s, f, p).Layout?
    ensures At(s, p) !in [RBRACE, RBRACKET, COMMA, COLON]
  {
  }

  lemma IntegerEnds(s: seq<byte>, f: Flags, p: nat)
    requires p <= |s| && NumberLayout(s, f, p).Layout?
    requires var n := NumberLayout(s, f, p).parts; !n.HasExponent() && !n.HasFraction() && n.special.Plain?
    ensures IsDigit(s[NumberLayout(s, f, p).parts.end - 1])
  {
  }

  lemma SpelledEnds(s: seq<byte>, f: Flags, p: nat)
    requires p <= |s| && NumberLayout(s, f, p).Layout?
    requires var n := NumberLayout(s, f, p).parts; !n.HasExponent() && !n.HasFraction() && n.special.Spelled?
    ensures Solid(s[NumberLayout(s, f, p).parts.end - 1])
  {
    hide SpelledOut;
    var i := if At(s, p) == MINUS then p + 1 else p;
    SpelledLast(s, i, At(s, p) == MINUS);
  }

  lemma SpelledLast(s: seq<byte>, i: nat, minus: bool)
    requires i < |s| && SpelledOut(s, i, minus).1.Spelled?
    ensures Solid(s[SpelledOut(s, i, minus).0 - 1])
  {
    if At(s, i) == UPPER_N {
      MatchingLast(s, i + 1, NAN_TAIL);
    } else {
      MatchingLast(s, i + 1, INF_TAIL);
      if At(s, i + 3) == LOWER_I {
        MatchingLast(s, i + 3, INITY);
      }
    }
  }

  lemma ScalarEnds(c: Context, p: nat, log: seq<Event>)
    requires p <= |c.s| && At(c.s, p) != LBRACE && At(c.s, p) != LBRACKET
    ensures Placed(c, Value(c, p, log))
    ensures Value(c, p, log).Go? ==>
              Value(c, p, log).pos == TokenEnd(c.s, c.f, p) && Solid(c.s[Value(c, p, log).pos - 1])
  {
    hide StringBody, NumberLayout, NumeralOf, SkipBlank, FollowsComma;
    var b := At(c.s, p);
    if b == LOWER_N {
      LiteralEnds(c, p, NULL_TAIL, Null, log);
    } else if b == LOWER_T {
      LiteralEnds(c, p, TRUE_TAIL, Bool(true), log);
    } else if b == LOWER_F {
      LiteralEnds(c, p, FALSE_TAIL, Bool(false), log);
    } else if b == QUOTE {
      if StringBody(c.s, c.f, p + 1, []).Decoded? {
        StringEnds(c.s, c.f, p + 1, []);
      }
    } else {
      NumberPlaced(c, p, log);
      if NumberAt(c, p, log).Go? {
        NumberBegins(c.s, c.f, p);
      }
    }
  }

  lemma NumberPlaced(c: Context, p: nat, log: seq<Event>)
    requires p <= |c.s|
    ensures Placed(c, NumberAt(c, p, log))
    ensures NumberAt(c, p, log).Go? ==>
              && NumberLayout(c.s, c.f, p).Layout? && NumberLayout(c.s, c.f, p).parts.end == NumberAt(c, p, log).pos
              && Solid(c.s[NumberAt(c, p, log).pos - 1])
  {
    hide NumberLayout, NumeralOf, FollowsComma;
    if NumberLayout(c.s, c.f, p).Layout? {
      NumberEnds(c.s, c.f, p);
      var n := NumberLayout(c.s, c.f, p).parts;
      var e := NumeralOf(c.s, c.f, c.strtod, n);
      if e.Numeral? {
        assert Last(log + [e.event]) == e.event;
      }
    }
  }

  lemma LiteralEnds(c: Context, p: nat, tail: seq<byte>, e: Event, log: seq<Event>)
    requires p < |c.s| && NUL !in tail && tail != [] && Solid(tail[|tail| - 1]) && !IsBracket(e)
    ensures Placed(c, Literal(c, p, tail, e, log))
    ensures Literal(c, p, tail, e, log).Go? ==>
              && Literal(c, p, tail, e, log).pos == WordEnd(c.s, p, tail)
              && Solid(c.s[Literal(c, p, tail, e, log).pos - 1])
  {
    if Matching(c.s, p + 1, tail) == |tail| {
      MatchingLast(c.s, p + 1, tail);
    }
  }

  // ---------------------------------------------------------------- containers

  /** Stopped in the right place, or gone on behind a token that is no comma. */
  predicate Reads(c: Context, r: Step) {
    Placed(c, r) && (r.Go? ==> Ended(c, r.pos))
  }

  /** A bracket, colon or comma. */
  lemma PunctuationEnds(c: Context, p: nat)
    requires p < |c.s| && Begins(c, p) && c.s[p] in [LBRACE, RBRACE, LBRACKET, RBRACKET, COMMA, COLON]
    ensures Leads(c.s, c.f, 0, p + 1) && (c.s[p] != COMMA ==> Ended(c, p + 1))
  {
    assert TokenEnd(c.s, c.f, p) == p + 1;
    TokenEnds(c, p);
  }

  /** The event of a closing bracket that follows no comma. */
  lemma CloseReads(c: Context, p: nat, e: Event, log: seq<Event>)
    requires p < |c.s| && Begins(c, p) && c.s[p] in [RBRACE, RBRACKET] && IsEnd(e) && !FollowsComma(c.s, c.f, p)
    ensures Reads(c, Emit(c, e, p + 1, p + 1, 1, log))
  {
    hide FollowsComma, Begins, Leads;
    PunctuationEnds(c, p);
  }

  /** The event of a closing bracket behind a trailing comma. */
  lemma TrailingReads(c: Context, p: nat, e: Event, log: seq<Event>)
    requires p < |c.s| && Begins(c, p) && c.s[p] in [RBRACE, RBRACKET] && IsEnd(e) && FollowsComma(c.s, c.f, p)
    ensures Reads(c, Emit(c, e, p + 1, p, 0, log))
  {
    hide FollowsComma, Begins, Leads;
    PunctuationEnds(c, p);
  }

  /** From the end of a token on: the next one begins, and follows a comma or not. */
  lemma Onward(c: Context, p: nat)
    requires p <= |c.s| && Leads(c.s, c.f, 0, p) && SkipBlank(c.s, c.f, p).Skipped?
    ensures Begins(c, SkipBlank(c.s, c.f, p).pos)
    ensures Ended(c, p) ==> !FollowsComma(c.s, c.f, SkipBlank(c.s, c.f, p).pos)
    ensures p > 0 && c.s[p - 1] == COMMA ==> FollowsComma(c.s, c.f, SkipBlank(c.s, c.f, p).pos)
  {
    hide TokenEnd, SkipBlank, Leads;
    NextBegins(c, p);
    if Ended(c, p) {
      SolidThenClear(c, p);
    }
  }

  lemma {:induction false} ValueReads(c: Context, p: nat, log: seq<Event>)
    requires p <= |c.s| && Begins(c, p)
    ensures Reads(c, Value(c, p, log))
    decreases |c.s| - p, 0
  {
    hide FollowsComma, Begins, Leads, SkipBlank, TokenEnd, Value;
    var b := At(c.s, p);
    if b == LBRACE {
      ObjectReads(c, p, log);
    } else if b == LBRACKET {
      ArrayReads(c, p, log);
    } else {
      ScalarEnds(c, p, log);
      if Value(c, p, log).Go? {
        TokenEnds(c, p);
      }
    }
  }

  lemma {:induction false} ObjectReads(c: Context, p: nat, log: seq<Event>)
    requires p < |c.s| && c.s[p] == LBRACE && Begins(c, p)
    ensures Reads(c, Value(c, p, log))
    decreases |c.s| - p - 1, 3
  {
    hide FollowsComma, Begins, Leads, SkipBlank, ObjectFirst;
    var log1 := log + [StartObject];
    var s := SkipBlank(c.s, c.f, p + 1);
    PunctuationEnds(c, p);
    if c.accept(log1) && s.Skipped? {
      Onward(c, p + 1);
      ObjectFirstReads(c, s.pos, log1);
    }
  }

  lemma {:induction false} ArrayReads(c: Context, p: nat, log: seq<Event>)
    requires p < |c.s| && c.s[p] == LBRACKET && Begins(c, p)
    ensures Reads(c, Value(c, p, log))
    decreases |c.s| - p - 1, 3
  {
    hide FollowsComma, Begins, Leads, SkipBlank, ArrayFirst;
    var log1 := log + [StartArray];
    var s := SkipBlank(c.s, c.f, p + 1);
    PunctuationEnds(c, p);
    if c.accept(log1) && s.Skipped? {
      Onward(c, p + 1);
      ArrayFirstReads(c, s.pos, log1);
    }
  }

  lemma {:induction false} ObjectFirstReads(c: Context, p: nat, log: seq<Event>)
    requires p <= |c.s| && Begins(c, p) && !FollowsComma(c.s, c.f, p)
    ensures Reads(c, ObjectFirst(c, p, log))
    decreases |c.s| - p, 2
  {
    hide FollowsComma, Begins, Reads, Member, Emit;
    if At(c.s, p) == RBRACE {
      CloseReads(c, p, EndObject(0), log);
    } else {
      MemberReads(c, p, 0, log);
    }
  }

  lemma {:induction false} MemberReads(c: Context, p: nat, n: nat, log: seq<Event>)
    requires p <= |c.s| && Begins(c, p)
    ensures Reads(c, Member(c, p, n, log))
    decreases |c.s| - p, 1
  {
    hide FollowsComma, Begins, Leads, SkipBlank, StringBody, AfterKey;
    if At(c.s, p) == QUOTE {
      var r := StringAt(c, p, true, log);
      if r.Go? {
        assert r.pos == TokenEnd(c.s, c.f, p);
        TokenEnds(c, p);
        var s := Skip(c, r.pos, r.log);
        if s.Go? {
          Onward(c, r.pos);
          AfterKeyReads(c, s.pos, n, s.log);
        }
      }
    }
  }

  lemma {:induction false} AfterKeyReads(c: Context, p: nat, n: nat, log: seq<Event>)
    requires p <= |c.s| && Begins(c, p)
    ensures Reads(c, AfterKey(c, p, n, log))
    decreases |c.s| - p, 1
  {
    hide FollowsComma, Begins, Leads, SkipBlank, MemberValue;
    if At(c.s, p) == COLON {
      PunctuationEnds(c, p);
      var s := Skip(c, p + 1, log);
      if s.Go? {
        Onward(c, p + 1);
        MemberValueReads(c, s.pos, n, s.log);
      }
    }
  }

  lemma {:induction false} MemberValueReads(c: Context, p: nat, n: nat, log: seq<Event>)
    requires p <= |c.s| && Begins(c, p)
    ensures Reads(c, MemberValue(c, p, n, log))
    decreases |c.s| - p, 1
  {
    hide FollowsComma, Begins, Leads, SkipBlank, Value, AfterMember;
    ValueReads(c, p, log);
    var r := Value(c, p, log);
    if r.Go? && Skip(c, r.pos, r.log).Go? {
      Onward(c, r.pos);
      AfterMemberReads(c, Skip(c, r.pos, r.log).pos, n, r.log);
    }
  }

  lemma {:induction false} AfterMemberReads(c: Context, p: nat, n: nat, log: seq<Event>)
    requires p <= |c.s| && Begins(c, p) && !FollowsComma(c.s, c.f, p)
    ensures Reads(c, AfterMember(c, p, n, log))
    decreases |c.s| - p, 1
  {
    hide FollowsComma, Begins, Leads, SkipBlank, AfterMemberComma;
    if At(c.s, p) == COMMA {
      PunctuationEnds(c, p);
      var s := Skip(c, p + 1, log);
      if s.Go? {
        Onward(c, p + 1);
        AfterMemberCommaReads(c, s.pos, Inc(n), s.log);
      }
    } else if At(c.s, p) == RBRACE {
      CloseReads(c, p, EndObject(Inc(n)), log);
    }
  }

  lemma {:induction false} AfterMemberCommaReads(c: Context, p: nat, n: nat, log: seq<Event>)
    requires p <= |c.s| && Begins(c, p) && FollowsComma(c.s, c.f, p)
    ensures Reads(c, AfterMemberComma(c, p, n, log))
    decreases |c.s| - p, 2
  {
    hide FollowsComma, Begins, Reads, Member, Emit;
    if c.f.trailingCommas && At(c.s, p) == RBRACE {
      TrailingReads(c, p, EndObject(n), log);
    } else {
      MemberReads(c, p, n, log);
    }
  }

  lemma {:induction false} ArrayFirstReads(c: Context, p: nat, log: seq<Event>)
    requires p <= |c.s| && Begins(c, p) && !FollowsComma(c.s, c.f, p)
    ensures Reads(c, ArrayFirst(c, p, log))
    decreases |c.s| - p, 2
  {
    hide FollowsComma, Begins, Reads, Element, Emit;
    if At(c.s, p) == RBRACKET {
      CloseReads(c, p, EndArray(0), log);
    } else {
      ElementReads(c, p, 0, log);
    }
  }

  lemma {:induction false} ElementReads(c: Context, p: nat, n: nat, log: seq<Event>)
    requires p <= |c.s| && Begins(c, p)
    ensures Reads(c, Element(c, p, n, log))
    decreases |c.s| - p, 1
  {
    hide FollowsComma, Begins, Leads, SkipBlank, Value, AfterElement;
    ValueReads(c, p, log);
    var r := Value(c, p, log);
    if r.Go? && Skip(c, r.pos, r.log).Go? {
      Onward(c, r.pos);
      AfterElementReads(c, Skip(c, r.pos, r.log).pos, n, r.log);
    }
  }

  lemma {:induction false} AfterElementReads(c: Context, p: nat, n: nat, log: seq<Event>)
    requires p <= |c.s| && Begins(c, p) && !FollowsComma(c.s, c.f, p)
    ensures Reads(c, AfterElement(c, p, n, log))
    decreases |c.s| - p, 1
  {
    hide FollowsComma, Begins, Leads, SkipBlank, AfterElementComma;
    if At(c.s, p) == COMMA {
      PunctuationEnds(c, p);
      var s := Skip(c, p + 1, log);
      if s.Go? {
        Onward(c, p + 1);
        AfterElementCommaReads(c, s.pos, Inc(n), s.log);
      }
    } else if At(c.s, p) == RBRACKET {
      CloseReads(c, p, EndArray(Inc(n)), log);
    }
  }

  lemma {:induction false} AfterElementCommaReads(c: Context, p: nat, n: nat, log: seq<Event>)
    requires p <= |c.s| && Begins(c, p) && FollowsComma(c.s, c.f, p)
    ensures Reads(c, AfterElementComma(c, p, n, log))
    decreases |c.s| - p, 2
  {
    hide FollowsComma, Begins, Reads, Element, Emit;
    if c.f.trailingCommas && At(c.s, p) == RBRACKET {
      TrailingReads(c, p, EndArray(n), log);
    } else {
      ElementReads(c, p, n, log);
    }
  }

  /** A whole document. */
  lemma DocumentPlaced(c: Context)
    ensures Placed(c, Document(c, 0, []))
  {
    hide FollowsComma, SkipBlank, Value, Begins, Leads;
    var s := Skip(c, 0, []);
    assert Leads(c.s, c.f, 0, 0) by { Still(c.s, c.f, 0); }
    if s.Go? {
      Onward(c, 0);
      ValueReads(c, s.pos, []);
    }
  }

  lemma Still(s: seq<byte>, f: Flags, p: nat)
    requires p <= |s|
    ensures Leads(s, f, p, p)
  {
  }

  /** Every refusal in a whole document, and no other error, leaves the parsers apart in this way. */
  lemma DocumentStopsApart(c: Context)
    ensures var r := Document(c, 0, []);
            r.Stop? ==>
              if r.code.Termination? then
                && r.log != [] && !c.accept(r.log)
                && 0 <= r.offset - r.rewind && StopsApart(c.s, c.f, Last(r.log), r.offset, r.offset - r.rewind)
              else
                r.rewind == 0
  {
    hide FollowsComma, Value, SkipBlank;
    DocumentPlaced(c);
  }

  /** A refused opening bracket. */
  lemma RefusedAtOnce(f: Flags, strtod: Strtod)
    ensures var refuse: Acceptance := log => false;
            var r := Document(Context([LBRACKET], f, refuse, strtod), 0, []);
            r == Stop(Termination, 1, 1, [StartArray])
  {
    var c := Context([LBRACKET], f, (log: seq<Event>) => false, strtod);
    assert SkipBlank(c.s, f, 0) == Skipped(0);
  }

  const EndsRefused: Acceptance := (log: seq<Event>) => log == [] || !IsEnd(log[|log| - 1])

  /** What is refused at the end of an array of one empty string. */
  lemma OneElement(c: Context, p: nat)
    requires |c.s| >= 4 && c.s[0] == LBRACKET && c.s[1] == c.s[2] == QUOTE
    requires c.accept([StartArray]) && c.accept([StartArray, String([])])
    requires SkipBlank(c.s, c.f, 3) == Skipped(p)
    requires AfterElement(c, p, 0, [StartArray, String([])]).Stop?
    ensures Document(c, 0, []) == AfterElement(c, p, 0, [StartArray, String([])])
  {
    hide AfterElement, SkipBlank, ObjectFirst, NumberAt, Literal, AfterRoot, StringBody;
    assert SkipBlank(c.s, c.f, 0) == Skipped(0) by { BlankFree(c, 0); }
    assert SkipBlank(c.s, c.f, 1) == Skipped(1) by { BlankFree(c, 1); }
    EmptyString(c.s, c.f, 2);
    var log1 := [] + [StartArray];
    assert log1 == [StartArray];
    var log2 := log1 + [String([])];
    assert log2 == [StartArray, String([])];
    assert Value(c, 1, log1) == Go(3, log2);
    assert Element(c, 1, 0, log1) == AfterElement(c, p, 0, log2);
    assert Value(c, 0, []) == AfterElement(c, p, 0, log2);
  }

  lemma EmptyString(s: seq<byte>, f: Flags, p: nat)
    requires p < |s| && s[p] == QUOTE
    ensures StringBody(s, f, p, []) == Decoded(p + 1, [])
  {
  }

  lemma BlankFree(c: Context, p: nat)
    requires p <= |c.s| && At(c.s, p) != SLASH && !IsWhitespace(At(c.s, p))
    ensures SkipBlank(c.s, c.f, p) == Skipped(p)
  {
  }

  /** A closing bracket refused behind a comma. */
  lemma RefusedBehindComma(f: Flags, strtod: Strtod)
    requires f.trailingCommas
    ensures var s := [LBRACKET, QUOTE, QUOTE, COMMA, RBRACKET];
            Document(Context(s, f, EndsRefused, strtod), 0, []) ==
            Stop(Termination, 4, 0, [StartArray, String([]), EndArray(1)])
  {
    var c := Context([LBRACKET, QUOTE, QUOTE, COMMA, RBRACKET], f, EndsRefused, strtod);
    hide SkipBlank, Document, Element;
    BlankFree(c, 3);
    BlankFree(c, 4);
    OneElement(c, 3);
  }
}
