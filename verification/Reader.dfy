/**
 The reader: recursive descent and the iterative pushdown parser over one cursor, one handler and
 one shared stack. Strings and number text are built on the stack; the iterative parser keeps its
 open containers there as well.
 */
module Reader {
  import opened Bytes
  import opened Numerals
  import opened Sax
  import opened Streams
  import opened Grammar
  import Utf8
  import P = Pushdown
  import R = Refusals

  /** What the shared stack holds: code units, and the sizes the iterative parser pushes. */
  datatype Item = Unit(c: byte) | Size(n: nat)

  const AsUnit: byte -> Item := (c: byte) => Unit(c)

  function Units(bs: seq<byte>): (us: seq<Item>)
    ensures |us| == |bs|
  {
    Utf8.Wrapped(AsUnit, bs)
  }

  function Text(us: seq<Item>): (bs: seq<byte>)
    requires forall i :: 0 <= i < |us| ==> us[i].Unit?
    ensures |bs| == |us|
    ensures forall i :: 0 <= i < |us| ==> us[i] == Unit(bs[i])
  {
    seq<byte>(|us|, i requires 0 <= i < |us| => us[i].c)
  }

  lemma UnitsAppend(a: seq<byte>, b: seq<byte>)
    ensures Units(a + b) == Units(a) + Units(b)
  {
  }

  lemma TextOfUnits(bs: seq<byte>)
    ensures forall i :: 0 <= i < |bs| ==> Units(bs)[i].Unit?
    ensures Text(Units(bs)) == bs
  {
    assert forall i :: 0 <= i < |bs| ==> Units(bs)[i] == Unit(bs[i]);
  }

  /** The text a number leaves on the stack: `s[p..q]` when it is kept. */
  function Kept(keep: bool, s: seq<byte>, p: nat, q: nat): seq<byte>
    requires p <= q <= |s|
  {
    if keep then s[p..q] else []
  }

  lemma KeptMore(keep: bool, s: seq<byte>, p: nat, q: nat)
    requires p <= q < |s|
    ensures Kept(keep, s, p, q + 1) == Kept(keep, s, p, q) + if keep then [s[q]] else []
  {
    assert s[p..q + 1] == s[p..q] + [s[q]];
  }

  /** What is on the stack while the integer that begins at `begin` has been read up to `q`. */
  function KeptInteger(f: Flags, s: seq<byte>, start: nat, begin: nat, q: nat): seq<byte>
    requires start <= begin <= q <= |s|
  {
    if f.numbersAsStrings then Kept(true, s, start, q) else Kept(f.fullPrecision, s, begin, q)
  }

  /** The same while the fraction after the point at `point` has been read up to `q`. */
  function KeptFraction(f: Flags, s: seq<byte>, start: nat, begin: nat, point: nat, q: nat): seq<byte>
    requires start <= begin <= point < q <= |s|
  {
    if f.numbersAsStrings then Kept(true, s, start, q)
    else Kept(f.fullPrecision, s, begin, point) + Kept(f.fullPrecision, s, point + 1, q)
  }

  predicate KeepsDigits(f: Flags) {
    f.numbersAsStrings || f.fullPrecision
  }

  lemma KeptIntegerMore(f: Flags, s: seq<byte>, start: nat, begin: nat, q: nat)
    requires start <= begin <= q < |s|
    ensures KeptInteger(f, s, start, begin, q + 1)
         == KeptInteger(f, s, start, begin, q) + if KeepsDigits(f) then [s[q]] else []
  {
    KeptMore(true, s, start, q);
    KeptMore(f.fullPrecision, s, begin, q);
  }

  lemma KeptFractionMore(f: Flags, s: seq<byte>, start: nat, begin: nat, point: nat, q: nat)
    requires start <= begin <= point < q < |s|
    ensures KeptFraction(f, s, start, begin, point, q + 1)
         == KeptFraction(f, s, start, begin, point, q) + if KeepsDigits(f) then [s[q]] else []
  {
    KeptMore(true, s, start, q);
    KeptMore(f.fullPrecision, s, point + 1, q);
  }

  function Max32(minus: bool): nat {
    if minus then 0x8000_0000 else 0xFFFF_FFFF
  }

  /** A number of at least 922337203685477580 has at least 18 digits. */
  lemma NatOfLength(s: seq<byte>, p: nat, q: nat)
    requires p <= q <= |s| && DigitRun(s, p, q) && NatOf(s, p, q) >= 0x0CCC_CCCC_CCCC_CCCC
    ensures q - p >= 18
  {
    NatOfBelowPow10(s, p, q);
    assert Pow10(5) == 100000;
    assert Pow10(9) == 10000 * Pow10(5);
    assert Pow10(13) == 10000 * Pow10(9);
    assert Pow10(17) == 10000 * Pow10(13);
    if q - p <= 17 {
      Pow10Monotone(q - p, 17);
    }
  }

  /** A digit run that went beyond a bound after `p` denotes more than the bound. */
  lemma Beyond(s: seq<byte>, begin: nat, p: nat, q: nat)
    requires begin <= p < |s| && p <= q <= |s| && DigitRun(s, begin, q) && IsDigit(s[p]) && !IsDigit(At(s, q))
    requires DigitRun(s, begin, p)
    ensures NatOf(s, begin, q) >= NatOf(s, begin, p) * 10 + (s[p] - DIGIT_0)
  {
    NatOfPrefix(s, begin, p + 1, q);
  }

  /** The stack of the iterative parser: a state and a count for each open container. */
  function Pairs(frames: seq<P.Frame>): seq<Item> {
    if frames == [] then []
    else Pairs(P.Rest(frames)) + [Size(P.Code(P.Top(frames).restore)), Size(P.Top(frames).count)]
  }

  lemma PairsAppend(frames: seq<P.Frame>, top: P.Frame)
    ensures Pairs(frames + [top]) == Pairs(frames) + [Size(P.Code(top.restore))] + [Size(top.count)]
  {
    assert P.Rest(frames + [top]) == frames;
  }

  datatype ParseResult = Success | Error(code: ParseErrorCode, offset: nat)

  class GenericReader {
    const stack: Stack<Item>
    const strtod: Strtod
    var parseResult: ParseResult

    constructor (strtod: Strtod)
      ensures parseResult == Success && this.strtod == strtod && fresh(stack)
    {
      this.strtod := strtod;
      parseResult := Success;
      stack := new Stack<Item>();
    }

    function ContextOf(input: StringStream, h: Handler, f: Flags): Context {
      Context(input.src, f, h.accept, strtod)
    }

    predicate HasParseError()
      reads this
    {
      parseResult.Error?
    }

    /** The reader, cursor, handler and stack stand where the step says. */
    ghost predicate Reached(r: Step, input: StringStream, h: Handler, base: seq<Item>)
      reads this, stack, input, h
    {
      match r
      case Go(p, log) => parseResult == Success && input.pos == p && h.log == log && stack.items == base
      case Stop(code, o, _, log) => parseResult == Error(code, o) && h.log == log
    }

    /** An error can be assigned only once. */
    method SetParseError(code: ParseErrorCode, offset: nat)
      requires !HasParseError()
      modifies this
      ensures parseResult == Error(code, offset)
    {
      parseResult := Error(code, offset);
    }

    // -------------------------------------------------------------- blanks

    method SkipWhitespace(input: StringStream)
      requires input.pos <= |input.src|
      modifies input
      ensures input.pos == Grammar.SkipWhitespace(input.src, old(input.pos))
    {
      while IsWhitespace(input.Peek())
        invariant input.pos <= |input.src|
        invariant Grammar.SkipWhitespace(input.src, input.pos) == Grammar.SkipWhitespace(input.src, old(input.pos))
        decreases |input.src| - input.pos
      {
        var _ := input.Take();
      }
    }

    method SkipBlockComment(input: StringStream)
      requires !HasParseError() && input.pos <= |input.src|
      modifies this, input
      ensures match BlockEnd(input.src, old(input.pos))
              case Skipped(q) => parseResult == Success && input.pos == q
              case Unclosed(o) => parseResult == Error(UnspecificSyntaxError, o)
    {
      while true
        invariant input.pos <= |input.src| && parseResult == Success
        invariant BlockEnd(input.src, input.pos) == BlockEnd(input.src, old(input.pos))
        decreases |input.src| - input.pos
      {
        if input.Peek() == NUL {
          SetParseError(UnspecificSyntaxError, input.pos);
          return;
        }
        var star := input.Consume(STAR);
        if star {
          var slash := input.Consume(SLASH);
          if slash {
            return;
          }
        } else {
          var _ := input.Take();
        }
      }
    }

    method SkipLineComment(input: StringStream)
      requires input.pos <= |input.src|
      modifies input
      ensures input.pos == LineEnd(input.src, old(input.pos))
    {
      var more := input.Peek() != NUL;
      while more
        invariant input.pos <= |input.src|
        invariant more ==> input.Peek() != NUL
        invariant if more then LineEnd(input.src, input.pos) == LineEnd(input.src, old(input.pos))
                  else input.pos == LineEnd(input.src, old(input.pos))
        decreases |input.src| - input.pos, more
      {
        var c := input.Take();
        more := c != LF && input.Peek() != NUL;
      }
    }

    method SkipWhitespaceAndComments(input: StringStream, f: Flags)
      requires !HasParseError() && input.pos <= |input.src|
      modifies this, input
      ensures match SkipBlank(input.src, f, old(input.pos))
              case Skipped(q) => parseResult == Success && input.pos == q
              case Unclosed(o) => parseResult == Error(UnspecificSyntaxError, o)
    {
      SkipWhitespace(input);
      if f.comments {
        while input.Peek() == SLASH
          invariant input.pos <= |input.src| && parseResult == Success
          invariant SkipComments(input.src, input.pos) == SkipBlank(input.src, f, old(input.pos))
          decreases |input.src| - input.pos
        {
          var _ := input.Take();
          var star := input.Consume(STAR);
          if star {
            SkipBlockComment(input);
            if HasParseError() {
              return;
            }
          } else {
            var slash := input.Consume(SLASH);
            if slash {
              SkipLineComment(input);
            } else {
              SetParseError(UnspecificSyntaxError, input.pos);
              return;
            }
          }
          SkipWhitespace(input);
        }
      }
    }

    // -------------------------------------------------------------- literals

    /** `Consume(is, a) && Consume(is, b) && ...` */
    method ConsumeAll(input: StringStream, lit: seq<byte>) returns (all: bool)
      requires input.pos <= |input.src| && NUL !in lit
      modifies input
      ensures input.pos == old(input.pos) + Matching(input.src, old(input.pos), lit)
      ensures all == (Matching(input.src, old(input.pos), lit) == |lit|)
    {
      var i := 0;
      while i < |lit|
        invariant 0 <= i <= |lit|
        invariant input.pos == old(input.pos) + i <= |input.src|
        invariant Matching(input.src, old(input.pos), lit) == i + Matching(input.src, input.pos, lit[i..])
      {
        var hit := input.Consume(lit[i]);
        if !hit {
          return false;
        }
        assert lit[i..][1..] == lit[i + 1..];
        i := i + 1;
      }
      return true;
    }

    method ParseLiteral(input: StringStream, h: Handler, tail: seq<byte>, e: Event, ghost f: Flags)
      requires !HasParseError() && input.pos < |input.src| && NUL !in tail && !IsBracket(e)
      modifies this, input, h
      ensures Reached(Literal(ContextOf(input, h, f), old(input.pos), tail, e, old(h.log)), input, h, stack.items)
    {
      var _ := input.Take();
      var all := ConsumeAll(input, tail);
      if all {
        var ok := h.Handle(e);
        if !ok {
          SetParseError(Termination, input.pos);
        }
      } else {
        SetParseError(ValueInvalid, input.pos);
      }
    }

    // -------------------------------------------------------------- strings

    method ParseHex4(input: StringStream, escapeOffset: nat) returns (codepoint: nat)
      requires !HasParseError() && input.pos <= |input.src|
      modifies this, input
      ensures match HexValue(input.src, old(input.pos), 4)
              case Hex(v) => parseResult == Success && codepoint == v && input.pos == old(input.pos) + 4
              case NotHex => parseResult == Error(StringUnicodeEscapeInvalidHex, escapeOffset)
    {
      codepoint := 0;
      ghost var start := input.pos;
      for i := 0 to 4
        invariant parseResult == Success && input.pos == start + i
        invariant HexValue(input.src, start, i) == Hex(codepoint)
      {
        var c := input.Peek();
        codepoint := codepoint * 16;
        if DIGIT_0 <= c <= DIGIT_9 {
          codepoint := codepoint + (c - DIGIT_0);
        } else if UPPER_A <= c <= UPPER_F {
          codepoint := codepoint + (c - (UPPER_A - 10));
        } else if LOWER_A <= c <= LOWER_F {
          codepoint := codepoint + (c - (LOWER_A - 10));
        } else {
          SetParseError(StringUnicodeEscapeInvalidHex, escapeOffset);
          HexValueFails(input.src, start, i + 1, 4);
          return 0;
        }
        var _ := input.Take();
      }
    }

    lemma {:induction false} HexValueFails(s: seq<byte>, p: nat, i: nat, n: nat)
      requires HexValue(s, p, i).NotHex? && i <= n
      ensures HexValue(s, p, n).NotHex?
      decreases n - i
    {
      if i < n {
        HexValueFails(s, p, i + 1, n);
      }
    }

    /** `\uXXXX` with the cursor at the `u`; a high surrogate must be followed by a low one. */
    method ParseUnicodeEscape(input: StringStream, escapeOffset: nat)
      requires !HasParseError() && escapeOffset + 1 == input.pos < |input.src|
      modifies this, stack, input
      ensures match UnicodeEscape(input.src, escapeOffset)
              case Bytes(q, bs) => parseResult == Success && input.pos == q &&
                                   stack.items == old(stack.items) + Units(bs)
              case Bad(code, o) => parseResult == Error(code, o)
              case Close(_) => false
    {
      hide Utf8.Encoding, HexValue;
      var _ := input.Take();
      var codepoint := ParseHex4(input, escapeOffset);
      if HasParseError() {
        return;
      }
      if 0xD800 <= codepoint <= 0xDFFF {
        var low := codepoint <= 0xDBFF;
        if low {
          low := input.Consume(BACKSLASH);
        }
        if low {
          low := input.Consume(LOWER_U);
        }
        if !low {
          SetParseError(StringUnicodeSurrogateInvalid, escapeOffset);
          return;
        }
        var codepoint2 := ParseHex4(input, escapeOffset);
        if HasParseError() {
          return;
        }
        if codepoint2 < 0xDC00 || codepoint2 > 0xDFFF {
          SetParseError(StringUnicodeSurrogateInvalid, escapeOffset);
          return;
        }
        codepoint := (codepoint - 0xD800) * 0x400 + (codepoint2 - 0xDC00) + 0x10000;
      }
      Utf8.Encode(stack, AsUnit, codepoint);
    }

    /** The escape whose backslash is at the cursor. */
    method ParseEscape(input: StringStream, f: Flags)
      requires !HasParseError() && input.pos < |input.src| && input.Peek() == BACKSLASH
      modifies this, stack, input
      ensures match StringChunk(input.src, f, old(input.pos))
              case Bytes(q, bs) => parseResult == Success && input.pos == q &&
                                   stack.items == old(stack.items) + Units(bs)
              case Close(_) => false
              case Bad(code, o) => parseResult == Error(code, o)
    {
      var escapeOffset := input.pos;
      var _ := input.Take();
      var e := input.Peek();
      if Unescaped(e) != 0 {
        var _ := input.Take();
        stack.Push(Unit(Unescaped(e)));
      } else if f.escapedApostrophe && e == APOSTROPHE {
        var _ := input.Take();
        stack.Push(Unit(APOSTROPHE));
      } else if e == LOWER_U {
        ParseUnicodeEscape(input, escapeOffset);
      } else {
        SetParseError(StringEscapeInvalid, escapeOffset);
      }
    }

    lemma QuoteCloses(s: seq<byte>, f: Flags, p: nat)
      requires p <= |s| && At(s, p) == QUOTE
      ensures StringChunk(s, f, p) == Close(p + 1)
    {
    }

    method ParseStringToStream(input: StringStream, f: Flags)
      requires !HasParseError() && input.pos <= |input.src|
      modifies this, stack, input
      ensures match StringBody(input.src, f, old(input.pos), [])
              case Decoded(q, text) =>
                parseResult == Success && input.pos == q && stack.items == old(stack.items) + Units(text + [NUL])
              case BadString(code, o) => parseResult == Error(code, o)
    {
      hide StringChunk;
      ghost var out: seq<byte> := [];
      ghost var base := stack.items;
      while true
        invariant input.pos <= |input.src| && parseResult == Success
        invariant stack.items == base + Units(out)
        invariant StringBody(input.src, f, input.pos, out) == StringBody(input.src, f, old(input.pos), [])
        decreases |input.src| - input.pos
      {
        var c := input.Peek();
        ghost var chunk := StringChunk(input.src, f, input.pos);
        if c == QUOTE {
          QuoteCloses(input.src, f, input.pos);
          var _ := input.Take();
          stack.Push(Unit(NUL));
          assert stack.items == base + Units(out) + Units([NUL]);
          UnitsAppend(out, [NUL]);
          return;
        }
        ParseStringUnit(input, f);
        if HasParseError() {
          return;
        }
        UnitsAppend(out, chunk.bytes);
        out := out + chunk.bytes;
      }
    }

    /** One pass through the decoding loop that is not at the closing quote. */
    method ParseStringUnit(input: StringStream, f: Flags)
      requires !HasParseError() && input.pos <= |input.src| && input.Peek() != QUOTE
      modifies this, stack, input
      ensures match StringChunk(input.src, f, old(input.pos))
              case Bytes(q, bs) => parseResult == Success && input.pos == q &&
                                   stack.items == old(stack.items) + Units(bs)
              case Close(_) => false
              case Bad(code, o) => parseResult == Error(code, o)
    {
      var c := input.Peek();
      if c == BACKSLASH {
        ParseEscape(input, f);
      } else if c < SPACE {
        SetParseError(if c == NUL then StringMissQuotationMark else StringInvalidEncoding, input.pos);
      } else if f.validateEncoding {
        var offset := input.pos;
        var ok := Utf8.Validate(input, stack, AsUnit);
        if ok {
          Utf8.DecodedIsScalar(input.src, offset);
          Utf8.WellFormedTakesAll(input.src, offset);
        } else {
          SetParseError(StringInvalidEncoding, offset);
        }
      } else {
        var u := input.Take();
        stack.Push(Unit(u));
      }
    }

    /** Takes what has been built above `bottom` off the stack. */
    method PopText(bottom: nat, ghost base: seq<Item>, ghost text: seq<byte>) returns (str: seq<byte>)
      requires bottom == |base| && stack.items == base + Units(text)
      modifies stack
      ensures str == text && stack.items == base
    {
      TextOfUnits(text);
      var units := stack.Pop(|stack.items| - bottom);
      assert units == (stack.items + units)[bottom..] == Units(text);
      str := Text(units);
    }

    method ParseString(input: StringStream, h: Handler, f: Flags, isKey: bool)
      requires !HasParseError() && input.pos < |input.src| && input.Peek() == QUOTE
      modifies this, stack, input, h
      ensures Reached(StringAt(ContextOf(input, h, f), old(input.pos), isKey, old(h.log)), input, h, old(stack.items))
    {
      var base := |stack.items|;
      var _ := input.Take();
      ParseStringToStream(input, f);
      if HasParseError() {
        return;
      }
      ghost var text := StringBody(input.src, f, old(input.pos) + 1, []).text;
      var units := PopText(base, old(stack.items), text + [NUL]);
      var str := units[..|units| - 1];
      assert str == text;
      var ok := h.Handle(if isKey then Key(str) else String(str));
      if !ok {
        SetParseError(Termination, input.pos);
      }
    }

    // -------------------------------------------------------------- numbers

    /** `TakePush` of the number stream: the digits are kept when they are needed as text. */
    method TakePush(input: StringStream, f: Flags, ghost base: seq<Item>, ghost text: seq<byte>) returns (c: byte)
      requires stack.items == base + Units(text)
      modifies stack, input
      ensures c == old(input.Peek()) && input.pos == old(input.pos) + 1
      ensures stack.items == base + Units(text + if KeepsDigits(f) then [c] else [])
    {
      c := input.Take();
      UnitsAppend(text, if KeepsDigits(f) then [c] else []);
      if KeepsDigits(f) {
        stack.Push(Unit(c));
      }
    }

    method TakeIntegerDigit(input: StringStream, f: Flags, ghost start: nat, ghost begin: nat, ghost base: seq<Item>)
      returns (c: byte)
      requires start <= begin <= input.pos < |input.src|
      requires stack.items == base + Units(KeptInteger(f, input.src, start, begin, input.pos))
      modifies stack, input
      ensures c == old(input.Peek()) && input.pos == old(input.pos) + 1
      ensures stack.items == base + Units(KeptInteger(f, input.src, start, begin, input.pos))
    {
      KeptIntegerMore(f, input.src, start, begin, input.pos);
      c := TakePush(input, f, base, KeptInteger(f, input.src, start, begin, input.pos));
    }

    method TakeFractionDigit(input: StringStream, f: Flags, ghost start: nat, ghost begin: nat, ghost point: nat,
                             ghost base: seq<Item>)
      returns (c: byte)
      requires start <= begin <= point < input.pos < |input.src|
      requires stack.items == base + Units(KeptFraction(f, input.src, start, begin, point, input.pos))
      modifies stack, input
      ensures c == old(input.Peek()) && input.pos == old(input.pos) + 1
      ensures stack.items == base + Units(KeptFraction(f, input.src, start, begin, point, input.pos))
    {
      KeptFractionMore(f, input.src, start, begin, point, input.pos);
      c := TakePush(input, f, base, KeptFraction(f, input.src, start, begin, point, input.pos));
    }

    /** `Take` of the number stream: signs, points and exponents are kept only for a raw number. */
    method TakeRaw(input: StringStream, f: Flags, ghost start: nat, ghost base: seq<Item>) returns (c: byte)
      requires start <= input.pos < |input.src|
      requires f.numbersAsStrings ==> stack.items == base + Units(input.src[start..input.pos])
      modifies stack, input
      ensures c == old(input.Peek()) && input.pos == old(input.pos) + 1
      ensures if f.numbersAsStrings then stack.items == base + Units(input.src[start..input.pos])
              else stack.items == old(stack.items)
    {
      c := input.Take();
      if f.numbersAsStrings {
        KeptMore(true, input.src, start, old(input.pos));
        UnitsAppend(input.src[start..old(input.pos)], [c]);
        stack.Push(Unit(c));
      }
    }

    method ConsumeRaw(input: StringStream, f: Flags, unit: byte, ghost start: nat, ghost base: seq<Item>)
      returns (hit: bool)
      requires start <= input.pos <= |input.src| && unit != NUL
      requires f.numbersAsStrings ==> stack.items == base + Units(input.src[start..input.pos])
      modifies stack, input
      ensures hit == (old(input.Peek()) == unit)
      ensures input.pos == (if hit then old(input.pos) + 1 else old(input.pos)) <= |input.src|
      ensures if f.numbersAsStrings then stack.items == base + Units(input.src[start..input.pos])
              else stack.items == old(stack.items)
    {
      hit := input.Peek() == unit;
      if hit {
        var _ := TakeRaw(input, f, start, base);
      }
    }

    method ConsumeAllRaw(input: StringStream, f: Flags, lit: seq<byte>, ghost start: nat, ghost base: seq<Item>)
      returns (all: bool)
      requires start <= input.pos <= |input.src| && NUL !in lit
      requires f.numbersAsStrings ==> stack.items == base + Units(input.src[start..input.pos])
      modifies stack, input
      ensures input.pos == old(input.pos) + Matching(input.src, old(input.pos), lit)
      ensures all == (Matching(input.src, old(input.pos), lit) == |lit|)
      ensures if f.numbersAsStrings then stack.items == base + Units(input.src[start..input.pos])
              else stack.items == old(stack.items)
    {
      var i := 0;
      while i < |lit|
        invariant 0 <= i <= |lit|
        invariant input.pos == old(input.pos) + i <= |input.src|
        invariant Matching(input.src, old(input.pos), lit) == i + Matching(input.src, input.pos, lit[i..])
        invariant if f.numbersAsStrings then stack.items == base + Units(input.src[start..input.pos])
                  else stack.items == old(stack.items)
      {
        var hit := ConsumeRaw(input, f, lit[i], start, base);
        if !hit {
          return false;
        }
        assert lit[i..][1..] == lit[i + 1..];
        i := i + 1;
      }
      return true;
    }

    /** One digit run into one integer, as far as it stays at most `limit * 10 + last`. */
    method AccumulateDigits(input: StringStream, f: Flags, acc: nat, limit: nat, last: nat, digits: nat,
                            ghost start: nat, ghost begin: nat, ghost base: seq<Item>)
      returns (acc': nat, overflow: bool, digits': nat)
      requires start <= begin <= input.pos <= |input.src| && last <= 9
      requires DigitRun(input.src, begin, input.pos) && acc == NatOf(input.src, begin, input.pos)
      requires acc <= limit * 10 + last && digits + 1 == input.pos - begin
      requires stack.items == base + Units(KeptInteger(f, input.src, start, begin, input.pos))
      modifies stack, input
      ensures old(input.pos) <= input.pos <= |input.src|
      ensures DigitRun(input.src, begin, input.pos) && acc' == NatOf(input.src, begin, input.pos)
      ensures acc' <= limit * 10 + last && digits' + 1 == input.pos - begin
      ensures if overflow then IsDigit(input.Peek()) && acc' >= limit &&
                               acc' * 10 + (input.Peek() - DIGIT_0) > limit * 10 + last
              else !IsDigit(input.Peek())
      ensures stack.items == base + Units(KeptInteger(f, input.src, start, begin, input.pos))
    {
      acc', overflow, digits' := acc, false, digits;
      while IsDigit(input.Peek())
        invariant old(input.pos) <= input.pos <= |input.src|
        invariant DigitRun(input.src, begin, input.pos) && acc' == NatOf(input.src, begin, input.pos)
        invariant acc' <= limit * 10 + last && digits' + 1 == input.pos - begin
        invariant stack.items == base + Units(KeptInteger(f, input.src, start, begin, input.pos))
        invariant !overflow
        decreases |input.src| - input.pos
      {
        if acc' >= limit && (acc' != limit || input.Peek() > DIGIT_0 + last) {
          overflow := true;
          return;
        }
        var c := TakeIntegerDigit(input, f, start, begin, base);
        acc' := acc' * 10 + (c - DIGIT_0);
        digits' := digits' + 1;
      }
    }

    /** What the integer part leaves in the locals, `n` being its value and `len` its length. */
    ghost predicate IntegerState(minus: bool, n: nat, len: nat, i: nat, i64: nat, use64bit: bool, useDouble: bool,
                                 d: nat, digits: nat)
    {
      && useDouble == !FitsInteger(minus, n)
      && (useDouble ==> d == n && digits >= 17 && len >= 18)
      && (!useDouble && use64bit ==> i64 == n && n > Max32(minus))
      && (!useDouble && !use64bit ==> i == n && n <= Max32(minus))
      && (!useDouble ==> digits == if len == 0 then 0 else len - 1)
    }

    method ParseSpecial(input: StringStream, f: Flags, minus: bool, ghost start: nat, ghost base: seq<Item>)
      returns (special: Special)
      requires !HasParseError() && start <= input.pos < |input.src|
      requires input.Peek() == UPPER_I || input.Peek() == UPPER_N
      requires f.numbersAsStrings ==> stack.items == base + Units(input.src[start..input.pos])
      modifies this, stack, input
      ensures input.pos <= |input.src|
      ensures (input.pos, special) == SpelledOut(input.src, old(input.pos), minus)
      ensures parseResult == if special.Plain? then Error(ValueInvalid, input.pos) else Success
      ensures if f.numbersAsStrings then stack.items == base + Units(input.src[start..input.pos])
              else stack.items == old(stack.items)
    {
      special := Plain;
      var first := TakeRaw(input, f, start, base);
      if first == UPPER_N {
        var an := ConsumeAllRaw(input, f, NAN_TAIL, start, base);
        if an {
          special := Spelled(Double.NaN);
        }
      } else {
        var nf := ConsumeAllRaw(input, f, INF_TAIL, start, base);
        if nf {
          special := Spelled(Double.Inf(minus));
          if input.Peek() == LOWER_I {
            var inity := ConsumeAllRaw(input, f, INITY, start, base);
            if !inity {
              special := Plain;
            }
          }
        }
      }
      if special.Plain? {
        SetParseError(ValueInvalid, input.pos);
      }
    }

    /** Digits that fit no integer go into the double. */
    method ParseBigInteger(input: StringStream, f: Flags, i64: nat, ghost start: nat, ghost begin: nat,
                           ghost base: seq<Item>)
      returns (d: nat)
      requires start <= begin <= input.pos <= |input.src|
      requires DigitRun(input.src, begin, input.pos) && i64 == NatOf(input.src, begin, input.pos)
      requires stack.items == base + Units(KeptInteger(f, input.src, start, begin, input.pos))
      modifies stack, input
      ensures old(input.pos) <= input.pos <= |input.src| && !IsDigit(input.Peek())
      ensures DigitRun(input.src, begin, input.pos) && d == NatOf(input.src, begin, input.pos)
      ensures stack.items == base + Units(KeptInteger(f, input.src, start, begin, input.pos))
    {
      d := i64;
      while IsDigit(input.Peek())
        invariant old(input.pos) <= input.pos <= |input.src|
        invariant DigitRun(input.src, begin, input.pos) && d == NatOf(input.src, begin, input.pos)
        invariant stack.items == base + Units(KeptInteger(f, input.src, start, begin, input.pos))
        decreases |input.src| - input.pos
      {
        var c := TakeIntegerDigit(input, f, start, begin, base);
        d := d * 10 + (c - DIGIT_0);
      }
    }

    method ParseFirstDigit(input: StringStream, f: Flags, ghost start: nat, ghost begin: nat, ghost base: seq<Item>)
      returns (i: nat)
      requires start <= begin == input.pos < |input.src| && IsDigit(input.Peek())
      requires stack.items == base + Units(KeptInteger(f, input.src, start, begin, begin))
      modifies stack, input
      ensures input.pos == begin + 1 <= |input.src| && i == input.src[begin] - DIGIT_0
      ensures DigitRun(input.src, begin, begin + 1) && NatOf(input.src, begin, begin + 1) == i
      ensures stack.items == base + Units(KeptInteger(f, input.src, start, begin, begin + 1))
    {
      var c := TakeIntegerDigit(input, f, start, begin, base);
      i := c - DIGIT_0;
    }

    /** digit1-9 *DIGIT, first into 32 bits, then into 64, then into the double. */
    method ParseNonzero(input: StringStream, f: Flags, minus: bool, ghost start: nat, ghost begin: nat,
                        ghost base: seq<Item>)
      returns (i: nat, i64: nat, use64bit: bool, useDouble: bool, d: nat, digits: nat)
      requires start <= begin == input.pos < |input.src| && IsDigit(input.Peek())
      requires stack.items == base + Units(KeptInteger(f, input.src, start, begin, begin))
      modifies stack, input
      ensures begin < input.pos == DigitsEnd(input.src, begin)
      ensures IntegerState(minus, NatOf(input.src, begin, input.pos), input.pos - begin, i, i64, use64bit, useDouble, d,
                           digits)
      ensures stack.items == base + Units(KeptInteger(f, input.src, start, begin, input.pos))
    {
      hide KeptInteger, Units, Kept;
      i := ParseFirstDigit(input, f, start, begin, base);
      i64, use64bit, useDouble, d, digits := 0, false, false, 0, 0;
      i, use64bit, digits :=
        AccumulateDigits(input, f, i, if minus then 214748364 else 429496729, if minus then 8 else 5, 0, start, begin,
                         base);
      if use64bit {
        i64 := i;
        ghost var p := input.pos;
        i64, useDouble, digits :=
          AccumulateDigits(input, f, i64, if minus then 0x0CCC_CCCC_CCCC_CCCC else 0x1999_9999_9999_9999,
                           if minus then 8 else 5, digits, start, begin, base);
        if useDouble {
          NatOfLength(input.src, begin, input.pos);
          p := input.pos;
          d := ParseBigInteger(input, f, i64, start, begin, base);
        }
        Beyond(input.src, begin, p, input.pos);
      }
      DigitsEndUnique(input.src, begin, input.pos);
    }

    /** int = zero / ( digit1-9 *DIGIT ), or a spelled-out value. */
    method ParseInteger(input: StringStream, f: Flags, minus: bool, ghost start: nat, ghost base: seq<Item>)
      returns (i: nat, i64: nat, use64bit: bool, useDouble: bool, d: nat, digits: nat, special: Special,
               ghost begin: nat)
      requires !HasParseError() && start <= input.pos <= |input.src|
      requires minus == (At(input.src, start) == MINUS) && input.pos == if minus then start + 1 else start
      requires stack.items == base + Units(KeptInteger(f, input.src, start, input.pos, input.pos))
      modifies this, stack, input
      ensures match parseResult
              case Error(code, o) => NumberLayout(input.src, f, start) == BadLayout(code, o)
              case Success =>
                && start <= begin <= input.pos <= |input.src| && start < input.pos
                && DigitRun(input.src, begin, input.pos)
                && NumberLayout(input.src, f, start) ==
                     FractionLayout(input.src, start, minus, special, begin, input.pos)
                && IntegerState(minus, NatOf(input.src, begin, input.pos), input.pos - begin, i, i64, use64bit,
                                useDouble, d, digits)
                && (special.Spelled? ==> begin == input.pos)
                && stack.items == base + Units(KeptInteger(f, input.src, start, begin, input.pos))
    {
      i, i64, use64bit, useDouble, d, digits, special := 0, 0, false, false, 0, 0, Plain;
      begin := input.pos;
      var b := input.Peek();
      if b == DIGIT_0 {
        var _ := ParseFirstDigit(input, f, start, begin, base);
      } else if IsDigit(b) {
        i, i64, use64bit, useDouble, d, digits := ParseNonzero(input, f, minus, start, begin, base);
      } else if f.nanAndInf && (b == UPPER_I || b == UPPER_N) {
        special := ParseSpecial(input, f, minus, start, base);
        begin := input.pos;
      } else {
        SetParseError(ValueInvalid, input.pos);
      }
    }

    /** Fraction digits into the 64-bit significand, as long as a double holds it exactly. */
    method ParseExactFraction(input: StringStream, f: Flags, sig0: nat, digits0: nat, ghost target: Significand,
                              ghost start: nat, ghost begin: nat, ghost point: nat, ghost base: seq<Item>)
      returns (sig: nat, expFrac: int, digits: nat)
      requires start <= begin <= point < input.pos <= |input.src|
      requires Fraction(input.src, input.pos, DigitsEnd(input.src, input.pos), sig0, 0, digits0) == target
      requires stack.items == base + Units(KeptFraction(f, input.src, start, begin, point, input.pos))
      modifies stack, input
      ensures old(input.pos) <= input.pos <= |input.src|
      ensures DigitsEnd(input.src, input.pos) == DigitsEnd(input.src, old(input.pos))
      ensures expFrac <= 0 && (IsDigit(input.Peek()) ==> sig > 0x1F_FFFF_FFFF_FFFF)
      ensures Fraction(input.src, input.pos, DigitsEnd(input.src, input.pos), sig, -expFrac, digits) == target
      ensures stack.items == base + Units(KeptFraction(f, input.src, start, begin, point, input.pos))
    {
      sig, expFrac, digits := sig0, 0, digits0;
      while IsDigit(input.Peek()) && sig <= 0x1F_FFFF_FFFF_FFFF
        invariant old(input.pos) <= input.pos <= |input.src|
        invariant DigitsEnd(input.src, input.pos) == DigitsEnd(input.src, old(input.pos))
        invariant expFrac <= 0
        invariant Fraction(input.src, input.pos, DigitsEnd(input.src, input.pos), sig, -expFrac, digits) == target
        invariant stack.items == base + Units(KeptFraction(f, input.src, start, begin, point, input.pos))
        decreases |input.src| - input.pos
      {
        var c := TakeFractionDigit(input, f, start, begin, point, base);
        sig := sig * 10 + (c - DIGIT_0);
        expFrac := expFrac - 1;
        if sig != 0 {
          digits := digits + 1;
        }
      }
    }

    /** Fraction digits into a significand that is beyond exactness, as long as it has fewer than 17 digits. */
    method ParseLongFraction(input: StringStream, f: Flags, d0: nat, expFrac0: int, digits0: nat,
                             ghost target: Significand, ghost start: nat, ghost begin: nat, ghost point: nat,
                             ghost base: seq<Item>)
      returns (d: nat, expFrac: int)
      requires start <= begin <= point < input.pos <= |input.src|
      requires expFrac0 <= 0 && (IsDigit(input.Peek()) ==> d0 > 0x1F_FFFF_FFFF_FFFF)
      requires Fraction(input.src, input.pos, DigitsEnd(input.src, input.pos), d0, -expFrac0, digits0) == target
      requires stack.items == base + Units(KeptFraction(f, input.src, start, begin, point, input.pos))
      modifies stack, input
      ensures input.pos == DigitsEnd(input.src, old(input.pos)) && expFrac <= 0
      ensures Significand(d, -expFrac) == target
      ensures stack.items == base + Units(KeptFraction(f, input.src, start, begin, point, input.pos))
    {
      var digits := digits0;
      d, expFrac := d0, expFrac0;
      while IsDigit(input.Peek())
        invariant old(input.pos) <= input.pos <= |input.src|
        invariant DigitsEnd(input.src, input.pos) == DigitsEnd(input.src, old(input.pos))
        invariant expFrac <= 0 && (IsDigit(input.Peek()) ==> d > 0x1F_FFFF_FFFF_FFFF)
        invariant Fraction(input.src, input.pos, DigitsEnd(input.src, input.pos), d, -expFrac, digits) == target
        invariant stack.items == base + Units(KeptFraction(f, input.src, start, begin, point, input.pos))
        decreases |input.src| - input.pos
      {
        var c := TakeFractionDigit(input, f, start, begin, point, base);
        if digits < 17 {
          d := d * 10 + (c - DIGIT_0);
          expFrac := expFrac - 1;
          if d > 0 {
            digits := digits + 1;
          }
        }
      }
    }

    method ParseFractionDigits(input: StringStream, f: Flags, i: nat, i64: nat, use64bit: bool, useDouble: bool,
                               d0: nat, digits0: nat, ghost minus: bool, ghost start: nat, ghost begin: nat,
                               ghost point: nat, ghost base: seq<Item>)
      returns (d: nat, expFrac: int)
      requires start <= begin <= point < input.pos <= |input.src| && input.pos == point + 1
      requires DigitRun(input.src, begin, point) && IsDigit(input.Peek())
      requires IntegerState(minus, NatOf(input.src, begin, point), point - begin, i, i64, use64bit, useDouble, d0,
                            digits0)
      requires stack.items == base + Units(KeptFraction(f, input.src, start, begin, point, input.pos))
      modifies stack, input
      ensures input.pos == DigitsEnd(input.src, point + 1)
      ensures expFrac <= 0
      ensures SignificandAt(input.src, begin, point, input.pos) == Significand(d, -expFrac)
      ensures stack.items == base + Units(KeptFraction(f, input.src, start, begin, point, input.pos))
    {
      ghost var target := SignificandAt(input.src, begin, point, DigitsEnd(input.src, input.pos));
      var digits := digits0;
      d, expFrac := d0, 0;
      if !useDouble {
        d, expFrac, digits := ParseExactFraction(input, f, if use64bit then i64 else i, digits0, target, start, begin,
                                                 point, base);
      }
      d, expFrac := ParseLongFraction(input, f, d, expFrac, digits, target, start, begin, point, base);
    }

    method ConsumePoint(input: StringStream, f: Flags, ghost start: nat, ghost begin: nat, ghost base: seq<Item>)
      returns (dot: bool)
      requires start <= begin <= input.pos <= |input.src|
      requires stack.items == base + Units(KeptInteger(f, input.src, start, begin, input.pos))
      modifies stack, input
      ensures var j := old(input.pos);
              && dot == (At(input.src, j) == DOT)
              && input.pos == (if dot then j + 1 else j) <= |input.src|
              && stack.items ==
                   (if dot then base + Units(KeptFraction(f, input.src, start, begin, j, j + 1)) else old(stack.items))
              && (!f.numbersAsStrings ==> stack.items == old(stack.items))
    {
      ghost var j := input.pos;
      dot := ConsumeRaw(input, f, DOT, start, base);
      if dot {
        assert !f.numbersAsStrings ==>
            KeptFraction(f, input.src, start, begin, j, j + 1) == KeptInteger(f, input.src, start, begin, j);
      }
    }

    /** frac = decimal-point 1*DIGIT */
    method ParseFraction(input: StringStream, f: Flags, i: nat, i64: nat, use64bit: bool, useDouble0: bool,
                         d0: nat, digits: nat, bottom: nat, ghost minus: bool, ghost special: Special,
                         ghost start: nat, ghost begin: nat, ghost base: seq<Item>)
      returns (d: nat, useDouble: bool, expFrac: int, decimalPosition: nat)
      requires !HasParseError() && start <= begin <= input.pos <= |input.src| && start < input.pos
      requires DigitRun(input.src, begin, input.pos) && bottom == |base|
      requires IntegerState(minus, NatOf(input.src, begin, input.pos), input.pos - begin, i, i64, use64bit, useDouble0,
                            d0, digits)
      requires stack.items == base + Units(KeptInteger(f, input.src, start, begin, input.pos))
      modifies this, stack, input
      ensures parseResult.Error? ==>
                FractionLayout(input.src, start, minus, special, begin, old(input.pos))
                == BadLayout(parseResult.code, parseResult.offset)
      ensures parseResult.Success? ==>
                var j, k := old(input.pos), input.pos;
                && j <= k <= |input.src|
                && (j < k ==> j + 1 < k && DigitRun(input.src, j + 1, k))
                && FractionLayout(input.src, start, minus, special, begin, j)
                   == ExponentLayout(input.src, start, minus, special, begin, j, k)
                && useDouble == (useDouble0 || j < k)
                && expFrac <= 0
                && SignificandAt(input.src, begin, j, k).absorbed == -expFrac
                && (useDouble ==> SignificandAt(input.src, begin, j, k).d == d)
                && stack.items == base + Units(if j < k then KeptFraction(f, input.src, start, begin, j, k)
                                               else KeptInteger(f, input.src, start, begin, j))
                && (f.fullPrecision && !f.numbersAsStrings ==> decimalPosition == j - begin)
    {
      d, useDouble, expFrac := d0, useDouble0, 0;
      ghost var point := input.pos;
      var dot := ConsumePoint(input, f, start, begin, base);
      decimalPosition := |stack.items| - bottom;
      if dot {
        if !IsDigit(input.Peek()) {
          SetParseError(NumberMissFraction, input.pos);
          return;
        }
        d, expFrac := ParseFractionDigits(input, f, i, i64, use64bit, useDouble, d, digits, minus,
                                          start, begin, point, base);
        useDouble := true;
      }
    }

    method SkipDigits(input: StringStream, f: Flags, ghost start: nat, ghost base: seq<Item>)
      requires start <= input.pos <= |input.src|
      requires f.numbersAsStrings ==> stack.items == base + Units(input.src[start..input.pos])
      modifies stack, input
      ensures input.pos == DigitsEnd(input.src, old(input.pos))
      ensures if f.numbersAsStrings then stack.items == base + Units(input.src[start..input.pos])
              else stack.items == old(stack.items)
    {
      while IsDigit(input.Peek())
        invariant start <= input.pos <= |input.src| &&
                  DigitsEnd(input.src, input.pos) == DigitsEnd(input.src, old(input.pos))
        invariant if f.numbersAsStrings then stack.items == base + Units(input.src[start..input.pos])
                  else stack.items == old(stack.items)
        decreases |input.src| - input.pos
      {
        var _ := TakeRaw(input, f, start, base);
      }
    }

    /** The digits of a negative exponent: one that has passed `maxExp` is not accumulated any further. */
    method ParseNegativeExponent(input: StringStream, f: Flags, first: nat, maxExp: int,
                                 ghost start: nat, ghost base: seq<Item>)
      returns (exp: nat)
      requires start <= input.pos <= |input.src|
      requires f.numbersAsStrings ==> stack.items == base + Units(input.src[start..input.pos])
      modifies stack, input
      ensures input.pos == DigitsEnd(input.src, old(input.pos))
      ensures exp == CappedExponent(input.src, old(input.pos), input.pos, first, maxExp)
      ensures if f.numbersAsStrings then stack.items == base + Units(input.src[start..input.pos])
              else stack.items == old(stack.items)
    {
      exp := first;
      ghost var q := DigitsEnd(input.src, input.pos);
      while IsDigit(input.Peek())
        invariant start <= input.pos <= q && q == DigitsEnd(input.src, input.pos)
        invariant CappedExponent(input.src, input.pos, q, exp, maxExp)
               == CappedExponent(input.src, old(input.pos), q, first, maxExp)
        invariant if f.numbersAsStrings then stack.items == base + Units(input.src[start..input.pos])
                  else stack.items == old(stack.items)
        decreases q - input.pos
      {
        var c := TakeRaw(input, f, start, base);
        exp := exp * 10 + (c - DIGIT_0);
        if exp > maxExp {
          SkipDigits(input, f, start, base);
        }
      }
    }

    /** The digits of a positive exponent: passing `maxExp` is an error. */
    method ParsePositiveExponent(input: StringStream, f: Flags, first: nat, maxExp: int, startOffset: nat,
                                 ghost x: nat, ghost base: seq<Item>)
      returns (exp: nat)
      requires !HasParseError() && startOffset <= x < input.pos <= |input.src| && input.pos == x + 1
      requires IsDigit(At(input.src, x)) && first == At(input.src, x) - DIGIT_0 && maxExp >= 308
      requires f.numbersAsStrings ==> stack.items == base + Units(input.src[startOffset..input.pos])
      modifies this, stack, input
      ensures var q := DigitsEnd(input.src, x);
              if NatOf(input.src, x, q) > maxExp then parseResult == Error(NumberTooBig, startOffset)
              else
                && parseResult == Success && input.pos == q && exp == NatOf(input.src, x, q)
                && (if f.numbersAsStrings then stack.items == base + Units(input.src[startOffset..input.pos])
                    else stack.items == old(stack.items))
    {
      exp := first;
      ghost var q := DigitsEnd(input.src, x);
      while IsDigit(input.Peek())
        invariant x < input.pos <= q && q == DigitsEnd(input.src, input.pos) && parseResult == Success
        invariant DigitRun(input.src, x, input.pos) && exp == NatOf(input.src, x, input.pos) && exp <= maxExp
        invariant if f.numbersAsStrings then stack.items == base + Units(input.src[startOffset..input.pos])
                  else stack.items == old(stack.items)
        decreases q - input.pos
      {
        var c := TakeRaw(input, f, startOffset, base);
        exp := exp * 10 + (c - DIGIT_0);
        if exp > maxExp {
          NatOfPrefix(input.src, x, input.pos, q);
          SetParseError(NumberTooBig, startOffset);
          return;
        }
      }
    }

    method ParseExponentDigits(input: StringStream, f: Flags, expMinus: bool, expFrac: int, startOffset: nat,
                               ghost base: seq<Item>)
      returns (exp: int)
      requires !HasParseError() && startOffset <= input.pos < |input.src| && IsDigit(input.Peek()) && expFrac <= 0
      requires f.numbersAsStrings ==> stack.items == base + Units(input.src[startOffset..input.pos])
      modifies this, stack, input
      ensures var x := old(input.pos);
              var q := DigitsEnd(input.src, x);
              var value := ExponentValue(input.src, expMinus, x, q, -expFrac);
              if value > MaxExponent(false, -expFrac)
              then parseResult == Error(NumberTooBig, startOffset)
              else
                && parseResult == Success && input.pos == q && exp == value
                && (if f.numbersAsStrings then stack.items == base + Units(input.src[startOffset..input.pos])
                    else stack.items == old(stack.items))
    {
      ghost var x := input.pos;
      assert DigitsEnd(input.src, x) == DigitsEnd(input.src, x + 1);
      var c := TakeRaw(input, f, startOffset, base);
      if expMinus {
        var capped := ParseNegativeExponent(input, f, c - DIGIT_0, TruncatedDiv(expFrac + 2147483639, 10), startOffset,
                                            base);
        exp := -(capped as int);
      } else {
        exp := ParsePositiveExponent(input, f, c - DIGIT_0, 308 - expFrac, startOffset, x, base);
      }
    }

    method ConsumeExponentMark(input: StringStream, f: Flags, ghost start: nat, ghost base: seq<Item>) returns (e: bool)
      requires start <= input.pos <= |input.src|
      requires f.numbersAsStrings ==> stack.items == base + Units(input.src[start..input.pos])
      modifies stack, input
      ensures e == (old(input.Peek()) == LOWER_E || old(input.Peek()) == UPPER_E)
      ensures input.pos == (if e then old(input.pos) + 1 else old(input.pos)) <= |input.src|
      ensures if f.numbersAsStrings then stack.items == base + Units(input.src[start..input.pos])
              else stack.items == old(stack.items)
    {
      e := ConsumeRaw(input, f, LOWER_E, start, base);
      if !e {
        e := ConsumeRaw(input, f, UPPER_E, start, base);
      }
    }

    method ConsumeExponentSign(input: StringStream, f: Flags, ghost start: nat, ghost base: seq<Item>)
      returns (minus: bool)
      requires start <= input.pos <= |input.src|
      requires f.numbersAsStrings ==> stack.items == base + Units(input.src[start..input.pos])
      modifies stack, input
      ensures minus == (old(input.Peek()) == MINUS)
      ensures input.pos
           == (if minus || old(input.Peek()) == PLUS then old(input.pos) + 1 else old(input.pos)) <= |input.src|
      ensures if f.numbersAsStrings then stack.items == base + Units(input.src[start..input.pos])
              else stack.items == old(stack.items)
    {
      minus := false;
      var plus := ConsumeRaw(input, f, PLUS, start, base);
      if !plus {
        minus := ConsumeRaw(input, f, MINUS, start, base);
      }
    }

    /** exp = e [ minus / plus ] 1*DIGIT */
    method ParseExponent(input: StringStream, f: Flags, i: nat, i64: nat, use64bit: bool, useDouble0: bool, d0: nat,
                         expFrac: int, startOffset: nat, ghost minus: bool, ghost special: Special,
                         ghost begin: nat, ghost j: nat, ghost base: seq<Item>)
      returns (d: nat, useDouble: bool, exp: int)
      requires !HasParseError() && startOffset <= begin <= j <= input.pos <= |input.src| && startOffset < input.pos
      requires DigitRun(input.src, begin, j)
      requires j < input.pos ==> j + 1 < input.pos && DigitRun(input.src, j + 1, input.pos)
      requires expFrac <= 0
      requires f.numbersAsStrings ==> stack.items == base + Units(input.src[startOffset..input.pos])
      modifies this, stack, input
      ensures match ExponentLayout(input.src, startOffset, minus, special, begin, j, old(input.pos))
              case BadLayout(code, o) => parseResult == Error(code, o)
              case Layout(n) =>
                if ExponentOf(input.src, n, -expFrac) > MaxExponent(false, -expFrac)
                then parseResult == Error(NumberTooBig, startOffset)
                else
                  && parseResult == Success && input.pos == n.end
                  && exp == ExponentOf(input.src, n, -expFrac)
                  && useDouble == (useDouble0 || n.HasExponent())
                  && d == (if n.HasExponent() && !useDouble0 then (if use64bit then i64 else i) else d0)
                  && (if f.numbersAsStrings then stack.items == base + Units(input.src[startOffset..input.pos])
                      else stack.items == old(stack.items))
    {
      d, useDouble, exp := d0, useDouble0, 0;
      var e := ConsumeExponentMark(input, f, startOffset, base);
      if e {
        if !useDouble {
          d := if use64bit then i64 else i;
          useDouble := true;
        }
        var expMinus := ConsumeExponentSign(input, f, startOffset, base);
        if !IsDigit(input.Peek()) {
          SetParseError(NumberMissExponent, input.pos);
          return;
        }
        exp := ParseExponentDigits(input, f, expMinus, expFrac, startOffset, base);
      }
    }

    /** `~i + 1` read as a signed integer of the same width. */
    function Negated(i: nat, modulus: nat): (r: int)
      requires 0 < modulus && i < modulus
      ensures 2 * i <= modulus && modulus % 2 == 0 ==> r == -(i as int)
    {
      var u := (modulus - i) % modulus;
      if 2 * u >= modulus then u - modulus else u
    }

    /** What the three parts of a number leave in the locals. */
    ghost predicate Scanned(s: seq<byte>, n: Parts, i: nat, i64: nat, use64bit: bool, useDouble: bool, d: nat,
                            expFrac: int, exp: int)
      requires n.Valid(s)
    {
      var value := NatOf(s, n.intBegin, n.intEnd);
      && expFrac <= 0
      && SignificandOf(s, n).absorbed == -expFrac
      && exp == ExponentOf(s, n, -expFrac)
      && exp <= MaxExponent(false, -expFrac)
      && (useDouble ==> SignificandOf(s, n).d == d)
      && useDouble == (n.HasFraction() || n.HasExponent() || !FitsInteger(n.minus, value))
      && (!useDouble ==> if use64bit then value == i64 > Max32(n.minus) else value == i <= Max32(n.minus))
      && (n.special.Spelled? ==> value == 0)
    }

    /** What the stack holds after a number. */
    ghost predicate NumberKept(f: Flags, s: seq<byte>, n: Parts, base: seq<Item>)
      requires n.Valid(s)
      reads stack
    {
      stack.items == base + Units(if f.numbersAsStrings then s[n.start..n.end]
                                  else if f.fullPrecision then DecimalDigits(s, n)
                                  else [])
    }

    method ScanNumber(input: StringStream, f: Flags, startOffset: nat, bottom: nat, ghost base: seq<Item>)
      returns (minus: bool, special: Special, i: nat, i64: nat, use64bit: bool, useDouble: bool, d: nat,
               expFrac: int, exp: int, decimalPosition: nat)
      requires !HasParseError() && startOffset == input.pos <= |input.src| && stack.items == base && bottom == |base|
      modifies this, stack, input
      ensures match NumberLayout(input.src, f, startOffset)
              case BadLayout(code, o) => parseResult == Error(code, o)
              case Layout(n) =>
                var absorbed := SignificandOf(input.src, n).absorbed;
                if ExponentOf(input.src, n, absorbed) > MaxExponent(false, absorbed)
                then parseResult == Error(NumberTooBig, startOffset)
                else
                  && parseResult == Success && input.pos == n.end && minus == n.minus && special == n.special
                  && Scanned(input.src, n, i, i64, use64bit, useDouble, d, expFrac, exp)
                  && NumberKept(f, input.src, n, base)
                  && (f.fullPrecision && !f.numbersAsStrings ==> decimalPosition == n.intEnd - n.intBegin)
    {
      d, expFrac, exp, decimalPosition := 0, 0, 0, 0;
      assert base + Units(input.src[startOffset..startOffset]) == base;
      minus := ConsumeRaw(input, f, MINUS, startOffset, base);
      assert !f.numbersAsStrings ==> base + Units(KeptInteger(f, input.src, startOffset, input.pos, input.pos)) == base;
      var digits;
      ghost var begin;
      i, i64, use64bit, useDouble, d, digits, special, begin := ParseInteger(input, f, minus, startOffset, base);
      if HasParseError() {
        return;
      }
      ghost var j := input.pos;
      d, useDouble, expFrac, exp, decimalPosition :=
        ScanFractionAndExponent(input, f, i, i64, use64bit, useDouble, d, digits, bottom, minus, special, startOffset,
                                begin, base);
    }

    method ScanFractionAndExponent(input: StringStream, f: Flags, i: nat, i64: nat, use64bit: bool, useDouble0: bool,
                                   d0: nat, digits: nat, bottom: nat, ghost minus: bool, ghost special: Special,
                                   startOffset: nat, ghost begin: nat, ghost base: seq<Item>)
      returns (d: nat, useDouble: bool, expFrac: int, exp: int, decimalPosition: nat)
      requires !HasParseError() && startOffset <= begin <= input.pos <= |input.src| && startOffset < input.pos
      requires DigitRun(input.src, begin, input.pos) && bottom == |base| && (special.Spelled? ==> begin == input.pos)
      requires IntegerState(minus, NatOf(input.src, begin, input.pos), input.pos - begin, i, i64, use64bit, useDouble0,
                            d0, digits)
      requires stack.items == base + Units(KeptInteger(f, input.src, startOffset, begin, input.pos))
      modifies this, stack, input
      ensures match FractionLayout(input.src, startOffset, minus, special, begin, old(input.pos))
              case BadLayout(code, o) => parseResult == Error(code, o)
              case Layout(n) =>
                var absorbed := SignificandOf(input.src, n).absorbed;
                if ExponentOf(input.src, n, absorbed) > MaxExponent(false, absorbed)
                then parseResult == Error(NumberTooBig, startOffset)
                else
                  && parseResult == Success && input.pos == n.end
                  && Scanned(input.src, n, i, i64, use64bit, useDouble, d, expFrac, exp)
                  && NumberKept(f, input.src, n, base)
                  && (f.fullPrecision && !f.numbersAsStrings ==> decimalPosition == n.intEnd - n.intBegin)
    {
      exp := 0;
      ghost var j := input.pos;
      d, useDouble, expFrac, decimalPosition :=
        ParseFraction(input, f, i, i64, use64bit, useDouble0, d0, digits, bottom, minus, special, startOffset, begin,
                      base);
      if HasParseError() {
        return;
      }
      ghost var k := input.pos;
      ghost var text := if j < k then KeptFraction(f, input.src, startOffset, begin, j, k)
                        else KeptInteger(f, input.src, startOffset, begin, j);
      d, useDouble, exp := ParseExponent(input, f, i, i64, use64bit, useDouble, d, expFrac, startOffset,
                                         minus, special, begin, j, base);
      if !HasParseError() {
        ghost var n := ExponentLayout(input.src, startOffset, minus, special, begin, j, k).parts;
        KeptDigits(f, input.src, n, text);
      }
    }

    /** Before the exponent the kept digits are those of the integer and the fraction. */
    lemma KeptDigits(f: Flags, s: seq<byte>, n: Parts, text: seq<byte>)
      requires n.Valid(s)
      requires text == if n.intEnd < n.fracEnd then KeptFraction(f, s, n.start, n.intBegin, n.intEnd, n.fracEnd)
                       else KeptInteger(f, s, n.start, n.intBegin, n.intEnd)
      ensures !f.numbersAsStrings ==> text == if f.fullPrecision then DecimalDigits(s, n) else []
    {
    }

    method IntegerNumberEvent(i: nat, i64: nat, use64bit: bool, minus: bool) returns (e: Event)
      requires if use64bit then i64 > Max32(minus) && FitsInteger(minus, i64) else i <= Max32(minus)
      ensures e == IntegerEvent(minus, if use64bit then i64 else i)
    {
      if use64bit {
        e := if minus then Int64(Negated(i64, 0x1_0000_0000_0000_0000)) else Uint64(i64);
      } else {
        e := if minus then Int(Negated(i, 0x1_0000_0000)) else Uint(i);
      }
    }

    method DoubleEvent(v: real, minus: bool, startOffset: nat) returns (e: Event)
      requires !HasParseError()
      modifies this
      ensures if v > strtod.max then parseResult == Error(NumberTooBig, startOffset)
              else parseResult == Success && e == Event.Double(Finite(if minus then -v else v))
    {
      e := Event.Double(Finite(if minus then -v else v));
      if v > strtod.max {
        SetParseError(NumberTooBig, startOffset);
      }
    }

    /** The event for a scanned number, or an error when its double is too big. */
    method NumberEvent(f: Flags, minus: bool, special: Special, i: nat, i64: nat, use64bit: bool, useDouble: bool,
                       d: nat, expFrac: int, exp: int, startOffset: nat, bottom: nat, decimalPosition: nat,
                       ghost s: seq<byte>, ghost n: Parts, ghost base: seq<Item>)
      returns (e: Event)
      requires !HasParseError() && n.Valid(s) && startOffset == n.start && bottom == |base|
      requires minus == n.minus && special == n.special
      requires Scanned(s, n, i, i64, use64bit, useDouble, d, expFrac, exp) && NumberKept(f, s, n, base)
      requires f.fullPrecision && !f.numbersAsStrings ==> decimalPosition == n.intEnd - n.intBegin
      modifies this, stack
      ensures match NumeralOf(s, f, strtod, n)
              case Numeral(event) => parseResult == Success && e == event && stack.items == base
              case BadNumeral(code) => parseResult == Error(code, startOffset)
    {
      hide SignificandOf, ExponentOf, NatOf, DecimalDigits, Units, IntegerEvent;
      e := Null;
      var text := PopText(bottom, base, if f.numbersAsStrings then s[n.start..n.end]
                                        else if f.fullPrecision then DecimalDigits(s, n)
                                        else []);
      if f.numbersAsStrings {
        e := RawNumber(text);
      } else if useDouble {
        e := DoubleEvent(if f.fullPrecision then strtod.full(d, exp + expFrac, text, decimalPosition, exp)
                         else strtod.normal(d, exp + expFrac), minus, startOffset);
      } else if special.Spelled? {
        e := Event.Double(special.d);
      } else {
        e := IntegerNumberEvent(i, i64, use64bit, minus);
      }
    }

    method ParseNumber(input: StringStream, h: Handler, f: Flags)
      requires !HasParseError() && input.pos <= |input.src|
      modifies this, stack, input, h
      ensures Reached(NumberAt(ContextOf(input, h, f), old(input.pos), old(h.log)), input, h, old(stack.items))
    {
      var startOffset := input.pos;
      var bottom := |stack.items|;
      ghost var base := stack.items;
      var minus, special, i, i64, use64bit, useDouble, d, expFrac, exp, decimalPosition :=
        ScanNumber(input, f, startOffset, bottom, base);
      if HasParseError() {
        return;
      }
      ghost var n := NumberLayout(input.src, f, startOffset).parts;
      var e := NumberEvent(f, minus, special, i, i64, use64bit, useDouble, d, expFrac, exp, startOffset, bottom,
                           decimalPosition, input.src, n, base);
      if HasParseError() {
        return;
      }
      var cont := h.Handle(e);
      if !cont {
        SetParseError(Termination, startOffset);
      }
    }

    // -------------------------------------------------------------- recursive descent

    /** `{ string : value, ... }` */
    method ParseObject(input: StringStream, h: Handler, f: Flags)
      requires !HasParseError() && input.pos < |input.src| && input.Peek() == LBRACE
      modifies this, stack, input, h
      ensures Reached(Value(ContextOf(input, h, f), old(input.pos), old(h.log)), input, h, old(stack.items))
      decreases |input.src| - input.pos, 0
    {
      var _ := input.Take();
      var ok := h.Handle(StartObject);
      if !ok {
        SetParseError(Termination, input.pos);
        return;
      }
      SkipWhitespaceAndComments(input, f);
      if HasParseError() {
        return;
      }
      assert Value(ContextOf(input, h, f), old(input.pos), old(h.log))
          == ObjectFirst(ContextOf(input, h, f), input.pos, h.log);
      var close := input.Consume(RBRACE);
      if close {
        ok := h.Handle(EndObject(0));
        if !ok {
          SetParseError(Termination, input.pos);
        }
        return;
      }
      var memberCount := 0;
      while true
        invariant !HasParseError() && old(input.pos) < input.pos <= |input.src| && stack.items == old(stack.items)
        invariant Member(ContextOf(input, h, f), input.pos, memberCount, h.log)
               == Value(ContextOf(input, h, f), old(input.pos), old(h.log))
        decreases |input.src| - input.pos
      {
        var done := ParseMember(input, h, f, memberCount);
        if done {
          return;
        }
        memberCount := Inc(memberCount);
      }
    }

    /** One round of the member loop: the member, and the comma or bracket that follows it. */
    method ParseMember(input: StringStream, h: Handler, f: Flags, memberCount: nat) returns (done: bool)
      requires !HasParseError() && input.pos <= |input.src|
      modifies this, stack, input, h
      ensures done ==> Reached(Member(ContextOf(input, h, f), old(input.pos), memberCount, old(h.log)), input, h,
                               old(stack.items))
      ensures !done ==>
                && !HasParseError() && old(input.pos) < input.pos <= |input.src| && stack.items == old(stack.items)
                && Member(ContextOf(input, h, f), old(input.pos), memberCount, old(h.log))
                   == Member(ContextOf(input, h, f), input.pos, Inc(memberCount), h.log)
      decreases |input.src| - input.pos, 2
    {
      if input.Peek() != QUOTE {
        SetParseError(ObjectMissName, input.pos);
        return true;
      }
      ParseString(input, h, f, true);
      if HasParseError() {
        return true;
      }
      SkipWhitespaceAndComments(input, f);
      if HasParseError() {
        return true;
      }
      done := ParseAfterKey(input, h, f, memberCount);
    }

    method ParseAfterKey(input: StringStream, h: Handler, f: Flags, memberCount: nat) returns (done: bool)
      requires !HasParseError() && input.pos <= |input.src|
      modifies this, stack, input, h
      ensures done ==> Reached(AfterKey(ContextOf(input, h, f), old(input.pos), memberCount, old(h.log)), input, h,
                               old(stack.items))
      ensures !done ==>
                && !HasParseError() && old(input.pos) < input.pos <= |input.src| && stack.items == old(stack.items)
                && AfterKey(ContextOf(input, h, f), old(input.pos), memberCount, old(h.log))
                   == Member(ContextOf(input, h, f), input.pos, Inc(memberCount), h.log)
      decreases |input.src| - input.pos, 2
    {
      ghost var c := ContextOf(input, h, f);
      ghost var target := AfterKey(c, input.pos, memberCount, h.log);
      var colon := input.Consume(COLON);
      if !colon {
        SetParseError(ObjectMissColon, input.pos);
        return true;
      }
      SkipWhitespaceAndComments(input, f);
      if HasParseError() {
        return true;
      }
      assert target == MemberValue(c, input.pos, memberCount, h.log);
      ParseValue(input, h, f);
      if HasParseError() {
        return true;
      }
      SkipWhitespaceAndComments(input, f);
      if HasParseError() {
        return true;
      }
      assert target == AfterMember(c, input.pos, memberCount, h.log);
      done := ParseAfterMember(input, h, f, Inc(memberCount), memberCount);
    }

    method ParseAfterMember(input: StringStream, h: Handler, f: Flags, memberCount: nat, ghost before: nat)
      returns (done: bool)
      requires !HasParseError() && input.pos <= |input.src| && memberCount == Inc(before)
      modifies this, input, h
      ensures done ==>
                Reached(AfterMember(ContextOf(input, h, f), old(input.pos), before, old(h.log)), input, h, stack.items)
      ensures !done ==>
                && !HasParseError() && old(input.pos) < input.pos <= |input.src|
                && AfterMember(ContextOf(input, h, f), old(input.pos), before, old(h.log))
                   == Member(ContextOf(input, h, f), input.pos, memberCount, h.log)
    {
      if input.Peek() == COMMA {
        var _ := input.Take();
        SkipWhitespaceAndComments(input, f);
        if HasParseError() {
          return true;
        }
      } else if input.Peek() == RBRACE {
        var _ := input.Take();
        var ok := h.Handle(EndObject(memberCount));
        if !ok {
          SetParseError(Termination, input.pos);
        }
        return true;
      } else {
        SetParseError(ObjectMissCommaOrCurlyBracket, input.pos);
        return true;
      }
      if f.trailingCommas && input.Peek() == RBRACE {
        var ok := h.Handle(EndObject(memberCount));
        if !ok {
          SetParseError(Termination, input.pos);
          return true;
        }
        var _ := input.Take();
        return true;
      }
      return false;
    }

    /** `[ value, ... ]` */
    method ParseArray(input: StringStream, h: Handler, f: Flags)
      requires !HasParseError() && input.pos < |input.src| && input.Peek() == LBRACKET
      modifies this, stack, input, h
      ensures Reached(Value(ContextOf(input, h, f), old(input.pos), old(h.log)), input, h, old(stack.items))
      decreases |input.src| - input.pos, 0
    {
      hide RewindsOnlyRefusals;
      var _ := input.Take();
      var ok := h.Handle(StartArray);
      if !ok {
        SetParseError(Termination, input.pos);
        return;
      }
      SkipWhitespaceAndComments(input, f);
      if HasParseError() {
        return;
      }
      assert Value(ContextOf(input, h, f), old(input.pos), old(h.log))
          == ArrayFirst(ContextOf(input, h, f), input.pos, h.log);
      var close := input.Consume(RBRACKET);
      if close {
        ok := h.Handle(EndArray(0));
        if !ok {
          SetParseError(Termination, input.pos);
        }
        return;
      }
      var elementCount := 0;
      while true
        invariant !HasParseError() && old(input.pos) < input.pos <= |input.src| && stack.items == old(stack.items)
        invariant Element(ContextOf(input, h, f), input.pos, elementCount, h.log)
               == Value(ContextOf(input, h, f), old(input.pos), old(h.log))
        decreases |input.src| - input.pos
      {
        ParseValue(input, h, f);
        if HasParseError() {
          return;
        }
        ghost var before := elementCount;
        elementCount := Inc(elementCount);
        SkipWhitespaceAndComments(input, f);
        if HasParseError() {
          return;
        }
        var done := ParseAfterElement(input, h, f, elementCount, before);
        if done {
          return;
        }
      }
    }

    method ParseAfterElement(input: StringStream, h: Handler, f: Flags, elementCount: nat, ghost before: nat)
      returns (done: bool)
      requires !HasParseError() && input.pos <= |input.src| && elementCount == Inc(before)
      modifies this, input, h
      ensures done ==>
                Reached(AfterElement(ContextOf(input, h, f), old(input.pos), before, old(h.log)), input, h, stack.items)
      ensures !done ==>
                && !HasParseError() && old(input.pos) < input.pos <= |input.src|
                && AfterElement(ContextOf(input, h, f), old(input.pos), before, old(h.log))
                   == Element(ContextOf(input, h, f), input.pos, elementCount, h.log)
    {
      hide RewindsOnlyRefusals, Element, SkipBlank;
      var comma := input.Consume(COMMA);
      if comma {
        SkipWhitespaceAndComments(input, f);
        if HasParseError() {
          return true;
        }
      } else {
        var close := input.Consume(RBRACKET);
        if !close {
          SetParseError(ArrayMissCommaOrSquareBracket, input.pos);
          return true;
        }
        var ok := h.Handle(EndArray(elementCount));
        if !ok {
          SetParseError(Termination, input.pos);
        }
        return true;
      }
      if f.trailingCommas && input.Peek() == RBRACKET {
        var ok := h.Handle(EndArray(elementCount));
        if !ok {
          SetParseError(Termination, input.pos);
          return true;
        }
        var _ := input.Take();
        return true;
      }
      return false;
    }

    lemma ScalarValue(c: Context, p: nat, log: seq<Event>)
      requires p <= |c.s|
      ensures At(c.s, p) == LOWER_N ==> Value(c, p, log) == Literal(c, p, NULL_TAIL, Null, log)
      ensures At(c.s, p) == LOWER_T ==> Value(c, p, log) == Literal(c, p, TRUE_TAIL, Bool(true), log)
      ensures At(c.s, p) == LOWER_F ==> Value(c, p, log) == Literal(c, p, FALSE_TAIL, Bool(false), log)
      ensures At(c.s, p) == QUOTE ==> Value(c, p, log) == StringAt(c, p, false, log)
      ensures At(c.s, p) !in [LOWER_N, LOWER_T, LOWER_F, QUOTE, LBRACE, LBRACKET] ==>
                Value(c, p, log) == NumberAt(c, p, log)
    {
    }

    method ParseValue(input: StringStream, h: Handler, f: Flags)
      requires !HasParseError() && input.pos <= |input.src|
      modifies this, stack, input, h
      ensures Reached(Value(ContextOf(input, h, f), old(input.pos), old(h.log)), input, h, old(stack.items))
      decreases |input.src| - input.pos, 1
    {
      var b := input.Peek();
      ScalarValue(ContextOf(input, h, f), input.pos, h.log);
      if b == LOWER_N {
        ParseLiteral(input, h, NULL_TAIL, Null, f);
      } else if b == LOWER_T {
        ParseLiteral(input, h, TRUE_TAIL, Bool(true), f);
      } else if b == LOWER_F {
        ParseLiteral(input, h, FALSE_TAIL, Bool(false), f);
      } else if b == QUOTE {
        ParseString(input, h, f, false);
      } else if b == LBRACE {
        ParseObject(input, h, f);
      } else if b == LBRACKET {
        ParseArray(input, h, f);
      } else {
        ParseNumber(input, h, f);
      }
    }

    /** Recursive-descent parsing of a whole document. */
    method Parse(input: StringStream, h: Handler, f: Flags)
      requires input.pos <= |input.src|
      modifies this, stack, input, h
      ensures Reached(Document(ContextOf(input, h, f), old(input.pos), old(h.log)), input, h, [])
    {
      parseResult := Success;
      stack.Clear();
      SkipWhitespaceAndComments(input, f);
      if !HasParseError() {
        if input.Peek() == NUL {
          SetParseError(DocumentEmpty, input.pos);
        } else {
          ParseValue(input, h, f);
          if !HasParseError() && !f.stopWhenDone {
            SkipWhitespaceAndComments(input, f);
            if !HasParseError() && input.Peek() != NUL {
              SetParseError(DocumentRootNotSingular, input.pos);
            }
          }
        }
      }
      stack.Clear();
    }

    // -------------------------------------------------------------- iterative parsing

    /** What a transition out of `src` leaves, `r` being what recursive descent would do from there. */
    ghost predicate Transited(r: Step, src: P.State, d: P.State, frames: seq<P.Frame>, input: StringStream, h: Handler,
                              f: Flags)
      reads this, stack, input, h
    {
      if d.Error? then
        && r.Stop? && h.log == r.log
        && parseResult.Error? && parseResult.code == r.code && parseResult.offset + r.rewind == r.offset
      else
        && parseResult == Success && input.pos <= |input.src|
        && P.WellFormed(d, frames) && stack.items == Pairs(frames)
        && r == P.After(ContextOf(input, h, f), d, frames, input.pos, h.log)
    }

    method PopSize(ghost base: seq<Item>, ghost size: nat) returns (n: nat)
      requires stack.items == base + [Size(size)]
      modifies stack
      ensures n == size && stack.items == base
    {
      ghost var was := stack.items;
      var top := stack.Pop(1);
      assert stack.items == was[..|base|] && top == was[|base|..];
      n := top[0].n;
    }

    /** The count of the innermost container and the state to return to. */
    method PopFrame(ghost frames: seq<P.Frame>) returns (count: nat, n: P.State)
      requires frames != [] && stack.items == Pairs(frames)
      modifies stack
      ensures count == P.Top(frames).count && n == P.Restored(frames)
      ensures stack.items == Pairs(P.Rest(frames))
    {
      ghost var top := P.Top(frames);
      PairsAppend(P.Rest(frames), top);
      assert frames == P.Rest(frames) + [top];
      count := PopSize(Pairs(P.Rest(frames)) + [Size(P.Code(top.restore))], top.count);
      var state := PopSize(Pairs(P.Rest(frames)), P.Code(top.restore));
      n := P.STATES[state];
      if n.Start? {
        n := P.Finish;
      }
    }

    method PushFrame(n: P.State, ghost frames: seq<P.Frame>)
      requires stack.items == Pairs(frames)
      modifies stack
      ensures stack.items == Pairs(frames + [P.Frame(n, 0)])
    {
      PairsAppend(frames, P.Frame(n, 0));
      stack.Push(Size(P.Code(n)));
      stack.Push(Size(0));
    }

    /** Opens an array or an object: remembers the state to return to, and a count of zero. */
    method TransitOpen(src: P.State, dst: P.State, input: StringStream, h: Handler, f: Flags,
                       ghost frames: seq<P.Frame>)
      returns (d: P.State, ghost frames': seq<P.Frame>)
      requires !HasParseError() && input.pos < |input.src|
      requires P.WellFormed(src, frames) && stack.items == Pairs(frames)
      requires P.ExpectsValue(ContextOf(input, h, f), src, input.pos)
      requires (dst.ArrayInitial? && input.Peek() == LBRACKET) || (dst.ObjectInitial? && input.Peek() == LBRACE)
      modifies this, stack, input, h
      ensures d == dst || d.Error?
      ensures !d.Error? ==> input.pos > old(input.pos) && !d.Start?
      ensures Transited(P.Resume(ContextOf(input, h, f), src, frames, old(input.pos), old(h.log)), src, d, frames',
                        input, h, f)
    {
      hide RewindsOnlyRefusals, P.Resume, P.WellFormed;
      P.ResumeAtOpen(ContextOf(input, h, f), src, frames, input.pos, h.log, dst.ArrayInitial?);
      var n := src;
      if src.ArrayInitial? || src.ElementDelimiter? {
        n := P.Element;
      } else if src.KeyValueDelimiter? {
        n := P.MemberValue;
      }
      frames' := frames + [P.Frame(n, 0)];
      PushFrame(n, frames);
      var ok := h.Handle(if dst.ArrayInitial? then StartArray else StartObject);
      if !ok {
        SetParseError(Termination, input.pos);
        return P.Error, frames';
      }
      var _ := input.Take();
      d := dst;
    }

    /** Closes an array or an object: pops the count and the state, and counts the last value. */
    method TransitClose(src: P.State, dst: P.State, input: StringStream, h: Handler, f: Flags,
                        ghost frames: seq<P.Frame>)
      returns (d: P.State, ghost frames': seq<P.Frame>)
      requires !HasParseError() && input.pos < |input.src|
      requires P.WellFormed(src, frames) && stack.items == Pairs(frames)
      requires dst == P.Predict(src, P.Tokenize(input.Peek())) && (dst.ArrayFinish? || dst.ObjectFinish?)
      modifies this, stack, input, h
      ensures !d.Error? ==> input.pos > old(input.pos) && !d.Start?
      ensures Transited(P.Resume(ContextOf(input, h, f), src, frames, old(input.pos), old(h.log)), src, d, frames',
                        input, h, f)
    {
      hide P.Resume, P.After, Pairs;
      ghost var c := ContextOf(input, h, f);
      frames' := P.Rest(frames);
      var fromDelimiter := src.MemberDelimiter? || src.ElementDelimiter?;
      if !f.trailingCommas && fromDelimiter {
        P.TrailingComma(c, src, frames, input.pos, h.log);
        SetParseError(if dst.ObjectFinish? then ObjectMissName else ValueInvalid, input.pos);
        return P.Error, frames';
      }
      var count, n := PopFrame(frames);
      if src.MemberValue? || src.Element? {
        count := Inc(count);
      }
      P.ResumeAtClose(c, src, frames, input.pos, h.log);
      var ok := h.Handle(if dst.ObjectFinish? then EndObject(count) else EndArray(count));
      if !ok {
        SetParseError(Termination, input.pos);
        return P.Error, frames';
      }
      var _ := input.Take();
      d := n;
    }

    /** Adds one to the count on top of the stack. */
    method CountOne(ghost frames: seq<P.Frame>)
      requires frames != [] && stack.items == Pairs(frames)
      modifies stack
      ensures stack.items == Pairs(P.Delimited(frames))
    {
      ghost var top := P.Top(frames);
      ghost var rest := P.Rest(frames);
      PairsAppend(rest, top);
      assert frames == rest + [top];
      PairsAppend(rest, P.Frame(top.restore, Inc(top.count)));
      var count := PopSize(Pairs(rest) + [Size(P.Code(top.restore))], top.count);
      stack.Push(Size(Inc(count)));
    }

    /** A comma: counts the value before it. */
    method TransitDelimiter(src: P.State, dst: P.State, input: StringStream, h: Handler, f: Flags,
                            ghost frames: seq<P.Frame>)
      returns (d: P.State, ghost frames': seq<P.Frame>)
      requires !HasParseError() && input.pos < |input.src|
      requires P.WellFormed(src, frames) && stack.items == Pairs(frames)
      requires dst == P.Predict(src, P.Tokenize(input.Peek())) && (dst.MemberDelimiter? || dst.ElementDelimiter?)
      modifies this, stack, input
      ensures d == dst && input.pos == old(input.pos) + 1
      ensures Transited(P.Resume(ContextOf(input, h, f), src, frames, old(input.pos), h.log), src, d, frames', input, h,
                        f)
    {
      hide P.Resume, P.After, Pairs;
      P.ResumeAtComma(ContextOf(input, h, f), src, frames, input.pos, h.log);
      var _ := input.Take();
      frames' := P.Delimited(frames);
      CountOne(frames);
      d := dst;
    }

    /** A value that is no container, at the root, as a member value or as an element. */
    method TransitScalar(src: P.State, dst: P.State, input: StringStream, h: Handler, f: Flags,
                         ghost frames: seq<P.Frame>)
      returns (d: P.State)
      requires !HasParseError() && input.pos < |input.src|
      requires P.WellFormed(src, frames) && stack.items == Pairs(frames)
      requires P.ExpectsValue(ContextOf(input, h, f), src, input.pos)
      requires dst == if src.Start? then P.Value else P.ValueDone(src)
      requires input.Peek() != LBRACKET && input.Peek() != LBRACE
      modifies this, stack, input, h
      ensures !d.Error? ==> input.pos > old(input.pos) && !d.Start?
      ensures Transited(P.Resume(ContextOf(input, h, f), src, frames, old(input.pos), old(h.log)), src, d, frames,
                        input, h, f)
    {
      P.ScalarStopsInPlace(ContextOf(input, h, f), input.pos, h.log);
      P.ResumeAtValue(ContextOf(input, h, f), src, frames, input.pos, h.log);
      ParseValue(input, h, f);
      if HasParseError() {
        return P.Error;
      }
      return if dst.Value? then P.Finish else dst;
    }

    method TransitKey(src: P.State, input: StringStream, h: Handler, f: Flags, ghost frames: seq<P.Frame>)
      returns (d: P.State)
      requires !HasParseError() && input.pos < |input.src|
      requires P.WellFormed(src, frames) && stack.items == Pairs(frames)
      requires (src.ObjectInitial? || src.MemberDelimiter?) && input.Peek() == QUOTE
      modifies this, stack, input, h
      ensures !d.Error? ==> input.pos > old(input.pos) && !d.Start?
      ensures Transited(P.Resume(ContextOf(input, h, f), src, frames, old(input.pos), old(h.log)), src, d, frames,
                        input, h, f)
    {
      P.ResumeAtKey(ContextOf(input, h, f), src, frames, input.pos, h.log);
      ParseString(input, h, f, true);
      return if HasParseError() then P.Error else P.MemberKey;
    }

    /**
     One transition: from `src` on the token at the cursor to the state the table predicts, or to what a pop restores.
     */
    method Transit(src: P.State, token: P.Token, dst: P.State, input: StringStream, h: Handler, f: Flags,
                   ghost frames: seq<P.Frame>)
      returns (d: P.State, ghost frames': seq<P.Frame>)
      requires !HasParseError() && input.pos < |input.src|
      requires P.WellFormed(src, frames) && stack.items == Pairs(frames)
      requires token == P.Tokenize(input.Peek()) && dst == P.Predict(src, token)
      modifies this, stack, input, h
      ensures dst.Error? ==> d.Error? && parseResult == Success && input.pos == old(input.pos) && h.log == old(h.log)
      ensures !dst.Error? ==>
                Transited(P.Resume(ContextOf(input, h, f), src, frames, old(input.pos), old(h.log)), src, d, frames',
                          input, h, f)
      ensures !d.Error? ==> input.pos > old(input.pos) && !d.Start?
    {
      hide P.Resume, P.After, Pairs;
      frames' := frames;
      if dst.Error? {
        d := dst;
      } else if dst.ObjectInitial? || dst.ArrayInitial? {
        d, frames' := TransitOpen(src, dst, input, h, f, frames);
      } else if dst.MemberKey? {
        d := TransitKey(src, input, h, f, frames);
      } else if dst.KeyValueDelimiter? {
        P.ResumeAtColon(ContextOf(input, h, f), frames, input.pos, h.log);
        var _ := input.Take();
        d := dst;
      } else if dst.MemberDelimiter? || dst.ElementDelimiter? {
        d, frames' := TransitDelimiter(src, dst, input, h, f, frames);
      } else if dst.ObjectFinish? || dst.ArrayFinish? {
        d, frames' := TransitClose(src, dst, input, h, f, frames);
      } else {
        d := TransitScalar(src, dst, input, h, f, frames);
      }
    }

    method HandleError(src: P.State, input: StringStream)
      modifies this
      ensures parseResult == if old(HasParseError()) then old(parseResult) else Error(P.ErrorCode(src), input.pos)
    {
      if HasParseError() {
        return;
      }
      SetParseError(P.ErrorCode(src), input.pos);
    }

    /** One round of the loop; `running` when it goes on. */
    method IterativeStep(state: P.State, input: StringStream, h: Handler, f: Flags,
                         ghost frames: seq<P.Frame>, ghost root: nat, ghost log0: seq<Event>)
      returns (next: P.State, running: bool, ghost frames': seq<P.Frame>)
      requires parseResult == Success && input.pos < |input.src| && input.Peek() != NUL
      requires stack.items == Pairs(frames)
      requires P.Underway(ContextOf(input, h, f), state, frames, root, log0, input.pos, h.log)
      modifies this, stack, input, h
      ensures running ==>
                && parseResult == Success && old(input.pos) < input.pos <= |input.src|
                && stack.items == Pairs(frames')
                && P.Underway(ContextOf(input, h, f), next, frames', root, log0, input.pos, h.log)
      ensures !running ==>
                && Reached(P.IterativeRoot(ContextOf(input, h, f), root, log0), input, h, stack.items)
                && (next.Finish? || HasParseError())
    {
      hide P.Resume, P.After, Pairs, P.Tokenize;
      ghost var c := ContextOf(input, h, f);
      var token := P.Tokenize(input.Peek());
      var predicted := P.Predict(state, token);
      if predicted.Error? {
        P.Rejects(c, state, frames, root, log0, input.pos, h.log);
      } else {
        P.UnderwayResumes(c, state, frames, root, log0, input.pos, h.log);
      }
      running := false;
      var d;
      d, frames' := Transit(state, token, predicted, input, h, f, frames);
      next := state;
      if d.Error? {
        HandleError(state, input);
        return;
      }
      P.Advances(c, root, log0, d, frames', input.pos, h.log);
      next := d;
      if f.stopWhenDone && next.Finish? {
        return;
      }
      SkipWhitespaceAndComments(input, f);
      running := !HasParseError();
    }

    /** Iterative parsing of a whole document. */
    method IterativeParse(input: StringStream, h: Handler, f: Flags)
      requires input.pos <= |input.src|
      modifies this, stack, input, h
      ensures Reached(P.IterativeDocument(ContextOf(input, h, f), old(input.pos), old(h.log)), input, h, [])
    {
      ghost var c := ContextOf(input, h, f);
      parseResult := Success;
      stack.Clear();
      var state := P.Start;
      ghost var frames: seq<P.Frame> := [];
      SkipWhitespaceAndComments(input, f);
      if HasParseError() {
        stack.Clear();
        return;
      }
      P.IterativeFromRoot(c, old(input.pos), h.log);
      ghost var root, log0 := input.pos, h.log;
      var running := true;
      while running && input.Peek() != NUL
        invariant running ==>
                    && parseResult == Success && input.pos <= |input.src|
                    && stack.items == Pairs(frames)
                    && P.Underway(c, state, frames, root, log0, input.pos, h.log)
        invariant !running ==>
                    && Reached(P.IterativeRoot(c, root, log0), input, h, stack.items)
                    && (state.Finish? || HasParseError())
        decreases if running then |input.src| - input.pos + 1 else 0
      {
        state, running, frames := IterativeStep(state, input, h, f, frames, root, log0);
      }
      if running && state.Finish? {
        P.Completes(c, frames, root, log0, input.pos, h.log);
      } else if running {
        P.Rejects(c, state, frames, root, log0, input.pos, h.log);
      }
      if !state.Finish? {
        HandleError(state, input);
      }
      stack.Clear();
    }
  }

  /** Parses the same text both ways, with handlers that answer alike. */
  method ParseBothWays(text: seq<byte>, f: Flags, accept: Acceptance, strtod: Strtod)
    returns (recursive: ParseResult, recursiveLog: seq<Event>, iterative: ParseResult, iterativeLog: seq<Event>)
    ensures var root := SkipBlank(text, f, 0);
            if root.Skipped? && P.IsPunctuation(At(text, root.pos)) then
              && recursive == Error(ValueInvalid, root.pos) && iterative == Error(DocumentEmpty, root.pos)
              && recursiveLog == iterativeLog == []
            else
              && iterativeLog == recursiveLog
              && (recursive.Success? <==> iterative.Success?)
              && (recursive.Error? ==> iterative.code == recursive.code)
              && (recursive.Error? && !recursive.code.Termination? ==> iterative.offset == recursive.offset)
              && (recursive.Error? && recursive.code.Termination? ==>
                    && recursiveLog != [] && !accept(recursiveLog)
                    && R.StopsApart(text, f, Last(recursiveLog), recursive.offset, iterative.offset))
  {
    hide SkipBlank, Value, AfterRoot, R.StopsApart;
    ghost var c := Context(text, f, accept, strtod);
    R.DocumentStopsApart(c);
    ghost var root := SkipBlank(text, f, 0);
    if root.Skipped? && P.IsPunctuation(At(text, root.pos)) {
      P.NoValue(c, root.pos, []);
    }
    var reader := new GenericReader(strtod);
    var input := new StringStream(text);
    var h := new Handler(accept);
    reader.Parse(input, h, f);
    recursive, recursiveLog := reader.parseResult, h.log;
    input := new StringStream(text);
    h := new Handler(accept);
    reader.IterativeParse(input, h, f);
    iterative, iterativeLog := reader.parseResult, h.log;
  }
}
