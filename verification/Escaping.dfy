/**
 String literals: how the writer escapes them into a buffer it has reserved, and that the reader's
 decoder gives every string back.
 */
module Escaping {
  import opened Bytes
  import opened Streams
  import opened Grammar
  import Utf8

  /** Writing options: checking the encoding, and a target encoding that has no Unicode. */
  datatype WriteFlags = WriteFlags(validateEncoding: bool, ascii: bool)

  /** What follows the backslash for a byte that must be escaped; 0 for all other bytes. */
  function EscapeLetter(c: byte): byte {
    if c == BACKSPACE then LOWER_B
    else if c == TAB then LOWER_T
    else if c == LF then LOWER_N
    else if c == FORM_FEED then LOWER_F
    else if c == CR then LOWER_R
    else if c < SPACE then LOWER_U
    else if c == QUOTE then QUOTE
    else if c == BACKSLASH then BACKSLASH
    else 0
  }

  function HexChar(d: nat): (c: byte)
    requires d < 16
    ensures HexDigit(c) == Hex(d) && 0x30 <= c <= 0x46
  {
    if d < 10 then DIGIT_0 + d else UPPER_A + (d - 10)
  }

  /** Four hexadecimal digits. */
  function HexChars(u: nat): (cs: seq<byte>)
    requires u <= 0xFFFF
    ensures |cs| == 4
  {
    [HexChar(u / 0x1000), HexChar(u / 0x100 % 16), HexChar(u / 0x10 % 16), HexChar(u % 16)]
  }

  function EscapedUnit(u: nat): (cs: seq<byte>)
    requires u <= 0xFFFF
    ensures |cs| == 6
  {
    [BACKSLASH, LOWER_U] + HexChars(u)
  }

  /** A code point as one escape, or as a surrogate pair of them. */
  function EscapedCodePoint(cp: nat): (cs: seq<byte>)
    requires Utf8.IsScalar(cp)
    ensures |cs| <= 12
  {
    if cp <= 0xFFFF then EscapedUnit(cp)
    else
      var s := cp - 0x10000;
      EscapedUnit(s / 0x400 + 0xD800) + EscapedUnit(s % 0x400 + 0xDC00)
  }

  function EscapedByte(c: byte): (cs: seq<byte>)
    requires EscapeLetter(c) != 0
    ensures |cs| <= 6
  {
    if EscapeLetter(c) == LOWER_U then [BACKSLASH, LOWER_U, DIGIT_0, DIGIT_0, HexChar(c / 16), HexChar(c % 16)]
    else [BACKSLASH, EscapeLetter(c)]
  }

  /** One unit of the source string: where it ends and what is written for it. */
  datatype Written = Written(pos: nat, bytes: seq<byte>) | Malformed(taken: nat)

  /** The room reserved for `n` units. */
  function Room(w: WriteFlags, n: nat): nat {
    if w.ascii then 12 * n else 6 * n
  }

  function WriteUnit(w: WriteFlags, s: seq<byte>, p: nat): (r: Written)
    requires p < |s|
    ensures r.Written? ==> p < r.pos <= |s| && |r.bytes| <= Room(w, r.pos - p)
    ensures r.Malformed? ==> r.taken <= 4
  {
    var c := s[p];
    if w.ascii && c >= 0x80 then
      if Utf8.SequenceLength(s, p) == 0 then Malformed(0)
      else
        Utf8.DecodedIsScalar(s, p);
        Written(p + Utf8.SequenceLength(s, p), EscapedCodePoint(Utf8.ScalarAt(s, p)))
    else if EscapeLetter(c) != 0 then Written(p + 1, EscapedByte(c))
    else if w.validateEncoding && !w.ascii then
      if Utf8.SequenceLength(s, p) == 0 then Malformed(Utf8.Taken(c))
      else
        Utf8.DecodedIsScalar(s, p);
        Written(p + Utf8.SequenceLength(s, p), s[p..p + Utf8.SequenceLength(s, p)])
    else Written(p + 1, [c])
  }

  datatype Quoted = Quoted(text: seq<byte>) | NotEncoded

  /** The escaped units from `p` on. */
  function Body(w: WriteFlags, s: seq<byte>, p: nat): Quoted
    requires p <= |s|
    decreases |s| - p
  {
    if p == |s| then Quoted([])
    else
      match WriteUnit(w, s, p)
      case Malformed(_) => NotEncoded
      case Written(q, bytes) =>
        match Body(w, s, q)
        case NotEncoded => NotEncoded
        case Quoted(rest) => Quoted(bytes + rest)
  }

  /** The whole literal with its quotes. */
  function Literal(w: WriteFlags, s: seq<byte>): Quoted {
    match Body(w, s, 0)
    case NotEncoded => NotEncoded
    case Quoted(text) => Quoted([QUOTE] + text + [QUOTE])
  }

  // ---------------------------------------------------------------- the output buffer

  /** A string buffer; writing without a check is allowed only into room reserved before. */
  class StringBuffer {
    const stack: Stack<byte>
    var limit: nat

    constructor ()
      ensures fresh(stack) && stack.items == []
    {
      stack := new Stack<byte>();
      limit := 0;
    }

    method Reserve(count: nat)
      modifies this
      ensures limit >= |stack.items| + count && limit >= old(limit)
    {
      if limit < |stack.items| + count {
        limit := |stack.items| + count;
      }
    }

    method PutUnsafe(c: byte)
      requires |stack.items| < limit
      modifies stack
      ensures stack.items == old(stack.items) + [c]
    {
      stack.Push(c);
    }

    method Put(c: byte)
      modifies this, stack
      ensures stack.items == old(stack.items) + [c] && limit >= old(limit)
    {
      Reserve(1);
      PutUnsafe(c);
    }

    method PutAllUnsafe(cs: seq<byte>)
      requires |stack.items| + |cs| <= limit
      modifies stack
      ensures stack.items == old(stack.items) + cs
    {
      var i := 0;
      while i < |cs|
        invariant 0 <= i <= |cs|
        invariant stack.items == old(stack.items) + cs[..i]
      {
        PutUnsafe(cs[i]);
        assert cs[..i + 1] == cs[..i] + [cs[i]];
        i := i + 1;
      }
      assert cs[..i] == cs;
    }
  }

  // ---------------------------------------------------------------- writing

  method WriteEscapedUnit(os: StringBuffer, u: nat)
    requires u <= 0xFFFF && |os.stack.items| + 6 <= os.limit
    modifies os.stack
    ensures os.stack.items == old(os.stack.items) + EscapedUnit(u)
  {
    os.PutUnsafe(BACKSLASH);
    os.PutUnsafe(LOWER_U);
    os.PutUnsafe(HexChar(u / 0x1000));
    os.PutUnsafe(HexChar(u / 0x100 % 16));
    os.PutUnsafe(HexChar(u / 0x10 % 16));
    os.PutUnsafe(HexChar(u % 16));
  }

  method WriteEscapedCodePoint(os: StringBuffer, codepoint: nat)
    requires Utf8.IsScalar(codepoint) && |os.stack.items| + |EscapedCodePoint(codepoint)| <= os.limit
    modifies os.stack
    ensures os.stack.items == old(os.stack.items) + EscapedCodePoint(codepoint)
  {
    if codepoint <= 0xD7FF || 0xE000 <= codepoint <= 0xFFFF {
      WriteEscapedUnit(os, codepoint);
    } else {
      var s := codepoint - 0x10000;
      WriteEscapedUnit(os, s / 0x400 + 0xD800);
      WriteEscapedUnit(os, s % 0x400 + 0xDC00);
    }
  }

  method WriteEscapedByte(os: StringBuffer, c: byte)
    requires EscapeLetter(c) != 0 && |os.stack.items| + 6 <= os.limit
    modifies os.stack
    ensures os.stack.items == old(os.stack.items) + EscapedByte(c)
  {
    os.PutUnsafe(BACKSLASH);
    os.PutUnsafe(EscapeLetter(c));
    if EscapeLetter(c) == LOWER_U {
      os.PutUnsafe(DIGIT_0);
      os.PutUnsafe(DIGIT_0);
      os.PutUnsafe(HexChar(c / 16));
      os.PutUnsafe(HexChar(c % 16));
    }
  }

  /** One round of the writing loop. */
  method WriteStringUnit(os: StringBuffer, w: WriteFlags, input: StringStream) returns (ok: bool)
    requires input.pos < |input.src|
    requires |os.stack.items| + Room(w, |input.src| - input.pos) + 1 <= os.limit
    modifies os.stack, input
    ensures match WriteUnit(w, input.src, old(input.pos))
            case Malformed(_) =>
              && !ok && old(os.stack.items) <= os.stack.items
              && |os.stack.items| <= |old(os.stack.items)| + Room(w, |input.src| - old(input.pos)) < os.limit
            case Written(q, bytes) => ok && input.pos == q && os.stack.items == old(os.stack.items) + bytes
  {
    ghost var p := input.pos;
    var c := input.Peek();
    ok := true;
    if w.ascii && c >= 0x80 {
      var codepoint;
      ok, codepoint := Utf8.Decode(input);
      if ok {
        Utf8.WellFormedTakesAll(input.src, p);
        Utf8.DecodedIsScalar(input.src, p);
        WriteEscapedCodePoint(os, codepoint);
      }
    } else if EscapeLetter(c) != 0 {
      var _ := input.Take();
      WriteEscapedByte(os, c);
    } else if w.validateEncoding && !w.ascii {
      ok := Utf8.Validate(input, os.stack, Same);
      WrappedSame(Utf8.Window(input.src, p, Utf8.Taken(c)));
      if ok {
        Utf8.WellFormedTakesAll(input.src, p);
        Utf8.DecodedIsScalar(input.src, p);
      }
    } else {
      var u := input.Take();
      os.PutUnsafe(u);
    }
  }

  lemma WrappedSame(bs: seq<byte>)
    ensures Utf8.Wrapped(Same, bs) == bs
  {
  }

  const Same: byte -> byte := (c: byte) => c

  /** The loop that escapes the whole source string. */
  method WriteBody(os: StringBuffer, w: WriteFlags, input: StringStream) returns (ok: bool)
    requires input.pos == 0
    requires |os.stack.items| + Room(w, |input.src|) + 1 <= os.limit
    modifies os.stack, input
    ensures match Body(w, input.src, 0)
            case NotEncoded =>
              && !ok && old(os.stack.items) <= os.stack.items
              && |os.stack.items| <= |old(os.stack.items)| + Room(w, |input.src|) < os.limit
            case Quoted(text) => ok && os.stack.items == old(os.stack.items) + text && |os.stack.items| < os.limit
  {
    ghost var due := Prepended(os.stack.items, Body(w, input.src, 0));
    while input.pos < |input.src|
      invariant input.pos <= |input.src|
      invariant old(os.stack.items) <= os.stack.items
      invariant |os.stack.items| + Room(w, |input.src| - input.pos) <= |old(os.stack.items)| + Room(w, |input.src|)
      invariant Prepended(os.stack.items, Body(w, input.src, input.pos)) == due
      decreases |input.src| - input.pos
    {
      PrependedStep(w, input.src, input.pos, os.stack.items);
      ok := WriteStringUnit(os, w, input);
      if !ok {
        return false;
      }
    }
    ok := true;
    assert os.stack.items + [] == os.stack.items;
  }

  lemma BodyFits(w: WriteFlags, s: seq<byte>)
    ensures Body(w, s, 0).Quoted? ==> |Body(w, s, 0).text| <= Room(w, |s|)
  {
    if Body(w, s, 0).Quoted? {
      BodyFitsRoom(w, s, 0);
    }
  }

  /** Writes the literal, or up to where the string has no encoding; never more than 2 + 6n units, 2 + 12n for ASCII. */
  method WriteString(os: StringBuffer, w: WriteFlags, str: seq<byte>) returns (ok: bool)
    modifies os, os.stack
    ensures match Literal(w, str)
            case NotEncoded => !ok && old(os.stack.items) <= os.stack.items
            case Quoted(text) => ok && os.stack.items == old(os.stack.items) + text
    ensures |os.stack.items| <= |old(os.stack.items)| + 2 + Room(w, |str|) <= os.limit
  {
    BodyFits(w, str);
    os.Reserve(2 + Room(w, |str|));
    os.PutUnsafe(QUOTE);
    var input := new StringStream(str);
    ok := WriteBody(os, w, input);
    if ok {
      os.PutUnsafe(QUOTE);
    }
  }

  function Prepended(text: seq<byte>, q: Quoted): Quoted {
    match q
    case NotEncoded => NotEncoded
    case Quoted(rest) => Quoted(text + rest)
  }

  lemma PrependedStep(w: WriteFlags, s: seq<byte>, p: nat, body: seq<byte>)
    requires p < |s|
    ensures Prepended(body, Body(w, s, p))
         == match WriteUnit(w, s, p)
            case Malformed(_) => NotEncoded
            case Written(q, bytes) => Prepended(body + bytes, Body(w, s, q))
  {
    match WriteUnit(w, s, p) {
      case Malformed(_) =>
      case Written(q, bytes) =>
        match Body(w, s, q) {
          case NotEncoded =>
          case Quoted(rest) => assert body + (bytes + rest) == body + bytes + rest;
        }
    }
  }

  // ---------------------------------------------------------------- reading back

  lemma HexDigitsOf(u: nat)
    requires u <= 0xFFFF
    ensures u / 0x1000 * 16 + u / 0x100 % 16 == u / 0x100
    ensures u / 0x100 * 16 + u / 0x10 % 16 == u / 0x10
    ensures u / 0x10 * 16 + u % 16 == u
  {
  }

  lemma HexCharsRead(s: seq<byte>, p: nat, u: nat)
    requires u <= 0xFFFF && TextAt(s, p, HexChars(u))
    ensures HexValue(s, p, 4) == Hex(u)
  {
    var d3, d2, d1, d0 := u / 0x1000, u / 0x100 % 16, u / 0x10 % 16, u % 16;
    var h := HexChars(u);
    assert h[0] == HexChar(d3) && h[1] == HexChar(d2) && h[2] == HexChar(d1) && h[3] == HexChar(d0);
    HexDigitsOf(u);
    assert HexValue(s, p, 0) == Hex(0);
    assert HexValue(s, p, 1) == Hex(u / 0x1000);
    assert HexValue(s, p, 2) == Hex(u / 0x100);
    assert HexValue(s, p, 3) == Hex(u / 0x10);
  }

  lemma EscapedUnitRead(s: seq<byte>, p: nat, u: nat)
    requires u <= 0xFFFF && TextAt(s, p, EscapedUnit(u))
    ensures p + 6 <= |s| && s[p] == BACKSLASH && s[p + 1] == LOWER_U && HexValue(s, p + 2, 4) == Hex(u)
  {
    TextAtSplit(s, p, [BACKSLASH, LOWER_U], HexChars(u));
    assert [BACKSLASH, LOWER_U][0] == BACKSLASH && [BACKSLASH, LOWER_U][1] == LOWER_U;
    HexCharsRead(s, p + 2, u);
  }

  /** The decoder turns an escaped code point back into its encoding. */
  lemma EscapedCodePointRead(s: seq<byte>, f: Flags, p: nat, cp: nat)
    requires Utf8.IsScalar(cp) && TextAt(s, p, EscapedCodePoint(cp))
    ensures StringChunk(s, f, p) == Bytes(p + |EscapedCodePoint(cp)|, Utf8.Encoding(cp))
  {
    hide Utf8.Encoding, TextAt, EscapedUnit;
    if cp <= 0xFFFF {
      EscapedUnitRead(s, p, cp);
      assert UnicodeEscape(s, p) == Bytes(p + 6, Utf8.Encoding(cp));
    } else {
      var high, low := (cp - 0x10000) / 0x400 + 0xD800, (cp - 0x10000) % 0x400 + 0xDC00;
      TextAtSplit(s, p, EscapedUnit(high), EscapedUnit(low));
      EscapedUnitRead(s, p, high);
      EscapedUnitRead(s, p + 6, low);
      assert UnicodeEscape(s, p) == Bytes(p + 12, Utf8.Encoding(cp));
    }
  }

  lemma EscapedByteRead(s: seq<byte>, f: Flags, p: nat, c: byte)
    requires EscapeLetter(c) != 0 && TextAt(s, p, EscapedByte(c))
    ensures StringChunk(s, f, p) == Bytes(p + |EscapedByte(c)|, [c])
  {
    var e := EscapedByte(c);
    assert e[0] == BACKSLASH && e[1] == EscapeLetter(c);
    if EscapeLetter(c) == LOWER_U {
      assert e == EscapedUnit(c);
      EscapedUnitRead(s, p, c);
    }
  }

  /** Bytes that are written as they are. */
  predicate Unescaped8(s: seq<byte>, p: nat, q: nat)
    requires p <= q <= |s|
  {
    forall i :: p <= i < q ==> EscapeLetter(s[i]) == 0
  }

  lemma {:induction false} PlainWritten(w: WriteFlags, s: seq<byte>, p: nat, q: nat)
    requires p < q <= |s| && Unescaped8(s, p, q)
    requires if w.ascii then forall i :: p <= i < q ==> s[i] < 0x80
             else w.validateEncoding ==> q == p + Utf8.SequenceLength(s, p)
    ensures Body(w, s, p) == Prepended(s[p..q], Body(w, s, q))
    decreases q - p
  {
    PrependedStep(w, s, p, []);
    if !w.validateEncoding || w.ascii {
      assert WriteUnit(w, s, p) == Written(p + 1, [s[p]]);
      if p + 1 < q {
        PlainWritten(w, s, p + 1, q);
        assert [s[p]] + s[p + 1..q] == s[p..q];
        PrependedTwice([s[p]], s[p + 1..q], Body(w, s, q));
      }
    }
  }

  lemma PrependedTwice(a: seq<byte>, b: seq<byte>, q: Quoted)
    ensures Prepended(a, Prepended(b, q)) == Prepended(a + b, q)
  {
    match q {
      case NotEncoded =>
      case Quoted(rest) => assert a + (b + rest) == a + b + rest;
    }
  }

  lemma {:induction false} PlainRead(s: seq<byte>, f: Flags, p: nat, q: nat, out: seq<byte>)
    requires p < q <= |s| && Unescaped8(s, p, q)
    requires f.validateEncoding ==> q == p + Utf8.SequenceLength(s, p)
    ensures StringBody(s, f, p, out) == StringBody(s, f, q, out + s[p..q])
    decreases q - p
  {
    if f.validateEncoding {
      assert StringChunk(s, f, p) == Bytes(q, s[p..q]);
    } else {
      assert StringChunk(s, f, p) == Bytes(p + 1, [s[p]]);
      if p + 1 < q {
        PlainRead(s, f, p + 1, q, out + [s[p]]);
        assert out + [s[p]] + s[p + 1..q] == out + s[p..q];
      } else {
        assert s[p..q] == [s[p]];
      }
    }
  }

  /** The tail bytes of a sequence need no escaping. */
  lemma SequenceIsPlain(s: seq<byte>, p: nat)
    requires p < |s| && Utf8.SequenceLength(s, p) > 0 && EscapeLetter(s[p]) == 0
    ensures p + Utf8.SequenceLength(s, p) <= |s| && Unescaped8(s, p, p + Utf8.SequenceLength(s, p))
  {
    Utf8.DecodedIsScalar(s, p);
    var n := Utf8.SequenceLength(s, p);
    assert n > 1 ==> s[p + 1] >= 0x80;
    assert n > 2 ==> s[p + 2] >= 0x80;
    assert n > 3 ==> s[p + 3] >= 0x80;
  }

  lemma SequenceCopied(s: seq<byte>, p: nat, t: seq<byte>, r: nat)
    requires p < |s| && Utf8.SequenceLength(s, p) > 0
    requires p + Utf8.SequenceLength(s, p) <= |s| && TextAt(t, r, s[p..p + Utf8.SequenceLength(s, p)])
    ensures Utf8.SequenceLength(t, r) == Utf8.SequenceLength(s, p)
  {
    var n := Utf8.SequenceLength(s, p);
    assert t[r + 0] == s[p];
    assert n > 1 ==> t[r + 1] == s[p + 1];
    assert n > 2 ==> t[r + 2] == s[p + 2];
    assert n > 3 ==> t[r + 3] == s[p + 3];
  }

  /** A stretch that is copied as it stands is read back. */
  lemma PlainReadsBack(str: seq<byte>, i: nat, j: nat, s: seq<byte>, f: Flags, p: nat, out: seq<byte>)
    requires i < j <= |str| && Unescaped8(str, i, j) && TextAt(s, p, str[i..j])
    requires f.validateEncoding ==> j == i + Utf8.SequenceLength(str, i)
    ensures StringBody(s, f, p, out) == StringBody(s, f, p + (j - i), out + str[i..j])
  {
    if f.validateEncoding {
      SequenceCopied(str, i, s, p);
    }
    forall k | p <= k < p + (j - i)
      ensures EscapeLetter(s[k]) == 0
    {
      assert str[i..j][k - p] == str[i + (k - p)];
    }
    assert s[p..p + (j - i)] == str[i..j];
    PlainRead(s, f, p, p + (j - i), out);
  }

  /** The next unit of the source that is copied as it stands, or the next sequence when a reader checks them. */
  lemma NextPlain(w: WriteFlags, str: seq<byte>, i: nat, whole: bool) returns (j: nat)
    requires i < |str| && Body(w, str, i).Quoted? && EscapeLetter(str[i]) == 0 && !(w.ascii && str[i] >= 0x80)
    requires whole ==> Utf8.SequenceLength(str, i) > 0
    ensures i < j <= |str| && Unescaped8(str, i, j) && (whole ==> j == i + Utf8.SequenceLength(str, i))
    ensures Body(w, str, i) == Prepended(str[i..j], Body(w, str, j))
  {
    var n := Utf8.SequenceLength(str, i);
    assert str[i] < 0x80 ==> n == 1;
    if n > 0 {
      SequenceIsPlain(str, i);
    }
    j := if whole || (w.validateEncoding && !w.ascii) then i + n else i + 1;
    PlainWritten(w, str, i, j);
  }

  /**
   From `i` to `j` the source is written as `s[p..q]`, which is read back as `str[i..j]`; `rest` is still to be
   written.
   */
  ghost predicate Stepped(w: WriteFlags, str: seq<byte>, i: nat, j: nat, rest: seq<byte>,
                          s: seq<byte>, f: Flags, p: nat, q: nat, end: nat, out: seq<byte>)
  {
    && i < j <= |str| && p <= q <= |s| && TextAt(s, q, rest) && q + |rest| == end
    && Body(w, str, j) == Quoted(rest)
    && (f.validateEncoding ==> j == i + Utf8.SequenceLength(str, i))
    && StringBody(s, f, p, out) == StringBody(s, f, q, out + str[i..j])
  }

  /** The first unit that was written, and what was written after it. */
  lemma BodyStep(w: WriteFlags, str: seq<byte>, i: nat, body: seq<byte>, s: seq<byte>, p: nat, j: nat, text: seq<byte>)
    returns (rest: seq<byte>)
    requires i < |str| && Body(w, str, i) == Quoted(body) && TextAt(s, p, body)
    requires j <= |str| && Body(w, str, i) == Prepended(text, Body(w, str, j))
    ensures Body(w, str, j) == Quoted(rest) && |body| == |text| + |rest|
    ensures TextAt(s, p, text) && TextAt(s, p + |text|, rest)
  {
    rest := Body(w, str, j).text;
    TextAtSplit(s, p, text, rest);
  }

  lemma ChunkStep(s: seq<byte>, f: Flags, p: nat, q: nat, bs: seq<byte>, out: seq<byte>)
    requires p <= |s| && StringChunk(s, f, p) == Bytes(q, bs)
    ensures q <= |s| && StringBody(s, f, p, out) == StringBody(s, f, q, out + bs)
  {
  }

  lemma StepCodePoint(w: WriteFlags, str: seq<byte>, i: nat, body: seq<byte>, s: seq<byte>, f: Flags, p: nat,
                      out: seq<byte>)
    returns (j: nat, q: nat, rest: seq<byte>)
    requires i < |str| && w.ascii && str[i] >= 0x80
    requires Body(w, str, i) == Quoted(body) && TextAt(s, p, body)
    ensures Stepped(w, str, i, j, rest, s, f, p, q, p + |body|, out)
  {
    PrependedStep(w, str, i, []);
    Utf8.DecodedIsScalar(str, i);
    j := i + Utf8.SequenceLength(str, i);
    var cp := Utf8.ScalarAt(str, i);
    q := p + |EscapedCodePoint(cp)|;
    rest := BodyStep(w, str, i, body, s, p, j, EscapedCodePoint(cp));
    EscapedCodePointRead(s, f, p, cp);
    ChunkStep(s, f, p, q, str[i..j], out);
  }

  lemma ByteUnit(w: WriteFlags, str: seq<byte>, i: nat)
    requires i < |str| && EscapeLetter(str[i]) != 0
    ensures Body(w, str, i) == Prepended(EscapedByte(str[i]), Body(w, str, i + 1))
    ensures Utf8.SequenceLength(str, i) == 1
  {
    PrependedStep(w, str, i, []);
  }

  lemma StepByte(w: WriteFlags, str: seq<byte>, i: nat, body: seq<byte>, s: seq<byte>, f: Flags, p: nat, out: seq<byte>)
    returns (j: nat, q: nat, rest: seq<byte>)
    requires i < |str| && EscapeLetter(str[i]) != 0
    requires Body(w, str, i) == Quoted(body) && TextAt(s, p, body)
    ensures Stepped(w, str, i, j, rest, s, f, p, q, p + |body|, out)
  {
    ByteUnit(w, str, i);
    var c := str[i];
    j, q := i + 1, p + |EscapedByte(c)|;
    rest := BodyStep(w, str, i, body, s, p, j, EscapedByte(c));
    EscapedByteRead(s, f, p, c);
    ChunkStep(s, f, p, q, [c], out);
    assert str[i..j] == [c];
  }

  lemma StepPlain(w: WriteFlags, str: seq<byte>, i: nat, body: seq<byte>, s: seq<byte>, f: Flags, p: nat,
                  out: seq<byte>)
    returns (j: nat, q: nat, rest: seq<byte>)
    requires i < |str| && EscapeLetter(str[i]) == 0 && !(w.ascii && str[i] >= 0x80)
    requires Body(w, str, i) == Quoted(body) && TextAt(s, p, body)
    requires f.validateEncoding ==> Utf8.SequenceLength(str, i) > 0
    ensures Stepped(w, str, i, j, rest, s, f, p, q, p + |body|, out)
  {
    j := NextPlain(w, str, i, f.validateEncoding);
    q := p + (j - i);
    rest := BodyStep(w, str, i, body, s, p, j, str[i..j]);
    PlainReadsBack(str, i, j, s, f, p, out);
  }

  /** Some of the source is written, and exactly that is read back; the rest follows. */
  lemma StepReadsBack(w: WriteFlags, str: seq<byte>, i: nat, body: seq<byte>, s: seq<byte>, f: Flags, p: nat,
                      out: seq<byte>)
    returns (j: nat, q: nat, rest: seq<byte>)
    requires i < |str| && Body(w, str, i) == Quoted(body) && TextAt(s, p, body)
    requires f.validateEncoding ==> Utf8.SequenceLength(str, i) > 0
    ensures Stepped(w, str, i, j, rest, s, f, p, q, p + |body|, out)
  {
    if EscapeLetter(str[i]) != 0 {
      j, q, rest := StepByte(w, str, i, body, s, f, p, out);
    } else if w.ascii && str[i] >= 0x80 {
      j, q, rest := StepCodePoint(w, str, i, body, s, f, p, out);
    } else {
      j, q, rest := StepPlain(w, str, i, body, s, f, p, out);
    }
  }

  lemma SliceJoin(out: seq<byte>, str: seq<byte>, i: nat, j: nat)
    requires i <= j <= |str|
    ensures out + str[i..j] + str[j..] == out + str[i..]
  {
  }

  lemma {:induction false} BodyReadsBack(w: WriteFlags, str: seq<byte>, i: nat, body: seq<byte>,
                                         s: seq<byte>, f: Flags, p: nat, out: seq<byte>)
    requires i <= |str| && Body(w, str, i) == Quoted(body) && TextAt(s, p, body)
    requires At(s, p + |body|) == QUOTE
    requires f.validateEncoding ==> Utf8.DecodeAll(str, i).Decoded?
    ensures StringBody(s, f, p, out) == Decoded(p + |body| + 1, out + str[i..])
    decreases |str| - i
  {
    if i == |str| {
      assert out + str[i..] == out;
    } else {
      assert f.validateEncoding ==> Utf8.SequenceLength(str, i) > 0;
      var j, q, rest := StepReadsBack(w, str, i, body, s, f, p, out);
      BodyReadsBack(w, str, j, rest, s, f, q, out + str[i..j]);
      SliceJoin(out, str, i, j);
    }
  }

  /** Whatever can be written is read back: every byte string, embedded NULs included. */
  lemma LiteralReadsBack(w: WriteFlags, str: seq<byte>, s: seq<byte>, f: Flags, p: nat)
    requires Literal(w, str).Quoted? && TextAt(s, p, Literal(w, str).text)
    requires f.validateEncoding ==> Utf8.WellFormed(str)
    ensures At(s, p) == QUOTE
    ensures StringBody(s, f, p + 1, []) == Decoded(p + |Literal(w, str).text|, str)
  {
    var body := Body(w, str, 0).text;
    TextAtSplit(s, p, [QUOTE] + body, [QUOTE]);
    TextAtSplit(s, p, [QUOTE], body);
    assert [QUOTE][0] == QUOTE;
    BodyReadsBack(w, str, 0, body, s, f, p + 1, []);
    assert [] + str[0..] == str;
  }

  /** What can be written: everything, unless the encoding is checked or changed; then the well-formed strings. */
  lemma {:induction false} BodyQuotedIff(w: WriteFlags, s: seq<byte>, p: nat)
    requires p <= |s|
    ensures !w.ascii && !w.validateEncoding ==> Body(w, s, p).Quoted?
    ensures w.ascii || w.validateEncoding ==> (Body(w, s, p).Quoted? <==> Utf8.DecodeAll(s, p).Decoded?)
    decreases |s| - p
  {
    if p < |s| {
      if Utf8.SequenceLength(s, p) > 0 {
        Utf8.DecodedIsScalar(s, p);
      }
      assert s[p] < 0x80 ==> Utf8.SequenceLength(s, p) == 1;
      assert EscapeLetter(s[p]) != 0 ==> s[p] < 0x80;
      match WriteUnit(w, s, p) {
        case Malformed(_) =>
        case Written(q, _) => BodyQuotedIff(w, s, q);
      }
    }
  }

  /** Six units of output for each of input are enough, twelve when code points are escaped. */
  lemma {:induction false} BodyFitsRoom(w: WriteFlags, s: seq<byte>, p: nat)
    requires p <= |s| && Body(w, s, p).Quoted?
    ensures |Body(w, s, p).text| <= Room(w, |s| - p)
    decreases |s| - p
  {
    if p < |s| {
      BodyFitsRoom(w, s, WriteUnit(w, s, p).pos);
    }
  }
}
