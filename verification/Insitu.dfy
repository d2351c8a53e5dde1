/**
 In-situ string decoding: the decoded units are written over the literal they are decoded from. The
 write cursor never passes the read cursor, so what is still to be read is intact, and the result is
 that of decoding into separate memory.
 */
module Insitu {
  import opened Bytes
  import opened Grammar
  import Reader
  import Utf8

  /** A read cursor and a write cursor over one buffer. */
  class InsituStringStream {
    const buffer: array<byte>
    var src: nat
    var dst: nat

    constructor (buffer: array<byte>)
      ensures this.buffer == buffer && src == 0 && dst == 0
    {
      this.buffer := buffer;
      src, dst := 0, 0;
    }

    function Peek(): byte
      requires src < buffer.Length
      reads this, buffer
    {
      buffer[src]
    }

    method Take() returns (c: byte)
      requires src < buffer.Length
      modifies this`src
      ensures c == old(Peek()) && src == old(src) + 1
    {
      c := buffer[src];
      src := src + 1;
    }

    method Put(c: byte)
      requires dst < buffer.Length
      modifies this`dst, buffer
      ensures dst == old(dst) + 1 && buffer[..] == old(buffer[..])[old(dst) := c]
    {
      buffer[dst] := c;
      dst := dst + 1;
    }

    method PutBegin() returns (begin: nat)
      modifies this`dst
      ensures dst == src == begin
    {
      dst := src;
      begin := dst;
    }

    function PutEnd(begin: nat): int
      reads this
    {
      dst - begin
    }

    /** Nothing at or after the read cursor has been overwritten. */
    ghost predicate Unread(s0: seq<byte>)
      reads this, buffer
    {
      |s0| == buffer.Length && dst <= src <= |s0| && forall i :: src <= i < |s0| ==> buffer[i] == s0[i]
    }

    /** `out` is written from `start` on, up to the write cursor; all before it and all unread is as it was. */
    ghost predicate Holds(s0: seq<byte>, start: nat, out: seq<byte>)
      reads this, buffer
    {
      && Unread(s0) && dst == start + |out|
      && (forall i :: 0 <= i < |out| ==> buffer[start + i] == out[i])
      && (forall i :: 0 <= i < start ==> buffer[i] == s0[i])
    }

    /** Units that fit behind the read cursor. */
    method PutAll(bs: seq<byte>, ghost s0: seq<byte>, ghost start: nat, ghost out: seq<byte>)
      requires Holds(s0, start, out) && dst + |bs| <= src
      modifies this`dst, buffer
      ensures Holds(s0, start, out + bs)
    {
      var i := 0;
      while i < |bs|
        invariant 0 <= i <= |bs| && dst + (|bs| - i) <= src
        invariant Holds(s0, start, out + bs[..i])
      {
        PutOne(bs[i], s0, start, out + bs[..i]);
        assert out + bs[..i] + [bs[i]] == out + bs[..i + 1];
        i := i + 1;
      }
      assert bs[..i] == bs;
    }

    method PutOne(c: byte, ghost s0: seq<byte>, ghost start: nat, ghost out: seq<byte>)
      requires Holds(s0, start, out) && dst < src
      modifies this`dst, buffer
      ensures Holds(s0, start, out + [c])
    {
      ghost var was := buffer[..];
      Put(c);
      assert forall i :: 0 <= i < |was| ==> buffer[i] == buffer[..][i] && (i != dst - 1 ==> buffer[i] == was[i]);
    }
  }

  predicate Terminated(s0: seq<byte>, p: nat, end: nat) {
    p <= end < |s0| && s0[end] == NUL
  }

  /**
   Checking a sequence takes as many units as its first one announces, also past the terminator. From
   `p` on, no sequence that the decoder comes to announces more units than the buffer has.
   */
  predicate StaysInside(s0: seq<byte>, f: Flags, p: nat)
    requires p <= |s0|
    decreases |s0| - p
  {
    && (f.validateEncoding && p < |s0| ==> p + Utf8.Taken(s0[p]) <= |s0|)
    && match StringChunk(s0, f, p)
       case Bytes(q, _) => StaysInside(s0, f, q)
       case _ => true
  }

  /** The decoder, started at `p`, comes to `r`. */
  predicate Reaches(s0: seq<byte>, f: Flags, p: nat, r: nat)
    requires p <= |s0|
    decreases |s0| - p
  {
    p == r
    || match StringChunk(s0, f, p)
       case Bytes(q, _) => Reaches(s0, f, q, r)
       case _ => false
  }

  /** No unit of a sequence is NUL. */
  lemma SequenceBeforeEnd(s: seq<byte>, p: nat, end: nat)
    requires p < end < |s| && s[end] == NUL && Utf8.SequenceLength(s, p) > 0
    ensures p + Utf8.SequenceLength(s, p) <= end
  {
  }

  /** The decoder, as it is instantiated for a stream that is read and written. */
  class InsituReader {
    var parseResult: Reader.ParseResult

    constructor ()
      ensures parseResult == Reader.Success
    {
      parseResult := Reader.Success;
    }

    predicate HasParseError()
      reads this
    {
      parseResult.Error?
    }

    method ParseHex4(s: InsituStringStream, escapeOffset: nat, ghost s0: seq<byte>, ghost end: nat)
      returns (codepoint: nat)
      requires !HasParseError() && s.Unread(s0) && Terminated(s0, s.src, end)
      modifies this, s`src
      ensures s.Unread(s0) && s.src <= end
      ensures match HexValue(s0, old(s.src), 4)
              case Hex(v) => parseResult == Reader.Success && codepoint == v && s.src == old(s.src) + 4
              case NotHex => parseResult == Reader.Error(StringUnicodeEscapeInvalidHex, escapeOffset)
    {
      codepoint := 0;
      ghost var start := s.src;
      for i := 0 to 4
        invariant parseResult == Reader.Success && s.src == start + i <= end && s.Unread(s0)
        invariant HexValue(s0, start, i) == Hex(codepoint)
      {
        var h := HexDigit(s.Peek());
        if h.NotHex? {
          parseResult := Reader.Error(StringUnicodeEscapeInvalidHex, escapeOffset);
          NotHexFails(s0, start, i + 1, 4);
          return 0;
        }
        codepoint := codepoint * 16 + h.value;
        var _ := s.Take();
      }
    }

    lemma {:induction false} NotHexFails(s: seq<byte>, p: nat, i: nat, n: nat)
      requires HexValue(s, p, i).NotHex? && i <= n
      ensures HexValue(s, p, n).NotHex?
      decreases n - i
    {
      if i < n {
        NotHexFails(s, p, i + 1, n);
      }
    }

    /** `Consume` of one unit that is no NUL. */
    method Consume(s: InsituStringStream, c: byte, ghost s0: seq<byte>, ghost end: nat) returns (hit: bool)
      requires s.Unread(s0) && Terminated(s0, s.src, end) && c != NUL
      modifies s`src
      ensures s.Unread(s0) && s.src <= end
      ensures hit == (s0[old(s.src)] == c) && s.src == if hit then old(s.src) + 1 else old(s.src)
    {
      hit := s.Peek() == c;
      if hit {
        var _ := s.Take();
      }
    }

    /** `\uXXXX` with the cursor at the `u`; the code point it stands for. */
    method ParseCodePoint(s: InsituStringStream, escapeOffset: nat, ghost s0: seq<byte>, ghost end: nat)
      returns (codepoint: nat)
      requires !HasParseError() && s.Unread(s0) && s.src < end && Terminated(s0, s.src, end)
      requires escapeOffset + 1 == s.src && s0[s.src] == LOWER_U
      modifies this, s`src
      ensures s.Unread(s0) && s.src <= end
      ensures match UnicodeEscape(s0, escapeOffset)
              case Bytes(q, bs) => parseResult == Reader.Success && s.src == q && codepoint <= 0x10FFFF
                                   && bs == Utf8.Encoding(codepoint) && |bs| <= q - escapeOffset
              case Bad(code, o) => parseResult == Reader.Error(code, o)
              case Close(_) => false
    {
      hide Utf8.Encoding, Reader.Text;
      var _ := s.Take();
      codepoint := ParseHex4(s, escapeOffset, s0, end);
      if HasParseError() {
        return;
      }
      EncodingIsShort(codepoint);
      if 0xD800 <= codepoint <= 0xDFFF {
        var low := codepoint <= 0xDBFF;
        if low {
          low := Consume(s, BACKSLASH, s0, end);
        }
        if low {
          low := Consume(s, LOWER_U, s0, end);
        }
        if !low {
          parseResult := Reader.Error(StringUnicodeSurrogateInvalid, escapeOffset);
          return;
        }
        var codepoint2 := ParseHex4(s, escapeOffset, s0, end);
        if HasParseError() {
          return;
        }
        if codepoint2 < 0xDC00 || codepoint2 > 0xDFFF {
          parseResult := Reader.Error(StringUnicodeSurrogateInvalid, escapeOffset);
          return;
        }
        codepoint := (codepoint - 0xD800) * 0x400 + (codepoint2 - 0xDC00) + 0x10000;
        EncodingIsShort(codepoint);
      }
    }

    lemma EncodingIsShort(cp: nat)
      requires cp <= 0x10FFFF
      ensures |Utf8.Encoding(cp)| <= 4
    {
    }

    /** The escape whose backslash is at the cursor. */
    method ParseEscape(s: InsituStringStream, f: Flags, ghost s0: seq<byte>, ghost end: nat, ghost start: nat,
                       ghost out: seq<byte>)
      requires !HasParseError() && s.Holds(s0, start, out) && Terminated(s0, s.src, end) && s0[s.src] == BACKSLASH
      modifies this, s, s.buffer
      ensures s.Unread(s0) && s.src <= end
      ensures match StringChunk(s0, f, old(s.src))
              case Bytes(q, bs) => parseResult == Reader.Success && s.src == q && s.Holds(s0, start, out + bs)
              case Bad(code, o) => parseResult == Reader.Error(code, o)
              case Close(_) => false
    {
      hide Utf8.Encoding, UnicodeEscape;
      var escapeOffset := s.src;
      var _ := s.Take();
      var e := s.Peek();
      if Unescaped(e) != 0 {
        var _ := s.Take();
        s.PutOne(Unescaped(e), s0, start, out);
      } else if f.escapedApostrophe && e == APOSTROPHE {
        var _ := s.Take();
        s.PutOne(APOSTROPHE, s0, start, out);
      } else if e == LOWER_U {
        var codepoint := ParseCodePoint(s, escapeOffset, s0, end);
        if !HasParseError() {
          s.PutAll(Utf8.Encoding(codepoint), s0, start, out);
        }
      } else {
        parseResult := Reader.Error(StringEscapeInvalid, escapeOffset);
      }
    }

    /** Takes and puts one unit, and whether the mask accepts its class. */
    method CopyTail(s: InsituStringStream, mask: bv8, ghost s0: seq<byte>, ghost start: nat, ghost out: seq<byte>)
      returns (ok: bool)
      requires s.Holds(s0, start, out) && s.src < |s0| && Utf8.IsMask(mask)
      modifies s, s.buffer
      ensures s.Holds(s0, start, out + [s0[old(s.src)]]) && s.src == old(s.src) + 1
      ensures ok == Utf8.Accepts(mask, s0[old(s.src)])
    {
      var c := s.Take();
      s.PutOne(c, s0, start, out);
      ok := Utf8.GetRange(c) & mask != 0;
      Utf8.MaskAccepts(mask, c);
    }

    /** Copies as many units as the first one announces and checks them by class. */
    method Validate(s: InsituStringStream, ghost s0: seq<byte>, ghost start: nat, ghost out: seq<byte>)
      returns (ok: bool)
      requires s.Holds(s0, start, out) && s.src < |s0| && s.src + Utf8.Taken(s0[s.src]) <= |s0|
      modifies s, s.buffer
      ensures s.Unread(s0) && ok == (Utf8.SequenceLength(s0, old(s.src)) > 0)
      ensures s.src == old(s.src) + Utf8.Taken(s0[old(s.src)])
      ensures s.Holds(s0, start, out + s0[old(s.src)..s.src])
    {
      hide Utf8.GetRange, Utf8.LengthOf, Utf8.Taken, InsituStringStream.Holds, InsituStringStream.Unread;
      ghost var p := s.src;
      HoldsReads(s, s0, start, out);
      var c := s.Peek();
      var first := CopyTail(s, 0x70, s0, start, out);
      assert s0[p..p + 1] == [s0[p]];
      if c < 0x80 {
        OneByte(c, At(s0, p + 1), At(s0, p + 2), At(s0, p + 3));
        UnreadOf(s, s0, start, out + s0[p..p + 1]);
        return true;
      }
      var (mask, n) := Utf8.SecondMask(c);
      Utf8.SequenceByMasks(c, At(s0, p + 1), At(s0, p + 2), At(s0, p + 3));
      assert n <= 3;
      ok := n > 0;
      var i := 0;
      while i < n
        invariant 0 <= i <= n <= 3 && p + 1 + n <= |s0| && s.src == p + 1 + i
        invariant s.Holds(s0, start, out + s0[p..s.src])
        invariant ok ==
                  (n > 0 && (i > 0 ==> Utf8.Accepts(mask, At(s0, p + 1))) && (i > 1 ==> Utf8.IsTail(At(s0, p + 2)))
                   && (i > 2 ==> Utf8.IsTail(At(s0, p + 3))))
      {
        var good := CopyTail(s, if i == 0 then mask else 0x70, s0, start, out + s0[p..s.src]);
        assert s0[p..s.src] == s0[p..s.src - 1] + [s0[s.src - 1]];
        assert out + s0[p..s.src - 1] + [s0[s.src - 1]] == out + s0[p..s.src];
        ok := ok && good;
        i := i + 1;
      }
      UnreadOf(s, s0, start, out + s0[p..s.src]);
    }

    lemma OneByte(c: byte, b1: byte, b2: byte, b3: byte)
      requires c < 0x80
      ensures Utf8.Taken(c) == 1 && Utf8.LengthOf(c, b1, b2, b3) == 1
    {
    }

    lemma HoldsReads(s: InsituStringStream, s0: seq<byte>, start: nat, out: seq<byte>)
      requires s.Holds(s0, start, out) && s.src < |s0|
      ensures |s0| == s.buffer.Length && s.Peek() == s0[s.src]
    {
    }

    lemma UnreadOf(s: InsituStringStream, s0: seq<byte>, start: nat, out: seq<byte>)
      requires s.Holds(s0, start, out)
      ensures s.Unread(s0)
    {
    }

    /** One pass through the decoding loop that is not at the closing quote. */
    method ParseStringUnit(s: InsituStringStream, f: Flags, ghost s0: seq<byte>, ghost end: nat, ghost start: nat,
                           ghost out: seq<byte>)
      requires !HasParseError() && s.Holds(s0, start, out) && Terminated(s0, s.src, end) && StaysInside(s0, f, s.src) &&
               s0[s.src] != QUOTE
      modifies this, s, s.buffer
      ensures s.Unread(s0)
      ensures match StringChunk(s0, f, old(s.src))
              case Bytes(q, bs) => parseResult == Reader.Success && s.src == q <= end && s.Holds(s0, start, out + bs)
              case Bad(code, o) => parseResult == Reader.Error(code, o)
              case Close(_) => false
    {
      hide Utf8.LengthOf, Utf8.Taken, UnicodeEscape, Unescaped;
      var c := s.Peek();
      var offset := s.src;
      if c == BACKSLASH {
        ParseEscape(s, f, s0, end, start, out);
      } else if c < SPACE {
        parseResult := Reader.Error(if c == NUL then StringMissQuotationMark else StringInvalidEncoding, offset);
      } else if f.validateEncoding {
        var ok := Validate(s, s0, start, out);
        if ok {
          Utf8.WellFormedTakesAll(s0, offset);
          SequenceBeforeEnd(s0, offset, end);
        } else {
          parseResult := Reader.Error(StringInvalidEncoding, offset);
        }
      } else {
        var u := s.Take();
        s.PutOne(u, s0, start, out);
      }
    }

    /**
     Decodes the literal whose opening quote has been taken, over itself. On success the decoded text
     stands at `start` with a NUL after it; either way nothing that is still to be read has changed.
     */
    method ParseStringToStream(s: InsituStringStream, f: Flags, ghost end: nat)
      requires !HasParseError() && Terminated(s.buffer[..], s.src, end) && s.dst == s.src
      requires StaysInside(s.buffer[..], f, s.src)
      modifies this, s, s.buffer
      ensures s.dst <= s.src <= s.buffer.Length && s.buffer[s.src..] == old(s.buffer[..])[s.src..]
      ensures match StringBody(old(s.buffer[..]), f, old(s.src), [])
              case Decoded(q, text) =>
                && parseResult == Reader.Success && s.src == q
                && s.PutEnd(old(s.src)) == |text| + 1
                && s.buffer[..s.dst] == old(s.buffer[..])[..old(s.src)] + text + [NUL]
              case BadString(code, o) => parseResult == Reader.Error(code, o)
    {
      ghost var s0, start := s.buffer[..], s.src;
      ghost var out: seq<byte> := [];
      while true
        invariant parseResult == Reader.Success && Terminated(s0, s.src, end) && s.Holds(s0, start, out)
        invariant StaysInside(s0, f, s.src)
        invariant StringBody(s0, f, s.src, out) == StringBody(s0, f, start, [])
        decreases end - s.src
      {
        var c := s.Peek();
        if c == QUOTE {
          var _ := s.Take();
          s.PutOne(NUL, s0, start, out);
          Closed(s, s0, start, out);
          return;
        }
        ghost var chunk := StringChunk(s0, f, s.src);
        ParseStringUnit(s, f, s0, end, start, out);
        if HasParseError() {
          assert s.buffer[s.src..] == s0[s.src..];
          return;
        }
        out := out + chunk.bytes;
      }
    }

    lemma Closed(s: InsituStringStream, s0: seq<byte>, start: nat, out: seq<byte>)
      requires s.Holds(s0, start, out + [NUL])
      ensures s.buffer[s.src..] == s0[s.src..]
      ensures s.buffer[..s.dst] == s0[..start] + out + [NUL]
    {
      var b := s.buffer[..s.dst];
      assert forall i :: 0 <= i < |out + [NUL]| ==> b[start + i] == (out + [NUL])[i];
      assert b == s0[..start] + (out + [NUL]);
    }
  }

  // ---------------------------------------------------------------- when decoding stays inside the buffer

  lemma {:induction false} HexBeforeEnd(s: seq<byte>, p: nat, n: nat, end: nat)
    requires p <= end < |s| && s[end] == NUL && HexValue(s, p, n).Hex?
    ensures p + n <= end
    decreases n
  {
    if n > 0 {
      HexBeforeEnd(s, p, n - 1, end);
    }
  }

  lemma UnicodeBeforeEnd(s: seq<byte>, p: nat, end: nat)
    requires p + 2 <= end < |s| && s[end] == NUL && UnicodeEscape(s, p).Bytes?
    ensures UnicodeEscape(s, p).pos <= end
  {
    hide HexValue, Utf8.Encoding;
    HexBeforeEnd(s, p + 2, 4, end);
    if UnicodeEscape(s, p).pos == p + 12 {
      HexBeforeEnd(s, p + 8, 4, end);
    }
  }

  /** A chunk does not pass the terminator. */
  lemma ChunkBeforeEnd(s0: seq<byte>, f: Flags, p: nat, end: nat)
    requires Terminated(s0, p, end) && StringChunk(s0, f, p).Bytes?
    ensures p < StringChunk(s0, f, p).pos <= end
  {
    hide UnicodeEscape, Utf8.SequenceLength;
    if s0[p] == BACKSLASH {
      if At(s0, p + 1) == LOWER_U {
        UnicodeBeforeEnd(s0, p, end);
      }
    } else if Utf8.SequenceLength(s0, p) > 0 {
      SequenceBeforeEnd(s0, p, end);
    }
  }

  /**
   Decoding leaves the buffer exactly when it comes to one of the last two units before the terminator and
   that announces more units than there are.
   */
  lemma {:induction false} LeavesAtTheEnd(s0: seq<byte>, f: Flags, p: nat, end: nat)
    requires Terminated(s0, p, end)
    ensures !StaysInside(s0, f, p)
       <==> f.validateEncoding && exists r :: p <= r < end <= r + 2 && Reaches(s0, f, p, r) &&
                                              r + Utf8.Taken(s0[r]) > |s0|
    decreases end - p
  {
    TakesOne();
    hide Utf8.Taken, StringChunk;
    assert Reaches(s0, f, p, p);
    var chunk := StringChunk(s0, f, p);
    if f.validateEncoding && p + Utf8.Taken(s0[p]) > |s0| {
      assert p < end <= p + 2;
    } else if chunk.Bytes? {
      var q := chunk.pos;
      ChunkBeforeEnd(s0, f, p, end);
      LeavesAtTheEnd(s0, f, q, end);
      assert StaysInside(s0, f, p) == StaysInside(s0, f, q);
      if !StaysInside(s0, f, p) {
        var r :| q <= r < end <= r + 2 && Reaches(s0, f, q, r) && r + Utf8.Taken(s0[r]) > |s0|;
        assert Reaches(s0, f, p, r);
      } else {
        forall r: nat | p <= r < end <= r + 2 && Reaches(s0, f, p, r)
          ensures !(f.validateEncoding && r + Utf8.Taken(s0[r]) > |s0|)
        {
          if r != p {
            ReachesForward(s0, f, q, r);
          }
        }
      }
    } else {
      assert StaysInside(s0, f, p);
    }
  }

  lemma {:induction false} ReachesForward(s0: seq<byte>, f: Flags, p: nat, r: nat)
    requires p <= |s0| && Reaches(s0, f, p, r)
    ensures p <= r
    decreases |s0| - p
  {
    if p != r {
      ReachesForward(s0, f, StringChunk(s0, f, p).pos, r);
    }
  }

  lemma TakesOne()
    ensures Utf8.Taken(NUL) == 1
  {
  }

  /** So it is enough to look at these two units. */
  lemma LastUnitsSuffice(s0: seq<byte>, f: Flags, p: nat, end: nat)
    requires Terminated(s0, p, end) && forall r :: p <= r < end <= r + 2 ==> r + Utf8.Taken(s0[r]) <= |s0|
    ensures StaysInside(s0, f, p)
  {
    LeavesAtTheEnd(s0, f, p, end);
  }

  /**
   Every text that is well formed up to its terminator stays inside, and so does everything when nothing is validated.
   */
  lemma WellFormedStaysInside(s0: seq<byte>, f: Flags, p: nat, end: nat)
    requires Terminated(s0, p, end) && (f.validateEncoding ==> Utf8.WellFormed(s0[..end]))
    ensures StaysInside(s0, f, p)
  {
    LeavesAtTheEnd(s0, f, p, end);
    if f.validateEncoding {
      SequencesEnd(s0[..end], 0);
    }
  }

  /** In a well-formed text no unit announces more than there is. */
  lemma {:induction false} SequencesEnd(s: seq<byte>, p: nat)
    requires p <= |s| && Utf8.DecodeAll(s, p).Decoded?
    ensures forall r :: p <= r < |s| ==> r + Utf8.Taken(s[r]) <= |s|
    decreases |s| - p
  {
    if p < |s| {
      Utf8.WellFormedTakesAll(s, p);
      SequencesEnd(s, p + Utf8.SequenceLength(s, p));
    }
  }

  /** A quote, the first unit of a sequence of four, and the terminator: two units behind the buffer are announced. */
  lemma AnnouncedPastTheEnd(f: Flags)
    requires f.validateEncoding
    ensures var s0: seq<byte> := [QUOTE, 0xF0, NUL];
            1 + Utf8.Taken(s0[1]) == |s0| + 2 && Terminated(s0, 1, 2) && !StaysInside(s0, f, 1)
  {
  }
}
