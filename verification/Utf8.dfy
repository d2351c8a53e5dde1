/**
 UTF-8: encoding by ranges of the code point, decoding and validating by a table of byte
 classes and masks. The reference is the well-formed byte sequence table of RFC 3629, section 4.
 Code points are integers, so a shift is a multiplication and a mask a remainder
 (`MasksAreArithmetic` is that fact on machine words).
 */
module Utf8 {
  import opened Bytes
  import opened Streams

  // ---------------------------------------------------------------- reference

  /** A Unicode scalar value: a code point that is not a surrogate. */
  predicate IsScalar(cp: nat) {
    cp <= 0xD7FF || 0xE000 <= cp <= 0x10FFFF
  }

  predicate IsTail(c: byte) {
    0x80 <= c <= 0xBF
  }

  /** The length of the well-formed sequence of RFC 3629 these bytes start with; 0 when there is none. */
  function LengthOf(b0: byte, b1: byte, b2: byte, b3: byte): (n: nat)
    ensures n <= 4
  {
    if b0 <= 0x7F then 1
    else if 0xC2 <= b0 <= 0xDF && IsTail(b1) then 2
    else if b0 == 0xE0 && 0xA0 <= b1 <= 0xBF && IsTail(b2) then 3
    else if 0xE1 <= b0 <= 0xEC && IsTail(b1) && IsTail(b2) then 3
    else if b0 == 0xED && 0x80 <= b1 <= 0x9F && IsTail(b2) then 3
    else if 0xEE <= b0 <= 0xEF && IsTail(b1) && IsTail(b2) then 3
    else if b0 == 0xF0 && 0x90 <= b1 <= 0xBF && IsTail(b2) && IsTail(b3) then 4
    else if 0xF1 <= b0 <= 0xF3 && IsTail(b1) && IsTail(b2) && IsTail(b3) then 4
    else if b0 == 0xF4 && 0x80 <= b1 <= 0x8F && IsTail(b2) && IsTail(b3) then 4
    else 0
  }

  /** The code point whose bits a well-formed sequence distributes (RFC 3629, section 3). */
  function ScalarOf(b0: byte, b1: byte, b2: byte, b3: byte): nat
    requires LengthOf(b0, b1, b2, b3) > 0
  {
    match LengthOf(b0, b1, b2, b3)
    case 1 => b0
    case 2 => (b0 - 0xC0) * 0x40 + (b1 - 0x80)
    case 3 => (b0 - 0xE0) * 0x1000 + (b1 - 0x80) * 0x40 + (b2 - 0x80)
    case _ => (b0 - 0xF0) * 0x40000 + (b1 - 0x80) * 0x1000 + (b2 - 0x80) * 0x40 + (b3 - 0x80)
  }

  function SequenceLength(s: seq<byte>, p: nat): (n: nat) {
    LengthOf(At(s, p), At(s, p + 1), At(s, p + 2), At(s, p + 3))
  }

  function ScalarAt(s: seq<byte>, p: nat): nat
    requires SequenceLength(s, p) > 0
  {
    ScalarOf(At(s, p), At(s, p + 1), At(s, p + 2), At(s, p + 3))
  }

  /** How many bytes decoding and validating take, which the first byte alone decides. */
  function Taken(b: byte): (n: nat)
    ensures 1 <= n <= 4
  {
    if 0xC2 <= b <= 0xDF then 2
    else if 0xE0 <= b <= 0xEF then 3
    else if 0xF0 <= b <= 0xF4 then 4
    else 1
  }

  lemma WellFormedTakesAll(s: seq<byte>, p: nat)
    requires SequenceLength(s, p) > 0
    ensures SequenceLength(s, p) == Taken(At(s, p))
  {
  }

  // ---------------------------------------------------------------- the table and the three operations

  /** Byte classes; tail bytes get one bit each so that one mask can accept several classes. */
  function GetRange(c: byte): bv8 {
    if c <= 0x7F then 0
    else if c <= 0x8F then 0x10
    else if c <= 0x9F then 0x40
    else if c <= 0xBF then 0x20
    else if c <= 0xC1 then 8
    else if c <= 0xDF then 2
    else if c == 0xE0 then 10
    else if c <= 0xEC then 3
    else if c == 0xED then 4
    else if c <= 0xEF then 3
    else if c == 0xF0 then 11
    else if c <= 0xF3 then 6
    else if c == 0xF4 then 5
    else 8
  }

  /** `(0xFF >> type) & c`, and 0 for the classes from 32 up. */
  function LeadBits(t: bv8, c: byte): nat {
    if t == 0 then c
    else if t == 2 then c % 0x40
    else if t == 3 then c % 0x20
    else if t == 4 then c % 0x10
    else if t == 5 then c % 8
    else if t == 6 then c % 4
    else 0
  }

  /** Shifting, masking and or-ing machine words is the arithmetic used here. */
  lemma MasksAreArithmetic(cp: bv32, c: bv32)
    requires cp <= 0x1F_FFFF && c <= 0xFF
    ensures (cp << 6) | (c & 0x3F) == cp * 0x40 + c % 0x40
    ensures cp & 0x3F == cp % 0x40 && cp >> 6 == cp / 0x40
    ensures cp <= 0x7FF ==> 0xC0 | ((cp >> 6) & 0xFF) == 0xC0 + cp / 0x40
    ensures 0x7FF < cp <= 0xFFFF ==> 0xE0 | ((cp >> 12) & 0xFF) == 0xE0 + cp / 0x1000
    ensures 0xFFFF < cp <= 0x10_FFFF ==> 0xF0 | ((cp >> 18) & 0xFF) == 0xF0 + cp / 0x4_0000
    ensures 0x80 | (c & 0x3F) == 0x80 + c % 0x40
  {
  }

  function Encoding(cp: nat): (bs: seq<byte>)
    requires cp <= 0x10FFFF
  {
    if cp <= 0x7F then [cp]
    else if cp <= 0x7FF then [0xC0 + cp / 0x40, 0x80 + cp % 0x40]
    else if cp <= 0xFFFF then [0xE0 + cp / 0x1000, 0x80 + cp / 0x40 % 0x40, 0x80 + cp % 0x40]
    else [0xF0 + cp / 0x40000, 0x80 + cp / 0x1000 % 0x40, 0x80 + cp / 0x40 % 0x40, 0x80 + cp % 0x40]
  }

  /** The units a stack of type `T` stores for these bytes. */
  function Wrapped<T>(wrap: byte -> T, bs: seq<byte>): (ts: seq<T>)
    ensures |ts| == |bs|
    ensures forall i :: 0 <= i < |bs| ==> ts[i] == wrap(bs[i])
  {
    seq(|bs|, i requires 0 <= i < |bs| => wrap(bs[i]))
  }

  method Encode<T>(os: Stack<T>, wrap: byte -> T, cp: nat)
    requires cp <= 0x10FFFF
    modifies os
    ensures os.items == old(os.items) + Wrapped(wrap, Encoding(cp))
  {
    if cp <= 0x7F {
      os.Push(wrap(cp));
    } else if cp <= 0x7FF {
      os.Push(wrap(0xC0 + cp / 0x40));
      os.Push(wrap(0x80 + cp % 0x40));
    } else if cp <= 0xFFFF {
      os.Push(wrap(0xE0 + cp / 0x1000));
      os.Push(wrap(0x80 + cp / 0x40 % 0x40));
      os.Push(wrap(0x80 + cp % 0x40));
    } else {
      os.Push(wrap(0xF0 + cp / 0x40000));
      os.Push(wrap(0x80 + cp / 0x1000 % 0x40));
      os.Push(wrap(0x80 + cp / 0x40 % 0x40));
      os.Push(wrap(0x80 + cp % 0x40));
    }
  }

  /** The tail bytes whose class bit is in the mask. */
  predicate Accepts(mask: bv8, c: byte) {
    if mask == 0x70 then IsTail(c)
    else if mask == 0x50 then 0x80 <= c <= 0x9F
    else if mask == 0x60 then 0x90 <= c <= 0xBF
    else if mask == 0x20 then 0xA0 <= c <= 0xBF
    else 0x80 <= c <= 0x8F
  }

  predicate IsMask(mask: bv8) {
    mask == 0x70 || mask == 0x60 || mask == 0x50 || mask == 0x20 || mask == 0x10
  }

  /** One `COPY; TRANS(mask)` of the decoder. */
  method DecodeTail(input: StringStream, mask: bv8, cp: nat, result: bool) returns (cp': nat, result': bool)
    requires IsMask(mask)
    modifies input
    ensures input.pos == old(input.pos) + 1
    ensures Accepts(mask, old(input.Peek())) ==> cp' == cp * 0x40 + (old(input.Peek()) - 0x80)
    ensures result' == (result && Accepts(mask, old(input.Peek())))
  {
    var c := input.Take();
    cp' := cp * 0x40 + c % 0x40;
    result' := result && GetRange(c) & mask != 0;
  }

  /** `COPY; TRANS(mask)` and then `n - 1` times `TAIL`. */
  method DecodeTails(input: StringStream, mask: bv8, n: nat, cp: nat) returns (ok: bool, cp': nat)
    requires IsMask(mask) && 1 <= n <= 3
    modifies input
    ensures input.pos == old(input.pos) + n
    ensures var p := old(input.pos);
            var b1, b2, b3 := At(input.src, p), At(input.src, p + 1), At(input.src, p + 2);
            && ok == (Accepts(mask, b1) && (n > 1 ==> IsTail(b2)) && (n > 2 ==> IsTail(b3)))
            && (ok ==> cp' == if n == 1 then cp * 0x40 + (b1 - 0x80)
                              else if n == 2 then cp * 0x1000 + (b1 - 0x80) * 0x40 + (b2 - 0x80)
                              else cp * 0x40000 + (b1 - 0x80) * 0x1000 + (b2 - 0x80) * 0x40 + (b3 - 0x80))
  {
    cp', ok := DecodeTail(input, mask, cp, true);
    if n > 1 {
      cp', ok := DecodeTail(input, 0x70, cp', ok);
    }
    if n > 2 {
      cp', ok := DecodeTail(input, 0x70, cp', ok);
    }
  }

  lemma LeadBitsOfClass(c: byte)
    ensures 0xC2 <= c <= 0xDF ==> LeadBits(GetRange(c), c) == c - 0xC0
    ensures 0xE0 <= c <= 0xEF ==> LeadBits(GetRange(c), c) == c - 0xE0
    ensures 0xF0 <= c <= 0xF4 ==> LeadBits(GetRange(c), c) == c - 0xF0
  {
  }

  method Decode(input: StringStream) returns (ok: bool, cp: nat)
    modifies input
    ensures ok == (SequenceLength(input.src, old(input.pos)) > 0)
    ensures ok ==> cp == ScalarAt(input.src, old(input.pos))
    ensures input.pos == old(input.pos) + Taken(old(input.Peek()))
  {
    var c := input.Take();
    if c < 0x80 {
      return true, c;
    }
    var t := GetRange(c);
    cp := LeadBits(t, c);
    LeadBitsOfClass(c);
    if t == 2 {
      ok, cp := DecodeTails(input, 0x70, 1, cp);
    } else if t == 3 {
      ok, cp := DecodeTails(input, 0x70, 2, cp);
    } else if t == 4 {
      ok, cp := DecodeTails(input, 0x50, 2, cp);
    } else if t == 5 {
      ok, cp := DecodeTails(input, 0x10, 3, cp);
    } else if t == 6 {
      ok, cp := DecodeTails(input, 0x70, 3, cp);
    } else if t == 10 {
      ok, cp := DecodeTails(input, 0x20, 2, cp);
    } else if t == 11 {
      ok, cp := DecodeTails(input, 0x60, 3, cp);
    } else {
      ok := false;
    }
  }

  /** The bytes from `p` on, as many as are taken, NULs past the end included. */
  function Window(s: seq<byte>, p: nat, n: nat): (w: seq<byte>)
    ensures |w| == n
    ensures p + n <= |s| ==> w == s[p..p + n]
  {
    if n == 0 then [] else Window(s, p, n - 1) + [At(s, p + n - 1)]
  }

  /** One `COPY; TRANS(mask)` of the validator, which copies without decoding. */
  method ValidateTail<T>(input: StringStream, os: Stack<T>, wrap: byte -> T, mask: bv8, result: bool,
                         ghost base: seq<T>, ghost start: nat, ghost taken: nat)
    returns (result': bool)
    requires input as object != os && IsMask(mask)
    requires input.pos == start + taken
    requires os.items == base + Wrapped(wrap, Window(input.src, start, taken))
    modifies input, os
    ensures input.pos == start + taken + 1
    ensures os.items == base + Wrapped(wrap, Window(input.src, start, taken + 1))
    ensures result' == (result && Accepts(mask, At(input.src, start + taken)))
  {
    var c := input.Take();
    os.Push(wrap(c));
    result' := result && GetRange(c) & mask != 0;
    assert Wrapped(wrap, Window(input.src, start, taken + 1))
        == Wrapped(wrap, Window(input.src, start, taken)) + [wrap(c)];
  }

  method ValidateTails<T>(input: StringStream, os: Stack<T>, wrap: byte -> T, mask: bv8, n: nat,
                          ghost base: seq<T>, ghost start: nat)
    returns (ok: bool)
    requires input as object != os && IsMask(mask) && 1 <= n <= 3
    requires input.pos == start + 1
    requires os.items == base + Wrapped(wrap, Window(input.src, start, 1))
    modifies input, os
    ensures input.pos == start + 1 + n
    ensures os.items == base + Wrapped(wrap, Window(input.src, start, 1 + n))
    ensures ok == (Accepts(mask, At(input.src, start + 1)) && (n > 1 ==> IsTail(At(input.src, start + 2)))
                   && (n > 2 ==> IsTail(At(input.src, start + 3))))
  {
    ok := ValidateTail(input, os, wrap, mask, true, base, start, 1);
    if n > 1 {
      ok := ValidateTail(input, os, wrap, 0x70, ok, base, start, 2);
    }
    if n > 2 {
      ok := ValidateTail(input, os, wrap, 0x70, ok, base, start, 3);
    }
  }

  method Validate<T>(input: StringStream, os: Stack<T>, wrap: byte -> T) returns (ok: bool)
    requires input as object != os
    modifies input, os
    ensures ok == (SequenceLength(input.src, old(input.pos)) > 0)
    ensures input.pos == old(input.pos) + Taken(old(input.Peek()))
    ensures os.items == old(os.items) + Wrapped(wrap, Window(input.src, old(input.pos), Taken(old(input.Peek()))))
  {
    ghost var base, start := os.items, input.pos;
    var c := input.Take();
    os.Push(wrap(c));
    assert Window(input.src, start, 1) == [c];
    if c < 0x80 {
      return true;
    }
    var t := GetRange(c);
    if t == 2 {
      ok := ValidateTails(input, os, wrap, 0x70, 1, base, start);
    } else if t == 3 {
      ok := ValidateTails(input, os, wrap, 0x70, 2, base, start);
    } else if t == 4 {
      ok := ValidateTails(input, os, wrap, 0x50, 2, base, start);
    } else if t == 5 {
      ok := ValidateTails(input, os, wrap, 0x10, 3, base, start);
    } else if t == 6 {
      ok := ValidateTails(input, os, wrap, 0x70, 3, base, start);
    } else if t == 10 {
      ok := ValidateTails(input, os, wrap, 0x20, 2, base, start);
    } else if t == 11 {
      ok := ValidateTails(input, os, wrap, 0x60, 3, base, start);
    } else {
      ok := false;
    }
  }

  lemma MaskAccepts(mask: bv8, c: byte)
    requires IsMask(mask)
    ensures (GetRange(c) & mask != 0) == Accepts(mask, c)
  {
  }

  /** The mask for the second unit of a sequence and how many units follow the first. */
  function SecondMask(c: byte): (r: (bv8, nat))
    requires c >= 0x80
    ensures r.1 == Taken(c) - 1 && IsMask(r.0)
  {
    var t := GetRange(c);
    if t == 2 then (0x70, 1)
    else if t == 3 then (0x70, 2)
    else if t == 4 then (0x50, 2)
    else if t == 5 then (0x10, 3)
    else if t == 6 then (0x70, 3)
    else if t == 10 then (0x20, 2)
    else if t == 11 then (0x60, 3)
    else (0x70, 0)
  }

  lemma SequenceByMasks(b0: byte, b1: byte, b2: byte, b3: byte)
    requires b0 >= 0x80
    ensures LengthOf(b0, b1, b2, b3) > 0
       <==> && SecondMask(b0).1 > 0 && Accepts(SecondMask(b0).0, b1)
            && (SecondMask(b0).1 > 1 ==> IsTail(b2)) && (SecondMask(b0).1 > 2 ==> IsTail(b3))
  {
  }

  // ---------------------------------------------------------------- one code point

  /** Quotient and remainder by the powers of two that the encoder shifts by. */
  lemma Quotients(n: nat, q: nat, r: nat)
    ensures n == q * 0x40 + r && r < 0x40 ==> n / 0x40 == q && n % 0x40 == r
    ensures n == q * 0x1000 + r && r < 0x1000 ==> n / 0x1000 == q
    ensures n == q * 0x40000 + r && r < 0x40000 ==> n / 0x40000 == q
  {
  }

  /** The base-64 digits of a code point, lowest first, are what the encoder's shifts and masks give. */
  lemma DigitsOf(cp: nat, d0: nat, d1: nat, d2: nat, d3: nat)
    requires d0 < 0x40 && d1 < 0x40 && d2 < 0x40
    requires cp == d0 + 0x40 * d1 + 0x1000 * d2 + 0x40000 * d3
    ensures cp % 0x40 == d0
    ensures cp / 0x40 == d1 + 0x40 * d2 + 0x1000 * d3 && cp / 0x40 % 0x40 == d1
    ensures cp / 0x1000 == d2 + 0x40 * d3 && cp / 0x1000 % 0x40 == d2
    ensures cp / 0x40000 == d3
  {
    Quotients(cp, d1 + 0x40 * d2 + 0x1000 * d3, d0);
    Quotients(cp, d2 + 0x40 * d3, d0 + 0x40 * d1);
    Quotients(cp, d3, d0 + 0x40 * d1 + 0x1000 * d2);
    Quotients(d1 + 0x40 * d2 + 0x1000 * d3, d2 + 0x40 * d3, d1);
    Quotients(d2 + 0x40 * d3, d3, d2);
  }

  lemma CodePointDigits(cp: nat) returns (d0: nat, d1: nat, d2: nat, d3: nat)
    ensures d0 < 0x40 && d1 < 0x40 && d2 < 0x40
    ensures cp == d0 + 0x40 * d1 + 0x1000 * d2 + 0x40000 * d3
    ensures cp % 0x40 == d0
    ensures cp / 0x40 == d1 + 0x40 * d2 + 0x1000 * d3 && cp / 0x40 % 0x40 == d1
    ensures cp / 0x1000 == d2 + 0x40 * d3 && cp / 0x1000 % 0x40 == d2
    ensures cp / 0x40000 == d3
  {
    d0 := cp % 0x40;
    var r1 := cp / 0x40;
    d1 := r1 % 0x40;
    var r2 := r1 / 0x40;
    d2, d3 := r2 % 0x40, r2 / 0x40;
    DigitsOf(cp, d0, d1, d2, d3);
  }

  lemma EncodingOfScalar(cp: nat, b0: byte, b1: byte, b2: byte, b3: byte)
    requires IsScalar(cp)
    requires var e := Encoding(cp);
             b0 == e[0] && (|e| > 1 ==> b1 == e[1]) && (|e| > 2 ==> b2 == e[2]) && (|e| > 3 ==> b3 == e[3])
    ensures LengthOf(b0, b1, b2, b3) == |Encoding(cp)|
    ensures ScalarOf(b0, b1, b2, b3) == cp
  {
    var d0, d1, d2, d3 := CodePointDigits(cp);
    var n := |Encoding(cp)|;
    if n == 2 {
      assert d2 == d3 == 0;
    } else if n == 3 {
      assert d3 == 0;
    }
  }

  lemma EncodingDecodes(cp: nat, rest: seq<byte>)
    requires IsScalar(cp)
    ensures SequenceLength(Encoding(cp) + rest, 0) == |Encoding(cp)|
    ensures ScalarAt(Encoding(cp) + rest, 0) == cp
  {
    var s := Encoding(cp) + rest;
    EncodingOfScalar(cp, At(s, 0), At(s, 1), At(s, 2), At(s, 3));
  }

  lemma TwoBytes(b0: byte, b1: byte)
    requires 0xC2 <= b0 <= 0xDF && IsTail(b1)
    ensures var cp := (b0 - 0xC0) * 0x40 + (b1 - 0x80); IsScalar(cp) && Encoding(cp) == [b0, b1]
  {
    DigitsOf((b0 - 0xC0) * 0x40 + (b1 - 0x80), b1 - 0x80, b0 - 0xC0, 0, 0);
  }

  lemma ThreeBytes(b0: byte, b1: byte, b2: byte)
    requires 0xE0 <= b0 <= 0xEF && IsTail(b1) && IsTail(b2) && (b0 == 0xE0 ==> b1 >= 0xA0) &&
             (b0 == 0xED ==> b1 <= 0x9F)
    ensures var cp := (b0 - 0xE0) * 0x1000 + (b1 - 0x80) * 0x40 + (b2 - 0x80);
            IsScalar(cp) && Encoding(cp) == [b0, b1, b2]
  {
    DigitsOf((b0 - 0xE0) * 0x1000 + (b1 - 0x80) * 0x40 + (b2 - 0x80), b2 - 0x80, b1 - 0x80, b0 - 0xE0, 0);
  }

  lemma FourBytes(b0: byte, b1: byte, b2: byte, b3: byte)
    requires 0xF0 <= b0 <= 0xF4 && IsTail(b1) && IsTail(b2) && IsTail(b3)
    requires (b0 == 0xF0 ==> b1 >= 0x90) && (b0 == 0xF4 ==> b1 <= 0x8F)
    ensures var cp := (b0 - 0xF0) * 0x40000 + (b1 - 0x80) * 0x1000 + (b2 - 0x80) * 0x40 + (b3 - 0x80);
            IsScalar(cp) && Encoding(cp) == [b0, b1, b2, b3]
  {
    DigitsOf((b0 - 0xF0) * 0x40000 + (b1 - 0x80) * 0x1000 + (b2 - 0x80) * 0x40 + (b3 - 0x80),
             b3 - 0x80, b2 - 0x80, b1 - 0x80, b0 - 0xF0);
  }

  /** The bytes of a well-formed sequence, by its length; all but the first are no NUL. */
  lemma BytesByLength(b0: byte, b1: byte, b2: byte, b3: byte)
    ensures match LengthOf(b0, b1, b2, b3)
            case 0 => true
            case 1 => b0 < 0x80
            case 2 => 0xC2 <= b0 <= 0xDF && IsTail(b1)
            case 3 => 0xE0 <= b0 <= 0xEF && IsTail(b1) && IsTail(b2) && (b0 == 0xE0 ==> b1 >= 0xA0) &&
                      (b0 == 0xED ==> b1 <= 0x9F)
            case _ => && 0xF0 <= b0 <= 0xF4 && IsTail(b1) && IsTail(b2) && IsTail(b3)
                      && (b0 == 0xF0 ==> b1 >= 0x90) && (b0 == 0xF4 ==> b1 <= 0x8F)
  {
  }

  lemma ScalarOfBytes(b0: byte, b1: byte, b2: byte, b3: byte)
    requires LengthOf(b0, b1, b2, b3) > 0
    ensures IsScalar(ScalarOf(b0, b1, b2, b3))
    ensures Encoding(ScalarOf(b0, b1, b2, b3)) == [b0, b1, b2, b3][..LengthOf(b0, b1, b2, b3)]
  {
    BytesByLength(b0, b1, b2, b3);
    hide LengthOf;
    match LengthOf(b0, b1, b2, b3) {
      case 1 =>
      case 2 => TwoBytes(b0, b1); hide Encoding;
      case 3 => ThreeBytes(b0, b1, b2); hide Encoding;
      case _ => FourBytes(b0, b1, b2, b3); hide Encoding;
    }
  }

  /** A well-formed sequence is the encoding of the scalar value it denotes, and of no other text. */
  lemma DecodedIsScalar(s: seq<byte>, p: nat)
    requires SequenceLength(s, p) > 0
    requires p < |s|
    ensures IsScalar(ScalarAt(s, p))
    ensures p + SequenceLength(s, p) <= |s|
    ensures Encoding(ScalarAt(s, p)) == s[p..p + SequenceLength(s, p)]
  {
    hide LengthOf, ScalarOf, Encoding;
    ScalarOfBytes(At(s, p), At(s, p + 1), At(s, p + 2), At(s, p + 3));
    BytesByLength(At(s, p), At(s, p + 1), At(s, p + 2), At(s, p + 3));
  }

  // ---------------------------------------------------------------- whole texts

  function EncodeAll(cps: seq<nat>): seq<byte>
    requires forall cp :: cp in cps ==> IsScalar(cp)
  {
    if cps == [] then [] else
      assert IsScalar(cps[0]);
      Encoding(cps[0]) + EncodeAll(cps[1..])
  }

  datatype Decoded = Decoded(cps: seq<nat>) | Malformed

  /** Decoding again and again from `p` to the end of the text. */
  function DecodeAll(s: seq<byte>, p: nat): Decoded
    requires p <= |s|
    decreases |s| - p
  {
    if p == |s| then Decoded([])
    else if SequenceLength(s, p) == 0 then Malformed
    else
      DecodedIsScalar(s, p);
      match DecodeAll(s, p + SequenceLength(s, p))
      case Malformed => Malformed
      case Decoded(cps) => Decoded([ScalarAt(s, p)] + cps)
  }

  /** A text is well-formed UTF-8 when decoding consumes all of it. */
  predicate WellFormed(s: seq<byte>) {
    DecodeAll(s, 0).Decoded?
  }

  lemma SequenceLengthOfSuffix(a: seq<byte>, b: seq<byte>, p: nat)
    ensures SequenceLength(a + b, |a| + p) == SequenceLength(b, p)
    ensures SequenceLength(b, p) > 0 ==> ScalarAt(a + b, |a| + p) == ScalarAt(b, p)
  {
    AtSuffix(a, b, |a| + p);
    AtSuffix(a, b, |a| + p + 1);
    AtSuffix(a, b, |a| + p + 2);
    AtSuffix(a, b, |a| + p + 3);
  }

  lemma {:induction false} DecodeAllOfSuffix(a: seq<byte>, b: seq<byte>, p: nat)
    requires p <= |b|
    ensures DecodeAll(a + b, |a| + p) == DecodeAll(b, p)
    decreases |b| - p
  {
    SequenceLengthOfSuffix(a, b, p);
    if p < |b| && SequenceLength(b, p) > 0 {
      DecodedIsScalar(b, p);
      DecodeAllOfSuffix(a, b, p + SequenceLength(b, p));
    }
  }

  lemma {:induction false} DecodeAllOfEncodeAll(cps: seq<nat>)
    requires forall cp :: cp in cps ==> IsScalar(cp)
    ensures DecodeAll(EncodeAll(cps), 0) == Decoded(cps)
  {
    if cps != [] {
      assert IsScalar(cps[0]);
      var head, rest := Encoding(cps[0]), EncodeAll(cps[1..]);
      EncodingDecodes(cps[0], rest);
      DecodeAllOfEncodeAll(cps[1..]);
      DecodeAllOfSuffix(head, rest, 0);
      assert [cps[0]] + cps[1..] == cps;
    }
  }

  lemma EncodeAllCons(cp: nat, rest: seq<nat>)
    requires IsScalar(cp) && forall c :: c in rest ==> IsScalar(c)
    ensures EncodeAll([cp] + rest) == Encoding(cp) + EncodeAll(rest)
  {
    assert ([cp] + rest)[1..] == rest;
  }

  /** Decoding a text goes on after its first sequence; what that sequence is no longer matters. */
  lemma DecodeAllStep(s: seq<byte>, p: nat) returns (cp: nat, q: nat)
    requires p < |s| && DecodeAll(s, p).Decoded?
    ensures p < q <= |s| && IsScalar(cp) && Encoding(cp) == s[p..q]
    ensures DecodeAll(s, q).Decoded?
    ensures DecodeAll(s, p).cps == [cp] + DecodeAll(s, q).cps
  {
    DecodedIsScalar(s, p);
    cp, q := ScalarAt(s, p), p + SequenceLength(s, p);
  }

  lemma {:induction false} EncodeAllOfDecodeAll(s: seq<byte>, p: nat)
    requires p <= |s|
    requires DecodeAll(s, p).Decoded?
    ensures forall cp :: cp in DecodeAll(s, p).cps ==> IsScalar(cp)
    ensures EncodeAll(DecodeAll(s, p).cps) == s[p..]
    decreases |s| - p
  {
    if p < |s| {
      var cp, q := DecodeAllStep(s, p);
      EncodeAllOfDecodeAll(s, q);
      EncodeAllCons(cp, DecodeAll(s, q).cps);
      assert s[p..] == s[p..q] + s[q..];
    }
  }

  /** Well-formed texts are exactly the encodings of scalar value lists, each of exactly one list. */
  lemma WellFormedIffEncoding(s: seq<byte>, cps: seq<nat>)
    ensures DecodeAll(s, 0) == Decoded(cps)
       <==> (forall cp :: cp in cps ==> IsScalar(cp)) && EncodeAll(cps) == s
  {
    if DecodeAll(s, 0) == Decoded(cps) {
      EncodeAllOfDecodeAll(s, 0);
    }
    if (forall cp :: cp in cps ==> IsScalar(cp)) && EncodeAll(cps) == s {
      DecodeAllOfEncodeAll(cps);
    }
  }

  lemma {:induction false} EncodeAllAppend(a: seq<nat>, b: seq<nat>)
    requires (forall cp :: cp in a ==> IsScalar(cp)) && forall cp :: cp in b ==> IsScalar(cp)
    ensures (forall cp :: cp in a + b ==> IsScalar(cp)) && EncodeAll(a + b) == EncodeAll(a) + EncodeAll(b)
    decreases |a|
  {
    if a == [] {
      assert a + b == b;
    } else {
      assert (a + b)[1..] == a[1..] + b;
      EncodeAllAppend(a[1..], b);
    }
  }

  /** Well-formed texts can be joined. */
  lemma WellFormedJoin(s: seq<byte>, t: seq<byte>)
    requires WellFormed(s) && WellFormed(t)
    ensures WellFormed(s + t)
  {
    var a, b := DecodeAll(s, 0).cps, DecodeAll(t, 0).cps;
    WellFormedIffEncoding(s, a);
    WellFormedIffEncoding(t, b);
    EncodeAllAppend(a, b);
    WellFormedIffEncoding(s + t, a + b);
  }

  lemma SequenceIsWellFormed(s: seq<byte>)
    requires SequenceLength(s, 0) == |s| > 0
    ensures WellFormed(s)
  {
    assert DecodeAll(s, |s|) == Decoded([]);
  }
}
