/**
 What recursive-descent parsing of a text publishes, as functions of the text: one function for
 each point of the grammar at which the parser can stand. RFC 8259 sections 2, 6 and 7, with the
 extensions the parse flags switch on.
 */
module Grammar {
  import opened Bytes
  import opened Numerals
  import opened Sax
  import Utf8

  datatype ParseErrorCode =
    | DocumentEmpty
    | DocumentRootNotSingular
    | ValueInvalid
    | ObjectMissName
    | ObjectMissColon
    | ObjectMissCommaOrCurlyBracket
    | ArrayMissCommaOrSquareBracket
    | StringUnicodeEscapeInvalidHex
    | StringUnicodeSurrogateInvalid
    | StringEscapeInvalid
    | StringMissQuotationMark
    | StringInvalidEncoding
    | NumberTooBig
    | NumberMissFraction
    | NumberMissExponent
    | Termination
    | UnspecificSyntaxError

  datatype Flags = Flags(validateEncoding: bool, stopWhenDone: bool, fullPrecision: bool, comments: bool,
                         numbersAsStrings: bool, trailingCommas: bool, nanAndInf: bool, escapedApostrophe: bool)

  /** The conversions from a significand and a power of ten to a double, and the largest finite double. */
  datatype Strtod = Strtod(normal: (nat, int) -> real, full: (nat, int, seq<byte>, nat, int) -> real, max: real)

  /** Everything a parse depends on: the text, the flags, the handler's answers and the double conversion. */
  datatype Context = Context(s: seq<byte>, f: Flags, accept: Acceptance, strtod: Strtod)

  /**
   Where parsing stands after a construct, or how it stopped. On a refused bracket event `rewind` is
   how far recursive descent has already moved past the bracket.
   */
  datatype Step =
    | Go(pos: nat, log: seq<Event>)
    | Stop(code: ParseErrorCode, offset: nat, rewind: nat, log: seq<Event>)
  {
    predicate IsFailure() {
      Stop?
    }

    function PropagateFailure(): Step
      requires Stop?
    {
      this
    }

    function Extract(): (nat, seq<Event>)
      requires Go?
    {
      (pos, log)
    }
  }

  predicate IsBracket(e: Event) {
    e.StartObject? || e.StartArray? || IsEnd(e)
  }

  predicate IsEnd(e: Event) {
    e.EndObject? || e.EndArray?
  }

  function Last(log: seq<Event>): Event
    requires log != []
  {
    log[|log| - 1]
  }

  /**
   Only the event the handler refused last can stop parsing away from the cursor, or end it without an error.
   Bracket events do, by one unit, but for those of closing brackets that a trailing comma allows.
   */
  predicate RewindsOnlyRefusals(c: Context, r: Step) {
    r.Stop? ==>
      && r.rewind <= 1 && r.rewind <= r.offset
      && (r.rewind > 0 ==> r.code.Termination? && r.log != [] && IsBracket(Last(r.log)))
      && (r.code.Termination? ==> r.log != [] && !c.accept(r.log))
      && (r.code.Termination? && r.rewind == 0 ==>
            !IsBracket(Last(r.log)) || (c.f.trailingCommas && IsEnd(Last(r.log))))
  }

  function Fail(code: ParseErrorCode, offset: nat, log: seq<Event>): Step {
    Stop(code, offset, 0, log)
  }

  /** Publishing an event and going on at `pos`, unless the handler refuses it. */
  function Emit(c: Context, e: Event, pos: nat, offset: nat, rewind: nat, log: seq<Event>): Step {
    if c.accept(log + [e]) then Go(pos, log + [e]) else Stop(Termination, offset, rewind, log + [e])
  }

  // ---------------------------------------------------------------- whitespace and comments

  function SkipWhitespace(s: seq<byte>, p: nat): (q: nat)
    requires p <= |s|
    ensures p <= q <= |s|
    ensures !IsWhitespace(At(s, q))
    decreases |s| - p
  {
    if IsWhitespace(At(s, p)) then SkipWhitespace(s, p + 1) else p
  }

  datatype Skipped = Skipped(pos: nat) | Unclosed(offset: nat)

  /** Just after the first closing mark of a block comment. */
  function BlockEnd(s: seq<byte>, p: nat): (r: Skipped)
    requires p <= |s|
    ensures r.Skipped? ==> p < r.pos <= |s|
    decreases |s| - p
  {
    if At(s, p) == NUL then Unclosed(p)
    else if At(s, p) == STAR && At(s, p + 1) == SLASH then Skipped(p + 2)
    else BlockEnd(s, p + 1)
  }

  function LineEnd(s: seq<byte>, p: nat): (q: nat)
    requires p <= |s|
    ensures p <= q <= |s|
    decreases |s| - p
  {
    if At(s, p) == NUL then p
    else if At(s, p) == LF then p + 1
    else LineEnd(s, p + 1)
  }

  function SkipComments(s: seq<byte>, p: nat): (r: Skipped)
    requires p <= |s|
    ensures r.Skipped? ==> p <= r.pos <= |s|
    decreases |s| - p
  {
    if At(s, p) != SLASH then Skipped(p)
    else if At(s, p + 1) == STAR then
      (match BlockEnd(s, p + 2)
       case Unclosed(o) => Unclosed(o)
       case Skipped(q) => SkipComments(s, SkipWhitespace(s, q)))
    else if At(s, p + 1) == SLASH then SkipComments(s, SkipWhitespace(s, LineEnd(s, p + 2)))
    else Unclosed(p + 1)
  }

  function SkipBlank(s: seq<byte>, f: Flags, p: nat): (r: Skipped)
    requires p <= |s|
    ensures r.Skipped? ==> p <= r.pos <= |s|
  {
    var q := SkipWhitespace(s, p);
    if f.comments then SkipComments(s, q) else Skipped(q)
  }

  function Skip(c: Context, p: nat, log: seq<Event>): (r: Step)
    requires p <= |c.s|
    ensures r.Go? ==> p <= r.pos <= |c.s| && r.log == log
    ensures RewindsOnlyRefusals(c, r)
  {
    match SkipBlank(c.s, c.f, p)
    case Skipped(q) => Go(q, log)
    case Unclosed(o) => Fail(UnspecificSyntaxError, o, log)
  }

  // ---------------------------------------------------------------- literals

  const TRUE_TAIL: seq<byte> := [LOWER_R, LOWER_U, LOWER_E]
  const FALSE_TAIL: seq<byte> := [LOWER_A, LOWER_L, LOWER_S, LOWER_E]
  const NULL_TAIL: seq<byte> := [LOWER_U, LOWER_L, LOWER_L]

  /** How many units of `lit` the text at `p` begins with. */
  function Matching(s: seq<byte>, p: nat, lit: seq<byte>): (n: nat)
    requires p <= |s| && NUL !in lit
    ensures n <= |lit| && p + n <= |s|
    decreases |lit|
  {
    if lit == [] || At(s, p) != lit[0] then 0 else 1 + Matching(s, p + 1, lit[1..])
  }

  /** `null`, `true` and `false`, whose first letter is at `p`. */
  function Literal(c: Context, p: nat, tail: seq<byte>, e: Event, log: seq<Event>): (r: Step)
    requires p < |c.s| && NUL !in tail && !IsBracket(e)
    ensures r.Go? ==> p < r.pos <= |c.s|
    ensures RewindsOnlyRefusals(c, r)
  {
    var n := Matching(c.s, p + 1, tail);
    if n == |tail| then Emit(c, e, p + 1 + n, p + 1 + n, 0, log) else Fail(ValueInvalid, p + 1 + n, log)
  }

  // ---------------------------------------------------------------- strings

  /** What the escape letter stands for; 0 when it is no simple escape. */
  function Unescaped(e: byte): byte {
    if e == QUOTE then QUOTE
    else if e == SLASH then SLASH
    else if e == BACKSLASH then BACKSLASH
    else if e == LOWER_B then BACKSPACE
    else if e == LOWER_F then FORM_FEED
    else if e == LOWER_N then LF
    else if e == LOWER_R then CR
    else if e == LOWER_T then TAB
    else 0
  }

  datatype Hex = Hex(value: nat) | NotHex

  function HexDigit(c: byte): (h: Hex)
    ensures h.Hex? ==> h.value < 16 && c != NUL
  {
    if IsDigit(c) then Hex(c - DIGIT_0)
    else if UPPER_A <= c <= UPPER_F then Hex(c - UPPER_A + 10)
    else if LOWER_A <= c <= LOWER_F then Hex(c - LOWER_A + 10)
    else NotHex
  }

  /** The value of `n` hexadecimal digits at `p`. */
  function HexValue(s: seq<byte>, p: nat, n: nat): (h: Hex)
    ensures h.Hex? && p <= |s| ==> p + n <= |s|
    ensures h.Hex? && n <= 4 ==> h.value < [1, 0x10, 0x100, 0x1000, 0x1_0000][n]
  {
    if n == 0 then Hex(0)
    else match HexValue(s, p, n - 1)
      case NotHex => NotHex
      case Hex(v) =>
        match HexDigit(At(s, p + n - 1))
        case NotHex => NotHex
        case Hex(d) => Hex(v * 16 + d)
  }

  /** One unit of a string literal: the bytes it decodes to, the closing quote, or the error. */
  datatype Chunk =
    | Bytes(pos: nat, bytes: seq<byte>)
    | Close(pos: nat)
    | Bad(code: ParseErrorCode, offset: nat)

  /** `\uXXXX`, or the surrogate pair `\uXXXX\uYYYY`, whose first digit is at `p + 2`. */
  function UnicodeEscape(s: seq<byte>, p: nat): (r: Chunk)
    requires p + 2 <= |s|
    ensures r.Bytes? ==> p < r.pos <= |s|
    ensures !r.Close?
  {
    match HexValue(s, p + 2, 4)
    case NotHex => Bad(StringUnicodeEscapeInvalidHex, p)
    case Hex(hi) =>
      if hi < 0xD800 || hi > 0xDFFF then Bytes(p + 6, Utf8.Encoding(hi))
      else if hi > 0xDBFF || At(s, p + 6) != BACKSLASH || At(s, p + 7) != LOWER_U then
        Bad(StringUnicodeSurrogateInvalid, p)
      else
        match HexValue(s, p + 8, 4)
        case NotHex => Bad(StringUnicodeEscapeInvalidHex, p)
        case Hex(lo) =>
          if lo < 0xDC00 || lo > 0xDFFF then Bad(StringUnicodeSurrogateInvalid, p)
          else Bytes(p + 12, Utf8.Encoding((hi - 0xD800) * 0x400 + (lo - 0xDC00) + 0x10000))
  }

  function StringChunk(s: seq<byte>, f: Flags, p: nat): (r: Chunk)
    requires p <= |s|
    ensures r.Bytes? || r.Close? ==> p < r.pos <= |s|
    ensures r.Bad? ==> !r.code.Termination?
  {
    var b := At(s, p);
    if b == BACKSLASH then
      var e := At(s, p + 1);
      if Unescaped(e) != 0 then Bytes(p + 2, [Unescaped(e)])
      else if f.escapedApostrophe && e == APOSTROPHE then Bytes(p + 2, [APOSTROPHE])
      else if e == LOWER_U then UnicodeEscape(s, p)
      else Bad(StringEscapeInvalid, p)
    else if b == QUOTE then Close(p + 1)
    else if b < SPACE then Bad(if b == NUL then StringMissQuotationMark else StringInvalidEncoding, p)
    else if f.validateEncoding then
      var n := Utf8.SequenceLength(s, p);
      if n == 0 then Bad(StringInvalidEncoding, p)
      else
        Utf8.DecodedIsScalar(s, p);
        Bytes(p + n, s[p..p + n])
    else Bytes(p + 1, [b])
  }

  datatype StringResult = Decoded(pos: nat, text: seq<byte>) | BadString(code: ParseErrorCode, offset: nat)

  /** The rest of a string literal from `p`, after `out` has been decoded. */
  function StringBody(s: seq<byte>, f: Flags, p: nat, out: seq<byte>): (r: StringResult)
    requires p <= |s|
    ensures r.Decoded? ==> p < r.pos <= |s|
    ensures r.BadString? ==> !r.code.Termination?
    decreases |s| - p
  {
    match StringChunk(s, f, p)
    case Bad(code, o) => BadString(code, o)
    case Close(q) => Decoded(q, out)
    case Bytes(q, bs) => StringBody(s, f, q, out + bs)
  }

  function StringAt(c: Context, p: nat, isKey: bool, log: seq<Event>): (r: Step)
    requires p < |c.s|
    ensures r.Go? ==> p < r.pos <= |c.s|
    ensures RewindsOnlyRefusals(c, r)
  {
    match StringBody(c.s, c.f, p + 1, [])
    case BadString(code, o) => Fail(code, o, log)
    case Decoded(q, text) => Emit(c, if isKey then Key(text) else String(text), q, q, 0, log)
  }

  // ---------------------------------------------------------------- numbers

  const INT_MAX: int := 0x7FFF_FFFF
  const INT_MIN: int := -0x8000_0000

  /** Whether an integer literal with this magnitude has an integer event. */
  predicate FitsInteger(minus: bool, n: nat) {
    if minus then n <= 0x8000_0000_0000_0000 else n < 0x1_0000_0000_0000_0000
  }

  /** The narrowest event of each sign that holds the number. */
  function IntegerEvent(minus: bool, n: nat): Event
    requires FitsInteger(minus, n)
  {
    if minus then (if n <= 0x8000_0000 then Int(-(n as int)) else Int64(-(n as int)))
    else if n < 0x1_0000_0000 then Uint(n)
    else Uint64(n)
  }

  /** The significand after the fraction and how many fraction digits it has absorbed. */
  datatype Significand = Significand(d: nat, absorbed: nat)

  /** A fraction digit counts while the significand is small or has fewer than 17 digits. */
  predicate Absorbs(d: nat, digits: nat) {
    d <= 0x1F_FFFF_FFFF_FFFF || digits < 17
  }

  function Fraction(s: seq<byte>, p: nat, q: nat, d: nat, absorbed: nat, digits: nat): Significand
    requires p <= q <= |s| && DigitRun(s, p, q)
    decreases q - p
  {
    if p == q || !Absorbs(d, digits) then Significand(d, absorbed)
    else
      var d' := d * 10 + (s[p] - DIGIT_0);
      Fraction(s, p + 1, q, d', absorbed + 1, if d' != 0 then digits + 1 else digits)
  }

  /** C integer division, which truncates toward zero. */
  function TruncatedDiv(a: int, b: nat): int
    requires b > 0
  {
    if a >= 0 then a / b else -((-a) / b)
  }

  /** A negative exponent stops growing once it has passed `maxExp`. */
  function CappedExponent(s: seq<byte>, p: nat, q: nat, e: nat, maxExp: int): nat
    requires p <= q <= |s| && DigitRun(s, p, q)
    decreases q - p
  {
    if p == q then e
    else
      var e' := e * 10 + (s[p] - DIGIT_0);
      if e' > maxExp then e' else CappedExponent(s, p + 1, q, e', maxExp)
  }

  /** Where the parts of a number lie; without a fraction or an exponent their bounds coincide. */
  datatype Parts = Parts(start: nat, minus: bool, special: Special, intBegin: nat, intEnd: nat, fracEnd: nat,
                         expMinus: bool, expBegin: nat, end: nat)
  {
    ghost predicate Valid(s: seq<byte>) {
      && start <= intBegin <= intEnd <= fracEnd <= expBegin <= end <= |s|
      && DigitRun(s, intBegin, intEnd)
      && (HasFraction() ==> intEnd + 1 < fracEnd && DigitRun(s, intEnd + 1, fracEnd))
      && (HasExponent() ==> DigitRun(s, expBegin, end))
    }

    predicate HasFraction() {
      intEnd < fracEnd
    }

    predicate HasExponent() {
      expBegin < end
    }
  }

  datatype Special = Plain | Spelled(d: Double)

  datatype Layout = Layout(parts: Parts) | BadLayout(code: ParseErrorCode, offset: nat)

  const INF_TAIL: seq<byte> := [LOWER_N, LOWER_F]
  const INITY: seq<byte> := [LOWER_I, LOWER_N, LOWER_I, LOWER_T, LOWER_Y]
  const NAN_TAIL: seq<byte> := [LOWER_A, UPPER_N]

  /** The spelled-out values, whose first letter is at `i`; on failure the position where they fail. */
  function SpelledOut(s: seq<byte>, i: nat, minus: bool): (r: (nat, Special))
    requires i < |s|
    ensures i < r.0 <= |s|
  {
    if At(s, i) == UPPER_N then
      var n := Matching(s, i + 1, NAN_TAIL);
      (i + 1 + n, if n == 2 then Spelled(Double.NaN) else Plain)
    else
      var n := Matching(s, i + 1, INF_TAIL);
      if n < 2 then (i + 1 + n, Plain)
      else if At(s, i + 3) != LOWER_I then (i + 3, Spelled(Double.Inf(minus)))
      else
        var m := Matching(s, i + 3, INITY);
        (i + 3 + m, if m == 5 then Spelled(Double.Inf(minus)) else Plain)
  }

  function ExponentLayout(s: seq<byte>, p: nat, minus: bool, special: Special, i: nat, j: nat, k: nat): (r: Layout)
    requires p <= i <= j <= k <= |s| && p < k
    requires DigitRun(s, i, j) && (j < k ==> j + 1 < k && DigitRun(s, j + 1, k))
    ensures r.Layout? ==> r.parts.Valid(s) && p < r.parts.end
    ensures r.Layout? ==> r.parts.start == p && r.parts.minus == minus && r.parts.special == special
    ensures r.Layout? ==> r.parts.intBegin == i && r.parts.intEnd == j && r.parts.fracEnd == k
    ensures r.BadLayout? ==> !r.code.Termination?
  {
    if At(s, k) == LOWER_E || At(s, k) == UPPER_E then
      var expMinus := At(s, k + 1) == MINUS;
      var x := if expMinus || At(s, k + 1) == PLUS then k + 2 else k + 1;
      if IsDigit(At(s, x)) then
        var q := DigitsEnd(s, x);
        Layout(Parts(p, minus, special, i, j, k, expMinus, x, q))
      else BadLayout(NumberMissExponent, x)
    else Layout(Parts(p, minus, special, i, j, k, false, k, k))
  }

  function FractionLayout(s: seq<byte>, p: nat, minus: bool, special: Special, i: nat, j: nat): (r: Layout)
    requires p <= i <= j <= |s| && p < j && DigitRun(s, i, j)
    ensures r.Layout? ==> r.parts.Valid(s) && r.parts.start == p && p < r.parts.end
    ensures r.BadLayout? ==> !r.code.Termination?
  {
    if At(s, j) != DOT then ExponentLayout(s, p, minus, special, i, j, j)
    else if !IsDigit(At(s, j + 1)) then BadLayout(NumberMissFraction, j + 1)
    else ExponentLayout(s, p, minus, special, i, j, DigitsEnd(s, j + 1))
  }

  /** Where the parts of the number at `p` lie. */
  function NumberLayout(s: seq<byte>, f: Flags, p: nat): (r: Layout)
    requires p <= |s|
    ensures r.Layout? ==> r.parts.Valid(s) && r.parts.start == p && p < r.parts.end
    ensures r.BadLayout? ==> !r.code.Termination?
  {
    var minus := At(s, p) == MINUS;
    var i := if minus then p + 1 else p;
    var b := At(s, i);
    if b == DIGIT_0 then
      FractionLayout(s, p, minus, Plain, i, i + 1)
    else if IsDigit(b) then FractionLayout(s, p, minus, Plain, i, DigitsEnd(s, i))
    else if f.nanAndInf && (b == UPPER_I || b == UPPER_N) then
      var (q, special) := SpelledOut(s, i, minus);
      if special.Plain? then BadLayout(ValueInvalid, q)
      else FractionLayout(s, p, minus, special, q, q)
    else BadLayout(ValueInvalid, i)
  }

  datatype Numeral = Numeral(event: Event) | BadNumeral(code: ParseErrorCode)

  /** The integer digits `s[i..j]` and the digits of a fraction that ends at `k`, as far as they are absorbed. */
  function SignificandAt(s: seq<byte>, i: nat, j: nat, k: nat): Significand
    requires i <= j <= k <= |s| && DigitRun(s, i, j) && (j < k ==> j + 1 < k && DigitRun(s, j + 1, k))
  {
    if j < k then Fraction(s, j + 1, k, NatOf(s, i, j), 0, if j == i then 0 else j - i - 1)
    else Significand(NatOf(s, i, j), 0)
  }

  function SignificandOf(s: seq<byte>, n: Parts): Significand
    requires n.Valid(s)
  {
    SignificandAt(s, n.intBegin, n.intEnd, n.fracEnd)
  }

  /** The largest exponent that is scanned to its end. */
  function MaxExponent(expMinus: bool, absorbed: nat): int {
    if expMinus then TruncatedDiv(2147483639 - absorbed, 10) else 308 + absorbed
  }

  function ExponentValue(s: seq<byte>, minus: bool, p: nat, q: nat, absorbed: nat): int
    requires p < q <= |s| && DigitRun(s, p, q)
  {
    if minus then -(CappedExponent(s, p + 1, q, s[p] - DIGIT_0, MaxExponent(true, absorbed)) as int)
    else NatOf(s, p, q)
  }

  function ExponentOf(s: seq<byte>, n: Parts, absorbed: nat): int
    requires n.Valid(s)
  {
    if n.HasExponent() then ExponentValue(s, n.expMinus, n.expBegin, n.end, absorbed) else 0
  }

  /** The digits of the integer and the fraction, which full-precision conversion reads again. */
  function DecimalDigits(s: seq<byte>, n: Parts): seq<byte>
    requires n.Valid(s)
  {
    s[n.intBegin..n.intEnd] + (if n.HasFraction() then s[n.intEnd + 1..n.fracEnd] else [])
  }

  /** The event a number publishes, or the error that its size is. */
  function NumeralOf(s: seq<byte>, f: Flags, strtod: Strtod, n: Parts): (r: Numeral)
    requires n.Valid(s)
    ensures if r.Numeral? then !IsBracket(r.event) else r.code.NumberTooBig?
  {
    var i := NatOf(s, n.intBegin, n.intEnd);
    var sig := SignificandOf(s, n);
    var exp := ExponentOf(s, n, sig.absorbed);
    if exp > MaxExponent(false, sig.absorbed) then BadNumeral(NumberTooBig)
    else if f.numbersAsStrings then Numeral(RawNumber(s[n.start..n.end]))
    else if !n.HasFraction() && !n.HasExponent() && n.special.Spelled? then Numeral(Event.Double(n.special.d))
    else if !n.HasFraction() && !n.HasExponent() && FitsInteger(n.minus, i) then Numeral(IntegerEvent(n.minus, i))
    else
      var v := if f.fullPrecision
               then strtod.full(sig.d, exp - sig.absorbed, DecimalDigits(s, n), n.intEnd - n.intBegin, exp)
               else strtod.normal(sig.d, exp - sig.absorbed);
      if v > strtod.max then BadNumeral(NumberTooBig)
      else Numeral(Event.Double(Finite(if n.minus then -v else v)))
  }

  function NumberAt(c: Context, p: nat, log: seq<Event>): (r: Step)
    requires p <= |c.s|
    ensures r.Go? ==> p < r.pos <= |c.s|
    ensures RewindsOnlyRefusals(c, r)
  {
    match NumberLayout(c.s, c.f, p)
    case BadLayout(code, o) => Fail(code, o, log)
    case Layout(n) =>
      match NumeralOf(c.s, c.f, c.strtod, n)
      case BadNumeral(code) => Fail(code, p, log)
      case Numeral(e) => Emit(c, e, n.end, p, 0, log)
  }

  // ---------------------------------------------------------------- values

  function Value(c: Context, p: nat, log: seq<Event>): (r: Step)
    requires p <= |c.s|
    ensures r.Go? ==> p < r.pos <= |c.s|
    ensures RewindsOnlyRefusals(c, r)
    decreases |c.s| - p, 0
  {
    var b := At(c.s, p);
    if b == LOWER_N then Literal(c, p, NULL_TAIL, Null, log)
    else if b == LOWER_T then Literal(c, p, TRUE_TAIL, Bool(true), log)
    else if b == LOWER_F then Literal(c, p, FALSE_TAIL, Bool(false), log)
    else if b == QUOTE then StringAt(c, p, false, log)
    else if b == LBRACE then
      var (q, log1) :- Emit(c, StartObject, p + 1, p + 1, 1, log);
      var (q1, log2) :- Skip(c, q, log1);
      ObjectFirst(c, q1, log2)
    else if b == LBRACKET then
      var (q, log1) :- Emit(c, StartArray, p + 1, p + 1, 1, log);
      var (q1, log2) :- Skip(c, q, log1);
      ArrayFirst(c, q1, log2)
    else NumberAt(c, p, log)
  }

  /** After `{`. */
  function ObjectFirst(c: Context, p: nat, log: seq<Event>): (r: Step)
    requires p <= |c.s|
    ensures r.Go? ==> p < r.pos <= |c.s|
    ensures RewindsOnlyRefusals(c, r)
    decreases |c.s| - p, 2
  {
    if At(c.s, p) == RBRACE then Emit(c, EndObject(0), p + 1, p + 1, 1, log)
    else Member(c, p, 0, log)
  }

  /** At a member, `n` of them before it. */
  function Member(c: Context, p: nat, n: nat, log: seq<Event>): (r: Step)
    requires p <= |c.s|
    ensures r.Go? ==> p < r.pos <= |c.s|
    ensures RewindsOnlyRefusals(c, r)
    decreases |c.s| - p, 1
  {
    if At(c.s, p) != QUOTE then Fail(ObjectMissName, p, log)
    else
      var (q, log1) :- StringAt(c, p, true, log);
      var (q1, log2) :- Skip(c, q, log1);
      AfterKey(c, q1, n, log2)
  }

  /** After a member name. */
  function AfterKey(c: Context, p: nat, n: nat, log: seq<Event>): (r: Step)
    requires p <= |c.s|
    ensures r.Go? ==> p < r.pos <= |c.s|
    ensures RewindsOnlyRefusals(c, r)
    decreases |c.s| - p, 1
  {
    if At(c.s, p) != COLON then Fail(ObjectMissColon, p, log)
    else
      var (q, log1) :- Skip(c, p + 1, log);
      MemberValue(c, q, n, log1)
  }

  /** After `:`. */
  function MemberValue(c: Context, p: nat, n: nat, log: seq<Event>): (r: Step)
    requires p <= |c.s|
    ensures r.Go? ==> p < r.pos <= |c.s|
    ensures RewindsOnlyRefusals(c, r)
    decreases |c.s| - p, 1
  {
    var (q, log1) :- Value(c, p, log);
    var (q1, log2) :- Skip(c, q, log1);
    AfterMember(c, q1, n, log2)
  }

  /** After a member value, `n` members before it. */
  function AfterMember(c: Context, p: nat, n: nat, log: seq<Event>): (r: Step)
    requires p <= |c.s|
    ensures r.Go? ==> p < r.pos <= |c.s|
    ensures RewindsOnlyRefusals(c, r)
    decreases |c.s| - p, 1
  {
    if At(c.s, p) == COMMA then
      var (q, log1) :- Skip(c, p + 1, log);
      AfterMemberComma(c, q, Inc(n), log1)
    else if At(c.s, p) == RBRACE then Emit(c, EndObject(Inc(n)), p + 1, p + 1, 1, log)
    else Fail(ObjectMissCommaOrCurlyBracket, p, log)
  }

  /** After the comma that follows `n` members. */
  function AfterMemberComma(c: Context, p: nat, n: nat, log: seq<Event>): (r: Step)
    requires p <= |c.s|
    ensures r.Go? ==> p < r.pos <= |c.s|
    ensures RewindsOnlyRefusals(c, r)
    decreases |c.s| - p, 2
  {
    if c.f.trailingCommas && At(c.s, p) == RBRACE then Emit(c, EndObject(n), p + 1, p, 0, log)
    else Member(c, p, n, log)
  }

  /** After `[`. */
  function ArrayFirst(c: Context, p: nat, log: seq<Event>): (r: Step)
    requires p <= |c.s|
    ensures r.Go? ==> p < r.pos <= |c.s|
    ensures RewindsOnlyRefusals(c, r)
    decreases |c.s| - p, 2
  {
    if At(c.s, p) == RBRACKET then Emit(c, EndArray(0), p + 1, p + 1, 1, log)
    else Element(c, p, 0, log)
  }

  /** At an element, `n` of them before it. */
  function Element(c: Context, p: nat, n: nat, log: seq<Event>): (r: Step)
    requires p <= |c.s|
    ensures r.Go? ==> p < r.pos <= |c.s|
    ensures RewindsOnlyRefusals(c, r)
    decreases |c.s| - p, 1
  {
    var (q, log1) :- Value(c, p, log);
    var (q1, log2) :- Skip(c, q, log1);
    AfterElement(c, q1, n, log2)
  }

  /** After an element, `n` elements before it. */
  function AfterElement(c: Context, p: nat, n: nat, log: seq<Event>): (r: Step)
    requires p <= |c.s|
    ensures r.Go? ==> p < r.pos <= |c.s|
    ensures RewindsOnlyRefusals(c, r)
    decreases |c.s| - p, 1
  {
    if At(c.s, p) == COMMA then
      var (q, log1) :- Skip(c, p + 1, log);
      AfterElementComma(c, q, Inc(n), log1)
    else if At(c.s, p) == RBRACKET then Emit(c, EndArray(Inc(n)), p + 1, p + 1, 1, log)
    else Fail(ArrayMissCommaOrSquareBracket, p, log)
  }

  /** After the comma that follows `n` elements. */
  function AfterElementComma(c: Context, p: nat, n: nat, log: seq<Event>): (r: Step)
    requires p <= |c.s|
    ensures r.Go? ==> p < r.pos <= |c.s|
    ensures RewindsOnlyRefusals(c, r)
    decreases |c.s| - p, 2
  {
    if c.f.trailingCommas && At(c.s, p) == RBRACKET then Emit(c, EndArray(n), p + 1, p, 0, log)
    else Element(c, p, n, log)
  }

  /** After the root value: nothing but blanks may follow, unless parsing stops there. */
  function AfterRoot(c: Context, p: nat, log: seq<Event>): (r: Step)
    requires p <= |c.s|
    ensures r.Go? ==> r.pos <= |c.s|
    ensures RewindsOnlyRefusals(c, r)
  {
    if c.f.stopWhenDone then Go(p, log)
    else
      var (q, _) :- Skip(c, p, log);
      if At(c.s, q) != NUL then Fail(DocumentRootNotSingular, q, log) else Go(q, log)
  }

  /** A whole document. */
  function Document(c: Context, p: nat, log: seq<Event>): (r: Step)
    requires p <= |c.s|
    ensures r.Go? ==> r.pos <= |c.s|
    ensures RewindsOnlyRefusals(c, r)
  {
    var (q, _) :- Skip(c, p, log);
    if At(c.s, q) == NUL then Fail(DocumentEmpty, q, log)
    else
      var (q1, log1) :- Value(c, q, log);
      AfterRoot(c, q1, log1)
  }
}
