/**
 The two textual forms of a JSON Pointer (RFC 6901 sections 3, 4 and 6): what parsing a text gives,
 what is written for a token list, and that each undoes the other.
 */
module PointerText {
  import opened Bytes
  import opened Wrappers
  import opened Numerals
  import Utf8
  import G = Grammar

  // ---------------------------------------------------------------- tokens

  const INVALID_INDEX: nat := 0xFFFF_FFFF

  /** A reference token: a member name, and an array index when it is a numeral. */
  datatype Token = Token(name: seq<byte>, index: nat)

  predicate AllDigits(name: seq<byte>) {
    forall i :: 0 <= i < |name| ==> IsDigit(name[i])
  }

  /** The index accumulates in 32 bits; a step that gives less than before is taken for an overflow. */
  function Accumulated(name: seq<byte>, j: nat, n: nat): (r: Option<nat>)
    requires j <= |name| && AllDigits(name) && n <= INVALID_INDEX
    ensures r.Some? ==> r.value <= INVALID_INDEX
    decreases |name| - j
  {
    if j == |name| then Some(n)
    else
      var m := (n * 10 + (name[j] - DIGIT_0)) % 0x1_0000_0000;
      if m < n then None else Accumulated(name, j + 1, m)
  }

  /** Only a numeral without leading zeros is an index. */
  function IndexOf(name: seq<byte>): (n: nat)
    ensures n <= INVALID_INDEX
  {
    if name == [] || !AllDigits(name) || (|name| > 1 && name[0] == DIGIT_0) then INVALID_INDEX
    else match Accumulated(name, 0, 0)
      case None => INVALID_INDEX
      case Some(n) => n
  }

  /** A numeral and nothing else. */
  predicate IsNumeral(name: seq<byte>) {
    name != [] && AllDigits(name) && !(|name| > 1 && name[0] == DIGIT_0)
  }

  const WORD: nat := 0x1_0000_0000

  /** What 32 bits keep of the number the first `j` digits denote. */
  function Kept(name: seq<byte>, j: nat): nat
    requires j <= |name| && AllDigits(name)
  {
    NatOf(name, 0, j) % WORD
  }

  /** At digit `j` the accumulator gets smaller, which is how an overflow is detected. */
  predicate Noticed(name: seq<byte>, j: nat)
    requires j < |name| && AllDigits(name)
  {
    Kept(name, j + 1) < Kept(name, j)
  }

  lemma ModStep(a: nat, d: nat)
    ensures (a % WORD * 10 + d) % WORD == (a * 10 + d) % WORD
  {
    var q, r := a / WORD, a % WORD;
    assert a * 10 + d == (r * 10 + d) + (q * 10) * WORD;
    ModPlus(r * 10 + d, q * 10);
  }

  lemma {:induction false} ModPlus(a: nat, k: nat)
    ensures (a + k * WORD) % WORD == a % WORD
  {
    if k > 0 {
      ModPlus(a, k - 1);
      assert a + k * WORD == (a + (k - 1) * WORD) + WORD;
    }
  }

  lemma AccumulatedStep(name: seq<byte>, j: nat)
    requires j < |name| && AllDigits(name)
    ensures Accumulated(name, j, Kept(name, j))
         == if Noticed(name, j) then None else Accumulated(name, j + 1, Kept(name, j + 1))
  {
    assert NatOf(name, 0, j + 1) == NatOf(name, 0, j) * 10 + (name[j] - DIGIT_0);
    ModStep(NatOf(name, 0, j), name[j] - DIGIT_0);
  }

  lemma {:induction false} AccumulatedIs(name: seq<byte>, j: nat)
    requires j <= |name| && AllDigits(name)
    ensures Accumulated(name, j, Kept(name, j))
         == if exists k :: j <= k < |name| && Noticed(name, k) then None else Some(Kept(name, |name|))
    decreases |name| - j
  {
    if j < |name| {
      AccumulatedStep(name, j);
      AccumulatedIs(name, j + 1);
      hide Accumulated, Noticed, Kept;
    }
  }

  /**
   The index of a numeral: none if the accumulator gets smaller at some digit, and otherwise what 32 bits
   keep of the number.
   */
  lemma IndexOfNumeral(name: seq<byte>)
    requires IsNumeral(name)
    ensures IndexOf(name)
         == if exists j :: 0 <= j < |name| && Noticed(name, j) then INVALID_INDEX else NatOf(name, 0, |name|) % WORD
  {
    AccumulatedIs(name, 0);
  }

  /** While the number fits nothing gets smaller. */
  lemma FittingIsNotNoticed(name: seq<byte>, j: nat)
    requires AllDigits(name) && j < |name| && NatOf(name, 0, j + 1) < WORD
    ensures !Noticed(name, j) && Kept(name, j + 1) == NatOf(name, 0, j + 1)
  {
    assert NatOf(name, 0, j + 1) == NatOf(name, 0, j) * 10 + (name[j] - DIGIT_0);
  }

  /**
   A numeral's index is usable, and the number it denotes, exactly when that is below 4294967295. This
   greatest 32-bit number fits, but stands for no index.
   */
  lemma IndexIsNumber(name: seq<byte>)
    requires IsNumeral(name)
    ensures IndexOf(name) == NatOf(name, 0, |name|) != INVALID_INDEX <==> NatOf(name, 0, |name|) < INVALID_INDEX
    ensures NatOf(name, 0, |name|) == INVALID_INDEX ==> IndexOf(name) == INVALID_INDEX
  {
    if NatOf(name, 0, |name|) <= INVALID_INDEX {
      IndexOfNumeral(name);
      forall j | 0 <= j < |name|
        ensures !Noticed(name, j)
      {
        NatOfPrefix(name, 0, j + 1, |name|);
        FittingIsNotNoticed(name, j);
      }
    }
  }

  /**
   A number whose last digit takes it beyond 32 bits: the wrap is noticed exactly when what is left is less
   than the number without that digit. If not, what is left becomes the index.
   */
  lemma FirstWrap(name: seq<byte>)
    requires IsNumeral(name)
    requires var n := NatOf(name, 0, |name|); n / 10 < WORD <= n
    ensures var n := NatOf(name, 0, |name|); IndexOf(name) == if n % WORD < n / 10 then INVALID_INDEX else n % WORD
  {
    var last := |name| - 1;
    var n, front := NatOf(name, 0, |name|), NatOf(name, 0, last);
    assert n == front * 10 + (name[last] - DIGIT_0);
    assert front == n / 10;
    IndexOfNumeral(name);
    forall j | 0 <= j < last
      ensures !Noticed(name, j)
    {
      NatOfPrefix(name, 0, j + 1, last);
      FittingIsNotNoticed(name, j);
    }
    assert Noticed(name, last) <==> n % WORD < n / 10;
  }

  lemma NatOfZeros(name: seq<byte>, k: nat)
    requires 0 < k <= |name| && AllDigits(name) && forall i :: 0 < i < k ==> name[i] == DIGIT_0
    ensures NatOf(name, 0, k) == (name[0] - DIGIT_0) * Pow10(k - 1)
  {
    if k > 1 {
      NatOfZeros(name, k - 1);
    }
  }

  /** So 5000000000 becomes the index 705032704. */
  lemma WrapNotSeen(name: seq<byte>)
    requires |name| == 10 && name[0] == DIGIT_0 + 5 && forall i :: 0 < i < 10 ==> name[i] == DIGIT_0
    ensures IndexOf(name) == 705032704
  {
    NatOfZeros(name, 10);
    assert Pow10(3) == 1000;
    assert Pow10(6) == 1000000;
    assert Pow10(9) == 1000000000;
    FirstWrap(name);
  }

  /** And 4294967296 is noticed. */
  lemma WrapSeen(name: seq<byte>)
    requires IsNumeral(name) && NatOf(name, 0, |name|) == WORD
    ensures IndexOf(name) == INVALID_INDEX
  {
    FirstWrap(name);
  }

  // ---------------------------------------------------------------- parsing

  datatype PointerParseErrorCode =
    TokenMustBeginWithSolidus | InvalidEscape | InvalidPercentEncoding | CharacterMustPercentEncode

  datatype Parsed = Tokens(tokens: seq<Token>) | Failed(code: PointerParseErrorCode, offset: nat)

  /** All but the unreserved characters of RFC 3986, section 2.3. */
  predicate NeedPercentEncode(c: byte) {
    !(IsDigit(c) || UPPER_A <= c <= UPPER_Z || LOWER_A <= c <= LOWER_Z || c == MINUS || c == DOT || c == UNDERSCORE ||
      c == TILDE)
  }

  /** The byte a triplet `%XY` at `p` stands for. */
  function Triplet(s: seq<byte>, p: nat): Option<byte> {
    if At(s, p) != PERCENT || p + 3 > |s| then None
    else
      match (G.HexDigit(s[p + 1]), G.HexDigit(s[p + 2]))
      case (Hex(h), Hex(l)) => Some(h * 16 + l)
      case _ => None
  }

  /** What is left of a triplet that fails is NUL. */
  function TripletOrNul(s: seq<byte>, p: nat): byte {
    match Triplet(s, p)
    case Some(b) => b
    case None => NUL
  }

  /** The first `n` bytes that triplets from `p` on stand for. */
  function Triplets(s: seq<byte>, p: nat, n: nat): Option<seq<byte>>
    decreases n
  {
    if n == 0 then Some([])
    else
      match (Triplet(s, p), Triplets(s, p + 3, n - 1))
      case (Some(b), Some(bs)) => Some([b] + bs)
      case _ => None
  }

  /** The sequence whose first triplet is at `p`, if its triplets and its encoding are good. */
  function PercentSequence(s: seq<byte>, p: nat): (r: Option<seq<byte>>)
    ensures r.Some? ==> 1 <= |r.value| <= 4 && p + 3 * |r.value| <= |s|
  {
    var n := Utf8.Taken(TripletOrNul(s, p));
    match Triplets(s, p, n)
    case None => None
    case Some(bs) =>
      TripletsBounds(s, p, n);
      if Utf8.SequenceLength(bs, 0) == 0 then None else Some(bs)
  }

  lemma {:induction false} TripletsBounds(s: seq<byte>, p: nat, n: nat)
    requires Triplets(s, p, n).Some?
    ensures |Triplets(s, p, n).value| == n && (n > 0 ==> p + 3 * n <= |s|)
    decreases n
  {
    if n > 0 {
      TripletsBounds(s, p + 3, n - 1);
    }
  }

  /** One round of decoding a name: what is appended to it and where it goes on. */
  datatype Round = Units(pos: nat, units: seq<byte>) | Bad(code: PointerParseErrorCode, offset: nat)

  /** `~0` and `~1`, of which the `~` has been consumed. */
  function Unescape(s: seq<byte>, c: byte, i: nat): (r: Round)
    requires i <= |s|
    ensures r.Units? ==> i <= r.pos <= |s| && |r.units| == 1
  {
    if c != TILDE then Units(i, [c])
    else if i < |s| && s[i] == DIGIT_0 then Units(i + 1, [TILDE])
    else if i < |s| && s[i] == DIGIT_1 then Units(i + 1, [SLASH])
    else Bad(InvalidEscape, i)
  }

  function NameRound(s: seq<byte>, fragment: bool, i: nat): (r: Round)
    requires i < |s|
    ensures r.Units? ==> i < r.pos <= |s| && 1 <= |r.units| <= r.pos - i
  {
    var c := s[i];
    if fragment && c == PERCENT then
      match PercentSequence(s, i)
      case None => Bad(InvalidPercentEncoding, i)
      case Some(bs) => if |bs| == 1 then Unescape(s, bs[0], i + 3) else Units(i + 3 * |bs|, bs)
    else if fragment && NeedPercentEncode(c) then Bad(CharacterMustPercentEncode, i)
    else Unescape(s, c, i + 1)
  }

  datatype Name = Name(pos: nat, name: seq<byte>) | BadName(code: PointerParseErrorCode, offset: nat)

  /** The rest of a name from `i`, after `name` has been decoded. */
  function NameAt(s: seq<byte>, fragment: bool, i: nat, name: seq<byte>): (r: Name)
    requires i <= |s|
    ensures r.Name? ==> i <= r.pos <= |s| && (r.pos < |s| ==> s[r.pos] == SLASH)
    ensures r.Name? ==> |name| <= |r.name| <= |name| + (r.pos - i) && r.name[..|name|] == name
    decreases |s| - i
  {
    if i == |s| || s[i] == SLASH then Name(i, name)
    else
      match NameRound(s, fragment, i)
      case Bad(code, o) => BadName(code, o)
      case Units(q, units) => NameAt(s, fragment, q, name + units)
  }

  function TokensAt(s: seq<byte>, fragment: bool, i: nat, ts: seq<Token>): Parsed
    requires i <= |s| && (i < |s| ==> s[i] == SLASH)
    decreases |s| - i
  {
    if i == |s| then Tokens(ts)
    else
      match NameAt(s, fragment, i + 1, [])
      case BadName(code, o) => Failed(code, o)
      case Name(q, name) => TokensAt(s, fragment, q, ts + [Token(name, IndexOf(name))])
  }

  /** What a text parses to; a leading `#` makes it a URI fragment. */
  function Parse(s: seq<byte>): Parsed {
    var fragment := At(s, 0) == HASH;
    var i := if fragment then 1 else 0;
    if i != |s| && At(s, i) != SLASH then Failed(TokenMustBeginWithSolidus, i)
    else TokensAt(s, fragment, i, [])
  }

  // ---------------------------------------------------------------- writing

  function HexDigitChar(d: nat): (c: byte)
    requires d < 16
    ensures G.HexDigit(c) == G.Hex(d)
  {
    if d < 10 then DIGIT_0 + d else UPPER_A + (d - 10)
  }

  function PercentEncoded(bs: seq<byte>): (r: seq<byte>)
    ensures |r| == 3 * |bs|
  {
    if bs == [] then []
    else [PERCENT, HexDigitChar(bs[0] / 16), HexDigitChar(bs[0] % 16)] + PercentEncoded(bs[1..])
  }

  /** One round of writing a name: the text, and how many units of the name it is for; none if they are no sequence. */
  datatype Piece = Piece(taken: nat, text: seq<byte>) | NoSequence

  function PieceAt(name: seq<byte>, fragment: bool, j: nat): (r: Piece)
    requires j < |name|
    ensures r.Piece? ==> 1 <= r.taken && j + r.taken <= |name|
  {
    var c := name[j];
    if c == TILDE then Piece(1, [TILDE, DIGIT_0])
    else if c == SLASH then Piece(1, [TILDE, DIGIT_1])
    else if fragment && NeedPercentEncode(c) then
      var n := Utf8.SequenceLength(name, j);
      if n == 0 then NoSequence
      else
        Utf8.DecodedIsScalar(name, j);
        Piece(n, PercentEncoded(name[j..j + n]))
    else Piece(1, [c])
  }

  datatype Written = Written(text: seq<byte>) | NotWritten

  function NameText(name: seq<byte>, fragment: bool, j: nat): Written
    requires j <= |name|
    decreases |name| - j
  {
    if j == |name| then Written([])
    else
      match PieceAt(name, fragment, j)
      case NoSequence => NotWritten
      case Piece(n, text) =>
        match NameText(name, fragment, j + n)
        case NotWritten => NotWritten
        case Written(rest) => Written(text + rest)
  }

  function TokensText(ts: seq<Token>, fragment: bool): Written {
    if ts == [] then Written([])
    else
      match (NameText(ts[0].name, fragment, 0), TokensText(ts[1..], fragment))
      case (Written(name), Written(rest)) => Written([SLASH] + (name + rest))
      case _ => NotWritten
  }

  function Stringify(ts: seq<Token>, fragment: bool): Written {
    match TokensText(ts, fragment)
    case NotWritten => NotWritten
    case Written(text) => Written(if fragment then [HASH] + text else text)
  }

  // ---------------------------------------------------------------- reading back

  lemma TripletRead(s: seq<byte>, p: nat, b: byte)
    requires TextAt(s, p, PercentEncoded([b]))
    ensures Triplet(s, p) == Some(b)
  {
    var t := PercentEncoded([b]);
    assert [b][1..] == [];
    assert t == [PERCENT, HexDigitChar(b / 16), HexDigitChar(b % 16)];
    assert s[p + 0] == t[0] && s[p + 1] == t[1] && s[p + 2] == t[2];
  }

  lemma {:induction false} TripletsRead(s: seq<byte>, p: nat, bs: seq<byte>)
    requires TextAt(s, p, PercentEncoded(bs))
    ensures Triplets(s, p, |bs|) == Some(bs)
    decreases |bs|
  {
    hide Triplet;
    if bs != [] {
      assert [bs[0]][1..] == [];
      assert PercentEncoded(bs) == PercentEncoded([bs[0]]) + PercentEncoded(bs[1..]);
      TextAtSplit(s, p, PercentEncoded([bs[0]]), PercentEncoded(bs[1..]));
      TripletRead(s, p, bs[0]);
      TripletsRead(s, p + 3, bs[1..]);
      assert [bs[0]] + bs[1..] == bs;
    }
  }

  lemma SequenceOfSlice(name: seq<byte>, j: nat)
    requires j < |name| && Utf8.SequenceLength(name, j) > 0
    ensures j + Utf8.SequenceLength(name, j) <= |name|
    ensures var n := Utf8.SequenceLength(name, j);
            Utf8.SequenceLength(name[j..j + n], 0) == n && Utf8.Taken(name[j]) == n
  {
    Utf8.DecodedIsScalar(name, j);
    Utf8.WellFormedTakesAll(name, j);
  }

  lemma PercentRead(s: seq<byte>, p: nat, bs: seq<byte>)
    requires TextAt(s, p, PercentEncoded(bs)) && bs != []
    requires Utf8.SequenceLength(bs, 0) == Utf8.Taken(bs[0]) == |bs|
    ensures PercentSequence(s, p) == Some(bs) && p + 3 * |bs| <= |s| && s[p] == PERCENT
  {
    hide Triplet, Utf8.Taken, Utf8.LengthOf, G.HexDigit, PercentEncoded;
    TripletsRead(s, p, bs);
    assert Triplets(s, p, |bs|) == Some(bs);
    assert Triplet(s, p) == Some(bs[0]);
    TripletStarts(s, p);
    TripletsBounds(s, p, |bs|);
  }

  lemma TripletStarts(s: seq<byte>, p: nat)
    requires Triplet(s, p).Some?
    ensures p + 3 <= |s| && s[p] == PERCENT
  {
  }

  /** A piece of a name's text is read back as the units it is for. */
  lemma PieceRead(s: seq<byte>, fragment: bool, p: nat, name: seq<byte>, j: nat)
    requires j < |name| && PieceAt(name, fragment, j).Piece? && TextAt(s, p, PieceAt(name, fragment, j).text)
    ensures p < |s| && s[p] != SLASH
    ensures NameRound(s, fragment, p)
         == Units(p + |PieceAt(name, fragment, j).text|, name[j..j + PieceAt(name, fragment, j).taken])
  {
    var piece := PieceAt(name, fragment, j);
    var c := name[j];
    assert piece.taken == 1 ==> name[j..j + 1] == [c];
    if c == TILDE || c == SLASH {
      assert s[p + 0] == piece.text[0] && s[p + 1] == piece.text[1];
    } else if fragment && NeedPercentEncode(c) {
      SequenceOfSlice(name, j);
      PercentRead(s, p, name[j..j + piece.taken]);
      if piece.taken == 1 {
        assert Unescape(s, c, p + 3) == Units(p + 3, [c]);
      }
    } else {
      assert s[p + 0] == piece.text[0];
    }
  }

  lemma {:induction false} NameReadsBack(s: seq<byte>, fragment: bool, p: nat, name: seq<byte>, j: nat, text: seq<byte>)
    requires j <= |name| && NameText(name, fragment, j) == Written(text) && TextAt(s, p, text)
    requires p + |text| == |s| || s[p + |text|] == SLASH
    ensures NameAt(s, fragment, p, name[..j]) == Name(p + |text|, name)
    decreases |name| - j
  {
    hide NameRound, PieceAt, TextAt;
    if j == |name| {
      assert name[..j] == name;
      EmptyAt(s, p, text);
    } else {
      var piece := PieceAt(name, fragment, j);
      var k := j + piece.taken;
      var rest := NameText(name, fragment, k).text;
      TextAtSplit(s, p, piece.text, rest);
      PieceRead(s, fragment, p, name, j);
      NameReadsBack(s, fragment, p + |piece.text|, name, k, rest);
      assert name[..j] + name[j..k] == name[..k];
    }
  }

  lemma EmptyAt(s: seq<byte>, p: nat, t: seq<byte>)
    requires TextAt(s, p, t)
    ensures p + |t| <= |s|
  {
  }

  /** Tokens whose index is the one parsing would give them. */
  predicate Canonical(ts: seq<Token>) {
    forall i :: 0 <= i < |ts| ==> ts[i].index == IndexOf(ts[i].name)
  }

  lemma {:induction false} TokensReadBack(s: seq<byte>, fragment: bool, p: nat, ts: seq<Token>, before: seq<Token>,
                                          text: seq<byte>)
    requires Canonical(ts) && TokensText(ts, fragment) == Written(text) && TextAt(s, p, text) && p + |text| == |s|
    requires p < |s| ==> s[p] == SLASH
    ensures TokensAt(s, fragment, p, before) == Tokens(before + ts)
    decreases |ts|
  {
    hide NameAt, NameText, IndexOf, TextAt;
    if ts == [] {
      assert before + ts == before;
    } else {
      var name, rest := NameText(ts[0].name, fragment, 0).text, TokensText(ts[1..], fragment).text;
      var q := p + 1 + |name|;
      TextAtSplit(s, p, [SLASH], name + rest);
      TextAtSplit(s, p + 1, name, rest);
      RestStarts(s, fragment, q, ts[1..], rest);
      assert ts[0].name[..0] == [];
      NameReadsBack(s, fragment, p + 1, ts[0].name, 0, name);
      TokensReadBack(s, fragment, q, ts[1..], before + [ts[0]], rest);
      assert before + [ts[0]] + ts[1..] == before + ts;
    }
  }

  lemma RestStarts(s: seq<byte>, fragment: bool, q: nat, ts: seq<Token>, rest: seq<byte>)
    requires TokensText(ts, fragment) == Written(rest) && TextAt(s, q, rest) && q + |rest| == |s|
    ensures q < |s| ==> s[q] == SLASH
  {
    hide NameText;
    if ts != [] {
      assert s[q + 0] == rest[0];
    }
  }

  /** What is written for tokens parses back to the same tokens, in either form. */
  lemma ParseOfStringify(ts: seq<Token>, fragment: bool)
    requires Canonical(ts) && Stringify(ts, fragment).Written?
    ensures Parse(Stringify(ts, fragment).text) == Tokens(ts)
  {
    hide TokensAt;
    var text := TokensText(ts, fragment).text;
    var s := Stringify(ts, fragment).text;
    var i := if fragment then 1 else 0;
    assert TextAt(s, i, text) && i + |text| == |s|;
    RestStarts(s, fragment, i, ts, text);
    TokensReadBack(s, fragment, i, ts, [], text);
    assert [] + ts == ts;
  }

  /** The string form can always be written. */
  lemma {:induction false} NameIsWritten(name: seq<byte>, fragment: bool, j: nat)
    requires j <= |name| && (fragment ==> Utf8.DecodeAll(name, j).Decoded?)
    ensures NameText(name, fragment, j).Written?
    decreases |name| - j
  {
    if j < |name| {
      assert name[j] < 0x80 ==> Utf8.SequenceLength(name, j) == 1;
      assert !NeedPercentEncode(name[j]) ==> name[j] < 0x80;
      NameIsWritten(name, fragment, j + PieceAt(name, fragment, j).taken);
    }
  }

  lemma {:induction false} TokensAreWritten(ts: seq<Token>, fragment: bool)
    requires fragment ==> forall t :: t in ts ==> Utf8.WellFormed(t.name)
    ensures TokensText(ts, fragment).Written?
    decreases |ts|
  {
    if ts != [] {
      assert ts[0] in ts;
      NameIsWritten(ts[0].name, fragment, 0);
      TokensAreWritten(ts[1..], fragment);
    }
  }

  /** Every canonical token list survives: in string form whatever the names, as a fragment if they are UTF-8. */
  lemma TokensRoundTrip(ts: seq<Token>, fragment: bool)
    requires Canonical(ts) && (fragment ==> forall t :: t in ts ==> Utf8.WellFormed(t.name))
    ensures Stringify(ts, fragment).Written? && Parse(Stringify(ts, fragment).text) == Tokens(ts)
  {
    TokensAreWritten(ts, fragment);
    ParseOfStringify(ts, fragment);
  }

  // ---------------------------------------------------------------- writing back

  lemma NoPercent(s: seq<byte>, i: nat)
    requires i < |s| && NameRound(s, false, i).Units?
    ensures var r := NameRound(s, false, i);
            (&& |r.units| == 1
             && (if r.units[0] == TILDE then s[i..r.pos] == [TILDE, DIGIT_0]
                 else if s[i] == TILDE then r.units[0] == SLASH && s[i..r.pos] == [TILDE, DIGIT_1]
                 else r.units == s[i..r.pos]))
  {
  }

  lemma {:induction false} NameWritesBack(s: seq<byte>, i: nat, name: seq<byte>)
    requires i <= |s| && NameAt(s, false, i, name).Name?
    ensures var r := NameAt(s, false, i, name); NameText(r.name, false, |name|) == Written(s[i..r.pos])
    decreases |s| - i
  {
    var r := NameAt(s, false, i, name);
    if i < |s| && s[i] != SLASH {
      var round := NameRound(s, false, i);
      NoPercent(s, i);
      var name1 := name + round.units;
      NameWritesBack(s, round.pos, name1);
      assert r.name[..|name1|] == name1;
      assert r.name[|name|] == name1[|name|] == round.units[0];
      assert PieceAt(r.name, false, |name|) == Piece(1, s[i..round.pos]);
      assert s[i..round.pos] + s[round.pos..r.pos] == s[i..r.pos];
    }
  }

  lemma NextToken(r: seq<Token>, ts: seq<Token>, t: Token)
    requires |ts| < |r| && r[..|ts| + 1] == ts + [t]
    ensures r[..|ts|] == ts && r[|ts|..] == [t] + r[|ts| + 1..]
    ensures r[|ts|..][0] == t && r[|ts|..][1..] == r[|ts| + 1..]
  {
    assert r[..|ts|] == r[..|ts| + 1][..|ts|];
    assert r[|ts|] == r[..|ts| + 1][|ts|] == t;
  }

  lemma {:induction false} TokensWriteBack(s: seq<byte>, i: nat, ts: seq<Token>)
    requires i <= |s| && (i < |s| ==> s[i] == SLASH) && TokensAt(s, false, i, ts).Tokens?
    ensures var r := TokensAt(s, false, i, ts).tokens;
            (|ts| <= |r| && r[..|ts|] == ts && TokensText(r[|ts|..], false) == Written(s[i..]) && Canonical(r[|ts|..]))
    decreases |s| - i
  {
    hide NameAt, NameText, IndexOf;
    var r := TokensAt(s, false, i, ts).tokens;
    if i < |s| {
      var n := NameAt(s, false, i + 1, []);
      NameWritesBack(s, i + 1, []);
      var t := Token(n.name, IndexOf(n.name));
      TokensWriteBack(s, n.pos, ts + [t]);
      NextToken(r, ts, t);
      assert s[i..] == [SLASH] + (s[i + 1..n.pos] + s[n.pos..]);
    }
  }

  /** Writing what a pointer in string form parses to gives its text back. */
  lemma StringifyOfParse(s: seq<byte>)
    requires At(s, 0) != HASH && Parse(s).Tokens?
    ensures Stringify(Parse(s).tokens, false) == Written(s)
    ensures Canonical(Parse(s).tokens)
  {
    hide TokensAt, TokensText, Canonical;
    TokensWriteBack(s, 0, []);
    var ts := Parse(s).tokens;
    assert ts[0..] == ts && s[0..] == s;
  }

  // ---------------------------------------------------------------- what parsing gives

  lemma AsciiIsWellFormed(c: byte)
    requires c < 0x80
    ensures Utf8.WellFormed([c])
  {
    Utf8.SequenceIsWellFormed([c]);
  }

  lemma FragmentRound(s: seq<byte>, i: nat)
    requires i < |s| && NameRound(s, true, i).Units?
    ensures Utf8.WellFormed(NameRound(s, true, i).units)
  {
    hide Triplets, Utf8.WellFormed;
    if s[i] == PERCENT {
      var bs := PercentSequence(s, i).value;
      Utf8.WellFormedTakesAll(bs, 0);
      TripletsFirst(s, i, Utf8.Taken(TripletOrNul(s, i)));
      if |bs| > 1 {
        Utf8.SequenceIsWellFormed(bs);
      }
    }
    if |NameRound(s, true, i).units| == 1 {
      AsciiIsWellFormed(NameRound(s, true, i).units[0]);
    }
  }

  lemma TripletsFirst(s: seq<byte>, p: nat, n: nat)
    requires n > 0 && Triplets(s, p, n).Some?
    ensures |Triplets(s, p, n).value| == n && Triplets(s, p, n).value[0] == TripletOrNul(s, p)
  {
    TripletsBounds(s, p, n);
  }

  lemma {:induction false} FragmentName(s: seq<byte>, i: nat, name: seq<byte>)
    requires i <= |s| && NameAt(s, true, i, name).Name? && Utf8.WellFormed(name)
    ensures Utf8.WellFormed(NameAt(s, true, i, name).name)
    decreases |s| - i
  {
    hide NameRound, Utf8.WellFormed;
    if i < |s| && s[i] != SLASH {
      FragmentRound(s, i);
      var r := NameRound(s, true, i);
      Utf8.WellFormedJoin(name, r.units);
      FragmentName(s, r.pos, name + r.units);
    }
  }

  /** Tokens as they may come from a text. */
  predicate FromText(ts: seq<Token>, fragment: bool) {
    Canonical(ts) && (fragment ==> forall i :: 0 <= i < |ts| ==> Utf8.WellFormed(ts[i].name))
  }

  lemma {:induction false} TokensFromText(s: seq<byte>, fragment: bool, i: nat, ts: seq<Token>)
    requires i <= |s| && (i < |s| ==> s[i] == SLASH) && TokensAt(s, fragment, i, ts).Tokens? && FromText(ts, fragment)
    ensures FromText(TokensAt(s, fragment, i, ts).tokens, fragment)
    decreases |s| - i
  {
    hide NameAt, IndexOf, Utf8.WellFormed;
    if i < |s| {
      var n := NameAt(s, fragment, i + 1, []);
      if fragment {
        EmptyIsWellFormed();
        FragmentName(s, i + 1, []);
      }
      TokensFromText(s, fragment, n.pos, ts + [Token(n.name, IndexOf(n.name))]);
    }
  }

  lemma EmptyIsWellFormed()
    ensures Utf8.WellFormed([])
  {
  }

  /**
   Whatever text a pointer was parsed from, its tokens can be written in the same form, and parse to the same tokens.
   */
  lemma ParsedRoundTrip(s: seq<byte>)
    requires Parse(s).Tokens?
    ensures var ts, fragment := Parse(s).tokens, At(s, 0) == HASH;
            && FromText(ts, fragment)
            && Stringify(ts, fragment).Written? && Parse(Stringify(ts, fragment).text) == Tokens(ts)
  {
    var ts, fragment := Parse(s).tokens, At(s, 0) == HASH;
    TokensFromText(s, fragment, if fragment then 1 else 0, []);
    TokensRoundTrip(ts, fragment);
  }
}
