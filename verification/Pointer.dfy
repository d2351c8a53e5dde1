/**
 The pointer parser: it decodes all names into one buffer as long as the source, with a token array
 as long as the source has slashes. Both bounds hold on every input, those that end in an error included.
 */
module Pointer {
  import opened Bytes
  import opened Wrappers
  import opened PointerText
  import Utf8
  import G = Grammar

  /** Where a token's name lies in the buffer. */
  datatype Slot = Slot(start: nat, length: nat, index: nat)

  /** The number of slashes from `p` on. */
  function Slashes(s: seq<byte>, p: nat): nat
    requires p <= |s|
    decreases |s| - p
  {
    if p == |s| then 0 else (if s[p] == SLASH then 1 else 0) + Slashes(s, p + 1)
  }

  /** A stretch without slashes. */
  lemma {:induction false} NoSlashes(s: seq<byte>, p: nat, q: nat)
    requires p <= q <= |s| && forall i :: p <= i < q ==> s[i] != SLASH
    ensures Slashes(s, p) == Slashes(s, q)
    decreases q - p
  {
    if p < q {
      NoSlashes(s, p + 1, q);
    }
  }

  lemma {:induction false} TripletsHaveNoSlash(s: seq<byte>, p: nat, n: nat)
    requires Triplets(s, p, n).Some? && n > 0
    ensures p + 3 * n <= |s| && forall i :: p <= i < p + 3 * n ==> s[i] != SLASH
    decreases n
  {
    TripletsBounds(s, p, n);
    if n > 1 {
      TripletsHaveNoSlash(s, p + 3, n - 1);
    }
    assert Triplet(s, p).Some?;
  }

  /** A round never skips a slash. */
  lemma RoundHasNoSlash(s: seq<byte>, fragment: bool, i: nat)
    requires i < |s| && s[i] != SLASH && NameRound(s, fragment, i).Units?
    ensures forall k :: i <= k < NameRound(s, fragment, i).pos ==> s[k] != SLASH
  {
    if fragment && s[i] == PERCENT {
      TripletsHaveNoSlash(s, i, Utf8.Taken(TripletOrNul(s, i)));
    }
  }

  // ---------------------------------------------------------------- percent decoding

  /** Decodes triplets; one that fails gives NUL and is not passed. */
  class PercentDecodeStream {
    const s: seq<byte>
    const head: nat
    var src: nat
    var valid: bool

    constructor (s: seq<byte>, head: nat)
      ensures this.s == s && this.head == head && src == head && valid
    {
      this.s, this.head, src, valid := s, head, head, true;
    }

    method Take() returns (c: byte)
      modifies this
      ensures c == TripletOrNul(s, old(src))
      ensures valid == (old(valid) && Triplet(s, old(src)).Some?)
      ensures Triplet(s, old(src)).Some? ==> src == old(src) + 3
    {
      if At(s, src) != PERCENT || src + 3 > |s| {
        valid := false;
        return 0;
      }
      src := src + 1;
      c := 0;
      var j := 0;
      while j < 2
        invariant j <= 2 && src == old(src) + 1 + j && valid == old(valid) && src + (2 - j) <= |s|
        invariant j == 0 ==> c == 0
        invariant j > 0 ==> G.HexDigit(s[old(src) + 1]).Hex? && G.HexDigit(s[old(src) + 1]).value <= 15
        invariant j == 1 ==> c == G.HexDigit(s[old(src) + 1]).value
        invariant j == 2 ==> Triplet(s, old(src)) == Some(c)
      {
        var h := G.HexDigit(s[src]);
        if h.NotHex? {
          valid := false;
          return 0;
        }
        c := (c * 16 + h.value) % 256;
        src := src + 1;
        j := j + 1;
      }
    }
  }

  // ---------------------------------------------------------------- the pointer

  /** A token whose name, followed by NUL, is in the buffer before `end`. */
  predicate Holds(slot: Slot, buffer: seq<byte>, t: Token, end: nat) {
    && slot.index == t.index && slot.length == |t.name|
    && slot.start + slot.length < end <= |buffer|
    && buffer[slot.start..slot.start + slot.length] == t.name && buffer[slot.start + slot.length] == NUL
  }

  predicate HoldsAll(slots: seq<Slot>, buffer: seq<byte>, ts: seq<Token>, end: nat) {
    |ts| <= |slots| && forall k :: 0 <= k < |ts| ==> Holds(slots[k], buffer, ts[k], end)
  }

  /** What lies before `end` in the buffer is enough. */
  lemma HoldsStill(slots: seq<Slot>, buffer: seq<byte>, buffer1: seq<byte>, ts: seq<Token>, end: nat)
    requires HoldsAll(slots, buffer, ts, end) && end <= |buffer| && end <= |buffer1| && buffer[..end] == buffer1[..end]
    ensures HoldsAll(slots, buffer1, ts, end)
  {
    forall k | 0 <= k < |ts|
      ensures Holds(slots[k], buffer1, ts[k], end)
    {
      var slot := slots[k];
      assert Holds(slot, buffer, ts[k], end);
      assert buffer1[slot.start..slot.start + slot.length] == buffer1[..end][slot.start..slot.start + slot.length];
      assert buffer[slot.start..slot.start + slot.length] == buffer[..end][slot.start..slot.start + slot.length];
      assert buffer1[slot.start + slot.length] == buffer1[..end][slot.start + slot.length];
    }
  }

  lemma HoldsOneMore(slots: seq<Slot>, buffer: seq<byte>, ts: seq<Token>, start: nat, end: nat, name: seq<byte>,
                     index: nat)
    requires HoldsAll(slots, buffer, ts, start) && |ts| < |slots| && start <= end < |buffer| &&
             buffer[start..end] == name
    ensures HoldsAll(slots[|ts| := Slot(start, end - start, index)], buffer[end := NUL], ts + [Token(name, index)],
                     end + 1)
  {
    var slots1, buffer1 := slots[|ts| := Slot(start, end - start, index)], buffer[end := NUL];
    HoldsStill(slots, buffer, buffer1, ts, start);
    assert buffer1[start..end] == name;
    forall k | 0 <= k < |ts|
      ensures Holds(slots1[k], buffer1, ts[k], end + 1)
    {
      assert Holds(slots[k], buffer1, ts[k], start);
    }
  }

  class GenericPointer {
    var nameBuffer: array<byte>
    var tokens: array<Slot>
    var tokenCount: nat
    var parseError: Option<PointerParseErrorCode>
    var parseErrorOffset: nat

    constructor (source: seq<byte>)
      ensures match PointerText.Parse(source)
              case Tokens(ts) => parseError == None && tokenCount == |ts| &&
                                 HoldsAll(tokens[..], nameBuffer[..], ts, nameBuffer.Length)
              case Failed(code, o) => parseError == Some(code) && parseErrorOffset == o && tokenCount == 0
    {
      nameBuffer := new byte[|source|];
      tokens := new Slot[Slashes(source, 0)];
      tokenCount, parseError, parseErrorOffset := 0, None, 0;
      new;
      Parse(source);
    }

    method Fail(code: PointerParseErrorCode, offset: nat)
      modifies this`tokenCount, this`parseError, this`parseErrorOffset
      ensures parseError == Some(code) && parseErrorOffset == offset && tokenCount == 0
    {
      tokenCount, parseError, parseErrorOffset := 0, Some(code), offset;
    }

    method Parse(source: seq<byte>)
      requires nameBuffer.Length == |source| && tokens.Length == Slashes(source, 0)
      requires tokens as object != nameBuffer as object
      modifies this`tokenCount, this`parseError, this`parseErrorOffset, nameBuffer, tokens
      ensures match PointerText.Parse(source)
              case Tokens(ts) => parseError == None && tokenCount == |ts| &&
                                 HoldsAll(tokens[..], nameBuffer[..], ts, nameBuffer.Length)
              case Failed(code, o) => parseError == Some(code) && parseErrorOffset == o && tokenCount == 0
    {
      var i := 0;
      var uriFragment := false;
      if At(source, i) == HASH {
        uriFragment := true;
        i := i + 1;
      }
      if i != |source| && At(source, i) != SLASH {
        Fail(TokenMustBeginWithSolidus, i);
        return;
      }
      assert Slashes(source, i) == Slashes(source, 0);
      ParseTokens(source, i, uriFragment);
    }

    method ParseTokens(source: seq<byte>, begin: nat, uriFragment: bool)
      requires nameBuffer.Length == |source| && tokens as object != nameBuffer as object
      requires begin <= |source| && (begin < |source| ==> source[begin] == SLASH) &&
               tokens.Length == Slashes(source, begin)
      modifies this`tokenCount, this`parseError, this`parseErrorOffset, nameBuffer, tokens
      ensures match TokensAt(source, uriFragment, begin, [])
              case Tokens(ts) => parseError == None && tokenCount == |ts| &&
                                 HoldsAll(tokens[..], nameBuffer[..], ts, nameBuffer.Length)
              case Failed(code, o) => parseError == Some(code) && parseErrorOffset == o && tokenCount == 0
    {
      hide NameAt, IndexOf, HoldsAll, Slashes;
      var i, name, token := begin, 0, 0;
      ghost var ts: seq<Token> := [];
      SlashesBegin(source, begin, tokens[..], nameBuffer[..]);
      while i < |source|
        invariant 0 <= name <= i <= |source| && (i < |source| ==> source[i] == SLASH)
        invariant token == |ts| && token + Slashes(source, i) == tokens.Length
        invariant HoldsAll(tokens[..], nameBuffer[..], ts, name)
        invariant TokensAt(source, uriFragment, i, ts) == TokensAt(source, uriFragment, begin, [])
        decreases |source| - i
      {
        ghost var at := NameAt(source, uriFragment, i + 1, []);
        SlashBefore(source, uriFragment, i);
        var error;
        error, i, name := ParseToken(source, i, name, token, uriFragment, ts);
        if error.Some? {
          Fail(error.value, i);
          return;
        }
        ts := ts + [Token(at.name, IndexOf(at.name))];
        token := token + 1;
      }
      HoldsWider(tokens[..], nameBuffer[..], ts, name);
      tokenCount, parseError := token, None;
    }

    lemma HoldsWider(slots: seq<Slot>, buffer: seq<byte>, ts: seq<Token>, end: nat)
      requires HoldsAll(slots, buffer, ts, end) && end <= |buffer|
      ensures HoldsAll(slots, buffer, ts, |buffer|)
    {
    }

    lemma SlashesBegin(s: seq<byte>, p: nat, slots: seq<Slot>, buffer: seq<byte>)
      requires p <= |s|
      ensures HoldsAll(slots, buffer, [], 0)
      ensures Slashes(s, |s|) == 0
    {
    }

    /** One token: its slash, its name and the NUL after it. */
    method ParseToken(source: seq<byte>, begin: nat, start: nat, token: nat, uriFragment: bool, ghost ts: seq<Token>)
      returns (error: Option<PointerParseErrorCode>, i: nat, name: nat)
      requires nameBuffer.Length == |source| && tokens as object != nameBuffer as object
      requires start <= begin < |source| && source[begin] == SLASH && token == |ts| < tokens.Length
      requires HoldsAll(tokens[..], nameBuffer[..], ts, start)
      modifies nameBuffer, tokens
      ensures match NameAt(source, uriFragment, begin + 1, [])
              case BadName(code, o) => error == Some(code) && i == o
              case Name(q, n) => error == None && i == q && name <= i
                                 && HoldsAll(tokens[..], nameBuffer[..], ts + [Token(n, IndexOf(n))], name)
    {
      hide NameAt, IndexOf, HoldsAll, AllDigits;
      ghost var was := nameBuffer[..];
      var isNumber;
      error, i, name, isNumber := ParseName(source, begin + 1, start, uriFragment);
      if error.Some? {
        return;
      }
      assert was[..start] == nameBuffer[..start] == nameBuffer[..][..start];
      HoldsStill(tokens[..], was, nameBuffer[..], ts, start);
      var index := ParseIndex(start, name, isNumber);
      HoldsOneMore(tokens[..], nameBuffer[..], ts, start, name, nameBuffer[start..name], index);
      nameBuffer[name] := NUL;
      tokens[token] := Slot(start, name - start, index);
      name := name + 1;
    }

    /** A name takes the slash before it and no other. */
    lemma SlashBefore(s: seq<byte>, fragment: bool, i: nat)
      requires i < |s| && s[i] == SLASH
      ensures var r := NameAt(s, fragment, i + 1, []);
              r.Name? ==> Slashes(s, i) == 1 + Slashes(s, r.pos)
      ensures Slashes(s, i) > 0
    {
      var r := NameAt(s, fragment, i + 1, []);
      if r.Name? {
        NameHasNoSlash(s, fragment, i + 1, []);
        NoSlashes(s, i + 1, r.pos);
      }
    }

    lemma {:induction false} NameHasNoSlash(s: seq<byte>, fragment: bool, i: nat, name: seq<byte>)
      requires i <= |s| && NameAt(s, fragment, i, name).Name?
      ensures forall k :: i <= k < NameAt(s, fragment, i, name).pos ==> s[k] != SLASH
      decreases |s| - i
    {
      hide NameRound;
      if i < |s| && s[i] != SLASH {
        RoundHasNoSlash(s, fragment, i);
        var r := NameRound(s, fragment, i);
        NameHasNoSlash(s, fragment, r.pos, name + r.units);
      }
    }

    /** Decodes one name into the buffer from `start` on. */
    method ParseName(source: seq<byte>, begin: nat, start: nat, uriFragment: bool)
      returns (error: Option<PointerParseErrorCode>, i: nat, name: nat, isNumber: bool)
      requires nameBuffer.Length == |source| && start + 1 <= begin <= |source|
      modifies nameBuffer
      ensures nameBuffer[..start] == old(nameBuffer[..start])
      ensures match NameAt(source, uriFragment, begin, [])
              case BadName(code, o) => error == Some(code) && i == o
              case Name(q, n) => error == None && i == q && start <= name < i && nameBuffer[start..name] == n &&
                                 isNumber == AllDigits(n)
    {
      hide NameRound, NameAt, AllDigits;
      i, name, isNumber, error := begin, start, true, None;
      NoDigits();
      assert nameBuffer[start..name] == [];
      while i < |source| && source[i] != SLASH
        invariant start <= name < i <= |source| && error == None
        invariant nameBuffer[..start] == old(nameBuffer[..start])
        invariant NameAt(source, uriFragment, i, nameBuffer[start..name]) == NameAt(source, uriFragment, begin, [])
        invariant isNumber == AllDigits(nameBuffer[start..name])
        decreases |source| - i
      {
        ghost var round, cur, n0, b0 := NameRound(source, uriFragment, i), nameBuffer[start..name], name,
                                        nameBuffer[..name];
        NameGoesOn(source, uriFragment, i, cur);
        var digit;
        error, i, name, digit := ParseRound(source, i, name, uriFragment);
        if error.Some? {
          assert nameBuffer[..start] == nameBuffer[..n0][..start] == b0[..start];
          return;
        }
        assert nameBuffer[..start] == nameBuffer[..n0][..start] == b0[..start];
        assert nameBuffer[start..n0] == nameBuffer[..n0][start..] == b0[start..] == cur;
        assert nameBuffer[start..name] == cur + round.units;
        DigitsAppend(cur, round.units);
        isNumber := isNumber && digit;
      }
      NameEnds(source, uriFragment, i, nameBuffer[start..name]);
    }

    lemma NoDigits()
      ensures AllDigits([])
    {
    }

    lemma NameEnds(s: seq<byte>, fragment: bool, i: nat, name: seq<byte>)
      requires i <= |s| && (i < |s| ==> s[i] == SLASH)
      ensures NameAt(s, fragment, i, name) == Name(i, name)
    {
    }

    lemma NameGoesOn(s: seq<byte>, fragment: bool, i: nat, name: seq<byte>)
      requires i < |s| && s[i] != SLASH
      ensures var r := NameRound(s, fragment, i);
              NameAt(s, fragment, i, name) == if r.Bad? then BadName(r.code, r.offset)
                                              else NameAt(s, fragment, r.pos, name + r.units)
    {
    }

    lemma DigitsAppend(a: seq<byte>, b: seq<byte>)
      ensures AllDigits(a + b) <==> AllDigits(a) && AllDigits(b)
    {
      if AllDigits(a + b) {
        assert forall i :: 0 <= i < |a| ==> a[i] == (a + b)[i];
        assert forall i :: 0 <= i < |b| ==> b[i] == (a + b)[|a| + i];
      }
    }

    /** One round of the decoding loop. */
    method ParseRound(source: seq<byte>, begin: nat, start: nat, uriFragment: bool)
      returns (error: Option<PointerParseErrorCode>, i: nat, name: nat, digit: bool)
      requires nameBuffer.Length == |source| && start + 1 <= begin < |source|
      modifies nameBuffer
      ensures nameBuffer[..start] == old(nameBuffer[..start])
      ensures match NameRound(source, uriFragment, begin)
              case Bad(code, o) => error == Some(code) && i == o
              case Units(q, units) => error == None && i == q && name == start + |units| && name < i
                                      && nameBuffer[start..name] == units && digit == AllDigits(units)
    {
      hide PercentSequence, AllDigits;
      i, name, digit, error := begin, start, false, None;
      var c := source[i];
      if uriFragment {
        if c == PERCENT {
          var ok, len := DecodePercent(source, i, name);
          if !ok {
            error := Some(InvalidPercentEncoding);
            return;
          }
          i := i + 3 * len - 1;
          if len == 1 {
            c := nameBuffer[name];
          } else {
            LongIsNoDigit(source, begin);
            name := name + len;
            i := i + 1;
            return;
          }
        } else if NeedPercentEncode(c) {
          error := Some(CharacterMustPercentEncode);
          return;
        }
      }
      i := i + 1;
      if c == TILDE {
        if i < |source| {
          c := source[i];
          if c == DIGIT_0 {
            c := TILDE;
          } else if c == DIGIT_1 {
            c := SLASH;
          } else {
            error := Some(InvalidEscape);
            return;
          }
          i := i + 1;
        } else {
          error := Some(InvalidEscape);
          return;
        }
      }
      digit := IsDigit(c);
      OneDigit(c);
      nameBuffer[name] := c;
      name := name + 1;
      assert nameBuffer[start..name] == [c];
    }

    lemma OneDigit(c: byte)
      ensures AllDigits([c]) == IsDigit(c)
    {
      assert [c][0] == c;
    }

    lemma LongIsNoDigit(s: seq<byte>, p: nat)
      requires PercentSequence(s, p).Some? && |PercentSequence(s, p).value| > 1
      ensures !AllDigits(PercentSequence(s, p).value)
    {
      var bs := PercentSequence(s, p).value;
      TripletsBounds(s, p, Utf8.Taken(TripletOrNul(s, p)));
      Utf8.WellFormedTakesAll(bs, 0);
      assert !IsDigit(bs[0]);
    }

    /** Validates the sequence of triplets at `i` into the buffer, whose cursor stays where it is. */
    method DecodePercent(source: seq<byte>, i: nat, name: nat) returns (ok: bool, len: nat)
      requires nameBuffer.Length == |source| && name + 1 <= i < |source|
      modifies nameBuffer
      ensures nameBuffer[..name] == old(nameBuffer[..name])
      ensures match PercentSequence(source, i)
              case None => !ok
              case Some(bs) => ok && len == |bs| && nameBuffer[name..name + len] == bs
    {
      var stream := new PercentDecodeStream(source, i);
      var b0 := stream.Take();
      nameBuffer[name] := b0;
      assert nameBuffer[name..name + 1] == [b0];
      if b0 < 0x80 {
        OneTriplet(source, i);
        return stream.valid, 1;
      }
      TripletInside(source, i);
      ok, len := DecodeTail(stream, i, name, b0);
    }

    /** The masks and the bytes after the first, as far as they have been taken. */
    ghost predicate Accepted(b0: byte, bs: seq<byte>)
      requires b0 >= 0x80
    {
      && Utf8.SecondMask(b0).1 > 0
      && (|bs| > 1 ==> Utf8.Accepts(Utf8.SecondMask(b0).0, bs[1]))
      && (|bs| > 2 ==> Utf8.IsTail(bs[2])) && (|bs| > 3 ==> Utf8.IsTail(bs[3]))
    }

    method DecodeTail(stream: PercentDecodeStream, i: nat, name: nat, b0: byte) returns (ok: bool, len: nat)
      requires nameBuffer.Length == |stream.s| && name + 1 <= i && i + 3 <= |stream.s| &&
               stream as object != nameBuffer as object
      requires b0 == TripletOrNul(stream.s, i) >= 0x80 && stream.head == i && stream.src == i + 3 && stream.valid
      requires Triplets(stream.s, i, 1) == Some([b0]) && nameBuffer[name] == b0
      modifies nameBuffer, stream
      ensures nameBuffer[..name] == old(nameBuffer[..name])
      ensures match PercentSequence(stream.s, i)
              case None => !ok
              case Some(bs) => ok && len == |bs| && nameBuffer[name..name + len] == bs
    {
      hide Triplet, Triplets, Utf8.GetRange, Utf8.Accepts, Utf8.Taken, Utf8.LengthOf, PercentSequence, Utf8.IsTail;
      var (mask, n) := Utf8.SecondMask(b0);
      len := 1 + n;
      ok := n > 0;
      var j := 0;
      ghost var bs := [b0];
      assert nameBuffer[name..name + 1] == [b0];
      while j < n
        invariant 0 <= j <= n <= 3 && |bs| == 1 + j && bs[0] == b0 && nameBuffer[name..name + 1 + j] == bs
        invariant nameBuffer[..name] == old(nameBuffer[..name])
        invariant stream.valid == Triplets(stream.s, i, 1 + j).Some?
        invariant stream.valid ==> stream.src == i + 3 * (1 + j) && Triplets(stream.s, i, 1 + j) == Some(bs)
        invariant ok == Accepted(b0, bs)
      {
        MoreTriplets(stream.s, i, 1 + j);
        TripletOrNulOf(stream.s, stream.src);
        var c := stream.Take();
        nameBuffer[name + 1 + j] := c;
        var m := if j == 0 then mask else 0x70;
        Utf8.MaskAccepts(m, c);
        TailMask(c);
        ok := ok && Utf8.GetRange(c) & m != 0;
        bs := bs + [c];
        assert nameBuffer[name..name + 2 + j] == nameBuffer[name..name + 1 + j] + [c];
        j := j + 1;
      }
      SequenceAccepted(stream.s, i, bs);
      ok := ok && stream.valid;
    }

    lemma TailMask(c: byte)
      ensures Utf8.IsMask(0x70) && (Utf8.Accepts(0x70, c) <==> Utf8.IsTail(c))
    {
    }

    lemma TripletOrNulOf(s: seq<byte>, p: nat)
      ensures Triplet(s, p).Some? ==> TripletOrNul(s, p) == Triplet(s, p).value
    {
    }

    lemma SequenceAccepted(s: seq<byte>, p: nat, bs: seq<byte>)
      requires bs != [] && bs[0] == TripletOrNul(s, p) >= 0x80 && |bs| == 1 + Utf8.SecondMask(bs[0]).1
      requires Triplets(s, p, |bs|).Some? ==> Triplets(s, p, |bs|) == Some(bs)
      ensures PercentSequence(s, p) == if Triplets(s, p, |bs|).Some? && Accepted(bs[0], bs) then Some(bs) else None
    {
      Utf8.SequenceByMasks(bs[0], At(bs, 1), At(bs, 2), At(bs, 3));
    }

    lemma OneTriplet(s: seq<byte>, p: nat)
      requires TripletOrNul(s, p) < 0x80
      ensures match PercentSequence(s, p)
              case None => Triplet(s, p).None?
              case Some(bs) => Triplet(s, p).Some? && bs == [TripletOrNul(s, p)]
    {
      var b := TripletOrNul(s, p);
      assert Utf8.Taken(b) == 1;
      assert Triplets(s, p + 3, 0) == Some([]);
      if Triplet(s, p).Some? {
        assert Triplets(s, p, 1) == Some([b]) by {
          assert [b] + [] == [b];
        }
        assert Utf8.SequenceLength([b], 0) == 1;
        assert PercentSequence(s, p) == Some([b]);
      } else {
        assert Triplets(s, p, 1) == None;
      }
    }

    lemma TripletInside(s: seq<byte>, p: nat)
      requires TripletOrNul(s, p) >= 0x80
      ensures p + 3 <= |s| && Triplets(s, p, 1) == Some([TripletOrNul(s, p)])
    {
      assert Triplets(s, p + 3, 0) == Some([]);
      assert [TripletOrNul(s, p)] + [] == [TripletOrNul(s, p)];
    }

    lemma {:induction false} MoreTriplets(s: seq<byte>, p: nat, n: nat)
      ensures Triplets(s, p, n + 1)
           == match Triplets(s, p, n)
              case None => None
              case Some(bs) => if Triplet(s, p + 3 * n).Some? then Some(bs + [Triplet(s, p + 3 * n).value]) else None
      decreases n
    {
      hide Triplet;
      if n == 0 {
        assert Triplets(s, p + 3, 0) == Some([]);
        assert Triplet(s, p).Some? ==> [Triplet(s, p).value] + [] == [] + [Triplet(s, p).value];
      } else {
        MoreTriplets(s, p + 3, n - 1);
        var t := Triplet(s, p);
        assert Triplets(s, p, n)
            == if t.Some? && Triplets(s, p + 3, n - 1).Some? then Some([t.value] + Triplets(s, p + 3, n - 1).value)
               else None;
        if t.Some? && Triplets(s, p + 3, n).Some? {
          var bs, last := Triplets(s, p + 3, n - 1).value, Triplet(s, p + 3 * n);
          assert [t.value] + (bs + [last.value]) == [t.value] + bs + [last.value];
        }
      }
    }

    /** The conversion of a name that is all digits. */
    method ParseIndex(start: nat, end: nat, digits: bool) returns (index: nat)
      requires start <= end <= nameBuffer.Length && digits == AllDigits(nameBuffer[start..end])
      ensures index == IndexOf(nameBuffer[start..end])
    {
      ghost var name := nameBuffer[start..end];
      var isNumber, length := digits, end - start;
      if length == 0 {
        isNumber := false;
      }
      if isNumber && length > 1 && nameBuffer[start] == DIGIT_0 {
        isNumber := false;
      }
      var n := 0;
      if isNumber {
        var j := 0;
        while j < length
          invariant 0 <= j <= length && n <= INVALID_INDEX && isNumber
          invariant Accumulated(name, j, n) == Accumulated(name, 0, 0)
        {
          var m := (n * 10 + (nameBuffer[start + j] - DIGIT_0)) % 0x1_0000_0000;
          if m < n {
            isNumber := false;
            break;
          }
          n := m;
          j := j + 1;
        }
      }
      index := if isNumber then n else INVALID_INDEX;
    }
  }
}
