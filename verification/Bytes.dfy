/** Bytes, the ASCII codes the JSON grammar names, and reading past the end of a text. */
module Bytes {

  type byte = x: int | 0 <= x < 256

  const NUL: byte := 0x00
  const BACKSPACE: byte := 0x08
  const TAB: byte := 0x09
  const LF: byte := 0x0A
  const FORM_FEED: byte := 0x0C
  const CR: byte := 0x0D
  const SPACE: byte := 0x20
  const QUOTE: byte := 0x22
  const HASH: byte := 0x23
  const PERCENT: byte := 0x25
  const APOSTROPHE: byte := 0x27
  const STAR: byte := 0x2A
  const PLUS: byte := 0x2B
  const COMMA: byte := 0x2C
  const MINUS: byte := 0x2D
  const DOT: byte := 0x2E
  const SLASH: byte := 0x2F
  const DIGIT_0: byte := 0x30
  const DIGIT_1: byte := 0x31
  const DIGIT_9: byte := 0x39
  const COLON: byte := 0x3A
  const UPPER_A: byte := 0x41
  const UPPER_E: byte := 0x45
  const UPPER_F: byte := 0x46
  const UPPER_I: byte := 0x49
  const UPPER_N: byte := 0x4E
  const UPPER_Z: byte := 0x5A
  const LBRACKET: byte := 0x5B
  const BACKSLASH: byte := 0x5C
  const RBRACKET: byte := 0x5D
  const UNDERSCORE: byte := 0x5F
  const LOWER_A: byte := 0x61
  const LOWER_B: byte := 0x62
  const LOWER_E: byte := 0x65
  const LOWER_F: byte := 0x66
  const LOWER_I: byte := 0x69
  const LOWER_L: byte := 0x6C
  const LOWER_N: byte := 0x6E
  const LOWER_R: byte := 0x72
  const LOWER_S: byte := 0x73
  const LOWER_T: byte := 0x74
  const LOWER_U: byte := 0x75
  const LOWER_Y: byte := 0x79
  const LOWER_Z: byte := 0x7A
  const LBRACE: byte := 0x7B
  const RBRACE: byte := 0x7D
  const TILDE: byte := 0x7E

  /** The unit at position `p`; a text is followed by NUL. */
  function At(s: seq<byte>, p: nat): byte {
    if p < |s| then s[p] else NUL
  }

  predicate IsDigit(c: byte) {
    DIGIT_0 <= c <= DIGIT_9
  }

  predicate IsWhitespace(c: byte) {
    c == SPACE || c == LF || c == CR || c == TAB
  }

  lemma AtSuffix(a: seq<byte>, b: seq<byte>, p: nat)
    requires |a| <= p
    ensures At(a + b, p) == At(b, p - |a|)
  {
  }

  /** `t` stands in `s` at `p`. */
  predicate TextAt(s: seq<byte>, p: nat, t: seq<byte>) {
    p + |t| <= |s| && forall i :: 0 <= i < |t| ==> s[p + i] == t[i]
  }

  lemma TextAtSplit(s: seq<byte>, p: nat, a: seq<byte>, b: seq<byte>)
    ensures TextAt(s, p, a + b) <==> TextAt(s, p, a) && TextAt(s, p + |a|, b)
  {
    if TextAt(s, p, a + b) {
      forall i | 0 <= i < |b|
        ensures s[p + |a| + i] == b[i]
      {
        assert s[p + (|a| + i)] == (a + b)[|a| + i];
      }
      forall i | 0 <= i < |a|
        ensures s[p + i] == a[i]
      {
        assert s[p + i] == (a + b)[i];
      }
    }
    if TextAt(s, p, a) && TextAt(s, p + |a|, b) {
      forall i | 0 <= i < |a + b|
        ensures s[p + i] == (a + b)[i]
      {
        if i >= |a| {
          assert s[p + |a| + (i - |a|)] == b[i - |a|];
        }
      }
    }
  }
}
