/**
 The iterative parser's tables, and what a configuration of it stands for: the rest of the
 recursive descent that would be under way with the same containers open.
 */
module Pushdown {
  import opened Bytes
  import opened Sax
  import G = Grammar

  datatype State =
    | Finish
    | Error
    | Start
    | ObjectInitial
    | MemberKey
    | MemberValue
    | ObjectFinish
    | ArrayInitial
    | Element
    | ArrayFinish
    | Value
    | ElementDelimiter
    | MemberDelimiter
    | KeyValueDelimiter

  datatype Token =
    | LeftBracketToken
    | RightBracketToken
    | LeftCurlyBracketToken
    | RightCurlyBracketToken
    | CommaToken
    | ColonToken
    | StringToken
    | FalseToken
    | TrueToken
    | NullToken
    | NumberToken

  const STATES: seq<State> := [
    Finish, Error, Start, ObjectInitial, MemberKey, MemberValue, ObjectFinish, ArrayInitial, Element, ArrayFinish,
    Value, ElementDelimiter, MemberDelimiter, KeyValueDelimiter
  ]

  /** A state as the integer the stack stores. */
  function Code(s: State): (n: nat)
    ensures n < |STATES| && STATES[n] == s
  {
    match s
    case Finish => 0
    case Error => 1
    case Start => 2
    case ObjectInitial => 3
    case MemberKey => 4
    case MemberValue => 5
    case ObjectFinish => 6
    case ArrayInitial => 7
    case Element => 8
    case ArrayFinish => 9
    case Value => 10
    case ElementDelimiter => 11
    case MemberDelimiter => 12
    case KeyValueDelimiter => 13
  }

  function Tokenize(c: byte): Token {
    if c == LBRACKET then LeftBracketToken
    else if c == RBRACKET then RightBracketToken
    else if c == LBRACE then LeftCurlyBracketToken
    else if c == RBRACE then RightCurlyBracketToken
    else if c == COMMA then CommaToken
    else if c == COLON then ColonToken
    else if c == QUOTE then StringToken
    else if c == LOWER_F then FalseToken
    else if c == LOWER_T then TrueToken
    else if c == LOWER_N then NullToken
    else NumberToken
  }

  /** Where a value may begin: containers open, scalars complete the value. */
  function PredictValue(token: Token, scalar: State): State {
    match token
    case LeftBracketToken => ArrayInitial
    case LeftCurlyBracketToken => ObjectInitial
    case RightBracketToken => Error
    case RightCurlyBracketToken => Error
    case CommaToken => Error
    case ColonToken => Error
    case _ => scalar
  }

  /** The transition table: current state and one token of lookahead. */
  function Predict(state: State, token: Token): State {
    match state
    case Start => PredictValue(token, Value)
    case ObjectInitial =>
      if token.RightCurlyBracketToken? then ObjectFinish else if token.StringToken? then MemberKey else Error
    case MemberKey => if token.ColonToken? then KeyValueDelimiter else Error
    case MemberValue =>
      if token.RightCurlyBracketToken? then ObjectFinish else if token.CommaToken? then MemberDelimiter else Error
    case ArrayInitial => if token.RightBracketToken? then ArrayFinish else PredictValue(token, Element)
    case Element =>
      if token.RightBracketToken? then ArrayFinish else if token.CommaToken? then ElementDelimiter else Error
    case ElementDelimiter => if token.RightBracketToken? then ArrayFinish else PredictValue(token, Element)
    case MemberDelimiter =>
      if token.RightCurlyBracketToken? then ObjectFinish else if token.StringToken? then MemberKey else Error
    case KeyValueDelimiter => PredictValue(token, MemberValue)
    case _ => Error
  }

  /** The error a state reports when no transition leads on. */
  function ErrorCode(src: State): G.ParseErrorCode {
    match src
    case Start => G.DocumentEmpty
    case Finish => G.DocumentRootNotSingular
    case ObjectInitial => G.ObjectMissName
    case MemberDelimiter => G.ObjectMissName
    case MemberKey => G.ObjectMissColon
    case MemberValue => G.ObjectMissCommaOrCurlyBracket
    case KeyValueDelimiter => G.ValueInvalid
    case ArrayInitial => G.ValueInvalid
    case ElementDelimiter => G.ValueInvalid
    case _ => G.ArrayMissCommaOrSquareBracket
  }

  /** One open container: the state to restore when it closes, and the delimiters seen in it. */
  datatype Frame = Frame(restore: State, count: nat)

  /** The states the parser can be in between transitions, with the containers open in them. */
  predicate WellFormed(st: State, frames: seq<Frame>) {
    && (st.Start? || st.Finish? <==> frames == [])
    && !st.Error? && !st.ObjectFinish? && !st.ArrayFinish? && !st.Value?
    && (st.ObjectInitial? || st.ArrayInitial? ==> frames[|frames| - 1].count == 0)
    && (frames != [] ==> frames[0].restore == Start)
    && (forall i :: 0 < i < |frames| ==> frames[i].restore.Element? || frames[i].restore.MemberValue?)
  }

  /** The state in which a value begun in `src` is complete. */
  function ValueDone(src: State): State {
    match src
    case Start => Finish
    case KeyValueDelimiter => MemberValue
    case _ => Element
  }

  function Top(frames: seq<Frame>): Frame
    requires frames != []
  {
    frames[|frames| - 1]
  }

  function Rest(frames: seq<Frame>): seq<Frame>
    requires frames != []
  {
    frames[..|frames| - 1]
  }

  /** The state after the innermost container closes. */
  function Restored(frames: seq<Frame>): State
    requires frames != []
  {
    if Top(frames).restore == Start then Finish else Top(frames).restore
  }

  /** The rest of the innermost container, `n` delimiters into it. */
  function Inner(c: G.Context, st: State, n: nat, p: nat, log: seq<Event>): (r: G.Step)
    requires p <= |c.s|
    ensures r.Go? ==> r.pos <= |c.s|
  {
    if st.ObjectInitial? then G.ObjectFirst(c, p, log)
    else if st.MemberKey? then G.AfterKey(c, p, n, log)
    else if st.KeyValueDelimiter? then G.MemberValue(c, p, n, log)
    else if st.MemberValue? then G.AfterMember(c, p, n, log)
    else if st.MemberDelimiter? then G.AfterMemberComma(c, p, n, log)
    else if st.ArrayInitial? then G.ArrayFirst(c, p, log)
    else if st.Element? then G.AfterElement(c, p, n, log)
    else G.AfterElementComma(c, p, n, log)
  }

  /** What recursive descent does from a configuration: it finishes the innermost container, then the next. */
  function Resume(c: G.Context, st: State, frames: seq<Frame>, p: nat, log: seq<Event>): G.Step
    requires p <= |c.s| && WellFormed(st, frames)
    decreases |frames|, 0
  {
    if st.Finish? then G.Go(p, log)
    else if st.Start? then G.Value(c, p, log)
    else AfterValue(c, Restored(frames), Rest(frames), Inner(c, st, Top(frames).count, p, log))
  }

  /** A value has been parsed with this result; blanks follow, then the rest of what encloses it. */
  function AfterValue(c: G.Context, st: State, frames: seq<Frame>, r: G.Step): G.Step
    requires r.Go? ==> r.pos <= |c.s|
    requires WellFormed(st, frames)
    decreases |frames|, 2
  {
    if r.Stop? then r else After(c, st, frames, r.pos, r.log)
  }

  /** Just after a transition to `st`, before the blanks that follow; at the root the parse is complete. */
  function After(c: G.Context, st: State, frames: seq<Frame>, p: nat, log: seq<Event>): G.Step
    requires p <= |c.s| && WellFormed(st, frames)
    decreases |frames|, 1
  {
    if st.Finish? then G.Go(p, log)
    else
      match G.Skip(c, p, log)
      case Stop(code, o, rewind, log') => G.Stop(code, o, rewind, log')
      case Go(q, _) => Resume(c, st, frames, q, log)
  }

  /**
   What the iterative parser reports for a document. It differs from recursive descent in two ways:
   a root that begins with punctuation is an empty document, and the offset of a refused bracket
   event is that of the bracket.
   */
  function IterativeDocument(c: G.Context, p: nat, log: seq<Event>): (r: G.Step)
    requires p <= |c.s|
    ensures r.Go? ==> r.pos <= |c.s|
  {
    match G.SkipBlank(c.s, c.f, p)
    case Unclosed(o) => G.Fail(G.UnspecificSyntaxError, o, log)
    case Skipped(q) =>
      if IsPunctuation(At(c.s, q)) then G.Fail(G.DocumentEmpty, q, log)
      else
        match G.Document(c, p, log)
        case Go(q1, log1) => G.Go(q1, log1)
        case Stop(code, o, rewind, log1) => G.Fail(code, o - rewind, log1)
  }

  // ---------------------------------------------------------------- lemmas

  predicate IsPunctuation(b: byte) {
    b == RBRACKET || b == RBRACE || b == COMMA || b == COLON
  }

  lemma NoValue(c: G.Context, p: nat, log: seq<Event>)
    requires p <= |c.s| && (IsPunctuation(At(c.s, p)) || At(c.s, p) == NUL)
    ensures G.Value(c, p, log) == G.Fail(G.ValueInvalid, p, log)
  {
    assert G.NumberLayout(c.s, c.f, p) == G.BadLayout(G.ValueInvalid, p);
  }

  /** Where the table has no transition, and at the end of the text, recursive descent stops with the state's error. */
  lemma Mismatch(c: G.Context, st: State, frames: seq<Frame>, p: nat, log: seq<Event>)
    requires p <= |c.s| && WellFormed(st, frames) && !st.Start? && !st.Finish?
    requires At(c.s, p) == NUL || Predict(st, Tokenize(At(c.s, p))).Error?
    ensures Resume(c, st, frames, p, log) == G.Fail(ErrorCode(st), p, log)
  {
    var n := Top(frames).count;
    if st.ArrayInitial? || st.ElementDelimiter? || st.KeyValueDelimiter? {
      NoValue(c, p, log);
      assert G.Element(c, p, n, log) == G.MemberValue(c, p, n, log) == G.Fail(G.ValueInvalid, p, log);
    } else if st.ObjectInitial? || st.MemberDelimiter? {
      assert G.Member(c, p, n, log) == G.Fail(G.ObjectMissName, p, log);
    }
    assert Inner(c, st, n, p, log) == G.Fail(ErrorCode(st), p, log);
  }

  predicate ExpectsValue(c: G.Context, st: State, p: nat) {
    match st
    case Start => true
    case KeyValueDelimiter => true
    case ArrayInitial => At(c.s, p) != RBRACKET
    case ElementDelimiter => !(c.f.trailingCommas && At(c.s, p) == RBRACKET)
    case _ => false
  }

  /** Where a value is expected, recursive descent parses it and goes on in the state that follows a value. */
  lemma ResumeAtValue(c: G.Context, st: State, frames: seq<Frame>, p: nat, log: seq<Event>)
    requires p <= |c.s| && WellFormed(st, frames) && ExpectsValue(c, st, p)
    ensures WellFormed(ValueDone(st), frames)
    ensures Resume(c, st, frames, p, log) == AfterValue(c, ValueDone(st), frames, G.Value(c, p, log))
  {
    hide G.RewindsOnlyRefusals;
    var r := G.Value(c, p, log);
    if !st.Start? {
      var n := Top(frames).count;
      var s := if r.Stop? then r else G.Skip(c, r.pos, r.log);
      if st.KeyValueDelimiter? {
        assert G.MemberValue(c, p, n, log) == if s.Stop? then s else G.AfterMember(c, s.pos, n, r.log);
      } else {
        assert G.Element(c, p, n, log) == if s.Stop? then s else G.AfterElement(c, s.pos, n, r.log);
        assert Inner(c, st, n, p, log) == G.Element(c, p, n, log);
      }
      if s.Go? {
        var done := ValueDone(st);
        assert After(c, done, frames, r.pos, r.log) == Resume(c, done, frames, s.pos, r.log);
        assert Resume(c, done, frames, s.pos, r.log)
            == AfterValue(c, Restored(frames), Rest(frames), Inner(c, done, n, s.pos, r.log));
      }
    }
  }

  /** Opening a container pushes a frame that brings the parser back to the state after the value. */
  lemma ResumeAtOpen(c: G.Context, st: State, frames: seq<Frame>, p: nat, log: seq<Event>, inArray: bool)
    requires p < |c.s| && WellFormed(st, frames) && ExpectsValue(c, st, p)
    requires c.s[p] == if inArray then LBRACKET else LBRACE
    ensures var restore := if st.Start? then Start else ValueDone(st);
            var initial := if inArray then ArrayInitial else ObjectInitial;
            var frames' := frames + [Frame(restore, 0)];
            var log' := log + [if inArray then StartArray else StartObject];
            && WellFormed(initial, frames')
            && Resume(c, st, frames, p, log)
               == if c.accept(log') then After(c, initial, frames', p + 1, log')
                  else G.Stop(G.Termination, p + 1, 1, log')
  {
    hide G.RewindsOnlyRefusals;
    ResumeAtValue(c, st, frames, p, log);
    var restore := if st.Start? then Start else ValueDone(st);
    var frames' := frames + [Frame(restore, 0)];
    assert Rest(frames') == frames;
  }

  /** A closing bracket after a comma, when trailing commas are not allowed. */
  lemma TrailingComma(c: G.Context, st: State, frames: seq<Frame>, p: nat, log: seq<Event>)
    requires p <= |c.s| && WellFormed(st, frames) && !c.f.trailingCommas
    requires (st.MemberDelimiter? && At(c.s, p) == RBRACE) || (st.ElementDelimiter? && At(c.s, p) == RBRACKET)
    ensures Resume(c, st, frames, p, log) == G.Fail(ErrorCode(st), p, log)
  {
    var n := Top(frames).count;
    if st.ElementDelimiter? {
      NoValue(c, p, log);
      assert G.Element(c, p, n, log) == G.Fail(G.ValueInvalid, p, log);
    } else {
      assert G.Member(c, p, n, log) == G.Fail(G.ObjectMissName, p, log);
    }
    assert Inner(c, st, n, p, log) == G.Fail(ErrorCode(st), p, log);
  }

  /** A closing bracket completes the innermost container as a value of the one around it. */
  lemma ResumeAtClose(c: G.Context, st: State, frames: seq<Frame>, p: nat, log: seq<Event>)
    requires p < |c.s| && WellFormed(st, frames)
    requires Predict(st, Tokenize(c.s[p])).ObjectFinish? || Predict(st, Tokenize(c.s[p])).ArrayFinish?
    requires c.f.trailingCommas || !(st.MemberDelimiter? || st.ElementDelimiter?)
    ensures var n := if st.MemberValue? || st.Element? then Inc(Top(frames).count) else Top(frames).count;
            var log' := log + [if Predict(st, Tokenize(c.s[p])).ObjectFinish? then EndObject(n) else EndArray(n)];
            var rewind := if st.MemberDelimiter? || st.ElementDelimiter? then 0 else 1;
            && WellFormed(Restored(frames), Rest(frames))
            && Resume(c, st, frames, p, log)
               == if c.accept(log') then After(c, Restored(frames), Rest(frames), p + 1, log')
                  else G.Stop(G.Termination, p + rewind, rewind, log')
  {
  }

  /** A member name, and what recursive descent does after it. */
  lemma ResumeAtKey(c: G.Context, st: State, frames: seq<Frame>, p: nat, log: seq<Event>)
    requires p < |c.s| && WellFormed(st, frames) && (st.ObjectInitial? || st.MemberDelimiter?) && c.s[p] == QUOTE
    ensures var r := G.StringAt(c, p, true, log);
            Resume(c, st, frames, p, log) == if r.Stop? then r else After(c, MemberKey, frames, r.pos, r.log)
  {
    var n := Top(frames).count;
    var r := G.StringAt(c, p, true, log);
    var s := if r.Stop? then r else G.Skip(c, r.pos, r.log);
    assert G.Member(c, p, n, log) == if s.Stop? then s else G.AfterKey(c, s.pos, n, r.log);
    assert Inner(c, st, n, p, log) == G.Member(c, p, n, log);
    if s.Go? {
      assert After(c, MemberKey, frames, r.pos, r.log) == Resume(c, MemberKey, frames, s.pos, r.log);
      assert Inner(c, MemberKey, n, s.pos, r.log) == G.AfterKey(c, s.pos, n, r.log);
    }
  }

  lemma ResumeAtColon(c: G.Context, frames: seq<Frame>, p: nat, log: seq<Event>)
    requires p < |c.s| && WellFormed(MemberKey, frames) && c.s[p] == COLON
    ensures Resume(c, MemberKey, frames, p, log) == After(c, KeyValueDelimiter, frames, p + 1, log)
  {
    var n := Top(frames).count;
    var s := G.Skip(c, p + 1, log);
    assert Inner(c, MemberKey, n, p, log) == if s.Stop? then s else G.MemberValue(c, s.pos, n, log);
    if s.Go? {
      assert Inner(c, KeyValueDelimiter, n, s.pos, log) == G.MemberValue(c, s.pos, n, log);
    }
  }

  function Delimited(frames: seq<Frame>): seq<Frame>
    requires frames != []
  {
    Rest(frames) + [Frame(Top(frames).restore, Inc(Top(frames).count))]
  }

  /** A comma counts the value before it. */
  lemma ResumeAtComma(c: G.Context, st: State, frames: seq<Frame>, p: nat, log: seq<Event>)
    requires p < |c.s| && WellFormed(st, frames) && (st.MemberValue? || st.Element?) && c.s[p] == COMMA
    ensures var delimiter := if st.MemberValue? then MemberDelimiter else ElementDelimiter;
            && WellFormed(delimiter, Delimited(frames))
            && Resume(c, st, frames, p, log) == After(c, delimiter, Delimited(frames), p + 1, log)
  {
    var n := Top(frames).count;
    var delimiter := if st.MemberValue? then MemberDelimiter else ElementDelimiter;
    var frames' := Delimited(frames);
    assert Rest(frames') == Rest(frames);
    var s := G.Skip(c, p + 1, log);
    assert Inner(c, st, n, p, log) == if s.Stop? then s else Inner(c, delimiter, Inc(n), s.pos, log);
    if s.Go? {
      assert After(c, delimiter, frames', p + 1, log) == Resume(c, delimiter, frames', s.pos, log);
    }
  }

  /** Only a refused bracket event is reported away from the cursor. */
  lemma ScalarStopsInPlace(c: G.Context, p: nat, log: seq<Event>)
    requires p <= |c.s| && At(c.s, p) != LBRACKET && At(c.s, p) != LBRACE
    ensures G.Value(c, p, log).Stop? ==> G.Value(c, p, log).rewind == 0
  {
  }

  /** The same from the first unit of the root on. */
  function IterativeRoot(c: G.Context, q: nat, log: seq<Event>): (r: G.Step)
    requires q <= |c.s|
    ensures r.Go? ==> r.pos <= |c.s|
  {
    if IsPunctuation(At(c.s, q)) || At(c.s, q) == NUL then G.Fail(G.DocumentEmpty, q, log)
    else
      var r := G.Value(c, q, log);
      var end := if r.Stop? then r else G.AfterRoot(c, r.pos, r.log);
      if end.Stop? then G.Fail(end.code, end.offset - end.rewind, end.log) else end
  }

  lemma IterativeFromRoot(c: G.Context, p: nat, log: seq<Event>)
    requires p <= |c.s| && G.SkipBlank(c.s, c.f, p).Skipped?
    ensures IterativeDocument(c, p, log) == IterativeRoot(c, G.SkipBlank(c.s, c.f, p).pos, log)
  {
  }

  /** A document that does not start with punctuation is read alike by both. */
  lemma StartsAtOnce(c: G.Context, p: nat)
    requires p <= |c.s| && G.SkipBlank(c.s, c.f, p) == G.Skipped(p) && !IsPunctuation(At(c.s, p))
    requires G.Document(c, p, []).Go?
    ensures IterativeDocument(c, p, []) == G.Document(c, p, [])
  {
  }

  /** What the loop keeps: the rest of recursive descent's parse of the root is still to come. */
  ghost predicate Underway(c: G.Context, st: State, frames: seq<Frame>, root: nat, log0: seq<Event>, p: nat,
                           log: seq<Event>) {
    && root <= p <= |c.s| && WellFormed(st, frames)
    && if st.Start? then p == root && log == log0
       else
         var r := G.Value(c, root, log0);
         && !IsPunctuation(At(c.s, root)) && At(c.s, root) != NUL
         && if st.Finish? then
              r.Go? && !c.f.stopWhenDone && log == r.log && G.SkipBlank(c.s, c.f, r.pos) == G.Skipped(p)
            else
              r == Resume(c, st, frames, p, log)
  }

  lemma UnderwayResumes(c: G.Context, st: State, frames: seq<Frame>, root: nat, log0: seq<Event>, p: nat,
                        log: seq<Event>)
    requires Underway(c, st, frames, root, log0, p, log) && !Predict(st, Tokenize(At(c.s, p))).Error? &&
             At(c.s, p) != NUL
    ensures Resume(c, st, frames, p, log) == G.Value(c, root, log0)
    ensures !IsPunctuation(At(c.s, root)) && At(c.s, root) != NUL
  {
  }

  /** After a transition the loop either stops at the root, or skips blanks and goes on. */
  lemma Advances(c: G.Context, root: nat, log0: seq<Event>, d: State, frames: seq<Frame>, p: nat, log: seq<Event>)
    requires root <= p <= |c.s| && WellFormed(d, frames) && !d.Start?
    requires G.Value(c, root, log0) == After(c, d, frames, p, log)
    requires !IsPunctuation(At(c.s, root)) && At(c.s, root) != NUL
    ensures if d.Finish? && c.f.stopWhenDone then IterativeRoot(c, root, log0) == G.Go(p, log)
            else
              var s := G.SkipBlank(c.s, c.f, p);
              && (s.Unclosed? ==> IterativeRoot(c, root, log0) == G.Fail(G.UnspecificSyntaxError, s.offset, log))
              && (s.Skipped? ==> Underway(c, d, frames, root, log0, s.pos, log))
  {
  }

  /** Where the table has no transition the loop reports the error of the state. */
  lemma Rejects(c: G.Context, st: State, frames: seq<Frame>, root: nat, log0: seq<Event>, p: nat, log: seq<Event>)
    requires Underway(c, st, frames, root, log0, p, log)
    requires if At(c.s, p) == NUL then !st.Finish? else Predict(st, Tokenize(At(c.s, p))).Error?
    ensures IterativeRoot(c, root, log0) == G.Fail(ErrorCode(st), p, log)
  {
    if !st.Start? && !st.Finish? {
      Mismatch(c, st, frames, p, log);
    }
  }

  /** At the end of the text a finished parse is a success. */
  lemma Completes(c: G.Context, frames: seq<Frame>, root: nat, log0: seq<Event>, p: nat, log: seq<Event>)
    requires Underway(c, Finish, frames, root, log0, p, log) && At(c.s, p) == NUL
    ensures IterativeRoot(c, root, log0) == G.Go(p, log)
  {
  }
}
