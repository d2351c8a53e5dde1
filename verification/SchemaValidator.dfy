/**
 The validator object: one event method works on the stack of contexts and on the text of the document
 path, step by step.
 */
module SchemaValidator {
  import opened Bytes
  import opened Numerals
  import opened Wrappers
  import opened Sax
  import opened Streams
  import opened Schema
  import opened V = Validator
  import opened DocumentPath
  import opened StreamedValidity
  import PointerText
  import D = Dom

  /** The text of a path, as a pointer in string form. */
  function PathText(path: Path): seq<byte> {
    if path == [] then [] else PathText(path[..|path| - 1]) + ([SLASH] + Escaped(path[|path| - 1]))
  }

  function Escaped(name: seq<byte>): seq<byte> {
    if name == [] then []
    else Escaped(name[..|name| - 1]) + EscapedByte(name[|name| - 1])
  }

  function EscapedByte(c: byte): seq<byte> {
    if c == TILDE then [TILDE, DIGIT_0] else if c == SLASH then [TILDE, DIGIT_1] else [c]
  }

  /** Escaped names hold no slash, so a slash always begins a token. */
  lemma {:induction false} EscapedHasNoSlash(name: seq<byte>)
    ensures SLASH !in Escaped(name)
    decreases |name|
  {
    if name != [] {
      EscapedHasNoSlash(name[..|name| - 1]);
    }
  }

  // ---------------------------------------------------------------- the text is the pointer's text

  lemma {:induction false} NameTextAppend(a: seq<byte>, c: byte, j: nat)
    requires j <= |a|
    ensures PointerText.NameText(a + [c], false, j)
         == match PointerText.NameText(a, false, j)
            case NotWritten => PointerText.NotWritten
            case Written(text) => PointerText.Written(text + EscapedByte(c))
    decreases |a| - j
  {
    var name := a + [c];
    assert name[..][|a|] == c;
    if j < |a| {
      assert PointerText.PieceAt(name, false, j) == PointerText.PieceAt(a, false, j);
      NameTextAppend(a, c, j + 1);
      if PointerText.NameText(a, false, j + 1).Written? {
        var t := PointerText.NameText(a, false, j + 1).text;
        assert EscapedByte(a[j]) + (t + EscapedByte(c)) == EscapedByte(a[j]) + t + EscapedByte(c);
      }
    } else {
      assert PointerText.NameText(name, false, |name|) == PointerText.Written([]);
      assert EscapedByte(c) + [] == [] + EscapedByte(c);
    }
  }

  lemma {:induction false} EscapedIsNameText(name: seq<byte>)
    ensures PointerText.NameText(name, false, 0) == PointerText.Written(Escaped(name))
    decreases |name|
  {
    if name != [] {
      EscapedIsNameText(name[..|name| - 1]);
      NameTextAppend(name[..|name| - 1], name[|name| - 1], 0);
      assert name[..|name| - 1] + [name[|name| - 1]] == name;
    }
  }

  lemma {:induction false} TokensTextAppend(ts: seq<PointerText.Token>, t: PointerText.Token)
    ensures PointerText.TokensText(ts + [t], false)
         == if PointerText.TokensText(ts, false).Written?
            then PointerText.Written(PointerText.TokensText(ts, false).text + ([SLASH] + Escaped(t.name)))
            else PointerText.NotWritten
    decreases |ts|
  {
    EscapedIsNameText(t.name);
    hide Escaped;
    if ts == [] {
      assert ts + [t] == [t] && [t][1..] == [];
      assert PointerText.TokensText([], false) == PointerText.Written([]);
      assert [SLASH] + (Escaped(t.name) + []) == [] + ([SLASH] + Escaped(t.name));
    } else {
      EscapedIsNameText(ts[0].name);
      assert (ts + [t])[1..] == ts[1..] + [t];
      TokensTextAppend(ts[1..], t);
      if PointerText.TokensText(ts[1..], false).Written? {
        var a, b, c := Escaped(ts[0].name), PointerText.TokensText(ts[1..], false).text, [SLASH] + Escaped(t.name);
        assert [SLASH] + (a + (b + c)) == [SLASH] + (a + b) + c;
      }
    }
  }

  lemma {:induction false} PathTextIsPointer(path: Path)
    ensures PointerText.Stringify(TokensOf(path), false) == PointerText.Written(PathText(path))
    decreases |path|
  {
    hide Escaped;
    if path != [] {
      var front, name := path[..|path| - 1], path[|path| - 1];
      PathTextIsPointer(front);
      assert front + [name] == path;
      TokensOfMore(front, name);
      TokensTextAppend(TokensOf(front), TokenOf(name));
    }
  }

  /** Parsing the text of the path as a pointer gives the path's tokens. */
  lemma PathTextParses(path: Path)
    ensures PointerText.Parse(PathText(path)) == PointerText.Tokens(TokensOf(path))
  {
    PathTextIsPointer(path);
    PointerText.ParseOfStringify(TokensOf(path), false);
  }

  // ---------------------------------------------------------------- the validator

  class GenericSchemaValidator {
    const root: Schema
    var schemaStack: seq<Context>
    const documentStack: Stack<byte>
    var valid: bool
    /** The names and indices that the document stack spells. */
    ghost var path: Path

    constructor (root: Schema)
      ensures this.root == root && Valid() && State() == Fresh(root) && path == [] && fresh(documentStack)
    {
      this.root := root;
      schemaStack, valid, path := [], true, [];
      documentStack := new Stack<byte>();
    }

    function State(): V.Validator
      reads this
    {
      V.Validator.Validator(root, schemaStack, valid)
    }

    ghost predicate Valid()
      reads this, documentStack
    {
      WellFormed(State()) && documentStack.items == PathText(path)
    }

    // -------------------------------------------------------------- the document path

    method PutEscaped(c: byte)
      modifies documentStack
      ensures documentStack.items == old(documentStack.items) + EscapedByte(c)
    {
      if c == TILDE {
        documentStack.Push(TILDE);
        documentStack.Push(DIGIT_0);
      } else if c == SLASH {
        documentStack.Push(TILDE);
        documentStack.Push(DIGIT_1);
      } else {
        documentStack.Push(c);
      }
    }

    method AppendToken(name: seq<byte>)
      requires Valid()
      modifies this`path, documentStack
      ensures Valid() && path == old(path) + [name]
    {
      hide WellFormed, EscapedByte;
      ghost var before := documentStack.items;
      documentStack.Push(SLASH);
      var i := 0;
      while i < |name|
        invariant 0 <= i <= |name| && path == old(path)
        invariant documentStack.items == before + ([SLASH] + Escaped(name[..i]))
      {
        EscapedMore(name, i);
        PutEscaped(name[i]);
        Regrouped(before, Escaped(name[..i]), EscapedByte(name[i]));
        i := i + 1;
      }
      assert name[..i] == name;
      path := path + [name];
      assert path[..|path| - 1] == old(path);
    }

    lemma EscapedMore(name: seq<byte>, i: nat)
      requires i < |name|
      ensures Escaped(name[..i + 1]) == Escaped(name[..i]) + EscapedByte(name[i])
    {
      assert name[..i + 1][..i] == name[..i];
    }

    lemma Regrouped(a: seq<byte>, b: seq<byte>, c: seq<byte>)
      ensures a + ([SLASH] + b) + c == a + ([SLASH] + (b + c))
    {
    }

    /** An index is spelled by its digits, none of which needs escaping. */
    method AppendIndexToken(index: nat)
      requires Valid()
      modifies this`path, documentStack
      ensures Valid() && path == old(path) + [Decimal(index)]
    {
      AppendToken(Decimal(index));
    }

    /** Pops up to and including the last slash, or everything. */
    method RemoveLastToken()
      requires Valid()
      modifies this`path, documentStack
      ensures Valid() && path == Dropped(old(path))
    {
      hide WellFormed, Escaped;
      ghost var front, text := PathText(Dropped(path)), if path == [] then [] else Escaped(path[|path| - 1]);
      if path != [] {
        EscapedHasNoSlash(path[|path| - 1]);
      }
      PopToken(front, text);
      path := Dropped(path);
    }

    method PopToken(ghost front: seq<byte>, ghost text: seq<byte>)
      requires documentStack.items == [] || (documentStack.items == front + ([SLASH] + text) && SLASH !in text)
      modifies documentStack
      ensures documentStack.items == if old(documentStack.items) == [] then [] else front
    {
      ghost var full, k := documentStack.items, |documentStack.items|;
      assert forall i :: |front| < i < |full| ==> full[i] == text[i - |front| - 1] && full[i] in text;
      var slash := false;
      while |documentStack.items| != 0 && !slash
        invariant 0 <= k <= |full| && documentStack.items == full[..k]
        invariant full != [] ==> if slash then k == |front| else |front| < k
        decreases |documentStack.items|
      {
        var c := documentStack.Pop(1);
        assert c[0] == full[k - 1] && documentStack.items == full[..k - 1];
        slash := c[0] == SLASH;
        k := k - 1;
      }
      assert full != [] ==> full[..|front|] == front;
    }

    // -------------------------------------------------------------- one event

    /** The validators of every open context are sent the event. */
    method SendToParallel(e: Event)
      requires Valid()
      modifies this`schemaStack
      ensures Valid() && schemaStack == FeedStack(root, old(schemaStack), e)
    {
      hide Fits, FeedContext;
      ghost var was := schemaStack;
      var i := 0;
      while i < |schemaStack|
        invariant 0 <= i <= |schemaStack| == |was| && WellFormed(State())
        invariant forall k :: 0 <= k < i ==> schemaStack[k] == FeedStack(root, was, e)[k]
        invariant forall k :: i <= k < |was| ==> schemaStack[k] == was[k]
      {
        assert schemaStack[i] in schemaStack;
        var c := SendToContext(schemaStack[i], e);
        UpdatedFits(State(), i, c);
        schemaStack := schemaStack[i := c];
        i := i + 1;
      }
    }

    lemma UpdatedFits(v: V.Validator, i: nat, c: Context)
      requires WellFormed(v) && i < |v.stack| && Fits(v.root, c)
      ensures WellFormed(v.(stack := v.stack[i := c]))
    {
      hide Fits;
    }

    method SendToContext(c: Context, e: Event) returns (d: Context)
      requires Fits(root, c)
      ensures d == FeedContext(root, c, e) && Fits(root, d)
    {
      hide WellFormed, Feed;
      var ws := c.validators;
      ghost var fed := FeedEach(root, c.validators, e);
      var i := 0;
      while i < |ws|
        invariant 0 <= i <= |ws| == |c.validators|
        invariant forall k :: 0 <= k < i ==> ws[k] == fed[k]
        invariant forall k :: i <= k < |ws| ==> ws[k] == c.validators[k]
      {
        assert ws[i] == c.validators[i] && c.validators[i] in c.validators;
        ws := ws[i := Feed(ws[i], e)];
        i := i + 1;
      }
      assert ws == fed;
      d := c.(validators := ws);
    }

    /** The next value's context goes on the stack, its token to the path. */
    method BeginValue(e: Event) returns (ok: bool)
      requires Valid() && valid
      modifies this`schemaStack, this`path, documentStack
      ensures Valid() && ok == V.BeginValue(old(State())).Some?
      ensures path == PathBegin(old(State()), old(path))
      ensures schemaStack ==
              if ok then V.BeginValue(old(State())).value.0 + [Opened(V.BeginValue(old(State())).value.1, e)]
              else old(schemaStack)
    {
      hide Opened;
      ghost var begun := V.BeginValue(State());
      if schemaStack == [] {
        PushSchema(root, e);
        return true;
      }
      var last := |schemaStack| - 1;
      var c := schemaStack[last];
      assert c in schemaStack && Fits(root, c);
      WithinElement(c.schema, root);
      if c.inArray {
        AppendIndexToken(c.arrayElementIndex);
      }
      match BeginIn(c) {
        case None => return false;
        case Some(d) =>
          UpdatedFits(State(), last, d);
          schemaStack := schemaStack[last := d];
          assert schemaStack == begun.value.0;
          PushSchema(d.valueSchema, e);
          ok := true;
      }
    }

    method PushSchema(s: Schema, e: Event)
      requires Valid() && Within(s, root)
      modifies this`schemaStack
      ensures Valid() && schemaStack == old(schemaStack) + [Opened(s, e)]
    {
      hide Fits, Opened;
      OpenedFits(root, s, e);
      schemaStack := schemaStack + [Opened(s, e)];
    }

    /** The checks when a value ends; then its context and its token go. */
    method EndValue() returns (ok: bool)
      requires Valid() && schemaStack != []
      modifies this`schemaStack, this`path, documentStack
      ensures Valid() && ok == EndAccepts(old(schemaStack)[|old(schemaStack)| - 1])
      ensures if ok then schemaStack == old(schemaStack)[..|old(schemaStack)| - 1] && path == Dropped(old(path))
              else schemaStack == old(schemaStack) && path == old(path)
    {
      ok := EndAccepts(schemaStack[|schemaStack| - 1]);
      if ok {
        PoppedFits(State());
        schemaStack := schemaStack[..|schemaStack| - 1];
        RemoveLastToken();
      }
    }

    lemma PoppedFits(v: V.Validator)
      requires WellFormed(v) && v.stack != []
      ensures WellFormed(v.(stack := v.stack[..|v.stack| - 1]))
    {
      hide Fits;
      forall c | c in v.stack[..|v.stack| - 1]
        ensures Fits(v.root, c)
      {
        assert c in v.stack;
      }
    }

    method Scalar(e: Event) returns (ok: bool)
      requires Valid() && BeginsValue(e) && !e.StartObject? && !e.StartArray?
      modifies this`schemaStack, this`valid, this`path, documentStack
      ensures Valid() && State() == Feed(old(State()), e) && ok == valid
      ensures ok ==> path == PathAfter(old(State()), old(path), e)
      ensures !ok ==> path == if old(valid) then PathRefused(old(State()), old(path), e) else old(path)
    {
      hide FeedKey, FeedClose, Opened, EndAccepts, TypeAccepts, FeedStack, WellFormed, V.BeginValue, PathBegin,
           PathText, Dropped;
      if !valid {
        return false;
      }
      ok := BeginValue(e);
      OpenedHasSchema(State(), e);
      if !ok || !TypeAccepts(schemaStack[|schemaStack| - 1].schema, e) {
        valid := false;
        return false;
      }
      SendToParallel(e);
      ok := EndValue();
      OpenedHasSchema(State(), e);
      valid := ok;
    }

    method Start(e: Event) returns (ok: bool)
      requires Valid() && (e.StartObject? || e.StartArray?)
      modifies this`schemaStack, this`valid, this`path, documentStack
      ensures Valid() && State() == Feed(old(State()), e) && ok == valid
      ensures ok ==> path == PathAfter(old(State()), old(path), e)
      ensures !ok ==> path == if old(valid) then PathRefused(old(State()), old(path), e) else old(path)
    {
      hide FeedKey, FeedClose, Opened, TypeAccepts, FeedStack, WellFormed, V.BeginValue, PathBegin, PathText;
      if !valid {
        return false;
      }
      ok := BeginValue(e);
      OpenedHasSchema(State(), e);
      if !ok || !TypeAccepts(schemaStack[|schemaStack| - 1].schema, e) {
        valid := false;
        return false;
      }
      SendToParallel(e);
    }

    method Key(name: seq<byte>) returns (ok: bool)
      requires Valid()
      modifies this`schemaStack, this`valid, this`path, documentStack
      ensures Valid() && State() == Feed(old(State()), Event.Key(name)) && ok == valid
      ensures ok ==> path == PathAfter(old(State()), old(path), Event.Key(name))
      ensures !ok ==> path == if old(valid) then PathRefused(old(State()), old(path), Event.Key(name)) else old(path)
    {
      hide FeedStack, WellFormed, PathText;
      if !valid {
        return false;
      }
      AppendToken(name);
      OpenedHasSchema(State(), Event.Key(name));
      if schemaStack == [] {
        valid := false;
        return false;
      }
      var last := |schemaStack| - 1;
      KeyFits(State(), name);
      match KeyIn(schemaStack[last], name) {
        case None =>
          valid := false;
          ok := false;
        case Some(c) =>
          schemaStack := schemaStack[last := c];
          SendToParallel(Event.Key(name));
          ok := true;
      }
    }

    lemma KeyFits(v: V.Validator, name: seq<byte>)
      requires WellFormed(v) && v.stack != []
      ensures var last := |v.stack| - 1;
              KeyIn(v.stack[last], name).Some? ==>
                && WellFormed(v.(stack := v.stack[last := KeyIn(v.stack[last], name).value]))
                && v.stack[last := KeyIn(v.stack[last], name).value] ==
                     v.stack[..last] + [KeyIn(v.stack[last], name).value]
    {
      var c := v.stack[|v.stack| - 1];
      assert c in v.stack && Fits(v.root, c);
      WithinElement(c.schema, v.root);
      if KeyIn(c, name).Some? {
        assert Fits(v.root, KeyIn(c, name).value);
        UpdatedFits(v, |v.stack| - 1, KeyIn(c, name).value);
      }
    }

    method End(e: Event) returns (ok: bool)
      requires Valid() && (e.EndObject? || e.EndArray?)
      modifies this`schemaStack, this`valid, this`path, documentStack
      ensures Valid() && State() == Feed(old(State()), e) && ok == valid
      ensures ok ==> path == PathAfter(old(State()), old(path), e)
      ensures !ok ==> path == if old(valid) then PathRefused(old(State()), old(path), e) else old(path)
    {
      hide EndAccepts, CloseAccepts, FeedStack, WellFormed, PathText, Dropped;
      if !valid {
        return false;
      }
      OpenedHasSchema(State(), e);
      if schemaStack == [] {
        valid := false;
        return false;
      }
      SendToParallel(e);
      OpenedHasSchema(State(), e);
      if !CloseAccepts(schemaStack[|schemaStack| - 1], e) {
        valid := false;
        return false;
      }
      ok := EndValue();
      valid := ok;
    }

    /** Any event; the answer is whether the value so far is valid. */
    method Handle(e: Event) returns (ok: bool)
      requires Valid()
      modifies this`schemaStack, this`valid, this`path, documentStack
      ensures Valid() && State() == Feed(old(State()), e) && ok == valid
      ensures ok ==> path == PathAfter(old(State()), old(path), e)
      ensures !ok ==> path == if old(valid) then PathRefused(old(State()), old(path), e) else old(path)
    {
      hide Feed, WellFormed, PathAfter, PathText;
      if e.Key? {
        ok := Key(e.name);
      } else if e.EndObject? || e.EndArray? {
        ok := End(e);
      } else if e.StartObject? || e.StartArray? {
        ok := Start(e);
      } else {
        ok := Scalar(e);
      }
    }

    /** Streams events until one is refused; how many were accepted. */
    method Validate(es: seq<Event>) returns (accepted: nat)
      requires Valid() && valid
      modifies this`schemaStack, this`valid, this`path, documentStack
      ensures Valid() && accepted <= |es| && FeedAll(old(State()), es[..accepted]).valid
      ensures var v, p := FeedAll(old(State()), es[..accepted]), PathAll(old(State()), old(path), es[..accepted]);
              if accepted == |es| then State() == v && path == p
              else State() == Feed(v, es[accepted]) && !valid && path == PathRefused(v, p, es[accepted])
    {
      hide Feed, WellFormed, PathAfter, PathText, PathRefused;
      ghost var v0, p0 := State(), path;
      accepted := 0;
      while accepted < |es|
        invariant 0 <= accepted <= |es| && Valid() && valid
        invariant State() == FeedAll(v0, es[..accepted]) && path == PathAll(v0, p0, es[..accepted])
      {
        var ok := Handle(es[accepted]);
        if !ok {
          return;
        }
        OneMore(v0, p0, es, accepted);
        accepted := accepted + 1;
      }
    }

    lemma OneMore(v: V.Validator, p: Path, es: seq<Event>, k: nat)
      requires WellFormed(v) && k < |es|
      ensures FeedAll(v, es[..k + 1]) == Feed(FeedAll(v, es[..k]), es[k])
      ensures PathAll(v, p, es[..k + 1]) == PathAfter(FeedAll(v, es[..k]), PathAll(v, p, es[..k]), es[k])
    {
      hide WellFormed, PathAfter, FeedAll, Feed;
      FeedOneMore(v, es, k);
      assert es[..k + 1] == es[..k] + [es[k]];
      PathAllMore(v, p, es[..k], es[k]);
    }

    lemma OpenedHasSchema(v: V.Validator, e: Event)
      ensures forall s :: Opened(s, e).schema == s
      ensures WellFormed(v) <==> WellFormed(v.(valid := false))
    {
    }
  }

  /**
   Validates a whole value: it is accepted exactly when it satisfies the schema, and then nothing is left
   on either stack. If not, the document stack is, as a pointer, the path of the value at which the first
   refused event stands.
   */
  method ValidateValue(schema: Schema, x: D.Value) returns (ok: bool, left: nat, accepted: nat, pointer: seq<byte>)
    requires D.Valid(x) && D.DoubleFree(x)
    ensures ok <==> Satisfies(schema, x)
    ensures ok ==> left == 0
    ensures !ok ==>
              && accepted < |D.Events(x)| && FeedAll(Fresh(schema), D.Events(x)[..accepted]).valid
              && !FeedAll(Fresh(schema), D.Events(x)[..accepted + 1]).valid
              && PointerText.Parse(pointer) == PointerText.Tokens(TokensOf(EventAt(x, [], accepted).path))
    ensures !ok && DistinctNames(x) ==>
              A.Get(x, TokensOf(EventAt(x, [], accepted).path), 0) == A.Found(EventAt(x, [], accepted).value)
  {
    hide Satisfies, Feed, FeedAll, PathAll, Walk, Trace, EventAt, InProgress, PathRefused, PathText, D.Events,
         DistinctNames, A.Get, TokensOf, PointerText.Parse;
    var validator := new GenericSchemaValidator(schema);
    StreamingIsSatisfaction(schema, x);
    var es := D.Events(x);
    accepted := validator.Validate(es);
    ok := validator.valid;
    left := |validator.schemaStack| + |validator.documentStack.items|;
    pointer := validator.documentStack.items;
    PathsOfRun(schema, x, accepted);
    if ok {
      assert es[..accepted] == es;
      NoText();
    } else {
      PathTextParses(validator.path);
      FeedOneMore(Fresh(schema), es, accepted);
      if DistinctNames(x) {
        PathsResolve(x, accepted);
      }
      InvalidStays(Fresh(schema), es, accepted + 1);
    }
  }

  lemma NoText()
    ensures PathText([]) == []
  {
  }

  lemma FeedOneMore(v: V.Validator, es: seq<Event>, k: nat)
    requires WellFormed(v) && k < |es|
    ensures FeedAll(v, es[..k + 1]) == Feed(FeedAll(v, es[..k]), es[k])
  {
    hide WellFormed;
    assert es[..k + 1] == es[..k] + [es[k]];
    FeedAllAppend(v, es[..k], [es[k]]);
    FeedAllOne(FeedAll(v, es[..k]), es[k]);
  }

  lemma InvalidStays(v: V.Validator, es: seq<Event>, k: nat)
    requires WellFormed(v) && k <= |es| && !FeedAll(v, es[..k]).valid
    ensures !FeedAll(v, es).valid
  {
    hide WellFormed, FeedAll;
    assert es == es[..k] + es[k..];
    FeedAllAppend(v, es[..k], es[k..]);
  }
}
