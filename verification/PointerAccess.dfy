/**
 Getting, creating, setting and erasing values by pointer. A tree is a value here, so where the
 library changes it through a pointer that moves down, these functions build the changed tree.
 */
module PointerAccess {
  import opened Bytes
  import opened Wrappers
  import opened Dom
  import opened PointerText
  import M = MembersMap

  function IndexOfMember(ms: seq<Member>, name: seq<byte>): nat {
    M.FirstNamed(ms, name, 0)
  }

  // ---------------------------------------------------------------- get

  /** The value, or the first token that does not resolve. */
  datatype Resolved = Found(value: Value) | Unresolved(tokenIndex: nat)

  /** The child a token leads to. */
  function Child(v: Value, t: Token): Option<Value> {
    match v
    case Object(ms) => var k := IndexOfMember(ms, t.name); if k < |ms| then Some(ms[k].value) else None
    case Array(vs) => if t.index == INVALID_INDEX || t.index >= |vs| then None else Some(vs[t.index])
    case _ => None
  }

  function Get(v: Value, ts: seq<Token>, i: nat): Resolved
    requires i <= |ts|
    decreases |ts| - i
  {
    if i == |ts| then Found(v)
    else match Child(v, ts[i])
      case None => Unresolved(i)
      case Some(c) => Get(c, ts, i + 1)
  }

  method GetByLoop(root: Value, tokens: seq<Token>) returns (r: Resolved)
    ensures r == Get(root, tokens, 0)
  {
    var v, t := root, 0;
    while t != |tokens|
      invariant t <= |tokens| && Get(v, tokens, t) == Get(root, tokens, 0)
    {
      match v {
        case Object(ms) =>
          var m := IndexOfMember(ms, tokens[t].name);
          if m == |ms| {
            return Unresolved(t);
          }
          v := ms[m].value;
        case Array(vs) =>
          if tokens[t].index == INVALID_INDEX || tokens[t].index >= |vs| {
            return Unresolved(t);
          }
          v := vs[tokens[t].index];
        case _ =>
          return Unresolved(t);
      }
      t := t + 1;
    }
    r := Found(v);
  }

  // ---------------------------------------------------------------- create and set

  predicate IsDash(t: Token) {
    t.name == [MINUS]
  }

  /** The container the token needs: an index leaves arrays and objects alone, a name only objects. */
  function Adapted(v: Value, t: Token): (r: Value)
    ensures r.Object? || r.Array?
  {
    if t.index == INVALID_INDEX then (if v.Object? then v else Object([]))
    else if v.Array? || v.Object? then v
    else Array([])
  }

  /** As many null elements as it takes for the index to be there. */
  function Padded(vs: seq<Value>, n: nat): (r: seq<Value>)
    ensures |r| == if n > |vs| then n else |vs|
    ensures r[..|vs|] == vs && forall i :: |vs| <= i < |r| ==> r[i] == Value.Null
  {
    if n > |vs| then vs + seq(n - |vs|, _ => Value.Null) else vs
  }

  /**
   Goes down the path from token `i` on, changing types and creating values where it must, and puts
   `leaf` of the value it ends at there.
   */
  function Update(v: Value, ts: seq<Token>, i: nat, leaf: Value -> Value): Value
    requires i <= |ts|
    decreases |ts| - i
  {
    if i == |ts| then leaf(v)
    else
      var t := ts[i];
      if v.Array? && IsDash(t) then Array(v.elements + [Update(Value.Null, ts, i + 1, leaf)])
      else
        match Adapted(v, t)
        case Array(vs) =>
          var ws := Padded(vs, t.index + 1);
          Array(ws[t.index := Update(ws[t.index], ts, i + 1, leaf)])
        case Object(ms) =>
          var k := IndexOfMember(ms, t.name);
          if k < |ms| then Object(ms[k := Member(ms[k].name, Update(ms[k].value, ts, i + 1, leaf))])
          else Object(ms + [Member(t.name, Update(Value.Null, ts, i + 1, leaf))])
        case _ => v
  }

  /** Whether going down found everything there already. */
  function AlreadyExist(v: Value, ts: seq<Token>, i: nat): bool
    requires i <= |ts|
    decreases |ts| - i
  {
    if i == |ts| then true
    else
      var t := ts[i];
      if v.Array? && IsDash(t) then false
      else
        match Adapted(v, t)
        case Array(vs) =>
          var ws := Padded(vs, t.index + 1);
          t.index < |vs| && AlreadyExist(ws[t.index], ts, i + 1)
        case Object(ms) =>
          var k := IndexOfMember(ms, t.name);
          k < |ms| && AlreadyExist(ms[k].value, ts, i + 1)
        case _ => false
  }

  const Kept: Value -> Value := (v: Value) => v

  function Create(v: Value, ts: seq<Token>): Value {
    Update(v, ts, 0, Kept)
  }

  function Set(v: Value, ts: seq<Token>, x: Value): Value {
    Update(v, ts, 0, _ => x)
  }

  function GetWithDefault(v: Value, ts: seq<Token>, x: Value): Value {
    if AlreadyExist(v, ts, 0) then Create(v, ts) else Update(v, ts, 0, _ => x)
  }

  /**
   The loop goes down with `v`; `place` puts a value where `v` stands into the tree around it, which the
   library changes in place.
   */
  method CreateByLoop(root: Value, tokens: seq<Token>) returns (tree: Value, alreadyExist: bool)
    ensures tree == Create(root, tokens) && alreadyExist == AlreadyExist(root, tokens, 0)
  {
    var v, t, exist := root, 0, true;
    var place: Value -> Value := x => x;
    while t != |tokens|
      invariant t <= |tokens|
      invariant place(Update(v, tokens, t, Kept)) == Create(root, tokens)
      invariant AlreadyExist(root, tokens, 0) == (exist && AlreadyExist(v, tokens, t))
    {
      var token, outer := tokens[t], place;
      if v.Array? && IsDash(token) {
        var vs := v.elements;
        place := x => outer(Array(vs + [x]));
        v, exist := Value.Null, false;
      } else {
        var container := Adapted(v, token);
        if container.Array? {
          var ws, k := Padded(container.elements, token.index + 1), token.index;
          exist := exist && k < |container.elements|;
          place := x => outer(Array(ws[k := x]));
          v := ws[k];
        } else {
          var ms := container.members;
          var k := IndexOfMember(ms, token.name);
          if k == |ms| {
            place := x => outer(Object(ms + [Member(token.name, x)]));
            v, exist := Value.Null, false;
          } else {
            var name := ms[k].name;
            place := x => outer(Object(ms[k := Member(name, x)]));
            v := ms[k].value;
          }
        }
      }
      t := t + 1;
    }
    return place(v), exist;
  }

  // ---------------------------------------------------------------- erase

  /** Removing a member by name reads the name as a string that ends at NUL. */
  function UpToNul(name: seq<byte>): (r: seq<byte>)
    ensures r <= name && (r == name <==> NUL !in name)
  {
    if name == [] || name[0] == NUL then [] else [name[0]] + UpToNul(name[1..])
  }

  /** The tree without the value, or none when there is nothing to erase. */
  function Erase(v: Value, ts: seq<Token>, i: nat): Option<Value>
    requires i <= |ts|
    decreases |ts| - i
  {
    if i == |ts| then None
    else if i + 1 == |ts| then
      match v
      case Object(ms) =>
        var k := IndexOfMember(ms, UpToNul(ts[i].name));
        if k < |ms| then Some(Object(M.RangeErased(ms, k, k + 1))) else None
      case Array(vs) =>
        var k := ts[i].index;
        if k == INVALID_INDEX || k >= |vs| then None else Some(Array(vs[..k] + vs[k + 1..]))
      case _ => None
    else
      match v
      case Object(ms) =>
        var k := IndexOfMember(ms, ts[i].name);
        if k == |ms| then None
        else
          (match Erase(ms[k].value, ts, i + 1)
           case None => None
           case Some(c) => Some(Object(ms[k := Member(ms[k].name, c)])))
      case Array(vs) =>
        var k := ts[i].index;
        if k == INVALID_INDEX || k >= |vs| then None
        else
          (match Erase(vs[k], ts, i + 1)
           case None => None
           case Some(c) => Some(Array(vs[k := c])))
      case _ => None
  }

  /** The value at the end of the path, with one thing less, put back into the tree around it. */
  method EraseByLoop(root: Value, tokens: seq<Token>) returns (r: Option<Value>)
    ensures r == Erase(root, tokens, 0)
  {
    if tokens == [] {
      return None;
    }
    var v, t := root, 0;
    var place: Value -> Value := x => x;
    while t + 1 != |tokens|
      invariant t < |tokens|
      invariant Erase(root, tokens, 0).Some? == Erase(v, tokens, t).Some?
      invariant Erase(v, tokens, t).Some? ==> Erase(root, tokens, 0).value == place(Erase(v, tokens, t).value)
    {
      var token, outer := tokens[t], place;
      if v.Object? {
        var ms := v.members;
        var k := IndexOfMember(ms, token.name);
        if k == |ms| {
          return None;
        }
        var name := ms[k].name;
        place := x => outer(Object(ms[k := Member(name, x)]));
        v := ms[k].value;
      } else if v.Array? {
        var vs, k := v.elements, token.index;
        if k == INVALID_INDEX || k >= |vs| {
          return None;
        }
        place := x => outer(Array(vs[k := x]));
        v := vs[k];
      } else {
        return None;
      }
      t := t + 1;
    }
    var last := tokens[t];
    if v.Object? {
      var ms := v.members;
      var k := IndexOfMember(ms, UpToNul(last.name));
      r := if k < |ms| then Some(place(Object(M.RangeErased(ms, k, k + 1)))) else None;
    } else if v.Array? {
      var vs, k := v.elements, last.index;
      r := if k == INVALID_INDEX || k >= |vs| then None else Some(place(Array(vs[..k] + vs[k + 1..])));
    } else {
      r := None;
    }
  }

  // ---------------------------------------------------------------- laws

  /** Tokens as parsing makes them. */
  predicate ValidTokens(ts: seq<Token>) {
    PointerText.Canonical(ts)
  }

  lemma DashHasNoIndex(t: Token)
    requires IsDash(t) ==> t.index == IndexOf(t.name)
    ensures IsDash(t) ==> t.index == INVALID_INDEX
  {
    if IsDash(t) {
      assert !IsDigit(t.name[0]);
    }
  }

  /** The pointer was there before exactly when it resolves. */
  lemma {:induction false} ExistsIffResolves(v: Value, ts: seq<Token>, i: nat)
    requires i <= |ts| && ValidTokens(ts)
    ensures AlreadyExist(v, ts, i) <==> Get(v, ts, i).Found?
    decreases |ts| - i
  {
    if i < |ts| {
      var t := ts[i];
      DashHasNoIndex(t);
      if !(v.Array? && IsDash(t)) && Child(v, t).Some? {
        ExistsIffResolves(Child(v, t).value, ts, i + 1);
      }
    }
  }

  /** And then nothing changes but the value it leads to. */
  lemma {:induction false} ExistingIsKept(v: Value, ts: seq<Token>, i: nat)
    requires i <= |ts| && AlreadyExist(v, ts, i)
    ensures Update(v, ts, i, Kept) == v
    decreases |ts| - i
  {
    if i < |ts| {
      var t := ts[i];
      match Adapted(v, t) {
        case Array(vs) =>
          ExistingIsKept(vs[t.index], ts, i + 1);
          assert vs[t.index := vs[t.index]] == vs;
        case Object(ms) =>
          var k := IndexOfMember(ms, t.name);
          ExistingIsKept(ms[k].value, ts, i + 1);
          assert ms[k := ms[k]] == ms;
      }
    }
  }

  /** Creating tells whether the pointer resolved before, and if it did leaves the tree as it was. */
  lemma CreateLaw(v: Value, ts: seq<Token>)
    requires ValidTokens(ts)
    ensures AlreadyExist(v, ts, 0) <==> Get(v, ts, 0).Found?
    ensures Get(v, ts, 0).Found? ==> Create(v, ts) == v
  {
    ExistsIffResolves(v, ts, 0);
    if AlreadyExist(v, ts, 0) {
      ExistingIsKept(v, ts, 0);
    }
  }

  /** A `-` step meets an array on the way. */
  predicate Appends(v: Value, ts: seq<Token>, i: nat)
    requires i <= |ts|
    decreases |ts| - i
  {
    i < |ts| && ((v.Array? && IsDash(ts[i])) || (Child(v, ts[i]).Some? && Appends(Child(v, ts[i]).value, ts, i + 1)))
  }

  lemma NullAppendsNothing(ts: seq<Token>, i: nat)
    requires i <= |ts|
    ensures !Appends(Value.Null, ts, i)
  {
  }

  lemma {:induction false} FirstNamedOther(ms: seq<Member>, name: seq<byte>, i: nat, k: nat, m: Member)
    requires i <= |ms| && k < |ms| && ms[k].name == m.name
    ensures M.FirstNamed(ms[k := m], name, i) == M.FirstNamed(ms, name, i)
    decreases |ms| - i
  {
    if i < |ms| {
      FirstNamedOther(ms, name, i + 1, k, m);
    }
  }

  lemma {:induction false} FirstNamedAppended(ms: seq<Member>, name: seq<byte>, i: nat, m: Member)
    requires i <= |ms|
    ensures M.FirstNamed(ms + [m], name, i)
         == if M.FirstNamed(ms, name, i) < |ms| || m.name == name then M.FirstNamed(ms, name, i) else |ms| + 1
    decreases |ms| - i
  {
    if i < |ms| {
      FirstNamedAppended(ms, name, i + 1, m);
    } else {
      assert M.FirstNamed(ms + [m], name, i + 1) == |ms| + 1;
    }
  }

  /** The child an update goes on in: the old one, or null where it creates one. */
  function Entered(v: Value, t: Token): Value {
    match Child(Adapted(v, t), t)
    case Some(c) => c
    case None => Value.Null
  }

  /** One step of an update leads back to the updated child. */
  lemma UpdateStep(v: Value, ts: seq<Token>, i: nat, leaf: Value -> Value)
    requires i < |ts| && !(v.Array? && IsDash(ts[i]))
    ensures Child(Update(v, ts, i, leaf), ts[i]) == Some(Update(Entered(v, ts[i]), ts, i + 1, leaf))
    ensures Adapted(Update(v, ts, i, leaf), ts[i]) == Update(v, ts, i, leaf)
    ensures !(Update(v, ts, i, leaf).Array? && IsDash(ts[i]) && ts[i].index == INVALID_INDEX)
  {
    var t := ts[i];
    match Adapted(v, t) {
      case Array(vs) =>
      case Object(ms) =>
        var k := IndexOfMember(ms, t.name);
        if k < |ms| {
          FirstNamedOther(ms, t.name, 0, k, Member(ms[k].name, Update(ms[k].value, ts, i + 1, leaf)));
        } else {
          FirstNamedAppended(ms, t.name, 0, Member(t.name, Update(Value.Null, ts, i + 1, leaf)));
        }
    }
  }

  lemma EnteredAppends(v: Value, ts: seq<Token>, i: nat)
    requires i < |ts| && !(v.Array? && IsDash(ts[i]))
    ensures Appends(v, ts, i) <==> Appends(Entered(v, ts[i]), ts, i + 1)
  {
    NullAppendsNothing(ts, i + 1);
  }

  /** What the pointer leads to, or null where an update starts from nothing. */
  function Before(v: Value, ts: seq<Token>, i: nat): Value
    requires i <= |ts|
  {
    match Get(v, ts, i)
    case Found(x) => x
    case Unresolved(_) => Value.Null
  }

  lemma EnteredBefore(v: Value, ts: seq<Token>, i: nat)
    requires i < |ts|
    ensures Before(v, ts, i) == Before(Entered(v, ts[i]), ts, i + 1)
  {
  }

  /** After an update the pointer leads to the changed leaf, and nowhere if a `-` step appended to an array. */
  lemma {:induction false} GetAfterUpdate(v: Value, ts: seq<Token>, i: nat, leaf: Value -> Value)
    requires i <= |ts| && ValidTokens(ts)
    ensures Appends(v, ts, i) ==> Get(Update(v, ts, i, leaf), ts, i).Unresolved?
    ensures !Appends(v, ts, i) ==> Get(Update(v, ts, i, leaf), ts, i) == Found(leaf(Before(v, ts, i)))
    decreases |ts| - i
  {
    if i < |ts| {
      DashHasNoIndex(ts[i]);
      if !(v.Array? && IsDash(ts[i])) {
        hide Update, Before, Entered;
        UpdateStep(v, ts, i, leaf);
        EnteredAppends(v, ts, i);
        EnteredBefore(v, ts, i);
        GetAfterUpdate(Entered(v, ts[i]), ts, i + 1, leaf);
      }
    }
  }

  /** What is created is there, null if it was not before, unless a `-` step appended. */
  lemma CreatedResolves(v: Value, ts: seq<Token>)
    requires ValidTokens(ts)
    ensures Get(Create(v, ts), ts, 0).Found? <==> !Appends(v, ts, 0)
    ensures !Appends(v, ts, 0) && Get(v, ts, 0).Unresolved? ==> Get(Create(v, ts), ts, 0) == Found(Value.Null)
  {
    GetAfterUpdate(v, ts, 0, Kept);
  }

  /** With a default, what is there is kept and what is not is set. */
  lemma DefaultLaw(v: Value, ts: seq<Token>, x: Value)
    requires ValidTokens(ts)
    ensures GetWithDefault(v, ts, x) == if Get(v, ts, 0).Found? then v else Set(v, ts, x)
  {
    CreateLaw(v, ts);
  }

  /** What has been set is what is got, exactly unless a `-` step appended to an array. */
  lemma SetLaw(v: Value, ts: seq<Token>, x: Value)
    requires ValidTokens(ts)
    ensures Get(Set(v, ts, x), ts, 0) == Found(x) <==> !Appends(v, ts, 0)
  {
    GetAfterUpdate(v, ts, 0, _ => x);
  }

  /** Setting at `-` appends, and `-` still leads nowhere. */
  lemma AppendedIsNotGot(vs: seq<Value>, x: Value)
    ensures var dash := [Token([MINUS], INVALID_INDEX)];
            Set(Value.Array(vs), dash, x) == Value.Array(vs + [x]) &&
            Get(Set(Value.Array(vs), dash, x), dash, 0) == Unresolved(0)
  {
    var dash := [Token([MINUS], INVALID_INDEX)];
    var leaf: Value -> Value := _ => x;
    assert IsDash(dash[0]) && Update(Value.Null, dash, 1, leaf) == x;
    assert Update(Value.Array(vs), dash, 0, leaf) == Value.Array(vs + [x]);
  }

  /** Setting what is there changes nothing. */
  lemma {:induction false} SetOfGet(v: Value, ts: seq<Token>, i: nat, leaf: Value -> Value)
    requires i <= |ts| && ValidTokens(ts) && Get(v, ts, i).Found? && leaf(Get(v, ts, i).value) == Get(v, ts, i).value
    ensures Update(v, ts, i, leaf) == v
    decreases |ts| - i
  {
    if i < |ts| {
      var t := ts[i];
      DashHasNoIndex(t);
      SetOfGet(Child(v, t).value, ts, i + 1, leaf);
      match v {
        case Array(vs) => assert vs[t.index := vs[t.index]] == vs;
        case Object(ms) => var k := IndexOfMember(ms, t.name); assert ms[k := ms[k]] == ms;
        case _ =>
      }
    }
  }

  /** Two tokens that lead to different children, the first of which can be reached without changing the type. */
  predicate Elsewhere(v: Value, t: Token, u: Token) {
    match v
    case Object(_) => t.name != u.name
    case Array(_) => t.index != u.index && (t.index != INVALID_INDEX || IsDash(t))
    case _ => false
  }

  /** The pointers go the same way for a while and then apart. */
  predicate Apart(v: Value, ts: seq<Token>, us: seq<Token>, i: nat)
    requires i <= |ts| && i <= |us|
    decreases |ts| - i
  {
    i < |ts| && i < |us|
    && (Elsewhere(v, ts[i], us[i]) ||
        (ts[i] == us[i] && Child(v, ts[i]).Some? && Apart(Child(v, ts[i]).value, ts, us, i + 1)))
  }

  lemma StepKeepsOthers(v: Value, ts: seq<Token>, i: nat, u: Token, leaf: Value -> Value)
    requires i < |ts| && Elsewhere(v, ts[i], u) && Child(v, u).Some?
    ensures Child(Update(v, ts, i, leaf), u) == Child(v, u)
  {
    var t := ts[i];
    match v {
      case Object(ms) =>
        var k := IndexOfMember(ms, t.name);
        if k < |ms| {
          FirstNamedOther(ms, u.name, 0, k, Member(ms[k].name, Update(ms[k].value, ts, i + 1, leaf)));
        } else {
          FirstNamedAppended(ms, u.name, 0, Member(t.name, Update(Value.Null, ts, i + 1, leaf)));
        }
      case _ =>
    }
  }

  /** What lies apart from the pointer is not touched. */
  lemma {:induction false} UpdateKeepsOthers(v: Value, ts: seq<Token>, us: seq<Token>, i: nat, leaf: Value -> Value)
    requires i <= |ts| && i <= |us| && ValidTokens(ts) && Apart(v, ts, us, i) && Get(v, us, i).Found?
    ensures Get(Update(v, ts, i, leaf), us, i) == Get(v, us, i)
    decreases |ts| - i
  {
    if Elsewhere(v, ts[i], us[i]) {
      StepKeepsOthers(v, ts, i, us[i], leaf);
    } else {
      DashHasNoIndex(ts[i]);
      UpdateStep(v, ts, i, leaf);
      UpdateKeepsOthers(Child(v, ts[i]).value, ts, us, i + 1, leaf);
    }
  }

  // ---------------------------------------------------------------- erasing

  /** The tokens with the last name cut at its first NUL. */
  function CutLast(ts: seq<Token>): seq<Token> {
    if ts == [] then []
    else ts[|ts| - 1 := Token(UpToNul(ts[|ts| - 1].name), ts[|ts| - 1].index)]
  }

  lemma {:induction false} ErasesIffResolves(v: Value, ts: seq<Token>, i: nat)
    requires i < |ts|
    ensures Erase(v, ts, i).Some? <==> Get(v, CutLast(ts), i).Found?
    decreases |ts| - i
  {
    var cut := CutLast(ts);
    if i + 1 == |ts| {
      assert Child(v, cut[i]).Some? ==> Get(Child(v, cut[i]).value, cut, i + 1).Found?;
    } else {
      assert cut[i] == ts[i];
      if Child(v, ts[i]).Some? {
        ErasesIffResolves(Child(v, ts[i]).value, ts, i + 1);
      }
    }
  }

  /**
   Erasing succeeds exactly when the pointer is not empty and resolves once its last name is cut at its
   first NUL; so, if that name has none, exactly when the pointer resolves.
   */
  lemma EraseLaw(v: Value, ts: seq<Token>)
    ensures Erase(v, ts, 0).Some? <==> ts != [] && Get(v, CutLast(ts), 0).Found?
    ensures ts != [] && NUL !in ts[|ts| - 1].name ==> (Erase(v, ts, 0).Some? <==> Get(v, ts, 0).Found?)
  {
    if ts != [] {
      assert NUL !in ts[|ts| - 1].name ==> CutLast(ts) == ts;
      ErasesIffResolves(v, ts, 0);
    }
  }

  /** With a NUL in the name another member is erased: the one whose name ends there. */
  lemma EraseCutsName(x: Value, y: Value)
    ensures var name: seq<byte> := [LOWER_A, NUL, LOWER_B];
            Erase(Object([Member([LOWER_A], x), Member(name, y)]), [Token(name, INVALID_INDEX)], 0) ==
              Some(Object([Member(name, y)]))
  {
    var name: seq<byte> := [LOWER_A, NUL, LOWER_B];
    var ms := [Member([LOWER_A], x), Member(name, y)];
    assert UpToNul(name) == [LOWER_A] by {
      assert name[0] == LOWER_A && name[1..][0] == NUL;
      assert UpToNul(name[1..]) == [];
    }
    assert IndexOfMember(ms, [LOWER_A]) == 0;
    assert M.RangeErased(ms, 0, 1) == [Member(name, y)];
  }

  /** A member that is erased no longer resolves, if names are distinct. */
  lemma {:induction false} ErasedIsGone(v: Value, ts: seq<Token>, i: nat)
    requires i < |ts| && Erase(v, ts, i).Some? && NUL !in ts[|ts| - 1].name
    requires Get(v, ts[..|ts| - 1], i).Found? ==>
               var p := Get(v, ts[..|ts| - 1], i).value; p.Object? && M.NamesDistinct(p.members)
    ensures Get(Erase(v, ts, i).value, ts, i) == Unresolved(|ts| - 1)
    decreases |ts| - i
  {
    var t, front := ts[i], ts[..|ts| - 1];
    if i + 1 == |ts| {
      assert Get(v, front, i) == Found(v);
      RemovedName(v.members, IndexOfMember(v.members, t.name), t.name);
    } else {
      assert front[i] == t;
      ErasedIsGone(Child(v, t).value, ts, i + 1);
      if v.Object? {
        var k := IndexOfMember(v.members, t.name);
        FirstNamedOther(v.members, t.name, 0, k, Member(v.members[k].name, Erase(v.members[k].value, ts, i + 1).value));
      }
    }
  }

  lemma RemovedName(ms: seq<Member>, k: nat, name: seq<byte>)
    requires M.NamesDistinct(ms) && k < |ms| && ms[k].name == name
    ensures IndexOfMember(M.RangeErased(ms, k, k + 1), name) == |ms| - 1
  {
    var rest := M.RangeErased(ms, k, k + 1);
    assert forall j :: 0 <= j < |rest| ==> rest[j] == if j < k then ms[j] else ms[j + 1];
  }

  lemma {:induction false} FirstNamedRemoved(ms: seq<Member>, k: nat, name: seq<byte>, i: nat)
    requires i <= |ms| && k < |ms| && ms[k].name != name
    ensures var j := M.FirstNamed(ms, name, i);
            i <= k ==> M.FirstNamed(M.RangeErased(ms, k, k + 1), name, i) == if j > k then j - 1 else j
    ensures var j := M.FirstNamed(ms, name, i);
            i > k ==> M.FirstNamed(M.RangeErased(ms, k, k + 1), name, i - 1) == j - 1
    decreases |ms| - i
  {
    var rest := M.RangeErased(ms, k, k + 1);
    assert forall j :: 0 <= j < |rest| ==> rest[j] == if j < k then ms[j] else ms[j + 1];
    if i < |ms| {
      FirstNamedRemoved(ms, k, name, i + 1);
    }
  }

  /** Where a pointer leads after another one has been erased: later elements of the same array move down. */
  function Shifted(v: Value, ts: seq<Token>, us: seq<Token>, i: nat): (r: seq<Token>)
    requires i <= |ts| && i <= |us|
    ensures |r| == |us|
    decreases |ts| - i
  {
    if i == |ts| || i == |us| then us
    else if i + 1 == |ts| then
      if v.Array? && ts[i].index < us[i].index < INVALID_INDEX then us[i := Token(us[i].name, us[i].index - 1)] else us
    else if ts[i] == us[i] && Child(v, ts[i]).Some? then Shifted(Child(v, ts[i]).value, ts, us, i + 1)
    else us
  }

  lemma {:induction false} ShiftedFront(v: Value, ts: seq<Token>, us: seq<Token>, i: nat)
    requires i <= |ts| && i <= |us|
    ensures forall j :: 0 <= j < i ==> Shifted(v, ts, us, i)[j] == us[j]
    decreases |ts| - i
  {
    if i + 1 < |ts| && i < |us| && ts[i] == us[i] && Child(v, ts[i]).Some? {
      ShiftedFront(Child(v, ts[i]).value, ts, us, i + 1);
    }
  }

  lemma {:induction false} GetOfSuffix(v: Value, us: seq<Token>, ws: seq<Token>, i: nat)
    requires i <= |us| == |ws| && forall j :: i <= j < |us| ==> us[j] == ws[j]
    ensures Get(v, us, i) == Get(v, ws, i)
    decreases |us| - i
  {
    if i < |us| && Child(v, us[i]).Some? {
      GetOfSuffix(Child(v, us[i]).value, us, ws, i + 1);
    }
  }

  lemma RemovedMemberKeepsOthers(ms: seq<Member>, k: nat, u: Token)
    requires k < |ms| && ms[k].name != u.name && Child(Value.Object(ms), u).Some?
    ensures Child(Value.Object(M.RangeErased(ms, k, k + 1)), u) == Child(Value.Object(ms), u)
  {
    FirstNamedRemoved(ms, k, u.name, 0);
  }

  lemma RemovedElementKeepsOthers(vs: seq<Value>, k: nat, u: Token)
    requires k < |vs| && u.index != k && u.index < INVALID_INDEX && Child(Value.Array(vs), u).Some?
    ensures var w := if k < u.index then Token(u.name, u.index - 1) else u;
            Child(Value.Array(vs[..k] + vs[k + 1..]), w) == Child(Value.Array(vs), u)
  {
  }

  lemma ErasedLast(v: Value, ts: seq<Token>, i: nat)
    requires i + 1 == |ts| && Erase(v, ts, i).Some?
    ensures match v
            case Object(ms) =>
              var k := IndexOfMember(ms, UpToNul(ts[i].name));
              k < |ms| && ms[k].name == UpToNul(ts[i].name) &&
              Erase(v, ts, i).value == Value.Object(M.RangeErased(ms, k, k + 1))
            case Array(vs) =>
              var k := ts[i].index;
              k < |vs| && Erase(v, ts, i).value == Value.Array(vs[..k] + vs[k + 1..])
            case _ => false
  {
  }

  lemma RemovedKeepsOthers(v: Value, ts: seq<Token>, i: nat, us: seq<Token>)
    requires i + 1 == |ts| && i < |us| && Erase(v, ts, i).Some? && us[i].index <= INVALID_INDEX
    requires Elsewhere(v, CutLast(ts)[i], us[i]) && Child(v, us[i]).Some?
    ensures Child(Erase(v, ts, i).value, Shifted(v, ts, us, i)[i]) == Child(v, us[i])
  {
    hide Erase, IndexOfMember, M.RangeErased, UpToNul;
    ErasedLast(v, ts, i);
    if v.Object? {
      RemovedMemberKeepsOthers(v.members, IndexOfMember(v.members, UpToNul(ts[i].name)), us[i]);
    } else {
      RemovedElementKeepsOthers(v.elements, ts[i].index, us[i]);
    }
  }

  lemma EraseBelowKeepsOthers(v: Value, ts: seq<Token>, i: nat, u: Token)
    requires i + 1 < |ts| && Erase(v, ts, i).Some? && Elsewhere(v, ts[i], u) && Child(v, u).Some?
    ensures Child(Erase(v, ts, i).value, u) == Child(v, u)
  {
    if v.Object? {
      var k := IndexOfMember(v.members, ts[i].name);
      FirstNamedOther(v.members, u.name, 0, k, Member(v.members[k].name, Erase(v.members[k].value, ts, i + 1).value));
    }
  }

  lemma EraseBelow(v: Value, ts: seq<Token>, i: nat)
    requires i + 1 < |ts| && Erase(v, ts, i).Some?
    ensures Child(v, ts[i]).Some? && Erase(Child(v, ts[i]).value, ts, i + 1).Some?
    ensures Child(Erase(v, ts, i).value, ts[i]) == Erase(Child(v, ts[i]).value, ts, i + 1)
  {
    if v.Object? {
      var k := IndexOfMember(v.members, ts[i].name);
      FirstNamedOther(v.members, ts[i].name, 0, k,
                      Member(v.members[k].name, Erase(v.members[k].value, ts, i + 1).value));
    }
  }

  /** Everything apart from what is erased stays, and stays in order. */
  lemma {:induction false} EraseKeepsOthers(v: Value, ts: seq<Token>, us: seq<Token>, i: nat)
    requires i <= |ts| && i <= |us| && Erase(v, ts, i).Some? && Apart(v, CutLast(ts), us, i) && Get(v, us, i).Found?
    requires ValidTokens(us)
    ensures Get(Erase(v, ts, i).value, Shifted(v, ts, us, i), i) == Get(v, us, i)
    decreases |ts| - i
  {
    var ws := Shifted(v, ts, us, i);
    if i + 1 == |ts| {
      RemovedKeepsOthers(v, ts, i, us);
      GetOfSuffix(Child(v, us[i]).value, us, ws, i + 1);
    } else {
      assert CutLast(ts)[i] == ts[i];
      EraseBelow(v, ts, i);
      if ts[i] == us[i] {
        EraseKeepsOthers(Child(v, ts[i]).value, ts, us, i + 1);
        ShiftedFront(Child(v, ts[i]).value, ts, us, i + 1);
      } else {
        EraseBelowKeepsOthers(v, ts, i, us[i]);
      }
    }
  }
}
