/**
 The streaming validator: a stack of contexts, one for each open value, each with validators of its
 own that are sent the same events; and that after a value's events it is valid exactly when the
 value satisfies the schema. A validator is a value here, so sub-validators are copied, not shared.
 */
module Validator {
  import opened Bytes
  import opened Sax
  import opened Schema
  import opened Wrappers
  import D = Dom

  /** What is kept for an open value. Before the first name of an object `valueSchema` is not used. */
  datatype Context = Context(schema: Schema, valueSchema: Schema, validators: seq<Validator>, propertyExist: seq<bool>,
                             inArray: bool, arrayElementIndex: nat)

  datatype Validator = Validator(root: Schema, stack: seq<Context>, valid: bool)

  // ---------------------------------------------------------------- parallel validators

  function Optional<T>(o: Option<T>): seq<T> {
    if o.Some? then [o.value] else []
  }

  /** The schemas that properties depend on, in order. */
  function DependencySchemas(ps: seq<Property>): seq<Schema> {
    if ps == [] then []
    else (if ps[0].dependency.OnSchema? then [ps[0].dependency.schema] else []) + DependencySchemas(ps[1..])
  }

  /** Where in that list the schema of property `k` is. */
  function DependencyIndex(ps: seq<Property>, k: nat): (i: nat)
    requires k < |ps| && ps[k].dependency.OnSchema?
    ensures i < |DependencySchemas(ps)| && DependencySchemas(ps)[i] == ps[k].dependency.schema
  {
    if k == 0 then 0
    else (if ps[0].dependency.OnSchema? then 1 else 0) + DependencyIndex(ps[1..], k - 1)
  }

  /** The schemas validated in parallel: all, any and one of, the negated one, those depended on. */
  function Parallel(s: Schema): seq<Schema> {
    s.allOf + s.anyOf + s.oneOf + Optional(s.negated) + DependencySchemas(s.properties)
  }

  function AnyBegin(s: Schema): nat { |s.allOf| }
  function OneBegin(s: Schema): nat { AnyBegin(s) + |s.anyOf| }
  function NotIndex(s: Schema): nat { OneBegin(s) + |s.oneOf| }
  function DependenciesBegin(s: Schema): nat { NotIndex(s) + |Optional(s.negated)| }

  lemma {:induction false} DependencySchemasSmaller(ps: seq<Property>)
    ensures forall t :: t in DependencySchemas(ps) ==>
                          exists k :: 0 <= k < |ps| && ps[k].dependency.OnSchema? && ps[k].dependency.schema == t
  {
    if ps != [] {
      DependencySchemasSmaller(ps[1..]);
      forall t | t in DependencySchemas(ps)
        ensures exists k :: 0 <= k < |ps| && ps[k].dependency.OnSchema? && ps[k].dependency.schema == t
      {
        if t in DependencySchemas(ps[1..]) {
          var k :| 0 <= k < |ps[1..]| && ps[1..][k].dependency.OnSchema? && ps[1..][k].dependency.schema == t;
          assert ps[k + 1].dependency.schema == t;
        } else {
          assert ps[0].dependency.schema == t;
        }
      }
    }
  }

  lemma ParallelSmaller(s: Schema)
    ensures forall t :: t in Parallel(s) ==> t < s
  {
    DependencySchemasSmaller(s.properties);
    forall t | t in Parallel(s)
      ensures t < s
    {
      if t in s.allOf || t in s.anyOf || t in s.oneOf {
      } else if s.negated.Some? && t == s.negated.value {
      } else {
        assert t in DependencySchemas(s.properties);
        var k :| 0 <= k < |s.properties| && s.properties[k].dependency.OnSchema? &&
                 s.properties[k].dependency.schema == t;
      }
    }
  }

  /** Where each list lies among the parallel schemas. */
  lemma ParallelAt(s: Schema)
    ensures |Parallel(s)| == DependenciesBegin(s) + |DependencySchemas(s.properties)|
    ensures forall i :: 0 <= i < |s.allOf| ==> Parallel(s)[i] == s.allOf[i]
    ensures forall i :: 0 <= i < |s.anyOf| ==> Parallel(s)[AnyBegin(s) + i] == s.anyOf[i]
    ensures forall i :: 0 <= i < |s.oneOf| ==> Parallel(s)[OneBegin(s) + i] == s.oneOf[i]
    ensures s.negated.Some? ==> Parallel(s)[NotIndex(s)] == s.negated.value
    ensures forall i :: 0 <= i < |DependencySchemas(s.properties)| ==>
              Parallel(s)[DependenciesBegin(s) + i] == DependencySchemas(s.properties)[i]
  {
  }

  function Fresh(s: Schema): Validator {
    Validator(s, [], true)
  }

  function FreshAll(ss: seq<Schema>): seq<Validator> {
    seq(|ss|, i requires 0 <= i < |ss| => Fresh(ss[i]))
  }

  /** The context of a value that begins with the event. */
  function Opened(s: Schema, e: Event): Context {
    Context(s, TYPELESS, FreshAll(Parallel(s)), if e.StartObject? then seq(|s.properties|, _ => false) else [],
            e.StartArray?, 0)
  }

  // ---------------------------------------------------------------- one schema, one event

  /** The type and range checks when a value begins. */
  predicate TypeAccepts(s: Schema, e: Event) {
    match e
    case Null => NullType in s.types
    case Bool(_) => BooleanType in s.types
    case Int(i) => (IntegerType in s.types || NumberType in s.types) && CheckInt(s.range, i)
    case Int64(i) => (IntegerType in s.types || NumberType in s.types) && CheckInt(s.range, i)
    case Uint(i) => (IntegerType in s.types || NumberType in s.types) && CheckUint(s.range, i)
    case Uint64(i) => (IntegerType in s.types || NumberType in s.types) && CheckUint(s.range, i)
    case Double(_) => NumberType in s.types
    case RawNumber(text) => StringType in s.types && LengthAccepted(s, text)
    case String(str) => StringType in s.types && LengthAccepted(s, str)
    case StartObject => ObjectType in s.types
    case StartArray => ArrayType in s.types
    case _ => true
  }

  /** Code points are counted only when there is a bound. */
  predicate LengthAccepted(s: Schema, str: seq<byte>) {
    s.minLength != 0 || s.maxLength != SIZE_MAX ==> LengthOk(s, str)
  }

  /** The next element or member value: its schema, and the context afterwards. */
  function BeginIn(c: Context): Option<Context> {
    if c.inArray then
      match ElementSchema(c.schema, c.arrayElementIndex)
      case None => None
      case Some(s) => Some(c.(valueSchema := s, arrayElementIndex := c.arrayElementIndex + 1))
    else Some(c)
  }

  function KeyIn(c: Context, name: seq<byte>): Option<Context> {
    match MemberSchema(c.schema, name)
    case None => None
    case Some(s) =>
      var k := FindProperty(c.schema.properties, name);
      Some(c.(valueSchema := s, propertyExist := if k < |c.propertyExist| then c.propertyExist[k := true]
                                                 else c.propertyExist))
  }

  predicate ValidAt(c: Context, i: nat) {
    i < |c.validators| && c.validators[i].valid
  }

  /** The checks of the `all`, `any` and `one of` lists and the negated schema, all at the end of the value. */
  predicate EndAccepts(c: Context) {
    var s := c.schema;
    && (forall i :: 0 <= i < |s.allOf| ==> ValidAt(c, i))
    && (s.anyOf == [] || AnyValid(c, AnyBegin(s), |s.anyOf|))
    && (s.oneOf == [] || OneValid(c, OneBegin(s), |s.oneOf|, false))
    && (s.negated.Some? ==> !ValidAt(c, NotIndex(s)))
  }

  /** Scanning `n` validators from `i` on for one that is valid. */
  predicate AnyValid(c: Context, i: nat, n: nat)
    decreases n
  {
    n > 0 && (ValidAt(c, i) || AnyValid(c, i + 1, n - 1))
  }

  /** Scanning `n` validators from `i` on for exactly one that is valid, `found` before. */
  predicate OneValid(c: Context, i: nat, n: nat, found: bool)
    decreases n
  {
    if n == 0 then found
    else if ValidAt(c, i) then !found && OneValid(c, i + 1, n - 1, true)
    else OneValid(c, i + 1, n - 1, found)
  }

  predicate Exists(c: Context, k: nat) {
    k < |c.propertyExist| && c.propertyExist[k]
  }

  predicate RequiredNoted(c: Context) {
    var ps := c.schema.properties;
    forall k :: 0 <= k < |ps| && ps[k].required && ps[k].schema.defaultValueLength == 0 ==> Exists(c, k)
  }

  /** What the presence of property `k` demands, if it is there. */
  predicate DependencyNoted(c: Context, k: nat)
    requires k < |c.schema.properties|
  {
    match c.schema.properties[k].dependency
    case NoDependency => true
    case OnProperties(targets) => forall t :: t in targets && t < |c.schema.properties| ==> Exists(c, t)
    case OnSchema(_) => ValidAt(c, DependenciesBegin(c.schema) + DependencyIndex(c.schema.properties, k))
  }

  predicate DependenciesNoted(c: Context) {
    forall k :: 0 <= k < |c.schema.properties| && Exists(c, k) ==> DependencyNoted(c, k)
  }

  /** The checks when a container ends. */
  predicate CloseAccepts(c: Context, e: Event)
    requires e.EndObject? || e.EndArray?
  {
    var s := c.schema;
    if e.EndArray? then s.minItems <= e.elements <= s.maxItems
    else RequiredNoted(c) && s.minProperties <= e.members <= s.maxProperties && DependenciesNoted(c)
  }

  // ---------------------------------------------------------------- the validator

  /** Validators below have smaller schemas, and the schemas of open values are the root or parts of it. */
  ghost predicate WellFormed(v: Validator)
    decreases v
  {
    forall c :: c in v.stack ==> Fits(v.root, c)
  }

  ghost predicate Within(s: Schema, root: Schema) {
    s == root || s == TYPELESS || s < root
  }

  ghost predicate Fits(root: Schema, c: Context)
    decreases c
  {
    Within(c.schema, root) && Within(c.valueSchema, root) && forall w :: w in c.validators ==>
                                                                           w.root < root && WellFormed(w)
  }

  /** Sends an event to all the validators of a context. */
  function FeedEach(root: Schema, ws: seq<Validator>, e: Event): (r: seq<Validator>)
    requires forall w :: w in ws ==> w.root < root && WellFormed(w)
    ensures |r| == |ws|
    ensures forall i :: 0 <= i < |ws| ==> ws[i].root < root && WellFormed(ws[i]) && r[i] == Feed(ws[i], e)
    ensures forall w :: w in r ==> w.root < root && WellFormed(w)
    decreases root, 0, ws
  {
    if ws == [] then []
    else [Feed(ws[0], e)] + FeedEach(root, ws[1..], e)
  }

  function FeedContext(root: Schema, c: Context, e: Event): (r: Context)
    requires Fits(root, c)
    ensures Fits(root, r)
    decreases root, 1
  {
    c.(validators := FeedEach(root, c.validators, e))
  }

  /** And to those of all open contexts. */
  function FeedStack(root: Schema, cs: seq<Context>, e: Event): (r: seq<Context>)
    requires forall c :: c in cs ==> Fits(root, c)
    ensures |r| == |cs|
    ensures forall i :: 0 <= i < |cs| ==> Fits(root, cs[i]) && r[i] == FeedContext(root, cs[i], e)
    ensures forall c :: c in r ==> Fits(root, c)
    decreases root, 2, cs
  {
    if cs == [] then []
    else [FeedContext(root, cs[0], e)] + FeedStack(root, cs[1..], e)
  }

  /** Where the next value goes: the contexts below it and its schema; none when no value may stand there. */
  function BeginValue(v: Validator): (r: Option<(seq<Context>, Schema)>)
    requires WellFormed(v)
    ensures r.Some? ==> (forall c :: c in r.value.0 ==> Fits(v.root, c)) && Within(r.value.1, v.root)
  {
    if v.stack == [] then Some(([], v.root))
    else
      var last := |v.stack| - 1;
      assert v.stack[last] in v.stack && Fits(v.root, v.stack[last]);
      WithinElement(v.stack[last].schema, v.root);
      match BeginIn(v.stack[last])
      case None => None
      case Some(c) => Some((v.stack[..last] + [c], c.valueSchema))
  }

  lemma WithinElement(s: Schema, root: Schema)
    requires Within(s, root)
    ensures forall i: nat :: ElementSchema(s, i).Some? ==> Within(ElementSchema(s, i).value, root)
    ensures forall name :: MemberSchema(s, name).Some? ==> Within(MemberSchema(s, name).value, root)
    ensures forall t :: t in Parallel(s) ==> t < root
  {
    ParallelSmaller(s);
    assert Parallel(TYPELESS) == [];
  }

  lemma OpenedFits(root: Schema, s: Schema, e: Event)
    requires Within(s, root)
    ensures Fits(root, Opened(s, e))
  {
    WithinElement(s, root);
    forall w | w in FreshAll(Parallel(s))
      ensures w.root < root && WellFormed(w)
    {
      var i :| 0 <= i < |Parallel(s)| && w == Fresh(Parallel(s)[i]);
      assert Parallel(s)[i] in Parallel(s);
    }
  }

  /** One event. A validator that has become invalid ignores all further ones. */
  function Feed(v: Validator, e: Event): (r: Validator)
    requires WellFormed(v)
    ensures r.root == v.root && WellFormed(r) && (!v.valid ==> r == v)
    decreases v.root, 4
  {
    if !v.valid then v
    else if e.Key? then FeedKey(v, e)
    else if e.EndObject? || e.EndArray? then FeedClose(v, e)
    else FeedBegin(v, e)
  }

  function FeedKey(v: Validator, e: Event): (r: Validator)
    requires WellFormed(v) && v.valid && e.Key?
    ensures r.root == v.root && WellFormed(r)
    decreases v.root, 3
  {
    if v.stack == [] then v.(valid := false)
    else
      var last := |v.stack| - 1;
      assert v.stack[last] in v.stack && Fits(v.root, v.stack[last]);
      WithinElement(v.stack[last].schema, v.root);
      match KeyIn(v.stack[last], e.name)
      case None => v.(valid := false)
      case Some(c) => v.(stack := FeedStack(v.root, v.stack[..last] + [c], e))
  }

  function FeedClose(v: Validator, e: Event): (r: Validator)
    requires WellFormed(v) && v.valid && (e.EndObject? || e.EndArray?)
    ensures r.root == v.root && WellFormed(r)
    decreases v.root, 3
  {
    if v.stack == [] then v.(valid := false)
    else
      var cs := FeedStack(v.root, v.stack, e);
      var last := |cs| - 1;
      if CloseAccepts(cs[last], e) && EndAccepts(cs[last]) then v.(stack := cs[..last])
      else v.(stack := cs, valid := false)
  }

  function FeedBegin(v: Validator, e: Event): (r: Validator)
    requires WellFormed(v) && v.valid && !e.Key? && !e.EndObject? && !e.EndArray?
    ensures r.root == v.root && WellFormed(r)
    decreases v.root, 3
  {
    match BeginValue(v)
    case None => v.(valid := false)
    case Some((below, s)) =>
      OpenedFits(v.root, s, e);
      if !TypeAccepts(s, e) then v.(stack := below + [Opened(s, e)], valid := false)
      else
        var cs := FeedStack(v.root, below + [Opened(s, e)], e);
        if e.StartObject? || e.StartArray? then v.(stack := cs)
        else if EndAccepts(cs[|cs| - 1]) then v.(stack := cs[..|cs| - 1])
        else v.(stack := cs, valid := false)
  }

  function FeedAll(v: Validator, es: seq<Event>): (r: Validator)
    requires WellFormed(v)
    ensures r.root == v.root && WellFormed(r) && (!v.valid ==> r == v)
    decreases |es|
  {
    if es == [] then v else FeedAll(Feed(v, es[0]), es[1..])
  }
}
