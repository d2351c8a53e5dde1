/**
 Compiled schemas, and when a value satisfies one: the recursive definition the streaming validator
 is proved against. The keywords are those of JSON Schema Validation draft 4, section 5, without
 patterns, enumerations, uniqueness and references.
 */
module Schema {
  import opened Bytes
  import opened Wrappers
  import Utf8
  import D = Dom

  datatype SchemaValueType = NullType | BooleanType | ObjectType | ArrayType | StringType | NumberType | IntegerType

  /**
   What a property that is present demands: nothing, other properties by index, or that the object satisfies a schema.
   */
  datatype Dependency = NoDependency | OnProperties(targets: set<nat>) | OnSchema(schema: Schema)

  datatype Property = Property(name: seq<byte>, schema: Schema, required: bool, dependency: Dependency)

  datatype Items = AnyItems | ListItems(schema: Schema) | TupleItems(schemas: seq<Schema>)

  /** Bounds on integers; exclusiveness is a flag of its own. */
  datatype Bounds = Bounds(minimum: Option<int>, exclusiveMinimum: bool, maximum: Option<int>, exclusiveMaximum: bool,
                           multipleOf: Option<nat>)

  /** Bounds that were read from numbers a value can hold. */
  predicate ValidBounds(r: Bounds) {
    && (r.minimum.Some? ==> D.IsInt64(r.minimum.value) || D.IsUint64(r.minimum.value))
    && (r.maximum.Some? ==> D.IsInt64(r.maximum.value) || D.IsUint64(r.maximum.value))
    && (r.multipleOf.Some? ==> D.IsUint64(r.multipleOf.value) && r.multipleOf.value > 0)
  }

  type Range = r: Bounds | ValidBounds(r) witness Bounds(None, false, None, false, None)

  datatype Schema = Schema(
    types: set<SchemaValueType>,
    allOf: seq<Schema>, anyOf: seq<Schema>, oneOf: seq<Schema>, negated: Option<Schema>,
    properties: seq<Property>, additionalProperties: bool, additionalPropertiesSchema: Option<Schema>,
    minProperties: nat, maxProperties: nat,
    items: Items, additionalItems: bool, additionalItemsSchema: Option<Schema>, minItems: nat, maxItems: nat,
    minLength: nat, maxLength: nat, range: Range, defaultValueLength: nat)

  const SIZE_MAX: nat := 0xFFFF_FFFF

  const ALL_TYPES: set<SchemaValueType> :=
    {NullType, BooleanType, ObjectType, ArrayType, StringType, NumberType, IntegerType}

  /** The schema every value satisfies. */
  const TYPELESS: Schema := Schema(ALL_TYPES, [], [], [], None, [], true, None, 0, SIZE_MAX,
                                   AnyItems, true, None, 0, SIZE_MAX, 0, SIZE_MAX,
                                   Bounds(None, false, None, false, None), 0)

  // ---------------------------------------------------------------- scalars

  predicate AboveMinimum(r: Range, i: int) {
    r.minimum.Some? ==> if r.exclusiveMinimum then i > r.minimum.value else i >= r.minimum.value
  }

  predicate BelowMaximum(r: Range, i: int) {
    r.maximum.Some? ==> if r.exclusiveMaximum then i < r.maximum.value else i <= r.maximum.value
  }

  /** Within both bounds, and the magnitude divisible. */
  predicate InRange(r: Range, i: int) {
    && AboveMinimum(r, i) && BelowMaximum(r, i)
    && (r.multipleOf.Some? ==> (if i >= 0 then i else -i) % r.multipleOf.value == 0)
  }

  /**
   The comparisons for an integer that arrived signed: an unsigned bound beyond the signed range decides by itself.
   */
  predicate CheckInt(r: Range, i: int) {
    && (r.minimum.None?
        || (if D.IsInt64(r.minimum.value)
            then !(if r.exclusiveMinimum then i <= r.minimum.value else i < r.minimum.value)
            else false))
    && (r.maximum.None?
        || (D.IsInt64(r.maximum.value)
            ==> !(if r.exclusiveMaximum then i >= r.maximum.value else i > r.maximum.value)))
    && (r.multipleOf.Some? ==> (if i >= 0 then i else -i) % r.multipleOf.value == 0)
  }

  /** The comparisons for an integer that arrived unsigned: a negative bound decides by itself. */
  predicate CheckUint(r: Range, i: int) {
    && (r.minimum.None?
        || (D.IsUint64(r.minimum.value)
            ==> !(if r.exclusiveMinimum then i <= r.minimum.value else i < r.minimum.value)))
    && (r.maximum.None?
        || (if D.IsUint64(r.maximum.value)
            then !(if r.exclusiveMaximum then i >= r.maximum.value else i > r.maximum.value)
            else false))
    && (r.multipleOf.Some? ==> i % r.multipleOf.value == 0)
  }

  /** Both checks compare the integers themselves. */
  lemma ChecksAreComparisons(r: Range, i: int)
    ensures D.IsInt64(i) ==> (CheckInt(r, i) <==> InRange(r, i))
    ensures D.IsUint64(i) ==> (CheckUint(r, i) <==> InRange(r, i))
  {
  }

  /** Lengths count code points; a text that does not decode has no length to check. */
  predicate LengthOk(s: Schema, str: seq<byte>) {
    match Utf8.DecodeAll(str, 0)
    case Decoded(cps) => s.minLength <= |cps| <= s.maxLength
    case _ => true
  }

  // ---------------------------------------------------------------- containers

  /** The first property with the name; the number of properties when there is none. */
  function FindProperty(ps: seq<Property>, name: seq<byte>): (k: nat)
    ensures k <= |ps| && (k < |ps| ==> ps[k].name == name) && forall j :: 0 <= j < k ==> ps[j].name != name
  {
    if ps == [] || ps[0].name == name then 0 else 1 + FindProperty(ps[1..], name)
  }

  /** Whether a member may have the name, and the schema its value must then satisfy. */
  function MemberSchema(s: Schema, name: seq<byte>): (r: Option<Schema>)
    ensures r.Some? ==> r.value == TYPELESS || r.value < s
  {
    var k := FindProperty(s.properties, name);
    if k < |s.properties| then Some(s.properties[k].schema)
    else if s.additionalPropertiesSchema.Some? then s.additionalPropertiesSchema
    else if s.additionalProperties then Some(TYPELESS)
    else None
  }

  /** Whether there may be an element at the index, and the schema it must then satisfy. An empty tuple is no tuple. */
  function ElementSchema(s: Schema, i: nat): (r: Option<Schema>)
    ensures r.Some? ==> r.value == TYPELESS || r.value < s
  {
    match s.items
    case AnyItems => Some(TYPELESS)
    case ListItems(schema) => Some(schema)
    case TupleItems(schemas) =>
      if schemas == [] then Some(TYPELESS)
      else if i < |schemas| then Some(schemas[i])
      else if s.additionalItemsSchema.Some? then s.additionalItemsSchema
      else if s.additionalItems then Some(TYPELESS)
      else None
  }

  /** Some member has the name of the property. */
  predicate Present(s: Schema, ms: seq<D.Member>, k: nat) {
    exists j :: 0 <= j < |ms| && FindProperty(s.properties, ms[j].name) == k
  }

  /** A required property is missed only if its own schema has no default string. */
  predicate RequiredPresent(s: Schema, ms: seq<D.Member>) {
    forall k :: 0 <= k < |s.properties| && s.properties[k].required &&
                s.properties[k].schema.defaultValueLength == 0 ==>
      Present(s, ms, k)
  }

  // ---------------------------------------------------------------- satisfaction

  predicate TypeOk(s: Schema, v: D.Value) {
    match v
    case Null => NullType in s.types
    case Bool(_) => BooleanType in s.types
    case Number(_) => IntegerType in s.types || NumberType in s.types
    case String(_) => StringType in s.types
    case Array(_) => ArrayType in s.types
    case Object(_) => ObjectType in s.types
  }

  ghost predicate Satisfies(s: Schema, v: D.Value)
    decreases v, s, 1
  {
    && TypeOk(s, v)
    && (match v
        case Number(n) => n.Integer? ==> InRange(s.range, D.IntegerValue(n))
        case String(str) => LengthOk(s, str)
        case Array(vs) => ElementsSatisfy(s, vs)
        case Object(ms) => MembersSatisfy(s, ms) && DependenciesSatisfied(s, v)
        case _ => true)
    && (forall t :: t in s.allOf ==> Satisfies(t, v))
    && (s.anyOf == [] || exists t :: t in s.anyOf && Satisfies(t, v))
    && (s.oneOf == [] || exists i :: 0 <= i < |s.oneOf| && Satisfies(s.oneOf[i], v)
                                     && forall j :: 0 <= j < |s.oneOf| && Satisfies(s.oneOf[j], v) ==> j == i)
    && (s.negated.Some? ==> !Satisfies(s.negated.value, v))
  }

  ghost predicate ElementsSatisfy(s: Schema, vs: seq<D.Value>)
    decreases vs, s, 0
  {
    && s.minItems <= |vs| <= s.maxItems
    && forall i :: 0 <= i < |vs| ==> ElementSchema(s, i).Some? && Satisfies(ElementSchema(s, i).value, vs[i])
  }

  ghost predicate MembersSatisfy(s: Schema, ms: seq<D.Member>)
    decreases ms, s, 0
  {
    && s.minProperties <= |ms| <= s.maxProperties
    && (forall i :: 0 <= i < |ms| ==>
                      MemberSchema(s, ms[i].name).Some? && Satisfies(MemberSchema(s, ms[i].name).value, ms[i].value))
    && RequiredPresent(s, ms)
  }

  ghost predicate DependenciesSatisfied(s: Schema, v: D.Value)
    requires v.Object?
    decreases v, s, 0
  {
    forall k :: 0 <= k < |s.properties| && Present(s, v.members, k) ==>
      match s.properties[k].dependency
      case NoDependency => true
      case OnProperties(targets) => forall t :: t in targets && t < |s.properties| ==> Present(s, v.members, t)
      case OnSchema(schema) => Satisfies(schema, v)
  }
}
