/**
 Compiling the property keywords of a schema: the names in `properties`, `required` and
 `dependencies` are gathered into one list, so each of them is a known property.
 */
module SchemaCompiler {
  import opened Bytes
  import opened Wrappers
  import opened Schema
  import D = Dom

  type PropertyName = seq<byte>

  /** A member of `properties`; a value that is no object gives no schema of its own. */
  datatype Declaration = Declaration(name: PropertyName, schema: Option<Schema>)

  datatype Demand = OnNames(names: seq<PropertyName>) | OnObject(schema: Schema) | Neither

  datatype DeclaredDependency = DeclaredDependency(name: PropertyName, demand: Demand)

  datatype Keywords = Keywords(properties: seq<Declaration>, required: seq<PropertyName>,
                               dependencies: seq<DeclaredDependency>)

  // ---------------------------------------------------------------- specification

  /** A name the schema mentions as a property, wherever. */
  predicate Known(w: Keywords, name: PropertyName) {
    || (exists i :: 0 <= i < |w.properties| && w.properties[i].name == name)
    || name in w.required
    || (exists i :: 0 <= i < |w.dependencies| && w.dependencies[i].name == name)
    || (exists i :: 0 <= i < |w.dependencies| && w.dependencies[i].demand.OnNames? &&
                    name in w.dependencies[i].demand.names)
  }

  /** The schema of the last of the first `n` declarations that gives the name one; by default the typeless one. */
  function LastSchema(ds: seq<Declaration>, n: nat, name: PropertyName): Schema
    requires n <= |ds|
  {
    if n == 0 then TYPELESS
    else if ds[n - 1].name == name && ds[n - 1].schema.Some? then ds[n - 1].schema.value
    else LastSchema(ds, n - 1, name)
  }

  /** The properties that stand at the names. */
  function IndicesOf(ps: seq<Property>, names: seq<PropertyName>, n: nat): set<nat>
    requires n <= |names|
  {
    if n == 0 then {}
    else
      var k := FindProperty(ps, names[n - 1]);
      IndicesOf(ps, names, n - 1) + if k < |ps| then {k} else {}
  }

  /**
   What entry `d` makes of the dependency a name has: names replace whatever was there, a schema does not replace
   names.
   */
  function Replaced(ps: seq<Property>, d: DeclaredDependency, before: Dependency): Dependency {
    match d.demand
    case OnNames(names) => OnProperties(IndicesOf(ps, names, |names|))
    case OnObject(schema) => if before.OnProperties? then before else OnSchema(schema)
    case Neither => before
  }

  /**
   The dependency of a name after the first `n` entries: the last list of names, or if there is none the last schema.
   */
  function LastDependency(ps: seq<Property>, ds: seq<DeclaredDependency>, n: nat, name: PropertyName): Dependency
    requires n <= |ds|
  {
    if n == 0 then NoDependency
    else
      var before := LastDependency(ps, ds, n - 1, name);
      if ds[n - 1].name == name then Replaced(ps, ds[n - 1], before) else before
  }

  /** A list of names wins over schemas, wherever it stands. */
  lemma {:induction false} NamesWin(ps: seq<Property>, ds: seq<DeclaredDependency>, n: nat, name: PropertyName)
    requires n <= |ds|
    ensures LastDependency(ps, ds, n, name).OnProperties?
       <==> exists i :: 0 <= i < n && ds[i].name == name && ds[i].demand.OnNames?
    ensures LastDependency(ps, ds, n, name).NoDependency?
       <==> forall i :: 0 <= i < n && ds[i].name == name ==> ds[i].demand.Neither?
  {
    if n > 0 {
      NamesWin(ps, ds, n - 1, name);
    }
  }

  /** Each name once. */
  ghost predicate NamesUnique(ps: seq<Property>) {
    forall i, j :: 0 <= i < j < |ps| ==> ps[i].name != ps[j].name
  }

  ghost predicate SameNames(ps: seq<Property>, qs: seq<Property>) {
    |ps| == |qs| && forall i :: 0 <= i < |ps| ==> ps[i].name == qs[i].name
  }

  lemma {:induction false} SameNamesFind(ps: seq<Property>, qs: seq<Property>, name: PropertyName)
    requires SameNames(ps, qs)
    ensures FindProperty(ps, name) == FindProperty(qs, name)
    decreases |ps|
  {
    if ps != [] {
      SameNamesFind(ps[1..], qs[1..], name);
    }
  }

  lemma {:induction false} SameNamesIndices(ps: seq<Property>, qs: seq<Property>, names: seq<PropertyName>, n: nat)
    requires SameNames(ps, qs) && n <= |names|
    ensures IndicesOf(ps, names, n) == IndicesOf(qs, names, n)
  {
    if n > 0 {
      SameNamesFind(ps, qs, names[n - 1]);
      SameNamesIndices(ps, qs, names, n - 1);
    }
  }

  lemma {:induction false} SameNamesDependency(ps: seq<Property>, qs: seq<Property>, ds: seq<DeclaredDependency>,
                                               n: nat, name: PropertyName)
    requires SameNames(ps, qs) && n <= |ds|
    ensures LastDependency(ps, ds, n, name) == LastDependency(qs, ds, n, name)
  {
    if n > 0 {
      SameNamesDependency(ps, qs, ds, n - 1, name);
      if ds[n - 1].demand.OnNames? {
        SameNamesIndices(ps, qs, ds[n - 1].demand.names, |ds[n - 1].demand.names|);
      }
    }
  }

  // ---------------------------------------------------------------- gathering

  /** A list of names without repetition that has the names of `ps`. */
  method AddUnique(ps: seq<Property>, name: PropertyName) returns (qs: seq<Property>)
    requires NamesUnique(ps) && forall p :: p in ps ==> p == Property(p.name, TYPELESS, false, NoDependency)
    ensures NamesUnique(qs) && forall p :: p in qs ==> p == Property(p.name, TYPELESS, false, NoDependency)
    ensures forall n :: Listed(qs, n) <==> Listed(ps, n) || n == name
  {
    var k := FindProperty(ps, name);
    if k < |ps| {
      qs := ps;
    } else {
      qs := ps + [Property(name, TYPELESS, false, NoDependency)];
      assert qs[|ps|].name == name;
      assert forall i :: 0 <= i < |ps| ==> qs[i] == ps[i];
    }
  }

  ghost predicate Listed(ps: seq<Property>, name: PropertyName) {
    exists i :: 0 <= i < |ps| && ps[i].name == name
  }

  method AddAllUnique(ps: seq<Property>, names: seq<PropertyName>) returns (qs: seq<Property>)
    requires NamesUnique(ps) && forall p :: p in ps ==> p == Property(p.name, TYPELESS, false, NoDependency)
    ensures NamesUnique(qs) && forall p :: p in qs ==> p == Property(p.name, TYPELESS, false, NoDependency)
    ensures forall n :: Listed(qs, n) <==> Listed(ps, n) || n in names
  {
    hide Listed, NamesUnique;
    qs := ps;
    for i := 0 to |names|
      invariant NamesUnique(qs) && forall p :: p in qs ==> p == Property(p.name, TYPELESS, false, NoDependency)
      invariant forall n :: Listed(qs, n) <==> Listed(ps, n) || n in names[..i]
    {
      qs := AddUnique(qs, names[i]);
      assert names[..i + 1] == names[..i] + [names[i]];
    }
    assert names[..|names|] == names;
  }

  /** The names of the declarations and dependencies, and those dependencies name. */
  function PropertyNames(ds: seq<Declaration>): seq<PropertyName> {
    seq(|ds|, i requires 0 <= i < |ds| => ds[i].name)
  }

  method GatherNames(w: Keywords) returns (ps: seq<Property>)
    ensures NamesUnique(ps) && forall p :: p in ps ==> p == Property(p.name, TYPELESS, false, NoDependency)
    ensures forall n :: Listed(ps, n) <==> Known(w, n)
  {
    hide Listed, NamesUnique;
    assert NamesUnique([]) && forall n :: !Listed([], n) by {
      NothingListed();
    }
    ps := AddAllUnique([], PropertyNames(w.properties));
    ps := AddAllUnique(ps, w.required);
    ghost var before := ps;
    for i := 0 to |w.dependencies|
      invariant NamesUnique(ps) && forall p :: p in ps ==> p == Property(p.name, TYPELESS, false, NoDependency)
      invariant forall n :: Listed(ps, n) <==> Listed(before, n) || Mentioned(w.dependencies, i, n)
    {
      var d := w.dependencies[i];
      ps := AddUnique(ps, d.name);
      if d.demand.OnNames? {
        ps := AddAllUnique(ps, d.demand.names);
      }
    }
    forall n
      ensures Listed(ps, n) <==> Known(w, n)
    {
      KnownParts(w, n);
    }
  }

  lemma NothingListed()
    ensures NamesUnique([]) && forall n :: !Listed([], n)
  {
  }

  ghost predicate Mentioned(ds: seq<DeclaredDependency>, n: nat, name: PropertyName)
    requires n <= |ds|
  {
    n > 0 && (Mentioned(ds, n - 1, name) || ds[n - 1].name == name ||
              (ds[n - 1].demand.OnNames? && name in ds[n - 1].demand.names))
  }

  lemma {:induction false} MentionedIff(ds: seq<DeclaredDependency>, n: nat, name: PropertyName)
    requires n <= |ds|
    ensures Mentioned(ds, n, name)
       <==> || (exists i :: 0 <= i < n && ds[i].name == name)
            || (exists i :: 0 <= i < n && ds[i].demand.OnNames? && name in ds[i].demand.names)
  {
    if n > 0 {
      MentionedIff(ds, n - 1, name);
    }
  }

  lemma KnownParts(w: Keywords, n: PropertyName)
    ensures Known(w, n)
       <==> n in PropertyNames(w.properties) || n in w.required || Mentioned(w.dependencies, |w.dependencies|, n)
  {
    MentionedIff(w.dependencies, |w.dependencies|, n);
    if i :| 0 <= i < |w.properties| && w.properties[i].name == n {
      assert PropertyNames(w.properties)[i] == n;
    }
  }

  // ---------------------------------------------------------------- the rest of the keywords

  /**
   What the property list must be after `n` declarations, `m` required names and `l` dependencies have been entered.
   */
  ghost predicate Entered(ps: seq<Property>, w: Keywords, n: nat, m: nat, l: nat)
    requires n <= |w.properties| && m <= |w.required| && l <= |w.dependencies|
  {
    NamesUnique(ps)
    && forall k :: 0 <= k < |ps| ==>
         && ps[k].schema == LastSchema(w.properties, n, ps[k].name)
         && (ps[k].required <==> ps[k].name in w.required[..m])
         && ps[k].dependency == LastDependency(ps, w.dependencies, l, ps[k].name)
  }

  /** The known names, each once, with what the keywords say of it. */
  ghost predicate Compiled(ps: seq<Property>, w: Keywords) {
    && NamesUnique(ps) && (forall n :: Listed(ps, n) <==> Known(w, n))
    && forall k :: 0 <= k < |ps| ==>
         && ps[k].schema == LastSchema(w.properties, |w.properties|, ps[k].name)
         && (ps[k].required <==> ps[k].name in w.required)
         && ps[k].dependency == LastDependency(ps, w.dependencies, |w.dependencies|, ps[k].name)
  }

  method Gather(w: Keywords) returns (ps: seq<Property>)
    ensures Compiled(ps, w)
  {
    hide Listed, Known, FindProperty, LastSchema, LastDependency;
    var names := GatherNames(w);
    assert Entered(names, w, 0, 0, 0) by { NothingEntered(names, w); }
    ps := EnterSchemas(names, w);
    ps := EnterRequired(ps, w);
    ps := EnterDependencies(ps, w);
    assert w.required[..|w.required|] == w.required;
    ListedSame(names, ps);
  }

  lemma ListedSame(ps: seq<Property>, qs: seq<Property>)
    requires SameNames(ps, qs)
    ensures forall n :: Listed(ps, n) <==> Listed(qs, n)
  {
  }

  lemma NothingEntered(ps: seq<Property>, w: Keywords)
    requires NamesUnique(ps) && forall p :: p in ps ==> p == Property(p.name, TYPELESS, false, NoDependency)
    ensures Entered(ps, w, 0, 0, 0)
  {
    forall k | 0 <= k < |ps|
      ensures ps[k] == Property(ps[k].name, TYPELESS, false, NoDependency)
    {
      assert ps[k] in ps;
    }
  }

  method EnterSchemas(names: seq<Property>, w: Keywords) returns (ps: seq<Property>)
    requires Entered(names, w, 0, 0, 0)
    ensures SameNames(names, ps) && Entered(ps, w, |w.properties|, 0, 0)
  {
    ps := names;
    for i := 0 to |w.properties|
      invariant SameNames(names, ps) && Entered(ps, w, i, 0, 0)
    {
      var k := FindProperty(ps, w.properties[i].name);
      if k < |ps| && w.properties[i].schema.Some? {
        ps := ps[k := ps[k].(schema := w.properties[i].schema.value)];
      }
    }
  }

  method EnterRequired(names: seq<Property>, w: Keywords) returns (ps: seq<Property>)
    requires Entered(names, w, |w.properties|, 0, 0)
    ensures SameNames(names, ps) && Entered(ps, w, |w.properties|, |w.required|, 0)
  {
    hide LastSchema;
    ps := names;
    for i := 0 to |w.required|
      invariant SameNames(names, ps) && Entered(ps, w, |w.properties|, i, 0)
    {
      assert w.required[..i + 1] == w.required[..i] + [w.required[i]];
      var k := FindProperty(ps, w.required[i]);
      if k < |ps| {
        ps := ps[k := ps[k].(required := true)];
      }
    }
  }

  method EnterDependencies(names: seq<Property>, w: Keywords) returns (ps: seq<Property>)
    requires Entered(names, w, |w.properties|, |w.required|, 0)
    ensures SameNames(names, ps) && Entered(ps, w, |w.properties|, |w.required|, |w.dependencies|)
  {
    hide FindProperty;
    hide LastSchema, IndicesOf;
    ps := names;
    for i := 0 to |w.dependencies|
      invariant SameNames(names, ps) && Entered(ps, w, |w.properties|, |w.required|, i)
    {
      var d := w.dependencies[i];
      ghost var was := ps;
      var k := FindProperty(ps, d.name);
      if k < |ps| {
        match d.demand {
          case OnNames(targets) =>
            var indices := FindAll(ps, targets);
            ps := ps[k := ps[k].(dependency := OnProperties(indices))];
          case OnObject(schema) =>
            if !ps[k].dependency.OnProperties? {
              ps := ps[k := ps[k].(dependency := OnSchema(schema))];
            }
          case Neither =>
        }
      }
      forall j | 0 <= j < |ps|
        ensures LastDependency(ps, w.dependencies, i + 1, ps[j].name)
             == LastDependency(was, w.dependencies, i + 1, ps[j].name)
      {
        SameNamesDependency(was, ps, w.dependencies, i + 1, ps[j].name);
      }
    }
  }

  method FindAll(ps: seq<Property>, targets: seq<PropertyName>) returns (indices: set<nat>)
    ensures indices == IndicesOf(ps, targets, |targets|)
  {
    indices := {};
    for i := 0 to |targets|
      invariant indices == IndicesOf(ps, targets, i)
    {
      var k := FindProperty(ps, targets[i]);
      if k < |ps| {
        indices := indices + {k};
      }
    }
  }

  // ---------------------------------------------------------------- what follows

  /**
   A known name is allowed even where additional properties are not. If it is in `required` or
   `dependencies` only, any value will do.
   */
  lemma KnownIsAllowed(s: Schema, w: Keywords, name: PropertyName)
    requires NamesUnique(s.properties) && forall n :: Listed(s.properties, n) <==> Known(w, n)
    requires forall k :: 0 <= k < |s.properties| ==>
               s.properties[k].schema == LastSchema(w.properties, |w.properties|, s.properties[k].name)
    ensures Known(w, name) ==> MemberSchema(s, name) == Some(LastSchema(w.properties, |w.properties|, name))
    ensures Known(w, name) && (forall i :: 0 <= i < |w.properties| ==> w.properties[i].name != name) ==>
              MemberSchema(s, name) == Some(TYPELESS)
    ensures !Known(w, name) && !s.additionalProperties && s.additionalPropertiesSchema.None? ==>
              MemberSchema(s, name) == None
  {
    assert Listed(s.properties, name) <==> Known(w, name);
    hide Known;
    UndeclaredIsTypeless(w.properties, |w.properties|, name);
    if k :| 0 <= k < |s.properties| && s.properties[k].name == name {
      assert FindProperty(s.properties, name) < |s.properties|;
    }
  }

  lemma {:induction false} UndeclaredIsTypeless(ds: seq<Declaration>, n: nat, name: PropertyName)
    requires n <= |ds|
    ensures (forall i :: 0 <= i < n ==> ds[i].name != name) ==> LastSchema(ds, n, name) == TYPELESS
  {
    if n > 0 {
      UndeclaredIsTypeless(ds, n - 1, name);
    }
  }
}
