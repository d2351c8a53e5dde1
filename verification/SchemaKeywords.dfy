/**
 What a streaming validator accepts of an object, said in the schema's own words: by the names in
 `properties`, `required` and `dependencies` rather than by the indices they are compiled to.
 */
module SchemaKeywords {
  import opened Schema
  import opened SchemaCompiler
  import opened Validator
  import opened Wrappers
  import D = Dom
  import S = StreamedValidity
  import Utf8

  // ---------------------------------------------------------------- the keywords' meaning

  predicate Has(ms: seq<D.Member>, name: PropertyName) {
    exists j :: 0 <= j < |ms| && ms[j].name == name
  }

  /** What a name asks for: the last list of names, or if there is none the last schema. */
  function LastDemand(ds: seq<DeclaredDependency>, n: nat, name: PropertyName): Demand
    requires n <= |ds|
  {
    if n == 0 then Neither
    else
      var before := LastDemand(ds, n - 1, name);
      if ds[n - 1].name != name || ds[n - 1].demand.Neither? then before
      else if ds[n - 1].demand.OnObject? && before.OnNames? then before
      else ds[n - 1].demand
  }

  /** A member has a known name or may be additional, and its value satisfies what belongs to the name. */
  ghost predicate MemberMeets(s: Schema, w: Keywords, m: D.Member) {
    if Known(w, m.name) then Satisfies(LastSchema(w.properties, |w.properties|, m.name), m.value)
    else if s.additionalPropertiesSchema.Some? then Satisfies(s.additionalPropertiesSchema.value, m.value)
    else s.additionalProperties
  }

  /** Every required name is there, unless what is declared for it has a default string. */
  predicate RequiredMet(w: Keywords, ms: seq<D.Member>) {
    forall n :: n in w.required && LastSchema(w.properties, |w.properties|, n).defaultValueLength == 0 ==> Has(ms, n)
  }

  /** What the names that are there depend on is there as well, or holds of the object. */
  ghost predicate DependenciesMet(w: Keywords, x: D.Value)
    requires x.Object?
  {
    forall i :: 0 <= i < |x.members| ==> DemandMet(LastDemand(w.dependencies, |w.dependencies|, x.members[i].name), x)
  }

  ghost predicate DemandMet(d: Demand, x: D.Value)
    requires x.Object?
  {
    match d
    case OnNames(names) => forall n :: n in names ==> Has(x.members, n)
    case OnObject(schema) => Satisfies(schema, x)
    case Neither => true
  }

  ghost predicate ObjectMeets(s: Schema, w: Keywords, x: D.Value)
    requires x.Object?
  {
    && ObjectType in s.types && s.minProperties <= |x.members| <= s.maxProperties
    && (forall i :: 0 <= i < |x.members| ==> MemberMeets(s, w, x.members[i]))
    && RequiredMet(w, x.members) && DependenciesMet(w, x)
    && S.Combined(s, x)
  }

  // ---------------------------------------------------------------- names and indices

  lemma FoundIffKnown(ps: seq<Property>, w: Keywords, name: PropertyName)
    requires Compiled(ps, w)
    ensures FindProperty(ps, name) < |ps| <==> Known(w, name)
  {
    hide Known, LastSchema, LastDependency;
    assert Listed(ps, name) <==> Known(w, name);
  }

  lemma PresentIffHas(s: Schema, ms: seq<D.Member>, name: PropertyName)
    requires FindProperty(s.properties, name) < |s.properties|
    ensures Present(s, ms, FindProperty(s.properties, name)) <==> Has(ms, name)
  {
  }

  /** In a list of distinct names, a name is found where it stands. */
  lemma FoundWhereListed(ps: seq<Property>, k: nat)
    requires NamesUnique(ps) && k < |ps|
    ensures FindProperty(ps, ps[k].name) == k
  {
    var j := FindProperty(ps, ps[k].name);
  }

  lemma {:induction false} IndicesAre(ps: seq<Property>, names: seq<PropertyName>, n: nat)
    requires n <= |names|
    ensures forall t :: t in IndicesOf(ps, names, n)
              <==> t < |ps| && exists i :: 0 <= i < n && FindProperty(ps, names[i]) == t
  {
    hide FindProperty;
    if n > 0 {
      IndicesAre(ps, names, n - 1);
    }
  }

  /** What a demand is compiled to. */
  function Indexed(ps: seq<Property>, d: Demand): Dependency {
    match d
    case OnNames(names) => OnProperties(IndicesOf(ps, names, |names|))
    case OnObject(schema) => OnSchema(schema)
    case Neither => NoDependency
  }

  lemma {:induction false} DemandIndexed(ps: seq<Property>, ds: seq<DeclaredDependency>, n: nat, name: PropertyName)
    requires n <= |ds|
    ensures LastDependency(ps, ds, n, name) == Indexed(ps, LastDemand(ds, n, name))
  {
    if n > 0 {
      DemandIndexed(ps, ds, n - 1, name);
    }
  }

  lemma {:induction false} DemandedAreKnown(w: Keywords, n: nat, name: PropertyName, target: PropertyName)
    requires n <= |w.dependencies| && LastDemand(w.dependencies, n, name).OnNames?
    requires target in LastDemand(w.dependencies, n, name).names
    ensures Known(w, target)
  {
    if n > 0 {
      if LastDemand(w.dependencies, n, name) == w.dependencies[n - 1].demand {
        assert target in w.dependencies[n - 1].demand.names;
      } else {
        DemandedAreKnown(w, n - 1, name, target);
      }
    }
  }

  // ---------------------------------------------------------------- keyword by keyword

  lemma MembersByName(s: Schema, w: Keywords, m: D.Member)
    requires Compiled(s.properties, w) && D.Valid(m.value)
    ensures (MemberSchema(s, m.name).Some? && Satisfies(MemberSchema(s, m.name).value, m.value))
       <==> MemberMeets(s, w, m)
  {
    FoundIffKnown(s.properties, w, m.name);
    hide Known, LastSchema, LastDependency, FindProperty;
    TypelessSatisfied(m.value);
  }

  lemma {:induction false} TypelessSatisfied(x: D.Value)
    requires D.Valid(x)
    ensures Satisfies(TYPELESS, x)
    decreases x
  {
    match x
    case String(str) =>
      if Utf8.DecodeAll(str, 0).Decoded? {
        S.CountBound(str, 0);
      }
    case Array(vs) =>
      forall v | v in vs
        ensures Satisfies(TYPELESS, v)
      {
        TypelessSatisfied(v);
      }
    case Object(ms) =>
      forall m | m in ms
        ensures Satisfies(TYPELESS, m.value)
      {
        TypelessSatisfied(m.value);
      }
    case _ =>
  }

  lemma RequiredByName(s: Schema, w: Keywords, ms: seq<D.Member>)
    requires Compiled(s.properties, w)
    ensures RequiredPresent(s, ms) <==> RequiredMet(w, ms)
  {
    hide Known, LastSchema, LastDependency, FindProperty, Present, Has;
    forall k | 0 <= k < |s.properties|
      ensures Present(s, ms, k) <==> Has(ms, s.properties[k].name)
    {
      FoundWhereListed(s.properties, k);
      PresentIffHas(s, ms, s.properties[k].name);
    }
    forall n | n in w.required
      ensures exists k :: 0 <= k < |s.properties| && s.properties[k].name == n
    {
      assert Known(w, n) by { RequiredIsKnown(w, n); }
      assert Listed(s.properties, n);
    }
  }

  lemma RequiredIsKnown(w: Keywords, n: PropertyName)
    requires n in w.required
    ensures Known(w, n)
  {
  }

  ghost predicate DependencyMet(s: Schema, d: Dependency, x: D.Value)
    requires x.Object?
  {
    match d
    case NoDependency => true
    case OnProperties(targets) => forall t :: t in targets && t < |s.properties| ==> Present(s, x.members, t)
    case OnSchema(schema) => Satisfies(schema, x)
  }

  lemma DependencyByName(s: Schema, w: Keywords, x: D.Value, name: PropertyName)
    requires Compiled(s.properties, w) && x.Object? && FindProperty(s.properties, name) < |s.properties|
    ensures DependencyMet(s, s.properties[FindProperty(s.properties, name)].dependency, x)
       <==> DemandMet(LastDemand(w.dependencies, |w.dependencies|, name), x)
  {
    hide Known, LastSchema, LastDependency, FindProperty, Present, Has, Satisfies, IndicesOf, LastDemand;
    var ps := s.properties;
    var demand := LastDemand(w.dependencies, |w.dependencies|, name);
    DemandIndexed(ps, w.dependencies, |w.dependencies|, name);
    if demand.OnNames? {
      IndicesAre(ps, demand.names, |demand.names|);
      forall n | n in demand.names
        ensures FindProperty(ps, n) < |ps| && (Present(s, x.members, FindProperty(ps, n)) <==> Has(x.members, n))
      {
        DemandedAreKnown(w, |w.dependencies|, name, n);
        FoundIffKnown(ps, w, n);
        PresentIffHas(s, x.members, n);
      }
      forall i | 0 <= i < |demand.names|
        ensures FindProperty(ps, demand.names[i]) in IndicesOf(ps, demand.names, |demand.names|)
      {
        assert demand.names[i] in demand.names;
      }
    }
  }

  lemma DependenciesByName(s: Schema, w: Keywords, x: D.Value)
    requires Compiled(s.properties, w) && x.Object?
    ensures DependenciesSatisfied(s, x) <==> DependenciesMet(w, x)
  {
    hide Known, LastSchema, LastDependency, FindProperty, Satisfies, LastDemand, Compiled;
    var ps := s.properties;
    assert DependenciesSatisfied(s, x) <==>
             forall k :: 0 <= k < |ps| && Present(s, x.members, k) ==> DependencyMet(s, ps[k].dependency, x) by {
      hide DependencyMet;
      DependenciesAre(s, x);
    }
    hide DependenciesSatisfied, DependencyMet;
    forall i | 0 <= i < |x.members|
      ensures DemandMet(LastDemand(w.dependencies, |w.dependencies|, x.members[i].name), x) <==>
                var k := FindProperty(ps, x.members[i].name); k < |ps| ==> DependencyMet(s, ps[k].dependency, x)
    {
      var name := x.members[i].name;
      if FindProperty(ps, name) < |ps| {
        DependencyByName(s, w, x, name);
      } else {
        UnknownDemandsNothing(ps, w, |w.dependencies|, name);
      }
    }
  }

  lemma DependenciesAre(s: Schema, x: D.Value)
    requires x.Object?
    ensures DependenciesSatisfied(s, x) <==>
              forall k :: 0 <= k < |s.properties| && Present(s, x.members, k) ==>
                            DependencyMet(s, s.properties[k].dependency, x)
  {
    hide Present, Satisfies;
  }

  lemma {:induction false} UnknownDemandsNothing(ps: seq<Property>, w: Keywords, n: nat, name: PropertyName)
    requires Compiled(ps, w) && FindProperty(ps, name) == |ps| && n <= |w.dependencies|
    ensures LastDemand(w.dependencies, n, name).Neither?
  {
    hide LastSchema, LastDependency;
    FoundIffKnown(ps, w, name);
    if n > 0 {
      UnknownDemandsNothing(ps, w, n - 1, name);
    }
  }

  // ---------------------------------------------------------------- the theorem

  /**
   A schema compiled from the keywords, with the gathered properties, accepts just the objects the keywords describe.
   */
  lemma ObjectsByName(s: Schema, w: Keywords, x: D.Value)
    requires Compiled(s.properties, w)
    requires D.Valid(x) && D.DoubleFree(x) && x.Object?
    ensures FeedAll(Fresh(s), D.Events(x)).valid <==> ObjectMeets(s, w, x)
  {
    hide FeedAll, Satisfies, Compiled, MemberMeets, MemberSchema, RequiredMet, RequiredPresent, DependenciesMet,
         DependenciesSatisfied, Known, S.Combined;
    S.StreamingIsSatisfaction(s, x);
    S.SatisfiesParts(s, x);
    forall i | 0 <= i < |x.members|
      ensures (MemberSchema(s, x.members[i].name).Some? &&
               Satisfies(MemberSchema(s, x.members[i].name).value, x.members[i].value))
         <==> MemberMeets(s, w, x.members[i])
    {
      assert x.members[i] in x.members;
      MembersByName(s, w, x.members[i]);
    }
    RequiredByName(s, w, x.members);
    DependenciesByName(s, w, x);
  }

  /** Compiling the property keywords and streaming objects into the result. */
  method GatherThenStream(s: Schema, w: Keywords) returns (compiled: Schema)
    ensures compiled == s.(properties := compiled.properties)
    ensures forall x: D.Value | D.Valid(x) && D.DoubleFree(x) && x.Object? ::
              FeedAll(Fresh(compiled), D.Events(x)).valid <==> ObjectMeets(s, w, x)
  {
    hide FeedAll, ObjectMeets, Listed, Known;
    var ps := Gather(w);
    compiled := s.(properties := ps);
    forall x: D.Value | D.Valid(x) && D.DoubleFree(x) && x.Object?
      ensures FeedAll(Fresh(compiled), D.Events(x)).valid <==> ObjectMeets(s, w, x)
    {
      ObjectsByName(compiled, w, x);
      SameMeaning(s, compiled, w, x);
    }
  }

  /** What an object must meet is said by the keywords, not by the property list. */
  lemma SameMeaning(s: Schema, t: Schema, w: Keywords, x: D.Value)
    requires x.Object? && t == s.(properties := t.properties)
    ensures ObjectMeets(t, w, x) <==> ObjectMeets(s, w, x)
  {
    hide RequiredMet, DependenciesMet, Known, Satisfies, LastSchema;
    assert S.Combined(t, x) <==> S.Combined(s, x);
    hide S.Combined;
    forall i | 0 <= i < |x.members|
      ensures MemberMeets(t, w, x.members[i]) <==> MemberMeets(s, w, x.members[i])
    {
    }
  }
}
