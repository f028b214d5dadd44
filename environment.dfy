/** `Environment`: the registries of global types, marker annotations and
    global instances, the cache of class schemas, and the seeding of global
    instances from static fields that happens the first time a type is seen. */
module Environment {
  import opened Lang
  import opened World
  import opened Sequences
  import opened ClassSchema
  import opened Globals
  import opened StaticFieldPolicy

  /** `[0, n)`, the identifiers of a class table of `n` entries. */
  function Range(n: nat): (r: set<ClassId>)
    ensures forall c :: c in r <==> 0 <= c < n
  {
    if n == 0 then {} else Range(n - 1) + {n - 1}
  }

  /** Every cached schema is the one built for its class. */
  ghost predicate CachedSchemas(w: World, defs: map<ClassId, Schema>)
  {
    forall c :: c in defs ==> IsSchemaFor(w, c, defs[c])
  }

  /** `defs1` keeps every entry of `defs0`. */
  ghost predicate Extends(defs0: map<ClassId, Schema>, defs1: map<ClassId, Schema>)
  {
    forall c :: c in defs0 ==> c in defs1 && defs1[c] == defs0[c]
  }

  /** The references of `v` under the schema cached for its class all point into `s`. */
  ghost predicate ChildrenIn(w: World, defs: map<ClassId, Schema>, v: ObjId, s: set<ObjId>)
    requires v in w.heap
  {
    && ClassOf(w, v) in defs
    && TargetsIn(References(w, defs[ClassOf(w, v)], v), s)
  }

  lemma ChildrenInGrows(w: World, defs0: map<ClassId, Schema>, defs1: map<ClassId, Schema>,
                        s0: set<ObjId>, s1: set<ObjId>, vs: seq<ObjId>)
    requires Extends(defs0, defs1) && s0 <= s1
    requires forall v :: v in vs ==> v in w.heap && ChildrenIn(w, defs0, v, s0)
    ensures forall v :: v in vs ==> ChildrenIn(w, defs1, v, s1)
  {
    forall v | v in vs
      ensures ChildrenIn(w, defs1, v, s1)
    {
      assert defs1[ClassOf(w, v)] == defs0[ClassOf(w, v)];
    }
  }

  lemma ExtendsTransitive(defs0: map<ClassId, Schema>, defs1: map<ClassId, Schema>, defs2: map<ClassId, Schema>)
    requires Extends(defs0, defs1) && Extends(defs1, defs2)
    ensures Extends(defs0, defs2)
  {
  }

  /** No element occurs twice. */
  predicate Distinct<T(==)>(s: seq<T>)
  {
    forall i, j :: 0 <= i < j < |s| ==> s[i] != s[j]
  }

  lemma DistinctConcat<T>(a: seq<T>, b: seq<T>)
    requires Distinct(a) && Distinct(b)
    requires forall x :: x in a ==> x !in b
    ensures Distinct(a + b)
  {
    forall i, j | 0 <= i < j < |a + b|
      ensures (a + b)[i] != (a + b)[j]
    {
      if i < |a| <= j {
        assert (a + b)[i] in a && (a + b)[j] in b;
      }
    }
  }

  /** Every non-null value that the static traces of `sources` report is in `objs`. */
  ghost predicate Seeded(w: World, sources: seq<ClassId>, filter: Field -> bool, objs: set<ObjId>)
  {
    forall k, e :: 0 <= k < |sources| && w.ValidClass(sources[k]) && e in StaticTrace(w, sources[k], filter) ==>
      (e.Visited? && e.value.Some? ==> e.value.value in objs)
  }

  lemma SeededGrows(w: World, sources: seq<ClassId>, filter: Field -> bool, objs0: set<ObjId>, objs1: set<ObjId>)
    requires Seeded(w, sources, filter, objs0) && objs0 <= objs1
    ensures Seeded(w, sources, filter, objs1)
  {
  }

  /** The state of the walk below `o`: `calls` lists, once each, the
      instances added to `visited` so far, starting with `o`; all of them are
      registered in `objs` and reachable from `o`, and all but `o` have their
      references in `seen`. */
  ghost predicate Walked(w: World, defs: map<ClassId, Schema>, objs: set<ObjId>, visited: set<ObjId>,
                         seen: set<ObjId>, o: ObjId, calls: seq<ObjId>)
  {
    && visited + {o} <= seen <= w.heap.Keys
    && |calls| >= 1 && calls[0] == o
    && Distinct(calls)
    && (forall v :: v in calls <==> v in seen && v !in visited)
    && (forall v :: v in calls ==> v in objs && Reaches(w, defs, o, v))
    && (forall v :: v in calls[1..] ==> v in w.heap && ChildrenIn(w, defs, v, seen))
  }

  /** Appending the instances of one nested walk keeps the walk's state. */
  lemma WalkedStep(w: World, defs0: map<ClassId, Schema>, defs1: map<ClassId, Schema>,
                   objs0: set<ObjId>, objs1: set<ObjId>, visited: set<ObjId>,
                   seen0: set<ObjId>, seen1: set<ObjId>, o: ObjId, calls0: seq<ObjId>, sub: seq<ObjId>)
    requires Walked(w, defs0, objs0, visited, seen0, o, calls0)
    requires Extends(defs0, defs1) && objs0 <= objs1 && seen0 <= seen1 <= w.heap.Keys
    requires Distinct(sub)
    requires forall v :: v in sub <==> v in seen1 && v !in seen0
    requires forall v :: v in sub ==> v in objs1 && ChildrenIn(w, defs1, v, seen1) && Reaches(w, defs1, o, v)
    ensures Walked(w, defs1, objs1, visited, seen1, o, calls0 + sub)
  {
    ChildrenInGrows(w, defs0, defs1, seen0, seen1, calls0[1..]);
    forall v | v in calls0
      ensures Reaches(w, defs1, o, v)
    {
      ReachesExtends(w, defs0, defs1, o, v);
    }
    DistinctConcat(calls0, sub);
    assert (calls0 + sub)[1..] == calls0[1..] + sub;
  }

  /** Once the references of `o` are in `seen`, every walked instance has its references there. */
  lemma WalkedDone(w: World, defs: map<ClassId, Schema>, objs: set<ObjId>, visited: set<ObjId>,
                   seen: set<ObjId>, o: ObjId, calls: seq<ObjId>)
    requires Walked(w, defs, objs, visited, seen, o, calls)
    requires o in w.heap && ChildrenIn(w, defs, o, seen)
    ensures forall v :: v in calls ==> v in objs && ChildrenIn(w, defs, v, seen)
  {
    forall v | v in calls
      ensures ChildrenIn(w, defs, v, seen)
    {
      if v != o {
        var k :| 0 <= k < |calls| && calls[k] == v;
        assert calls[1..][k - 1] == v;
      }
    }
  }

  /** The non-null values a sequence of events reports. */
  ghost function Targets(es: seq<Event>): set<ObjId>
  {
    set k | 0 <= k < |es| && es[k].Visited? && es[k].value.Some? :: es[k].value.value
  }

  /** The instances `v` refers to through the schema cached for its class;
      none while that schema is not cached. */
  ghost function Children(w: World, defs: map<ClassId, Schema>, v: ObjId): set<ObjId>
  {
    if v in w.heap && ClassOf(w, v) in defs then Targets(References(w, defs[ClassOf(w, v)], v)) else {}
  }

  /** `p` goes from instance to instance along references of cached schemas. */
  ghost predicate IsPath(w: World, defs: map<ClassId, Schema>, p: seq<ObjId>)
  {
    && |p| >= 1
    && forall i :: 0 <= i < |p| - 1 ==> p[i + 1] in Children(w, defs, p[i])
  }

  ghost predicate Reaches(w: World, defs: map<ClassId, Schema>, a: ObjId, b: ObjId)
  {
    exists p :: IsPath(w, defs, p) && p[0] == a && p[|p| - 1] == b
  }

  /** The instances reachable from `a` through the references of cached
      schemas, `a` itself included. */
  ghost function Reachable(w: World, defs: map<ClassId, Schema>, a: ObjId): set<ObjId>
  {
    set b | b in w.heap.Keys && Reaches(w, defs, a, b)
  }

  /** `v` is an instance whose schema is cached and whose references are in `s`. */
  ghost predicate Inside(w: World, defs: map<ClassId, Schema>, v: ObjId, s: set<ObjId>)
  {
    v in w.heap && ChildrenIn(w, defs, v, s)
  }

  /** Every instance of `s` has its schema cached and its references in `s`. */
  ghost predicate Closed(w: World, defs: map<ClassId, Schema>, s: set<ObjId>)
  {
    forall v {:trigger Inside(w, defs, v, s)} :: v in s ==> Inside(w, defs, v, s)
  }

  lemma ReachesSelf(w: World, defs: map<ClassId, Schema>, a: ObjId)
    ensures Reaches(w, defs, a, a)
  {
    assert IsPath(w, defs, [a]);
  }

  /** A reference from `a` to `c`, followed by a path from `c`. */
  lemma ReachesStep(w: World, defs: map<ClassId, Schema>, a: ObjId, c: ObjId, b: ObjId)
    requires c in Children(w, defs, a) && Reaches(w, defs, c, b)
    ensures Reaches(w, defs, a, b)
  {
    var p :| IsPath(w, defs, p) && p[0] == c && p[|p| - 1] == b;
    var q := [a] + p;
    forall i | 0 <= i < |q| - 1
      ensures q[i + 1] in Children(w, defs, q[i])
    {
      if i > 0 {
        assert q[i] == p[i - 1] && q[i + 1] == p[i];
      }
    }
    assert IsPath(w, defs, q) && q[|q| - 1] == b;
  }

  /** A path to `b`, followed by a reference from `b` to `c`. */
  lemma ReachesAppend(w: World, defs: map<ClassId, Schema>, a: ObjId, b: ObjId, c: ObjId)
    requires Reaches(w, defs, a, b) && c in Children(w, defs, b)
    ensures Reaches(w, defs, a, c)
  {
    var p :| IsPath(w, defs, p) && p[0] == a && p[|p| - 1] == b;
    var q := p + [c];
    forall i | 0 <= i < |q| - 1
      ensures q[i + 1] in Children(w, defs, q[i])
    {
      if i < |p| - 1 {
        assert q[i] == p[i] && q[i + 1] == p[i + 1];
      }
    }
    assert IsPath(w, defs, q) && q[0] == a && q[|q| - 1] == c;
  }

  /** Caching more schemas keeps every reference of an instance whose schema was cached. */
  lemma ChildrenKept(w: World, defs0: map<ClassId, Schema>, defs1: map<ClassId, Schema>, v: ObjId)
    requires Extends(defs0, defs1)
    ensures Children(w, defs0, v) <= Children(w, defs1, v)
  {
  }

  /** Caching more schemas keeps every path. */
  lemma ReachesExtends(w: World, defs0: map<ClassId, Schema>, defs1: map<ClassId, Schema>, a: ObjId, b: ObjId)
    requires Extends(defs0, defs1) && Reaches(w, defs0, a, b)
    ensures Reaches(w, defs1, a, b)
  {
    var p :| IsPath(w, defs0, p) && p[0] == a && p[|p| - 1] == b;
    forall i | 0 <= i < |p| - 1
      ensures p[i + 1] in Children(w, defs1, p[i])
    {
      assert p[i + 1] in Children(w, defs0, p[i]);
    }
    assert IsPath(w, defs1, p);
  }

  lemma {:induction false} ClosedPath(w: World, defs: map<ClassId, Schema>, s: set<ObjId>, p: seq<ObjId>, n: nat)
    requires Closed(w, defs, s) && IsPath(w, defs, p) && p[0] in s && n < |p|
    ensures p[n] in s
  {
    if n > 0 {
      ClosedPath(w, defs, s, p, n - 1);
      var v := p[n - 1];
      assert Inside(w, defs, v, s);
      assert p[n] in Targets(References(w, defs[ClassOf(w, v)], v));
      var k :| 0 <= k < |References(w, defs[ClassOf(w, v)], v)| && References(w, defs[ClassOf(w, v)], v)[k].Visited?
        && References(w, defs[ClassOf(w, v)], v)[k].value == Some(p[n]);
    }
  }

  /** A closed set holds everything reachable from its members. */
  lemma ClosedReachable(w: World, defs: map<ClassId, Schema>, s: set<ObjId>, a: ObjId)
    requires Closed(w, defs, s) && a in s
    ensures Reachable(w, defs, a) <= s
  {
    forall b | b in Reachable(w, defs, a)
      ensures b in s
    {
      var p :| IsPath(w, defs, p) && p[0] == a && p[|p| - 1] == b;
      ClosedPath(w, defs, s, p, |p| - 1);
    }
  }

  lemma ClosedGrows(w: World, defs0: map<ClassId, Schema>, defs1: map<ClassId, Schema>, s: set<ObjId>)
    requires Closed(w, defs0, s) && Extends(defs0, defs1)
    ensures Closed(w, defs1, s)
  {
    forall v | v in s
      ensures Inside(w, defs1, v, s)
    {
      assert Inside(w, defs0, v, s);
      assert defs1[ClassOf(w, v)] == defs0[ClassOf(w, v)];
    }
  }

  lemma ClosedUnion(w: World, defs: map<ClassId, Schema>, s: set<ObjId>, t: set<ObjId>)
    requires Closed(w, defs, s) && Closed(w, defs, t)
    ensures Closed(w, defs, s + t)
  {
    forall v | v in s + t
      ensures Inside(w, defs, v, s + t)
    {
      if v in s {
        assert Inside(w, defs, v, s);
      } else {
        assert Inside(w, defs, v, t);
      }
    }
  }

  /** Every instance reachable from a non-null value that the static traces
      of `sources` report is in `objs`. */
  ghost predicate DeepSeeded(w: World, defs: map<ClassId, Schema>, sources: seq<ClassId>, filter: Field -> bool, objs: set<ObjId>)
  {
    forall k, e :: 0 <= k < |sources| && w.ValidClass(sources[k]) && e in StaticTrace(w, sources[k], filter) ==>
      (e.Visited? && e.value.Some? ==> Reachable(w, defs, e.value.value) <= objs)
  }

  /** Values seeded into a closed set of registered instances bring their
      whole trees with them. */
  lemma SeededClosed(w: World, defs: map<ClassId, Schema>, sources: seq<ClassId>, filter: Field -> bool,
                     tree: set<ObjId>, objs: set<ObjId>)
    requires Seeded(w, sources, filter, tree) && Closed(w, defs, tree) && tree <= objs
    ensures DeepSeeded(w, defs, sources, filter, objs)
  {
    forall k, e | 0 <= k < |sources| && w.ValidClass(sources[k]) && e in StaticTrace(w, sources[k], filter)
                  && e.Visited? && e.value.Some?
      ensures Reachable(w, defs, e.value.value) <= objs
    {
      ClosedReachable(w, defs, tree, e.value.value);
    }
  }

  class Environment {
    /** The VM snapshot every schema and every instance comes from. */
    const w: World
    /** `definitions`: the schema cache, filled on the first `getSchema` of a type. */
    var definitions: map<ClassId, Schema>
    var globalClasses: set<ClassId>
    var globalAnnotations: map<ClassId, AnnotationFilter>
    /** The keys of the identity map `globalObjects`. */
    var globalObjects: set<ObjId>
    var staticFieldPolicy: StaticFieldPolicy

    ghost predicate Valid()
      reads this
    {
      CachedSchemas(w, definitions) && globalObjects <= w.heap.Keys
    }

    /** The registries the field filters consult, as a value. */
    function Snapshot(): Registry
      reads this
    {
      Registry(globalClasses, globalAnnotations)
    }

    /** What every seeding operation promises: cached schemas stay as they
        are, registered instances stay registered, and the registries and the
        policy are not touched. */
    ghost predicate Evolved(defs0: map<ClassId, Schema>, objs0: set<ObjId>, reg0: Registry, policy0: StaticFieldPolicy)
      reads this
    {
      && Extends(defs0, definitions)
      && objs0 <= globalObjects
      && Snapshot() == reg0
      && staticFieldPolicy == policy0
    }

    /** The classes whose schema is not cached yet; seeding recursion ends
        because each nested `getSchema` that does work shrinks this set. */
    ghost function Unregistered(): set<ClassId>
      reads this
    {
      Range(|w.classes|) - definitions.Keys
    }

    /** The instance initializer: `Global` is a marker that always applies,
        and the policy is `FULL_TREE`. */
    constructor(w: World)
      ensures this.w == w && Valid()
      ensures definitions == map[] && globalClasses == {} && globalObjects == {}
      ensures globalAnnotations == map[w.globalMarker := DontMeasure()]
      ensures staticFieldPolicy == FullTree
    {
      this.w := w;
      definitions := map[];
      globalClasses := {};
      var markers: map<ClassId, AnnotationFilter> := map[w.globalMarker := DontMeasure()];
      globalAnnotations := markers;
      globalObjects := {};
      staticFieldPolicy := FullTree;
    }

    method SetStaticFieldPolicy(policy: StaticFieldPolicy)
      modifies this
      ensures staticFieldPolicy == policy
      ensures definitions == old(definitions) && globalObjects == old(globalObjects) && Snapshot() == old(Snapshot())
    {
      staticFieldPolicy := policy;
    }

    /** `addGlobalType(g)`. */
    method AddGlobalType(g: ClassId)
      modifies this
      ensures globalClasses == old(globalClasses) + {g}
      ensures definitions == old(definitions) && globalObjects == old(globalObjects)
      ensures globalAnnotations == old(globalAnnotations) && staticFieldPolicy == old(staticFieldPolicy)
    {
      globalClasses := globalClasses + {g};
    }

    /** `addGlobalAnnotation(g, filter)`; the one-argument form passes `DONT_MEASURE`. */
    method AddGlobalAnnotation(g: ClassId, filter: AnnotationFilter)
      modifies this
      ensures globalAnnotations == old(globalAnnotations)[g := filter]
      ensures definitions == old(definitions) && globalObjects == old(globalObjects)
      ensures globalClasses == old(globalClasses) && staticFieldPolicy == old(staticFieldPolicy)
    {
      globalAnnotations := globalAnnotations[g := filter];
    }

    /** `getSchema(type, policy)`: a cached schema is returned as it is and
        nothing else happens. Otherwise the schema is built with
        `allowOnlyNonGlobal`, cached, and only then are the static fields of
        the type used to seed global instances; nested requests for the same
        type during that seeding find the cached schema. */
    method GetSchema(cls: ClassId, policy: StaticFieldPolicy) returns (cs: Schema)
      requires Valid() && w.ValidClass(cls)
      modifies this
      ensures Valid()
      ensures Evolved(old(definitions), old(globalObjects), old(Snapshot()), old(staticFieldPolicy))
      ensures cls in definitions && cs == definitions[cls]
      ensures old(cls in definitions) ==>
        cs == old(definitions[cls]) && definitions == old(definitions) && globalObjects == old(globalObjects)
      ensures !old(cls in definitions) ==> cs == SchemaFor(w, cls, AllowOnlyNonGlobal(w, old(Snapshot())))
      ensures !old(cls in definitions) ==> Seeded(w, SeedSources(cls), FilterStatics(policy, w, old(Snapshot())), globalObjects)
      ensures !old(cls in definitions) && policy == FullTree ==>
        DeepSeeded(w, definitions, SeedSources(cls), FilterStatics(policy, w, old(Snapshot())), globalObjects)
      decreases Unregistered(), 10, w.heap.Keys, 0
    {
      if cls in definitions {
        return definitions[cls];
      }
      cs := CreateSchemaFor(w, cls, AllowOnlyNonGlobal(w, Snapshot()));
      SchemaForIsSchema(w, cls, AllowOnlyNonGlobal(w, Snapshot()));
      ghost var unregistered := Unregistered();
      assert cls in unregistered;
      definitions := definitions[cls := cs];
      assert cls !in Unregistered() && Unregistered() <= unregistered;
      AddGlobalObjectsFrom(cls, policy);
    }

    /** `addGlobalInstance(g)`: `null` changes nothing; otherwise the instance
        is registered and its class is registered (which may seed statics). */
    method AddGlobalInstance(g: Ref)
      requires Valid() && (g.Some? ==> g.value in w.heap)
      modifies this
      ensures Valid()
      ensures Evolved(old(definitions), old(globalObjects), old(Snapshot()), old(staticFieldPolicy))
      ensures g.None? ==> definitions == old(definitions) && globalObjects == old(globalObjects)
      ensures g.Some? ==> g.value in globalObjects && ClassOf(w, g.value) in definitions
      decreases Unregistered(), 20, w.heap.Keys, 0
    {
      if g.Some? {
        globalObjects := globalObjects + {g.value};
        var _ := GetSchema(ClassOf(w, g.value), staticFieldPolicy);
      }
    }

    /** The seeding sources of `addGlobalObjectsFrom(type, policy)`: the type
        itself, then the member classes declared by the type and by each of
        its superclasses. */
    ghost function SeedSources(cls: ClassId): (r: seq<ClassId>)
      requires w.ValidClass(cls)
      ensures forall k :: 0 <= k < |r| ==> w.ValidClass(r[k])
    {
      assert w.ValidClassInfo(cls);
      [cls] + DeclaredAlongChain(cls)
    }

    ghost function DeclaredAlongChain(cls: ClassId): (r: seq<ClassId>)
      requires w.ValidClass(cls)
      ensures forall k :: 0 <= k < |r| ==> w.ValidClass(r[k])
      decreases cls
    {
      assert w.ValidClassInfo(cls);
      w.classes[cls].declaredClasses
        + if w.classes[cls].superclass.Some? then DeclaredAlongChain(w.classes[cls].superclass.value) else []
    }

    /** `addGlobalObjectsFrom(type, policy)`: the static fields of the type and
        of the member classes of the type and of its superclasses go through
        the policy's filter, and the values of the selected fields go to the
        policy's callback. Every non-null selected value ends up registered,
        and under `FULL_TREE` so does every instance reachable from one. */
    method AddGlobalObjectsFrom(cls: ClassId, policy: StaticFieldPolicy)
      requires Valid() && w.ValidClass(cls)
      modifies this
      ensures Valid()
      ensures Evolved(old(definitions), old(globalObjects), old(Snapshot()), old(staticFieldPolicy))
      ensures Seeded(w, SeedSources(cls), FilterStatics(policy, w, old(Snapshot())), globalObjects)
      ensures policy == FullTree ==>
        DeepSeeded(w, definitions, SeedSources(cls), FilterStatics(policy, w, old(Snapshot())), globalObjects)
      decreases Unregistered(), 70, w.heap.Keys, 0
    {
      var sources := [cls];
      var c: Option<ClassId> := Some(cls);
      while c.Some?
        invariant c.Some? ==> w.ValidClass(c.value)
        invariant sources + (if c.Some? then DeclaredAlongChain(c.value) else []) == SeedSources(cls)
        decreases if c.Some? then c.value + 1 else 0
      {
        assert w.ValidClassInfo(c.value);
        sources := sources + w.classes[c.value].declaredClasses;
        c := w.classes[c.value].superclass;
      }
      assert sources + [] == sources;
      SeedAll(sources, FilterStatics(policy, w, Snapshot()), AddToGlobalsCallback(policy));
    }

    /** The static traces of `sources`, one class after the other, each handed to `setter`. */
    method SeedAll(sources: seq<ClassId>, filter: Field -> bool, setter: GlobalSetter)
      requires Valid() && forall k :: 0 <= k < |sources| ==> w.ValidClass(sources[k])
      modifies this
      ensures Valid()
      ensures Evolved(old(definitions), old(globalObjects), old(Snapshot()), old(staticFieldPolicy))
      ensures Seeded(w, sources, filter, globalObjects)
      ensures setter == DeepGlobalSetter ==> DeepSeeded(w, definitions, sources, filter, globalObjects)
      decreases Unregistered(), 60, w.heap.Keys, 0
    {
      ghost var tree: set<ObjId> := {};
      var i := 0;
      while i < |sources|
        invariant 0 <= i <= |sources|
        invariant Valid()
        invariant Evolved(old(definitions), old(globalObjects), old(Snapshot()), old(staticFieldPolicy))
        invariant Seeded(w, sources[..i], filter, globalObjects)
        invariant Closed(w, definitions, tree) && tree <= globalObjects
        invariant setter == DeepGlobalSetter ==> Seeded(w, sources[..i], filter, tree)
      {
        tree := SeedNext(sources, i, filter, setter, tree);
        i := i + 1;
      }
      assert sources[..i] == sources;
      if setter == DeepGlobalSetter {
        SeededClosed(w, definitions, sources, filter, tree, globalObjects);
      }
    }

    /** One turn of the loop of `SeedAll`: the static trace of `sources[i]`. */
    method SeedNext(sources: seq<ClassId>, i: nat, filter: Field -> bool, setter: GlobalSetter, ghost tree: set<ObjId>)
      returns (ghost tree': set<ObjId>)
      requires Valid() && i < |sources| && forall k :: 0 <= k < |sources| ==> w.ValidClass(sources[k])
      requires Seeded(w, sources[..i], filter, globalObjects)
      requires Closed(w, definitions, tree) && tree <= globalObjects
      requires setter == DeepGlobalSetter ==> Seeded(w, sources[..i], filter, tree)
      modifies this
      ensures Valid()
      ensures Evolved(old(definitions), old(globalObjects), old(Snapshot()), old(staticFieldPolicy))
      ensures Seeded(w, sources[..i + 1], filter, globalObjects)
      ensures Closed(w, definitions, tree') && tree' <= globalObjects
      ensures setter == DeepGlobalSetter ==> Seeded(w, sources[..i + 1], filter, tree')
      decreases Unregistered(), 55, w.heap.Keys, 0
    {
      var trace := IterateStatic(w, sources[i], filter);
      StaticTraceInHeap(w, sources[i], filter);
      ghost var objs0, defs0 := globalObjects, definitions;
      ghost var sub := Seed(trace, setter);
      SeededGrows(w, sources[..i], filter, objs0, globalObjects);
      ClosedGrows(w, defs0, definitions, tree);
      ClosedUnion(w, definitions, tree, sub);
      if setter == DeepGlobalSetter {
        SeededGrows(w, sources[..i], filter, tree, tree + sub);
      }
      tree' := tree + sub;
      assert sources[..i + 1] == sources[..i] + [sources[i]];
    }

    /** Hands every visited value of a trace to a global setter:
        `directGlobalSetter.visit` registers the value, `deepGlobalSetter.visit`
        runs `iterateDeep(value, directGlobalSetter)`, which registers every
        instance reachable from the value. `tree` is the closed set of
        instances the deep setter registered. */
    method Seed(trace: seq<Event>, setter: GlobalSetter) returns (ghost tree: set<ObjId>)
      requires Valid()
      requires forall e :: e in trace && e.Visited? && e.value.Some? ==> e.value.value in w.heap
      modifies this
      ensures Valid()
      ensures Evolved(old(definitions), old(globalObjects), old(Snapshot()), old(staticFieldPolicy))
      ensures forall e :: e in trace && e.Visited? && e.value.Some? ==> e.value.value in globalObjects
      ensures Closed(w, definitions, tree) && tree <= globalObjects
      ensures setter == DeepGlobalSetter ==> forall e :: e in trace && e.Visited? && e.value.Some? ==> e.value.value in tree
      ensures setter == DeepGlobalSetter ==>
        forall e :: e in trace && e.Visited? && e.value.Some? ==> Reachable(w, definitions, e.value.value) <= globalObjects
      decreases Unregistered(), 50, w.heap.Keys, 0
    {
      tree := {};
      var i := 0;
      while i < |trace|
        invariant 0 <= i <= |trace|
        invariant Valid()
        invariant Evolved(old(definitions), old(globalObjects), old(Snapshot()), old(staticFieldPolicy))
        invariant TargetsIn(trace[..i], globalObjects)
        invariant Closed(w, definitions, tree) && tree <= globalObjects
        invariant setter == DeepGlobalSetter ==> TargetsIn(trace[..i], tree)
      {
        ghost var objs0, tree0 := globalObjects, tree;
        tree := SeedOne(trace[i], setter, tree);
        TargetsInStep(trace, i, objs0, globalObjects);
        if setter == DeepGlobalSetter {
          TargetsInStep(trace, i, tree0, tree);
        }
        i := i + 1;
      }
      assert trace[..i] == trace;
      if setter == DeepGlobalSetter {
        forall e | e in trace && e.Visited? && e.value.Some?
          ensures Reachable(w, definitions, e.value.value) <= globalObjects
        {
          ClosedReachable(w, definitions, tree, e.value.value);
        }
      }
    }

    /** `setter.visit(refName, value)` for one event of a trace. */
    method SeedOne(e: Event, setter: GlobalSetter, ghost tree: set<ObjId>) returns (ghost tree': set<ObjId>)
      requires Valid() && (e.Visited? && e.value.Some? ==> e.value.value in w.heap)
      requires Closed(w, definitions, tree) && tree <= globalObjects
      modifies this
      ensures Valid()
      ensures Evolved(old(definitions), old(globalObjects), old(Snapshot()), old(staticFieldPolicy))
      ensures e.Visited? && e.value.Some? ==> e.value.value in globalObjects
      ensures Closed(w, definitions, tree') && tree <= tree' <= globalObjects
      ensures setter == DeepGlobalSetter && e.Visited? && e.value.Some? ==> e.value.value in tree'
      decreases Unregistered(), 48, w.heap.Keys, 0
    {
      tree' := tree;
      if e.Visited? {
        if setter == DirectGlobalSetter {
          ghost var defs0 := definitions;
          AddGlobalInstance(e.value);
          ClosedGrows(w, defs0, definitions, tree);
        } else {
          tree' := SeedDeep(e.value, tree);
        }
      }
    }

    /** `deepGlobalSetter.visit(refName, value)`: `iterateDeep(value,
        directGlobalSetter)`; the instances it registers join `tree`. */
    method SeedDeep(value: Ref, ghost tree: set<ObjId>) returns (ghost tree': set<ObjId>)
      requires Valid() && (value.Some? ==> value.value in w.heap)
      requires Closed(w, definitions, tree) && tree <= globalObjects
      modifies this
      ensures Valid()
      ensures Evolved(old(definitions), old(globalObjects), old(Snapshot()), old(staticFieldPolicy))
      ensures Closed(w, definitions, tree') && tree <= tree' <= globalObjects
      ensures value.Some? ==> value.value in tree'
      decreases Unregistered(), 45, w.heap.Keys, 0
    {
      ghost var defs0 := definitions;
      var calls := IterateDeep(value, DirectGlobalSetter);
      ClosedGrows(w, defs0, definitions, tree);
      ghost var reached := set u | u in calls;
      tree' := tree + reached;
      ClosedUnion(w, definitions, tree, reached);
    }

    /** `iterateDeep(instance, fc)`: a fresh `visited` map that already holds
        `null`, then the walk. The callback is called once for the start (if
        not `null`) and once for every other instance reached through the
        references of cached schemas, never twice for one instance: the
        instances called are exactly those reachable from the start, and
        they are all registered. */
    method IterateDeep(instance: Ref, fc: GlobalSetter) returns (calls: seq<ObjId>)
      requires Valid() && (instance.Some? ==> instance.value in w.heap)
      modifies this
      ensures Valid()
      ensures Evolved(old(definitions), old(globalObjects), old(Snapshot()), old(staticFieldPolicy))
      ensures instance.None? ==> calls == [] && definitions == old(definitions) && globalObjects == old(globalObjects)
      ensures instance.Some? ==> |calls| >= 1 && calls[0] == instance.value
      ensures Distinct(calls)
      ensures forall v :: v in calls ==> v in w.heap && v in globalObjects && ChildrenIn(w, definitions, v, set u | u in calls)
      ensures instance.Some? ==> (set u | u in calls) == Reachable(w, definitions, instance.value)
      decreases Unregistered(), if fc == DeepGlobalSetter then 60 else 40, w.heap.Keys, 0
    {
      var visited;
      visited, calls := IterateDeepFrom(instance, fc, {});
      assert visited == set u | u in calls;
      if instance.Some? {
        ClosedReachable(w, definitions, visited, instance.value);
      }
    }

    /** The private `iterateDeep(instance, fc, deepIterator, visited)`: stop at
        an instance already visited; otherwise mark it, call `fc.visit("#",
        instance)`, fetch its schema and walk its references. */
    method IterateDeepFrom(instance: Ref, fc: GlobalSetter, visited: set<ObjId>) returns (visitedOut: set<ObjId>, calls: seq<ObjId>)
      requires Valid() && visited <= w.heap.Keys && (instance.Some? ==> instance.value in w.heap)
      modifies this
      ensures Valid()
      ensures Evolved(old(definitions), old(globalObjects), old(Snapshot()), old(staticFieldPolicy))
      ensures visited <= visitedOut <= w.heap.Keys
      ensures instance.Some? ==> instance.value in visitedOut
      ensures instance.None? || instance.value in visited ==>
        visitedOut == visited && calls == [] && definitions == old(definitions) && globalObjects == old(globalObjects)
      ensures instance.Some? && instance.value !in visited ==> |calls| >= 1 && calls[0] == instance.value
      ensures Distinct(calls)
      ensures forall v :: v in calls <==> v in visitedOut && v !in visited
      ensures forall v :: v in calls ==> v in globalObjects && ChildrenIn(w, definitions, v, visitedOut)
      ensures instance.Some? ==> forall v :: v in calls ==> Reaches(w, definitions, instance.value, v)
      decreases Unregistered(), if fc == DeepGlobalSetter then 50 else 30, w.heap.Keys - visited, 2
    {
      if instance.None? || instance.value in visited {
        return visited, [];
      }
      var o := instance.value;
      var cs := Enter(o, fc);
      ghost var defs0 := definitions;
      visitedOut, calls := WalkReferences(o, cs, fc, visited);
      ExtendsTransitive(old(definitions), defs0, definitions);
    }

    /** The loop of the walk over the references of a newly visited `o`,
        each walked with the same `visited` map. */
    method WalkReferences(o: ObjId, cs: Schema, fc: GlobalSetter, visited: set<ObjId>) returns (visitedOut: set<ObjId>, calls: seq<ObjId>)
      requires Valid() && visited <= w.heap.Keys && o in w.heap && o !in visited && o in globalObjects
      requires ClassOf(w, o) in definitions && definitions[ClassOf(w, o)] == cs
      requires TargetsIn(References(w, cs, o), w.heap.Keys)
      modifies this
      ensures Valid()
      ensures Evolved(old(definitions), old(globalObjects), old(Snapshot()), old(staticFieldPolicy))
      ensures visited + {o} <= visitedOut <= w.heap.Keys
      ensures |calls| >= 1 && calls[0] == o
      ensures Distinct(calls)
      ensures forall v :: v in calls <==> v in visitedOut && v !in visited
      ensures forall v :: v in calls ==> v in globalObjects && ChildrenIn(w, definitions, v, visitedOut)
      ensures forall v :: v in calls ==> Reaches(w, definitions, o, v)
      decreases Unregistered(), if fc == DeepGlobalSetter then 50 else 30, w.heap.Keys - visited, 1
    {
      var refs := References(w, cs, o);
      visitedOut := visited + {o};
      calls := [o];
      ReachesSelf(w, definitions, o);
      var i := 0;
      while i < |refs|
        invariant 0 <= i <= |refs|
        invariant Valid()
        invariant Evolved(old(definitions), old(globalObjects), old(Snapshot()), old(staticFieldPolicy))
        invariant ClassOf(w, o) in definitions && definitions[ClassOf(w, o)] == cs
        invariant Walked(w, definitions, globalObjects, visited, visitedOut, o, calls)
        invariant TargetsIn(refs[..i], visitedOut)
      {
        ghost var seen0 := visitedOut;
        if refs[i].Visited? && refs[i].value.Some? {
          assert refs[i].value.value in Targets(refs);
        }
        visitedOut, calls := WalkOne(o, refs[i].value, fc, visited, visitedOut, calls);
        TargetsInStep(refs, i, seen0, visitedOut);
        i := i + 1;
      }
      assert refs[..i] == refs;
      WalkedDone(w, definitions, globalObjects, visited, visitedOut, o, calls);
    }

    /** One iteration of the walk's loop: the nested walk from `child`, its
        instances appended to those walked so far. */
    method WalkOne(o: ObjId, child: Ref, fc: GlobalSetter, visited: set<ObjId>, seen: set<ObjId>, calls: seq<ObjId>)
      returns (seen': set<ObjId>, calls': seq<ObjId>)
      requires Valid() && (child.Some? ==> child.value in w.heap && child.value in Children(w, definitions, o)) && o !in visited
      requires Walked(w, definitions, globalObjects, visited, seen, o, calls)
      modifies this
      ensures Valid()
      ensures Evolved(old(definitions), old(globalObjects), old(Snapshot()), old(staticFieldPolicy))
      ensures seen <= seen' && (child.Some? ==> child.value in seen')
      ensures Walked(w, definitions, globalObjects, visited, seen', o, calls')
      decreases Unregistered(), if fc == DeepGlobalSetter then 50 else 30, w.heap.Keys - (seen - {o}), 0
    {
      ghost var defs0, objs0 := definitions, globalObjects;
      var sub;
      seen', sub := IterateDeepFrom(child, fc, seen);
      if child.Some? {
        assert defs0[ClassOf(w, o)] == definitions[ClassOf(w, o)];
        forall v | v in sub
          ensures Reaches(w, definitions, o, v)
        {
          ReachesStep(w, definitions, o, child.value, v);
        }
      }
      WalkedStep(w, defs0, definitions, objs0, globalObjects, visited, seen, seen', o, calls, sub);
      calls' := calls + sub;
    }

    /** The first steps of the walk at a new instance: `fc.visit("#",
        instance)`, then the instance's schema. */
    method Enter(o: ObjId, fc: GlobalSetter) returns (cs: Schema)
      requires Valid() && o in w.heap
      modifies this
      ensures Valid()
      ensures Evolved(old(definitions), old(globalObjects), old(Snapshot()), old(staticFieldPolicy))
      ensures o in globalObjects && ClassOf(w, o) in definitions && definitions[ClassOf(w, o)] == cs
      ensures TargetsIn(References(w, cs, o), w.heap.Keys)
      decreases Unregistered(), if fc == DeepGlobalSetter then 45 else 25, w.heap.Keys, 0
    {
      if fc == DirectGlobalSetter {
        AddGlobalInstance(Some(o));
      } else {
        var _ := IterateDeep(Some(o), DirectGlobalSetter);
      }
      cs := GetSchema(ClassOf(w, o), staticFieldPolicy);
      ReferencesInHeap(w, cs, o);
    }

    /** `addFullGlobalTree(g)`: every instance reachable from `g` is registered
        as a global, and so is `g`. */
    method AddFullGlobalTree(g: Ref)
      requires Valid() && (g.Some? ==> g.value in w.heap)
      modifies this
      ensures Valid()
      ensures Evolved(old(definitions), old(globalObjects), old(Snapshot()), old(staticFieldPolicy))
      ensures g.Some? ==> g.value in globalObjects && Reachable(w, definitions, g.value) <= globalObjects
      decreases Unregistered(), 80, w.heap.Keys, 0
    {
      var calls := IterateDeep(g, DeepGlobalSetter);
      ghost var defs0 := definitions;
      AddGlobalInstance(g);
      if g.Some? {
        ghost var tree := set u | u in calls;
        ClosedGrows(w, defs0, definitions, tree);
        ClosedReachable(w, definitions, tree, g.value);
      }
    }
  }
}
