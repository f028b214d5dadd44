/** `Collector`: measures a graph of instances depth-first from each root,
    counting every instance once per measurement, with one `ClassCollector`
    per exact runtime class. `Environment.sizeOf` lives here as `SizeOf`,
    since it builds a `Collector`. */
module Collector {
  import opened Lang
  import opened World
  import opened ClassSchema
  import opened Globals
  import opened ClassCollectors
  import opened Sequences
  import opened ClassStats
  import Env = Environment
  import StaticFieldPolicy

  /** The flat sizes of a sequence of instances, added up. */
  function SumFlat(w: World, os: seq<ObjId>): int
    requires forall k :: 0 <= k < |os| ==> os[k] in w.heap
  {
    if os == [] then 0 else SumFlat(w, os[..|os| - 1]) + FlatSize(w, os[|os| - 1])
  }

  lemma SumFlatSnoc(w: World, os: seq<ObjId>, o: ObjId)
    requires forall k :: 0 <= k < |os| ==> os[k] in w.heap
    requires o in w.heap
    ensures SumFlat(w, os + [o]) == SumFlat(w, os) + FlatSize(w, o)
  {
    assert (os + [o])[..|os|] == os;
  }

  /** The running totals of a measurement: `totalSize` and `instanceCount`
      account for exactly the instances measured so far. */
  ghost predicate Sized(w: World, measured: seq<ObjId>, totalSize: int, instanceCount: int)
  {
    && (forall k :: 0 <= k < |measured| ==> measured[k] in w.heap)
    && totalSize == SumFlat(w, measured)
    && instanceCount == |measured|
  }

  /** Each counted instance has been measured exactly once, besides the
      `extras`; `pending` are the instances whose count was just taken and
      whose measurement is under way. */
  ghost predicate BalancedIn(w: World, colls: map<ClassId, ClassCollector>, measured: seq<ObjId>,
                             extras: multiset<ObjId>, pending: multiset<ObjId>)
  {
    multiset(measured) + pending == multiset(Counted(w, colls)) + extras
  }

  /** Sizing one more instance: the totals follow, and the instance leaves
      `pending` (or joins the extras, for a root). */
  lemma AccountKeeps(w: World, colls: map<ClassId, ClassCollector>, measured: seq<ObjId>, totalSize: int, instanceCount: int,
                     extras: multiset<ObjId>, pending: multiset<ObjId>, o: ObjId, schema: Schema, root: bool)
    requires Sized(w, measured, totalSize, instanceCount)
    requires o in w.heap && IsSchemaFor(w, ClassOf(w, o), schema)
    requires BalancedIn(w, colls, measured, extras, if root then pending else pending + multiset{o})
    ensures Sized(w, measured + [o], totalSize + ShallowSize(w, schema, Some(w.heap[o])), instanceCount + 1)
    ensures BalancedIn(w, colls, measured + [o], extras + (if root then multiset{o} else multiset{}), pending)
  {
    ShallowSizeIsFlatSize(w, o, schema);
    SumFlatSnoc(w, measured, o);
    assert multiset(measured + [o]) == multiset(measured) + multiset{o};
    var counted := multiset(Counted(w, colls));
    if root {
      calc {
        multiset(measured + [o]) + pending;
        multiset(measured) + pending + multiset{o};
        counted + extras + multiset{o};
      }
    } else {
      calc {
        multiset(measured + [o]) + pending;
        multiset(measured) + (pending + multiset{o});
        counted + extras;
      }
    }
  }

  /** `execute`'s bookkeeping in the collector of the instance's class keeps
      the collectors valid and of the same kinds; the instance gets an entry,
      and when it had none it is now counted and its measurement pending. */
  lemma ExecuteKeeps(w: World, colls: map<ClassId, ClassCollector>, specific: set<ClassId>, o: ObjId, calcGlobal: bool,
                     measured: seq<ObjId>, extras: multiset<ObjId>, pending: multiset<ObjId>)
    requires CollectorsValid(w, colls) && KindsMatch(colls, specific)
    requires o in w.heap && ClassOf(w, o) in colls
    requires BalancedIn(w, colls, measured, extras, pending)
    ensures var cc := colls[ClassOf(w, o)];
      var colls' := colls[ClassOf(w, o) := ExecuteStep(cc, o, calcGlobal).0];
      var known := o in cc.instancesToRefCounts;
      && CollectorsValid(w, colls') && KindsMatch(colls', specific)
      && IsSchemaFor(w, ClassOf(w, o), cc.schema)
      && Keys(w, colls') == Keys(w, colls) + {o}
      && (known <==> o in Keys(w, colls))
      && (!known ==> ExecuteStep(cc, o, calcGlobal).1)
      && (known && ExecuteStep(cc, o, calcGlobal).1 ==> calcGlobal)
      && BalancedIn(w, colls', measured, extras, if known then pending else pending + multiset{o})
  {
    var c := ClassOf(w, o);
    var cc := colls[c];
    CollectorOf(w, colls, c);
    ExecuteEntries(w, colls, o, calcGlobal);
    KindsMatchUpdate(colls, specific, c, ExecuteStep(cc, o, calcGlobal).0);
    var counted := Counted(w, colls);
    if o !in cc.instancesToRefCounts {
      MultisetAddFresh(counted, o);
      calc {
        multiset(measured) + (pending + multiset{o});
        multiset(measured) + pending + multiset{o};
        multiset(counted) + extras + multiset{o};
        multiset(counted) + multiset{o} + extras;
        multiset(counted + {o}) + extras;
      }
    }
  }

  /** `ref`'s tally in the collector of `c` changes no entry: the
      collectors stay valid and of the same kinds, and every count stays. */
  lemma TallyKeeps(w: World, colls: map<ClassId, ClassCollector>, specific: set<ClassId>, c: ClassId, refName: string,
                   measured: seq<ObjId>, extras: multiset<ObjId>, pending: multiset<ObjId>)
    requires CollectorsValid(w, colls) && KindsMatch(colls, specific) && c in colls
    requires BalancedIn(w, colls, measured, extras, pending)
    ensures var colls' := colls[c := colls[c].(referencedBy := Tally(colls[c].referencedBy, refName))];
      && CollectorsValid(w, colls') && KindsMatch(colls', specific)
      && Keys(w, colls') == Keys(w, colls)
      && BalancedIn(w, colls', measured, extras, pending)
  {
    TallyEntries(w, colls, c, refName);
    KindsMatchUpdate(colls, specific, c, colls[c].(referencedBy := Tally(colls[c].referencedBy, refName)));
  }

  /** The memory counting collectors are exactly those with a class-specific
      measurement. */
  ghost predicate KindsMatch(colls: map<ClassId, ClassCollector>, specific: set<ClassId>)
  {
    && specific <= colls.Keys
    && (forall c :: c in colls ==> (colls[c].kind == MemoryCounting <==> c in specific))
  }

  lemma KindsMatchAdd(colls: map<ClassId, ClassCollector>, specific: set<ClassId>, c: ClassId, cc: ClassCollector)
    requires KindsMatch(colls, specific) && c !in colls
    ensures KindsMatch(colls[c := cc], if cc.kind == MemoryCounting then specific + {c} else specific)
  {
  }

  lemma KindsMatchUpdate(colls: map<ClassId, ClassCollector>, specific: set<ClassId>, c: ClassId, cc: ClassCollector)
    requires KindsMatch(colls, specific) && c in colls && cc.kind == colls[c].kind
    ensures KindsMatch(colls[c := cc], specific)
  {
  }

  lemma MapValuesAdd<K, V>(m: map<K, V>, k: K, v: V)
    requires k !in m
    ensures m[k := v].Values == m.Values + {v}
  {
    forall x | x in m.Values + {v}
      ensures x in m[k := v].Values
    {
      if x != v {
        var j :| j in m && m[j] == x;
        assert m[k := v][j] == x;
      } else {
        assert m[k := v][k] == v;
      }
    }
  }

  lemma MultisetAddFresh(s: set<ObjId>, o: ObjId)
    requires o !in s
    ensures multiset(s + {o}) == multiset(s) + multiset{o}
  {
  }

  /** A collector made for class `c` in an environment with cached schemas
      `defs`, registries `reg` and registered instances `globals`: its schema
      is the cached one, it is global exactly when the class is, and only a
      registered instance has a `null` entry in it. */
  ghost predicate Made(w: World, c: ClassId, cc: ClassCollector, defs: map<ClassId, Schema>, reg: Registry, globals: set<ObjId>)
  {
    && w.ValidClass(c) && c in defs && cc.schema == defs[c]
    && (cc.kind == GlobalKind <==> IsGlobalClass(w, reg, c))
    && (forall o :: o in cc.instancesToRefCounts && cc.instancesToRefCounts[o].None? ==> o in globals)
  }

  /** Every collector of `colls` was made in that environment. */
  ghost predicate AllMade(w: World, colls: map<ClassId, ClassCollector>, defs: map<ClassId, Schema>, reg: Registry, globals: set<ObjId>)
  {
    forall c {:trigger Made(w, c, colls[c], defs, reg, globals)} :: c in colls ==> Made(w, c, colls[c], defs, reg, globals)
  }

  /** `colls1` is a later state of `colls0`: the old collectors persist and
      the new ones were made in the environment. */
  ghost predicate CollsGrew(w: World, colls0: map<ClassId, ClassCollector>, colls1: map<ClassId, ClassCollector>,
                            defs: map<ClassId, Schema>, reg: Registry, globals: set<ObjId>)
  {
    && AllPersist(colls0, colls1)
    && forall c {:trigger Made(w, c, colls1[c], defs, reg, globals)} ::
         c in colls1 && c !in colls0 ==> Made(w, c, colls1[c], defs, reg, globals)
  }

  lemma CollsGrewSelf(w: World, colls: map<ClassId, ClassCollector>, defs: map<ClassId, Schema>, reg: Registry, globals: set<ObjId>)
    ensures CollsGrew(w, colls, colls, defs, reg, globals)
  {
    forall c | c in colls
      ensures Persists(colls[c], colls[c])
    {
    }
  }

  /** A made collector stays made as it persists and the environment evolves. */
  lemma MadeKept(w: World, c: ClassId, cc0: ClassCollector, cc1: ClassCollector, defs0: map<ClassId, Schema>,
                 defs1: map<ClassId, Schema>, reg: Registry, globals0: set<ObjId>, globals1: set<ObjId>)
    requires Made(w, c, cc0, defs0, reg, globals0) && Persists(cc0, cc1)
    requires Env.Extends(defs0, defs1) && globals0 <= globals1
    ensures Made(w, c, cc1, defs1, reg, globals1)
  {
  }

  lemma CollsGrewTransitive(w: World, colls0: map<ClassId, ClassCollector>, colls1: map<ClassId, ClassCollector>,
                            colls2: map<ClassId, ClassCollector>, defs1: map<ClassId, Schema>, defs2: map<ClassId, Schema>,
                            reg: Registry, globals1: set<ObjId>, globals2: set<ObjId>)
    requires CollsGrew(w, colls0, colls1, defs1, reg, globals1) && CollsGrew(w, colls1, colls2, defs2, reg, globals2)
    requires Env.Extends(defs1, defs2) && globals1 <= globals2
    ensures CollsGrew(w, colls0, colls2, defs2, reg, globals2)
  {
    AllPersistTransitive(colls0, colls1, colls2);
    forall c | c in colls2 && c !in colls0
      ensures Made(w, c, colls2[c], defs2, reg, globals2)
    {
      if c in colls1 {
        PersistsOf(colls1, colls2, c);
        MadeKept(w, c, colls1[c], colls2[c], defs1, defs2, reg, globals1, globals2);
      }
    }
  }

  lemma AllMadeGrew(w: World, colls0: map<ClassId, ClassCollector>, colls1: map<ClassId, ClassCollector>,
                    defs0: map<ClassId, Schema>, defs1: map<ClassId, Schema>, reg: Registry,
                    globals0: set<ObjId>, globals1: set<ObjId>)
    requires AllMade(w, colls0, defs0, reg, globals0) && CollsGrew(w, colls0, colls1, defs1, reg, globals1)
    requires Env.Extends(defs0, defs1) && globals0 <= globals1
    ensures AllMade(w, colls1, defs1, reg, globals1)
  {
    forall c | c in colls1
      ensures Made(w, c, colls1[c], defs1, reg, globals1)
    {
      if c in colls0 {
        PersistsOf(colls0, colls1, c);
        MadeKept(w, c, colls0[c], colls1[c], defs0, defs1, reg, globals0, globals1);
      }
    }
  }

  /** A reference to `t` is taken care of: the collector of its class is
      global, or `t` has an entry. */
  ghost predicate Handled(w: World, colls: map<ClassId, ClassCollector>, t: ObjId)
  {
    && t in w.heap && ClassOf(w, t) in colls
    && (colls[ClassOf(w, t)].kind == GlobalKind || t in Keys(w, colls))
  }

  /** Every non-null reference among the first `n` of `es` is taken care of. */
  ghost predicate HandledUpTo(w: World, colls: map<ClassId, ClassCollector>, es: seq<Event>, n: int)
  {
    forall k {:trigger Handled(w, colls, es[k].value.value)} ::
      0 <= k < n && k < |es| && es[k].Visited? && es[k].value.Some? ==> Handled(w, colls, es[k].value.value)
  }

  /** Every non-null reference among `es` is taken care of. */
  ghost predicate AllHandled(w: World, colls: map<ClassId, ClassCollector>, es: seq<Event>)
  {
    HandledUpTo(w, colls, es, |es|)
  }

  /** `v` was expanded: every reference its class's schema exposes is taken care of. */
  ghost predicate Expanded(w: World, colls: map<ClassId, ClassCollector>, v: ObjId)
  {
    && v in w.heap && ClassOf(w, v) in colls
    && AllHandled(w, colls, References(w, colls[ClassOf(w, v)].schema, v))
  }

  /** Every instance measured from position `k0` on was expanded. */
  ghost predicate ExpandedFrom(w: World, colls: map<ClassId, ClassCollector>, measured: seq<ObjId>, k0: int)
  {
    forall k {:trigger Expanded(w, colls, measured[k])} :: 0 <= k0 <= k < |measured| ==> Expanded(w, colls, measured[k])
  }

  /** No entry is removed as collectors persist. */
  lemma KeysGrow(w: World, colls0: map<ClassId, ClassCollector>, colls1: map<ClassId, ClassCollector>)
    requires AllPersist(colls0, colls1)
    ensures Keys(w, colls0) <= Keys(w, colls1)
  {
    forall o | o in Keys(w, colls0)
      ensures o in Keys(w, colls1)
    {
      PersistsOf(colls0, colls1, ClassOf(w, o));
    }
  }

  /** What is taken care of stays so as collectors persist and gain entries. */
  lemma HandledKept(w: World, colls0: map<ClassId, ClassCollector>, colls1: map<ClassId, ClassCollector>, es: seq<Event>, n: int)
    requires AllPersist(colls0, colls1) && HandledUpTo(w, colls0, es, n)
    ensures HandledUpTo(w, colls1, es, n)
  {
    KeysGrow(w, colls0, colls1);
    forall k | 0 <= k < n && k < |es| && es[k].Visited? && es[k].value.Some?
      ensures Handled(w, colls1, es[k].value.value)
    {
      assert Handled(w, colls0, es[k].value.value);
      PersistsOf(colls0, colls1, ClassOf(w, es[k].value.value));
    }
  }

  lemma ExpandedKept(w: World, colls0: map<ClassId, ClassCollector>, colls1: map<ClassId, ClassCollector>,
                     measured: seq<ObjId>, k0: int)
    requires AllPersist(colls0, colls1) && ExpandedFrom(w, colls0, measured, k0)
    ensures ExpandedFrom(w, colls1, measured, k0)
  {
    KeysGrow(w, colls0, colls1);
    forall k | 0 <= k0 <= k < |measured|
      ensures Expanded(w, colls1, measured[k])
    {
      var v := measured[k];
      assert Expanded(w, colls0, measured[k]);
      PersistsOf(colls0, colls1, ClassOf(w, v));
      var es := References(w, colls0[ClassOf(w, v)].schema, v);
      HandledKept(w, colls0, colls1, es, |es|);
    }
  }

  /** An instance whose references were all handled, followed by expanded
      instances, makes a stretch of expanded instances. */
  lemma ExpandedHead(w: World, colls0: map<ClassId, ClassCollector>, colls1: map<ClassId, ClassCollector>,
                     measured0: seq<ObjId>, measured1: seq<ObjId>, o: ObjId)
    requires o in w.heap && ClassOf(w, o) in colls0 && AllPersist(colls0, colls1)
    requires measured0 < measured1 && measured1[|measured0|] == o
    requires AllHandled(w, colls1, References(w, colls0[ClassOf(w, o)].schema, o))
    requires ExpandedFrom(w, colls1, measured1, |measured0| + 1)
    ensures ExpandedFrom(w, colls1, measured1, |measured0|)
  {
    PersistsOf(colls0, colls1, ClassOf(w, o));
    assert Expanded(w, colls1, measured1[|measured0|]);
  }

  /** Two stretches of expanded instances make one. */
  lemma ExpandedJoin(w: World, colls0: map<ClassId, ClassCollector>, colls1: map<ClassId, ClassCollector>,
                     measured0: seq<ObjId>, measured1: seq<ObjId>, k0: int)
    requires AllPersist(colls0, colls1)
    requires ExpandedFrom(w, colls0, measured0, k0) && measured0 <= measured1
    requires ExpandedFrom(w, colls1, measured1, |measured0|)
    ensures ExpandedFrom(w, colls1, measured1, k0)
  {
    ExpandedKept(w, colls0, colls1, measured0, k0);
    forall k | 0 <= k0 <= k < |measured1|
      ensures Expanded(w, colls1, measured1[k])
    {
      if k < |measured0| {
        assert measured1[k] == measured0[k];
      }
    }
  }

  /** The instance measured at `k` is a start of the measurement, or one
      that the instance measured earlier at `parents[k]` references. */
  ghost predicate Derived(w: World, defs: map<ClassId, Schema>, measured: seq<ObjId>, parents: seq<int>,
                          starts: set<ObjId>, k: int)
  {
    && 0 <= k < |measured| && k < |parents|
    && ((parents[k] == -1 && measured[k] in starts)
        || (0 <= parents[k] < k && measured[k] in Env.Children(w, defs, measured[parents[k]])))
  }

  /** Every measured instance is derived: a start, or a reference of an
      instance measured before it. */
  ghost predicate DerivedAll(w: World, defs: map<ClassId, Schema>, measured: seq<ObjId>, parents: seq<int>, starts: set<ObjId>)
  {
    && |parents| == |measured|
    && forall k {:trigger Derived(w, defs, measured, parents, starts, k)} ::
         0 <= k < |measured| ==> Derived(w, defs, measured, parents, starts, k)
  }

  /** Caching more schemas and adding starts keeps every instance derived. */
  lemma DerivedKept(w: World, defs0: map<ClassId, Schema>, defs1: map<ClassId, Schema>, measured: seq<ObjId>,
                    parents: seq<int>, starts0: set<ObjId>, starts1: set<ObjId>)
    requires DerivedAll(w, defs0, measured, parents, starts0) && Env.Extends(defs0, defs1) && starts0 <= starts1
    ensures DerivedAll(w, defs1, measured, parents, starts1)
  {
    forall k | 0 <= k < |measured|
      ensures Derived(w, defs1, measured, parents, starts1, k)
    {
      assert Derived(w, defs0, measured, parents, starts0, k);
      if parents[k] != -1 {
        Env.ChildrenKept(w, defs0, defs1, measured[parents[k]]);
      }
    }
  }

  /** One more measured instance, a start or a reference of an instance
      measured before. */
  lemma DerivedSnoc(w: World, defs: map<ClassId, Schema>, measured: seq<ObjId>, parents: seq<int>, starts: set<ObjId>,
                    o: ObjId, parent: int)
    requires DerivedAll(w, defs, measured, parents, starts)
    requires (parent == -1 && o in starts) || (0 <= parent < |measured| && o in Env.Children(w, defs, measured[parent]))
    ensures DerivedAll(w, defs, measured + [o], parents + [parent], starts)
  {
    forall k | 0 <= k < |measured| + 1
      ensures Derived(w, defs, measured + [o], parents + [parent], starts, k)
    {
      if k < |measured| {
        assert Derived(w, defs, measured, parents, starts, k);
      }
    }
  }

  /** Following the parents back, every measured instance is reachable from a start. */
  lemma {:induction false} DerivedReaches(w: World, defs: map<ClassId, Schema>, measured: seq<ObjId>, parents: seq<int>,
                                          starts: set<ObjId>, k: nat)
    requires DerivedAll(w, defs, measured, parents, starts) && k < |measured|
    ensures exists r :: r in starts && Env.Reaches(w, defs, r, measured[k])
    decreases k
  {
    assert Derived(w, defs, measured, parents, starts, k);
    if parents[k] == -1 {
      Env.ReachesSelf(w, defs, measured[k]);
    } else {
      DerivedReaches(w, defs, measured, parents, starts, parents[k]);
      var r :| r in starts && Env.Reaches(w, defs, r, measured[parents[k]]);
      Env.ReachesAppend(w, defs, r, measured[parents[k]], measured[k]);
    }
  }

  /** The collector `getClassCollector` creates for a class `c` seen for the
      first time. Whether the class is global is decided first; the
      collector's constructor then seeds global instances from the statics
      of `c` (with the environment's current policy), takes the schema of
      `c`, and gives each registered global instance of exactly `c` a `null`
      count. */
  method NewClassCollector(env: Env.Environment, c: ClassId, individual: bool) returns (cc: ClassCollector)
    requires env.Valid() && env.w.ValidClass(c)
    modifies env
    ensures env.Valid() && CollectorValid(env.w, c, cc)
    ensures cc.kind == (if IsGlobalClass(env.w, old(env.Snapshot()), c) then GlobalKind
                        else if individual then MemoryCounting else Counting)
    ensures cc.instancesToRefCounts.Keys == (set g | g in env.globalObjects && ClassOf(env.w, g) == c)
    ensures CountedIn(cc.instancesToRefCounts) == {} && cc.instanceCount == 0 && cc.referencedBy == map[]
    ensures env.Evolved(old(env.definitions), old(env.globalObjects), old(env.Snapshot()), old(env.staticFieldPolicy))
    ensures Made(env.w, c, cc, env.definitions, env.Snapshot(), env.globalObjects)
  {
    var isGlobal := IsGlobalClass(env.w, env.Snapshot(), c);
    env.AddGlobalObjectsFrom(c, env.staticFieldPolicy);
    var schema := env.GetSchema(c, env.staticFieldPolicy);
    var kind := if isGlobal then GlobalKind else if individual then MemoryCounting else Counting;
    cc := NewCollector(env.w, kind, c, schema, env.globalObjects);
  }

  /** `Measurement` and its subclass `IndividualClassMeasurement`
      (`individual`), whose new collectors are memory counting. */
  class Measurement {
    const env: Env.Environment
    const individual: bool
    var classColl: map<ClassId, ClassCollector>
    /** `classSpecificMeasurement` of each memory counting collector. */
    var classSpecific: map<ClassId, Measurement>
    var totalSize: int
    var instanceCount: int
    /** Every instance passed to `measure`, in order. */
    ghost var measured: seq<ObjId>
    /** The instances passed to `measure` without a count being taken for
        them: roots that are pre-registered globals, and instances a
        class-specific measurement is asked to size. */
    ghost var extras: multiset<ObjId>
    /** Set for a class-specific measurement, whose instances are not traced
        back to where they came from. */
    ghost const nested: bool
    /** For each measured instance, the position of the measured instance
        whose reference led to it, or -1 for a start. */
    ghost var parents: seq<int>
    /** The instances `startWith` was called on. */
    ghost var starts: set<ObjId>

    ghost function Level(): nat
    {
      if individual then 1 else 0
    }

    /** The invariant of a measurement on its own fields. */
    ghost predicate Core()
      reads this
    {
      && Sized(env.w, measured, totalSize, instanceCount)
      && CollectorsValid(env.w, classColl)
      && KindsMatch(classColl, classSpecific.Keys)
      && (!individual ==> classSpecific == map[])
    }

    ghost predicate Balanced(pending: multiset<ObjId>)
      reads this
    {
      BalancedIn(env.w, classColl, measured, extras, pending)
    }

    /** A class-specific measurement of `outer`: a plain measurement of its
        own that is balanced. */
    ghost predicate Nested(outer: Measurement)
      reads this
    {
      && this != outer && !individual && nested && env == outer.env
      && Core() && Balanced(multiset{})
    }

    /** Class-specific measurements are only ever added, and newly created. */
    twostate predicate OnlyFreshAdded()
      reads this
    {
      forall n :: n in classSpecific.Values ==> n in old(classSpecific.Values) || fresh(n)
    }

    /** What every step of a measurement keeps: the old collectors persist
        and new ones are made in the environment, and the environment only
        evolves. */
    twostate predicate Grew()
      reads this, env
    {
      && CollsGrew(env.w, old(classColl), classColl, env.definitions, env.Snapshot(), env.globalObjects)
      && env.Evolved(old(env.definitions), old(env.globalObjects), old(env.Snapshot()), old(env.staticFieldPolicy))
    }

    /** Class-specific measurements whose own fields did not change are
        still nested in this one. */
    twostate lemma NestedKept(specific: map<ClassId, Measurement>)
      requires forall k {:trigger specific[k]} :: k in specific ==> old(specific[k].Nested(this)) && unchanged(specific[k])
      ensures forall k :: k in specific ==> specific[k].Nested(this)
    {
    }

    lemma NestedAdded(before: map<ClassId, Measurement>, c: ClassId, n: Measurement, after: map<ClassId, Measurement>)
      requires forall k :: k in before ==> before[k].Nested(this)
      requires n.Nested(this) && after == before[c := n]
      ensures forall k :: k in after ==> after[k].Nested(this)
    {
    }

    /** Every collector holds the schema the environment cached for its class. */
    ghost predicate SchemasCached()
      reads this`classColl, env`definitions
    {
      forall c :: c in classColl ==> c in env.definitions && classColl[c].schema == env.definitions[c]
    }

    /** Every measured instance is a start or a reference of an instance
        measured before it. */
    ghost predicate Lineage()
      reads this`measured, this`parents, this`starts, env`definitions
    {
      DerivedAll(env.w, env.definitions, measured, parents, starts)
    }

    /** `parent` is how the instance `o` about to be measured was reached. */
    ghost predicate Parent(o: ObjId, parent: int)
      reads this`measured, this`starts, env`definitions
    {
      || (parent == -1 && o in starts)
      || (0 <= parent < |measured| && o in Env.Children(env.w, env.definitions, measured[parent]))
    }

    /** Only the environment's cached schemas grew: the measurement is still traced. */
    twostate lemma TracedKept()
      requires old(Traced()) && unchanged(this) && Env.Extends(old(env.definitions), env.definitions)
      ensures Traced()
    {
      if !nested {
        DerivedKept(env.w, old(env.definitions), env.definitions, measured, parents, starts, starts);
      }
    }

    /** Only the class-specific measurement `n` changed, and it is still nested. */
    twostate lemma NestedAfter(n: Measurement)
      requires old(NestedAll()) && unchanged(this`classSpecific) && n.Nested(this)
      requires forall k :: k in classSpecific && classSpecific[k] != n ==> unchanged(classSpecific[k])
      ensures NestedAll()
    {
      forall k | k in classSpecific
        ensures classSpecific[k].Nested(this)
      {
        if classSpecific[k] != n {
          assert old(classSpecific[k].Nested(this));
        }
      }
    }

    /** Only this measurement's own tallies changed: its class-specific
        measurements are still nested in it. */
    twostate lemma NestedSelf()
      requires old(NestedAll()) && unchanged(this`classSpecific)
      requires forall n :: n in classSpecific.Values && n != this ==> unchanged(n)
      ensures NestedAll()
    {
      forall k | k in classSpecific
        ensures classSpecific[k].Nested(this)
      {
        var n := classSpecific[k];
        assert old(n.Nested(this)) && n in classSpecific.Values;
      }
    }

    /** Every class-specific measurement is nested in this one. */
    ghost predicate NestedAll()
      reads this`classSpecific, classSpecific.Values
    {
      forall c :: c in classSpecific ==> classSpecific[c].Nested(this)
    }

    /** Unless class-specific, the measurement uses the cached schemas and
        every instance it measured traces back to a start. */
    ghost predicate Traced()
      reads this`classColl, this`measured, this`parents, this`starts, env`definitions
    {
      !nested ==> SchemasCached() && Lineage()
    }

    ghost predicate Valid()
      reads this, classSpecific.Values, env`definitions
    {
      Core() && NestedAll() && Traced()
    }

    constructor(env: Env.Environment, individual: bool, ghost nested: bool)
      ensures this.env == env && this.individual == individual && this.nested == nested
      ensures Valid() && Balanced(multiset{})
      ensures classColl == map[] && classSpecific == map[] && measured == [] && extras == multiset{}
      ensures totalSize == 0 && instanceCount == 0 && parents == [] && starts == {}
    {
      this.env := env;
      this.individual := individual;
      this.nested := nested;
      parents := [];
      starts := {};
      classColl := map[];
      classSpecific := map[];
      totalSize := 0;
      instanceCount := 0;
      measured := [];
      extras := multiset{};
      new;
      assert Counted(env.w, classColl) == {};
    }

    /** `getClassCollector(instance)`: the collector of the instance's exact
        class, created on first use. */
    method GetClassCollector(o: ObjId) returns (cc: ClassCollector)
      requires Valid() && env.Valid() && o in env.w.heap
      modifies this`classColl, this`classSpecific, env
      ensures Valid() && env.Valid() && OnlyFreshAdded()
      ensures var c := ClassOf(env.w, o);
        && c in classColl && cc == classColl[c]
        && (old(c in classColl) ==> unchanged(this, env))
        && (!old(c in classColl) ==>
              && classColl == old(classColl)[c := cc]
              && cc.kind == (if IsGlobalClass(env.w, old(env.Snapshot()), c) then GlobalKind
                             else if individual then MemoryCounting else Counting)
              && cc.instancesToRefCounts.Keys == (set g | g in env.globalObjects && ClassOf(env.w, g) == c)
              && CountedIn(cc.instancesToRefCounts) == {} && cc.instanceCount == 0 && cc.referencedBy == map[])
      ensures Keys(env.w, old(classColl)) <= Keys(env.w, classColl)
      ensures Counted(env.w, classColl) == Counted(env.w, old(classColl))
      ensures measured == old(measured) && extras == old(extras) && totalSize == old(totalSize)
      ensures starts == old(starts)
      ensures Grew()
    {
      var c := ClassOf(env.w, o);
      if c in classColl {
        return classColl[c];
      }
      cc := NewClassCollector(env, c, individual);
      TracedKept();
      NewEntries(env.w, classColl, c, cc);
      Install(c, cc);
    }

    /** `classColl.put(type, cc)` for a new collector; a memory counting
        collector comes with a class-specific measurement of its own. */
    method Install(c: ClassId, cc: ClassCollector)
      requires Valid() && c !in classColl && CollectorValid(env.w, c, cc)
      requires cc.kind == MemoryCounting ==> individual
      requires Made(env.w, c, cc, env.definitions, env.Snapshot(), env.globalObjects)
      modifies this`classColl, this`classSpecific
      ensures Valid() && OnlyFreshAdded() && Grew()
      ensures classColl == old(classColl)[c := cc]
      ensures measured == old(measured) && extras == old(extras) && totalSize == old(totalSize)
      ensures starts == old(starts)
      ensures cc.kind == MemoryCounting ==>
        && c in classSpecific && classSpecific == old(classSpecific)[c := classSpecific[c]]
        && fresh(classSpecific[c]) && classSpecific[c].measured == [] && classSpecific[c].totalSize == 0
      ensures cc.kind != MemoryCounting ==> classSpecific == old(classSpecific)
    {
      CollectorsValidUpdate(env.w, classColl, c, cc);
      KindsMatchAdd(classColl, classSpecific.Keys, c, cc);
      ghost var before := classSpecific;
      if cc.kind == MemoryCounting {
        var n := NewSpecific();
        MapValuesAdd(classSpecific, c, n);
        classSpecific, classColl := classSpecific[c := n], classColl[c := cc];
        NestedKept(before);
        NestedAdded(before, c, n, classSpecific);
      } else {
        classColl := classColl[c := cc];
        NestedKept(before);
      }
      AllPersistUpdate(old(classColl), c, cc);
    }

    /** `new Measurement(env)`, the class-specific measurement of a memory
        counting collector: empty, and nested in this one. */
    method NewSpecific() returns (n: Measurement)
      ensures fresh(n) && n.Nested(this) && n.classSpecific == map[] && n.measured == [] && n.totalSize == 0
    {
      n := new Measurement(env, false, true);
    }

    /** `measure(instance, schema)`: the instance's flat size and one
        instance are added, then every reference the schema exposes is
        visited. A `root` is measured without a count being taken for it. */
    method Measure(o: ObjId, schema: Schema, ghost root: bool, ghost pending: multiset<ObjId>, ghost parent: int)
      requires Valid() && env.Valid() && o in env.w.heap && IsSchemaFor(env.w, ClassOf(env.w, o), schema)
      requires Balanced(if root then pending else pending + multiset{o})
      requires !nested ==>
        && ClassOf(env.w, o) in env.definitions && schema == env.definitions[ClassOf(env.w, o)] && Parent(o, parent)
      modifies this, classSpecific.Values, env
      ensures Valid() && env.Valid() && Balanced(pending) && OnlyFreshAdded()
      ensures Keys(env.w, old(classColl)) <= Keys(env.w, classColl)
      ensures old(measured) < measured && measured[|old(measured)|] == o
      ensures extras == old(extras) + (if root then multiset{o} else multiset{})
      ensures Grew() && AllHandled(env.w, classColl, References(env.w, schema, o))
      ensures ExpandedFrom(env.w, classColl, measured, |old(measured)| + 1)
      ensures starts == old(starts)
      decreases Level(), env.w.heap.Keys - Keys(env.w, classColl), 5
    {
      Account(o, schema, root, pending, parent);
      ReferencesInHeap(env.w, schema, o);
      VisitReferences(References(env.w, schema, o), pending, |old(measured)|);
    }

    /** The first half of `measure`: `totalSize` grows by exactly the
        schema's flat size of the instance, and `instanceCount` by one. */
    method Account(o: ObjId, schema: Schema, ghost root: bool, ghost pending: multiset<ObjId>, ghost parent: int)
      requires Valid() && o in env.w.heap && IsSchemaFor(env.w, ClassOf(env.w, o), schema)
      requires Balanced(if root then pending else pending + multiset{o})
      requires !nested ==> Parent(o, parent)
      modifies this`measured, this`parents, this`extras, this`totalSize, this`instanceCount
      ensures Valid() && Balanced(pending)
      ensures totalSize == old(totalSize) + ShallowSize(env.w, schema, Some(env.w.heap[o]))
      ensures instanceCount == old(instanceCount) + 1
      ensures measured == old(measured) + [o]
      ensures extras == old(extras) + (if root then multiset{o} else multiset{})
    {
      measured, parents, extras, totalSize, instanceCount :=
        measured + [o], parents + [parent], extras + (if root then multiset{o} else multiset{}),
        totalSize + ShallowSize(env.w, schema, Some(env.w.heap[o])), instanceCount + 1;
      Accounted(o, schema, root, pending, parent);
    }

    /** The tallies of `account` keep the invariant. */
    twostate lemma Accounted(new o: ObjId, new schema: Schema, new root: bool, new pending: multiset<ObjId>, new parent: int)
      requires old(Valid()) && o in env.w.heap && IsSchemaFor(env.w, ClassOf(env.w, o), schema)
      requires old(Balanced(if root then pending else pending + multiset{o}))
      requires !nested ==> old(Parent(o, parent))
      requires unchanged(env) && classColl == old(classColl) && starts == old(starts)
      requires classSpecific == old(classSpecific)
      requires forall n :: n in classSpecific.Values && n != this ==> unchanged(n)
      requires measured == old(measured) + [o] && parents == old(parents) + [parent]
      requires extras == old(extras) + (if root then multiset{o} else multiset{})
      requires totalSize == old(totalSize) + ShallowSize(env.w, schema, Some(env.w.heap[o]))
      requires instanceCount == old(instanceCount) + 1
      ensures Valid()
      ensures Balanced(pending)
    {
      AccountKeeps(env.w, classColl, old(measured), old(totalSize), old(instanceCount), old(extras), pending, o, schema, root);
      if !nested {
        DerivedSnoc(env.w, env.definitions, old(measured), old(parents), starts, o, parent);
      }
      NestedSelf();
    }

    /** The second half of `measure`: `safeIterate(instance, this)` hands each
        reference to `visit`, which ignores `null`; `finished` does nothing. */
    method VisitReferences(refs: seq<Event>, ghost pending: multiset<ObjId>, ghost pi: int)
      requires Valid() && env.Valid() && Balanced(pending) && TargetsIn(refs, env.w.heap.Keys)
      requires !nested ==>
        && 0 <= pi < |measured| && ClassOf(env.w, measured[pi]) in env.definitions
        && refs == References(env.w, env.definitions[ClassOf(env.w, measured[pi])], measured[pi])
      modifies this, classSpecific.Values, env
      ensures Valid() && env.Valid() && Balanced(pending) && OnlyFreshAdded()
      ensures Keys(env.w, old(classColl)) <= Keys(env.w, classColl)
      ensures old(measured) <= measured && extras == old(extras)
      ensures Grew() && AllHandled(env.w, classColl, refs)
      ensures ExpandedFrom(env.w, classColl, measured, |old(measured)|)
      ensures starts == old(starts)
      decreases Level(), env.w.heap.Keys - Keys(env.w, classColl), 4
    {
      ghost var colls0, measured0, extras0, starts0 := classColl, measured, extras, starts;
      ghost var defs0, globals0, reg0, policy0 := env.definitions, env.globalObjects, env.Snapshot(), env.staticFieldPolicy;
      CollsGrewSelf(env.w, classColl, env.definitions, env.Snapshot(), env.globalObjects);
      var i := 0;
      while i < |refs|
        invariant 0 <= i <= |refs|
        invariant Valid() && env.Valid() && Balanced(pending) && OnlyFreshAdded()
        invariant Keys(env.w, colls0) <= Keys(env.w, classColl) && measured0 <= measured && extras == extras0
        invariant CollsGrew(env.w, colls0, classColl, env.definitions, env.Snapshot(), env.globalObjects)
        invariant env.Evolved(defs0, globals0, reg0, policy0)
        invariant HandledUpTo(env.w, classColl, refs, i) && ExpandedFrom(env.w, classColl, measured, |measured0|)
        invariant starts == starts0
      {
        VisitAt(refs, i, pending, pi, colls0, measured0, extras0, defs0, globals0, reg0, policy0);
        i := i + 1;
      }
    }

    /** One turn of the loop of `safeIterate`: the reference at `i`, when not
        `null`, is visited. The ghost parameters are the state the loop
        started from. */
    method VisitAt(refs: seq<Event>, i: nat, ghost pending: multiset<ObjId>, ghost pi: int, ghost colls0: map<ClassId, ClassCollector>,
                   ghost measured0: seq<ObjId>, ghost extras0: multiset<ObjId>, ghost defs0: map<ClassId, Schema>,
                   ghost globals0: set<ObjId>, ghost reg0: Registry, ghost policy0: StaticFieldPolicy.StaticFieldPolicy)
      requires i < |refs| && TargetsIn(refs, env.w.heap.Keys)
      requires Valid() && env.Valid() && Balanced(pending)
      requires Keys(env.w, colls0) <= Keys(env.w, classColl) && measured0 <= measured && extras == extras0
      requires CollsGrew(env.w, colls0, classColl, env.definitions, env.Snapshot(), env.globalObjects)
      requires env.Evolved(defs0, globals0, reg0, policy0)
      requires HandledUpTo(env.w, classColl, refs, i) && ExpandedFrom(env.w, classColl, measured, |measured0|)
      requires !nested ==>
        && 0 <= pi < |measured0| && ClassOf(env.w, measured0[pi]) in defs0
        && refs == References(env.w, defs0[ClassOf(env.w, measured0[pi])], measured0[pi])
      modifies this, classSpecific.Values, env
      ensures Valid() && env.Valid() && Balanced(pending) && OnlyFreshAdded()
      ensures Keys(env.w, colls0) <= Keys(env.w, classColl) && measured0 <= measured && extras == extras0
      ensures CollsGrew(env.w, colls0, classColl, env.definitions, env.Snapshot(), env.globalObjects)
      ensures env.Evolved(defs0, globals0, reg0, policy0)
      ensures HandledUpTo(env.w, classColl, refs, i + 1) && ExpandedFrom(env.w, classColl, measured, |measured0|)
      ensures starts == old(starts)
      decreases Level(), env.w.heap.Keys - Keys(env.w, classColl), 3
    {
      if refs[i].Visited? && refs[i].value.Some? {
        ghost var colls, defs, globals, before := classColl, env.definitions, env.globalObjects, measured;
        if !nested {
          assert measured[pi] == measured0[pi];
          assert refs[i].value.value in Env.Targets(refs);
          Env.ChildrenKept(env.w, defs0, env.definitions, measured0[pi]);
        }
        Visit(refs[i].refName, refs[i].value.value, pending, pi);
        CollsGrewTransitive(env.w, colls0, colls, classColl, defs, env.definitions, env.Snapshot(), globals, env.globalObjects);
        HandledKept(env.w, colls, classColl, refs, i);
        ExpandedJoin(env.w, colls, classColl, before, measured, |measured0|);
      }
    }

    /** `visit(refName, value)` for a non-null value (`refTo`): the collector
        of the value's class takes the reference, which a global collector
        ignores. */
    method Visit(refName: string, v: ObjId, ghost pending: multiset<ObjId>, ghost parent: int)
      requires Valid() && env.Valid() && v in env.w.heap && Balanced(pending)
      requires !nested ==> 0 <= parent < |measured| && v in Env.Children(env.w, env.definitions, measured[parent])
      modifies this, classSpecific.Values, env
      ensures Valid() && env.Valid() && Balanced(pending) && OnlyFreshAdded()
      ensures Keys(env.w, old(classColl)) <= Keys(env.w, classColl)
      ensures old(measured) <= measured && extras == old(extras)
      ensures Grew() && Handled(env.w, classColl, v)
      ensures ExpandedFrom(env.w, classColl, measured, |old(measured)|)
      ensures starts == old(starts)
      ensures var c := ClassOf(env.w, v);
        c in classColl && classColl[c].kind == GlobalKind ==>
          && classColl == (if c in old(classColl) then old(classColl) else old(classColl)[c := classColl[c]])
          && measured == old(measured) && totalSize == old(totalSize)
      ensures var c := ClassOf(env.w, v);
        c in classColl && classColl[c].kind != GlobalKind ==>
          && refName in classColl[c].referencedBy
          && classColl[c].referencedBy[refName] >=
               1 + if c in old(classColl) && refName in old(classColl[c].referencedBy) then old(classColl[c].referencedBy[refName]) else 0
      decreases Level(), env.w.heap.Keys - Keys(env.w, classColl), 2
    {
      ghost var defs0 := env.definitions;
      var cc := GetClassCollector(v);
      if cc.kind != GlobalKind {
        ghost var colls, defs, globals := classColl, env.definitions, env.globalObjects;
        if !nested {
          Env.ChildrenKept(env.w, defs0, defs, measured[parent]);
        }
        Ref(refName, v, pending, parent);
        CollsGrewTransitive(env.w, old(classColl), colls, classColl, defs, env.definitions, env.Snapshot(), globals, env.globalObjects);
        PersistsOf(colls, classColl, ClassOf(env.w, v));
      }
    }

    /** `ref(refName, instance, caller)` of a collector that is not global:
        `refName` is tallied and the instance executed without recalculating
        globals. */
    method Ref(refName: string, v: ObjId, ghost pending: multiset<ObjId>, ghost parent: int)
      requires Valid() && env.Valid() && v in env.w.heap && ClassOf(env.w, v) in classColl && Balanced(pending)
      requires !nested ==> Parent(v, parent)
      modifies this, classSpecific.Values, env
      ensures Valid() && env.Valid() && Balanced(pending) && OnlyFreshAdded()
      ensures Keys(env.w, old(classColl)) <= Keys(env.w, classColl)
      ensures old(measured) <= measured && extras == old(extras)
      ensures Grew() && v in Keys(env.w, classColl)
      ensures ExpandedFrom(env.w, classColl, measured, |old(measured)|)
      ensures starts == old(starts)
      ensures var c := ClassOf(env.w, v);
        && c in classColl && refName in classColl[c].referencedBy
        && classColl[c].referencedBy[refName] >=
             1 + if refName in old(classColl[c].referencedBy) then old(classColl[c].referencedBy[refName]) else 0
      decreases Level(), env.w.heap.Keys - Keys(env.w, classColl), 1
    {
      var c := ClassOf(env.w, v);
      TallyRef(refName, c, pending);
      ghost var colls := classColl;
      var _, _ := Execute(v, false, pending, parent);
      CollsGrewTransitive(env.w, old(classColl), colls, classColl, env.definitions, env.definitions, env.Snapshot(), env.globalObjects, env.globalObjects);
      PersistsOf(colls, classColl, c);
    }

    /** The first half of `ref`: `refName` is tallied in the collector of class `c`. */
    method TallyRef(refName: string, c: ClassId, ghost pending: multiset<ObjId>)
      requires Valid() && c in classColl && Balanced(pending)
      modifies this`classColl
      ensures Valid() && Balanced(pending)
      ensures classColl == old(classColl)[c := old(classColl)[c].(referencedBy := Tally(old(classColl)[c].referencedBy, refName))]
      ensures AllPersist(old(classColl), classColl) && Keys(env.w, classColl) == Keys(env.w, old(classColl))
    {
      var cc := classColl[c];
      TallyKeeps(env.w, classColl, classSpecific.Keys, c, refName, measured, extras, pending);
      StepsPersist(cc, 0, false, refName);
      AllPersistUpdate(classColl, c, cc.(referencedBy := Tally(cc.referencedBy, refName)));
      classColl := classColl[c := cc.(referencedBy := Tally(cc.referencedBy, refName))];
    }

    /** `execute(instance, caller, calcGlobalObjects)`: the collector of the
        instance's class takes `ExecuteStep`, and when that says so the
        instance is sized and expanded (`calc`). The instance gets a count
        exactly when it had no entry; a pre-registered global is measured
        without one. */
    method Execute(o: ObjId, calcGlobal: bool, ghost pending: multiset<ObjId>, ghost parent: int)
      returns (ghost expanded: bool, ghost known: bool)
      requires Valid() && env.Valid() && o in env.w.heap && ClassOf(env.w, o) in classColl && Balanced(pending)
      requires !nested ==> Parent(o, parent)
      modifies this, classSpecific.Values, env
      ensures Valid() && env.Valid() && Balanced(pending) && OnlyFreshAdded()
      ensures Keys(env.w, old(classColl)) <= Keys(env.w, classColl)
      ensures old(measured) <= measured
      ensures expanded ==> |measured| > |old(measured)| && measured[|old(measured)|] == o
      ensures !expanded ==> measured == old(measured)
      ensures extras == old(extras) + (if expanded && known then multiset{o} else multiset{})
      ensures expanded && known ==> calcGlobal
      ensures expanded == ExecuteStep(old(classColl)[ClassOf(env.w, o)], o, calcGlobal).1
      ensures known <==> o in old(classColl)[ClassOf(env.w, o)].instancesToRefCounts
      ensures Grew() && o in Keys(env.w, classColl)
      ensures ExpandedFrom(env.w, classColl, measured, |old(measured)|)
      ensures starts == old(starts)
      decreases Level(), env.w.heap.Keys - Keys(env.w, classColl), if calcGlobal then 7 else 0
    {
      var expand, cc;
      expand, known, cc := Enter(o, calcGlobal, pending);
      expanded := expand;
      if expand {
        ghost var colls := classColl;
        Calc(o, cc, known, pending, parent);
        CollsGrewTransitive(env.w, old(classColl), colls, classColl, env.definitions, env.definitions, env.Snapshot(), env.globalObjects, env.globalObjects);
      }
    }

    /** The bookkeeping half of `execute`: the collector of the instance's
        class takes `ExecuteStep`, which says whether to go on with `calc`. */
    method Enter(o: ObjId, calcGlobal: bool, ghost pending: multiset<ObjId>) returns (expand: bool, ghost known: bool, cc: ClassCollector)
      requires Valid() && o in env.w.heap && ClassOf(env.w, o) in classColl && Balanced(pending)
      modifies this`classColl
      ensures Valid() && unchanged(this`classSpecific, this`measured, this`extras, this`totalSize, this`instanceCount)
      ensures unchanged(this`parents, this`starts)
      ensures cc == old(classColl)[ClassOf(env.w, o)] && IsSchemaFor(env.w, ClassOf(env.w, o), cc.schema)
      ensures classColl == old(classColl)[ClassOf(env.w, o) := ExecuteStep(cc, o, calcGlobal).0]
      ensures AllPersist(old(classColl), classColl)
      ensures expand == ExecuteStep(cc, o, calcGlobal).1 && (known <==> o in cc.instancesToRefCounts)
      ensures Keys(env.w, classColl) == Keys(env.w, old(classColl)) + {o}
      ensures known <==> o in Keys(env.w, old(classColl))
      ensures (expand && known ==> calcGlobal) && (!known ==> expand)
      ensures Balanced(if known then pending else pending + multiset{o})
    {
      var c := ClassOf(env.w, o);
      cc := classColl[c];
      var step := ExecuteStep(cc, o, calcGlobal);
      ExecuteKeeps(env.w, classColl, classSpecific.Keys, o, calcGlobal, measured, extras, pending);
      StepsPersist(cc, o, calcGlobal, "");
      AllPersistUpdate(classColl, c, step.0);
      classColl := classColl[c := step.0];
      expand, known := step.1, o in cc.instancesToRefCounts;
    }

    /** `calc(instance, measurement)`: a memory counting collector first
        measures the instance in its class-specific measurement, as a root
        of that measurement; then the instance is measured here. */
    method Calc(o: ObjId, cc: ClassCollector, ghost root: bool, ghost pending: multiset<ObjId>, ghost parent: int)
      requires Valid() && env.Valid() && o in env.w.heap
      requires !nested ==> Parent(o, parent)
      requires ClassOf(env.w, o) in classColl
      requires classColl[ClassOf(env.w, o)].kind == cc.kind && classColl[ClassOf(env.w, o)].schema == cc.schema
      requires IsSchemaFor(env.w, ClassOf(env.w, o), cc.schema)
      requires Balanced(if root then pending else pending + multiset{o})
      modifies this, classSpecific.Values, env
      ensures Valid() && env.Valid() && Balanced(pending) && OnlyFreshAdded()
      ensures Keys(env.w, old(classColl)) <= Keys(env.w, classColl)
      ensures old(measured) < measured && measured[|old(measured)|] == o
      ensures extras == old(extras) + (if root then multiset{o} else multiset{})
      ensures Grew() && ExpandedFrom(env.w, classColl, measured, |old(measured)|)
      ensures starts == old(starts)
      decreases Level(), env.w.heap.Keys - Keys(env.w, classColl), 6
    {
      var c := ClassOf(env.w, o);
      if cc.kind == MemoryCounting {
        MeasureClassSpecific(c, o, cc.schema);
        if !nested && parent != -1 {
          Env.ChildrenKept(env.w, old(env.definitions), env.definitions, measured[parent]);
        }
      }
      ghost var colls, defs, globals := classColl, env.definitions, env.globalObjects;
      ghost var before := measured;
      Measure(o, cc.schema, root, pending, parent);
      CollsGrewTransitive(env.w, old(classColl), colls, classColl, defs, env.definitions, env.Snapshot(), globals, env.globalObjects);
      ExpandedHead(env.w, colls, classColl, before, measured, o);
    }

    /** `getClassCollector(instance).startWith(instance, this)`: the
        instance is executed as a root. One already counted only gets one
        more count; any other one, a pre-registered global included, is
        measured, and only a pre-registered global is measured without a
        count. */
    method StartWith(o: ObjId)
      requires Valid() && env.Valid() && o in env.w.heap && Balanced(multiset{})
      modifies this, classSpecific.Values, env
      ensures Valid() && env.Valid() && Balanced(multiset{}) && OnlyFreshAdded()
      ensures old(measured) <= measured && o in measured
      ensures extras == old(extras) + (if o in Nulls(env.w, classColl) then multiset{o} else multiset{})
      ensures o in old(Counted(env.w, classColl)) ==> measured == old(measured)
      ensures o !in old(Counted(env.w, classColl)) ==> |measured| > |old(measured)| && measured[|old(measured)|] == o
      ensures Grew() && ExpandedFrom(env.w, classColl, measured, |old(measured)|)
      ensures starts == old(starts) + {o}
    {
      AddStart(o);
      ExecuteRoot(o);
    }

    /** The body of `startWith` once the instance is a start: its collector
        executes it, recalculating globals. */
    method ExecuteRoot(o: ObjId)
      requires Valid() && env.Valid() && o in env.w.heap && Balanced(multiset{}) && o in starts
      modifies this, classSpecific.Values, env
      ensures Valid() && env.Valid() && Balanced(multiset{}) && OnlyFreshAdded()
      ensures old(measured) <= measured && o in measured
      ensures extras == old(extras) + (if o in Nulls(env.w, classColl) then multiset{o} else multiset{})
      ensures o in old(Counted(env.w, classColl)) ==> measured == old(measured)
      ensures o !in old(Counted(env.w, classColl)) ==> |measured| > |old(measured)| && measured[|old(measured)|] == o
      ensures Grew() && ExpandedFrom(env.w, classColl, measured, |old(measured)|)
      ensures starts == old(starts)
    {
      var cc := GetClassCollector(o);
      ghost var counted := o in Counted(env.w, classColl);
      if counted {
        CountedMeasured(env.w, classColl, measured, extras, o);
      }
      ghost var colls, defs, globals := classColl, env.definitions, env.globalObjects;
      ghost var expanded, known := Execute(o, true, multiset{}, -1);
      CollsGrewTransitive(env.w, old(classColl), colls, classColl, defs, env.definitions, env.Snapshot(), globals, env.globalObjects);
      RootExtra(env.w, colls, classColl, o, expanded, known);
    }

    /** `o` becomes a start: what is measured from now on may come from it. */
    method AddStart(o: ObjId)
      requires Valid()
      modifies this`starts
      ensures Valid() && starts == old(starts) + {o}
    {
      starts := starts + {o};
      if !nested {
        DerivedKept(env.w, env.definitions, env.definitions, measured, parents, old(starts), starts);
      }
    }

    /** `classSpecificMeasurement.measure(instance, schema)`. */
    method MeasureClassSpecific(c: ClassId, o: ObjId, schema: Schema)
      requires Valid() && env.Valid() && c in classSpecific && o in env.w.heap
      requires IsSchemaFor(env.w, ClassOf(env.w, o), schema)
      modifies classSpecific[c], env
      ensures Valid() && env.Valid() && Grew()
      ensures measured == old(measured) && starts == old(starts)
      ensures old(classSpecific[c].measured) < classSpecific[c].measured
      ensures classSpecific[c].measured[|old(classSpecific[c].measured)|] == o
      decreases Level(), env.w.heap.Keys - Keys(env.w, classColl), 5
    {
      var n := classSpecific[c];
      assert n.Nested(this);
      assert n.classSpecific == map[];
      n.Measure(o, schema, true, multiset{}, -1);
      NestedAfter(n);
      TracedKept();
      CollsGrewSelf(env.w, classColl, env.definitions, env.Snapshot(), env.globalObjects);
    }

    /** `cc.totalSize()` of the collector of class `c`: the total of its
        class-specific measurement for a memory counting collector, else 0. */
    function ClassTotalSize(c: ClassId): (r: int)
      reads this, classSpecific.Values, env`definitions
      ensures Valid() && c in classColl && classColl[c].kind == MemoryCounting ==> r == SumFlat(env.w, classSpecific[c].measured)
      ensures Valid() && c in classColl && classColl[c].kind != MemoryCounting ==> r == 0
      ensures !individual && Valid() ==> r == 0
    {
      if c in classSpecific then classSpecific[c].totalSize else 0
    }

    /** `statsFor(type)`: `null` for a class never reached, else a snapshot
        of its collector. */
    method StatsFor(c: ClassId) returns (s: MyClassStats?)
      requires Valid()
      ensures s == null <==> c !in classColl
      ensures s != null ==>
        && s.Type() == c && s.schema == classColl[c].schema
        && s.totalSize == ClassTotalSize(c) && s.InstanceCount() == classColl[c].instanceCount
        && Tabulated(classColl[c].instancesToRefCounts, s.instances[..], s.referenceCounts[..])
    {
      if c in classColl {
        CollectorOf(env.w, classColl, c);
        s := ClassStatsFor(env.w, c, Some(classColl[c]), ClassTotalSize(c));
      } else {
        s := ClassStatsFor(env.w, c, None, 0);
      }
    }

    /** `cc.totalSize()` of every collector. */
    function ClassTotals(): (r: map<ClassId, int>)
      reads this, classSpecific.Values, env`definitions
      ensures r.Keys == classColl.Keys && forall c :: c in r ==> r[c] == ClassTotalSize(c)
    {
      map c | c in classColl :: ClassTotalSize(c)
    }

    /** `stats()`: a snapshot of every collector, sorted with `compareTo`:
        by descending total size, then by descending instance count. */
    method Stats() returns (r: seq<MyClassStats>)
      requires Valid()
      ensures |r| == |classColl|
      ensures forall i, j :: 0 <= i < j < |r| ==>
        r[i].totalSize > r[j].totalSize || (r[i].totalSize == r[j].totalSize && r[i].InstanceCount() >= r[j].InstanceCount())
      ensures forall c :: c in classColl ==> exists k :: 0 <= k < |r| && r[k].Type() == c
      ensures forall k :: 0 <= k < |r| ==> SnapshotOf(r[k])
    {
      var totals := ClassTotals();
      var items := Snapshots(env.w, classColl, totals);
      r := SortStats(items);
      assert |r| == |multiset(items)|;
      forall k | 0 <= k < |r|
        ensures SnapshotOf(r[k])
      {
        assert r[k] in multiset(items);
      }
      forall c | c in classColl
        ensures exists k :: 0 <= k < |r| && r[k].Type() == c
      {
        var j :| 0 <= j < |items| && items[j].Type() == c;
        assert items[j] in multiset(r);
      }
    }

    /** `s` is a snapshot of one collector of this measurement. */
    ghost predicate SnapshotOf(s: MyClassStats)
      reads this, classSpecific.Values, env`definitions
    {
      && s.Type() in classColl
      && s.totalSize == ClassTotalSize(s.Type())
      && s.InstanceCount() == classColl[s.Type()].instanceCount
    }
  }

  /** `Collector`: measures the instances it is given, each a root of one
      measurement shared by all of them. */
  class Collector {
    const measurement: Measurement
    /** The non-null instances passed to `measure`, in order. */
    ghost var roots: seq<ObjId>

    /** Every counted instance is measured once; besides, a pre-registered
        global (one with a `null` count) is measured once for every time it
        is passed as a root. Every measured instance traces back to a root. */
    ghost predicate Valid()
      reads this, measurement, measurement.classSpecific.Values, measurement.env`definitions
    {
      && measurement.Valid() && measurement.Balanced(multiset{}) && !measurement.nested
      && RootsKept(measurement.env.w, measurement.classColl, measurement.measured, measurement.extras, measurement.starts, roots)
    }

    /** `Collector(env, measureSizeForEveryClass)`. */
    constructor(env: Env.Environment, measureSizeForEveryClass: bool)
      ensures Valid() && fresh(measurement)
      ensures measurement.env == env && measurement.individual == measureSizeForEveryClass
      ensures roots == [] && measurement.measured == [] && measurement.classColl == map[]
      ensures measurement.classSpecific == map[] && measurement.starts == {}
    {
      measurement := new Measurement(env, measureSizeForEveryClass, false);
      roots := [];
    }

    /** `measure(instance)`: `null` changes nothing. Otherwise the
        instance's collector executes it as a root (`startWith`): an
        instance already counted only gets one more count, any other one,
        a pre-registered global included, is measured. */
    method Measure(instance: Ref)
      requires Valid() && measurement.env.Valid()
      requires instance.Some? ==> instance.value in measurement.env.w.heap
      modifies this, measurement, measurement.classSpecific.Values, measurement.env
      ensures Valid() && measurement.env.Valid() && measurement.OnlyFreshAdded()
      ensures instance.None? ==> roots == old(roots) && unchanged(measurement) && unchanged(measurement.env)
      ensures instance.Some? ==> roots == old(roots) + [instance.value]
      ensures old(measurement.measured) <= measurement.measured
      ensures instance.Some? && instance.value in old(Counted(measurement.env.w, measurement.classColl)) ==>
        measurement.measured == old(measurement.measured)
      ensures instance.Some? && instance.value !in old(Counted(measurement.env.w, measurement.classColl)) ==>
        |measurement.measured| > |old(measurement.measured)| && measurement.measured[|old(measurement.measured)|] == instance.value
      ensures measurement.Grew()
      ensures ExpandedFrom(measurement.env.w, measurement.classColl, measurement.measured, |old(measurement.measured)|)
    {
      if instance.Some? {
        MeasureRoot(instance.value);
      } else {
        CollsGrewSelf(measurement.env.w, measurement.classColl, measurement.env.definitions,
                      measurement.env.Snapshot(), measurement.env.globalObjects);
      }
    }

    /** `measure(instance)` for a non-null instance. */
    method MeasureRoot(o: ObjId)
      requires Valid() && measurement.env.Valid() && o in measurement.env.w.heap
      modifies this, measurement, measurement.classSpecific.Values, measurement.env
      ensures Valid() && measurement.env.Valid() && measurement.OnlyFreshAdded()
      ensures roots == old(roots) + [o]
      ensures old(measurement.measured) <= measurement.measured
      ensures o in old(Counted(measurement.env.w, measurement.classColl)) ==> measurement.measured == old(measurement.measured)
      ensures o !in old(Counted(measurement.env.w, measurement.classColl)) ==>
        |measurement.measured| > |old(measurement.measured)| && measurement.measured[|old(measurement.measured)|] == o
      ensures measurement.Grew()
      ensures ExpandedFrom(measurement.env.w, measurement.classColl, measurement.measured, |old(measurement.measured)|)
    {
      ghost var measured, extras, starts, before, colls :=
        measurement.measured, measurement.extras, measurement.starts, roots, measurement.classColl;
      measurement.StartWith(o);
      AddRoot(o, colls, measured, extras, starts);
    }

    /** `o`, just started with, joins the roots. The ghost parameters are
        the measurement's state before. */
    method AddRoot(o: ObjId, ghost colls: map<ClassId, ClassCollector>, ghost measured: seq<ObjId>,
                   ghost extras: multiset<ObjId>, ghost starts: set<ObjId>)
      requires measurement.Valid() && measurement.Balanced(multiset{}) && !measurement.nested
      requires RootsKept(measurement.env.w, colls, measured, extras, starts, roots)
      requires AllPersist(colls, measurement.classColl) && measured <= measurement.measured && o in measurement.measured
      requires measurement.extras == extras + (if o in Nulls(measurement.env.w, measurement.classColl) then multiset{o} else multiset{})
      requires measurement.starts == starts + {o}
      modifies this`roots
      ensures Valid() && roots == old(roots) + [o]
    {
      RootAdded(measurement.env.w, colls, measurement.classColl, measured, measurement.measured, extras, measurement.extras,
                starts, roots, o);
      roots := roots + [o];
    }

    /** `memoryUsed()`: the flat sizes of the measured instances, added up. */
    function MemoryUsed(): (r: int)
      requires Valid()
      reads this, measurement, measurement.classSpecific.Values, measurement.env`definitions
      ensures r == SumFlat(measurement.env.w, measurement.measured)
    {
      measurement.totalSize
    }

    /** `instanceCount()`: the counted instances, plus the global instances
        measured as roots. */
    function InstanceCount(): (r: int)
      requires Valid()
      reads this, measurement, measurement.classSpecific.Values, measurement.env`definitions
      ensures r == |Counted(measurement.env.w, measurement.classColl)| + |measurement.extras|
    {
      InstanceCountSplit(measurement.env.w, measurement.classColl, measurement.measured, measurement.extras);
      measurement.instanceCount
    }

    /** `statsFor(type)`. */
    method StatsFor(c: ClassId) returns (s: MyClassStats?)
      requires Valid()
      ensures s == null <==> c !in measurement.classColl
      ensures s != null ==>
        && s.Type() == c && s.schema == measurement.classColl[c].schema
        && s.totalSize == measurement.ClassTotalSize(c) && s.InstanceCount() == measurement.classColl[c].instanceCount
        && Tabulated(measurement.classColl[c].instancesToRefCounts, s.instances[..], s.referenceCounts[..])
    {
      s := measurement.StatsFor(c);
    }

    /** `stats()`. */
    method Stats() returns (r: seq<MyClassStats>)
      requires Valid()
      ensures |r| == |measurement.classColl|
      ensures forall i, j :: 0 <= i < j < |r| ==>
        r[i].totalSize > r[j].totalSize || (r[i].totalSize == r[j].totalSize && r[i].InstanceCount() >= r[j].InstanceCount())
      ensures forall c :: c in measurement.classColl ==> exists k :: 0 <= k < |r| && r[k].Type() == c
      ensures forall k :: 0 <= k < |r| ==> measurement.SnapshotOf(r[k])
    {
      r := measurement.Stats();
    }
  }

  /** The loop of `stats()`: one snapshot per collector, in the order the
      map yields them; `totals` holds each collector's `totalSize()`. */
  method Snapshots(w: World, colls: map<ClassId, ClassCollector>, totals: map<ClassId, int>) returns (items: seq<MyClassStats>)
    requires CollectorsValid(w, colls) && colls.Keys <= totals.Keys
    ensures |items| == |colls|
    ensures forall k :: 0 <= k < |items| ==>
      && items[k].Type() in colls
      && items[k].totalSize == totals[items[k].Type()]
      && items[k].InstanceCount() == colls[items[k].Type()].instanceCount
    ensures forall c :: c in colls ==> exists k :: 0 <= k < |items| && items[k].Type() == c
  {
    items := [];
    ghost var types: seq<ClassId> := [];
    var rest := colls.Keys;
    while rest != {}
      invariant rest <= colls.Keys && |items| + |rest| == |colls| && |types| == |items|
      invariant forall k :: 0 <= k < |items| ==> items[k].Type() == types[k] && types[k] in colls
      invariant forall k :: 0 <= k < |items| ==>
        items[k].totalSize == totals[types[k]] && items[k].InstanceCount() == colls[types[k]].instanceCount
      invariant forall c :: c in colls && c !in rest ==> c in types
      decreases rest
    {
      var c :| c in rest;
      CollectorOf(w, colls, c);
      var s := ClassStatsFor(w, c, Some(colls[c]), totals[c]);
      items := items + [s];
      types := types + [c];
      rest := rest - {c};
    }
    forall c | c in colls
      ensures exists k :: 0 <= k < |items| && items[k].Type() == c
    {
      var k :| 0 <= k < |types| && types[k] == c;
      assert items[k].Type() == c;
    }
  }

  /** `Arrays.sort(stats)`: the same snapshots, by descending total size,
      then by descending instance count. */
  method SortStats(items: seq<MyClassStats>) returns (r: seq<MyClassStats>)
    ensures multiset(r) == multiset(items)
    ensures forall i, j :: 0 <= i < j < |r| ==>
      r[i].totalSize > r[j].totalSize || (r[i].totalSize == r[j].totalSize && r[i].InstanceCount() >= r[j].InstanceCount())
  {
    var below := (a: MyClassStats, b: MyClassStats) => a.CompareTo(b) <= 0;
    ghost var elems := set k | 0 <= k < |items| :: items[k];
    CompareToPreorder(elems);
    SortBySorted(items, below, elems);
    r := SortBy(items, below);
    forall i, j | 0 <= i < j < |r|
      ensures r[i].totalSize > r[j].totalSize || (r[i].totalSize == r[j].totalSize && r[i].InstanceCount() >= r[j].InstanceCount())
    {
      CompareToOrder(r[i], r[j]);
    }
  }

  /** What a collector keeps about its roots: each is measured, the
      extras are roots with `null` counts, and every start is a root. */
  ghost predicate RootsKept(w: World, colls: map<ClassId, ClassCollector>, measured: seq<ObjId>, extras: multiset<ObjId>,
                            starts: set<ObjId>, roots: seq<ObjId>)
  {
    && extras <= multiset(roots)
    && (forall x :: x in extras ==> x in Nulls(w, colls))
    && (forall x :: x in starts ==> x in roots)
    && (forall k :: 0 <= k < |roots| ==> roots[k] in measured)
  }

  /** One more root keeps what a collector keeps about its roots. */
  lemma RootAdded(w: World, colls0: map<ClassId, ClassCollector>, colls1: map<ClassId, ClassCollector>,
                  measured0: seq<ObjId>, measured1: seq<ObjId>, extras0: multiset<ObjId>, extras1: multiset<ObjId>,
                  starts0: set<ObjId>, roots: seq<ObjId>, o: ObjId)
    requires AllPersist(colls0, colls1) && RootsKept(w, colls0, measured0, extras0, starts0, roots)
    requires measured0 <= measured1 && o in measured1
    requires extras1 == extras0 + (if o in Nulls(w, colls1) then multiset{o} else multiset{})
    ensures RootsKept(w, colls1, measured1, extras1, starts0 + {o}, roots + [o])
  {
    RootsMeasured(roots, measured0, measured1, o);
    ExtrasWithinRoots(extras0, extras1, roots, o);
    ExtrasNull(w, colls0, colls1, extras0, o);
  }

  /** The extras stay within the roots when one more root is passed. */
  lemma ExtrasWithinRoots(extras: multiset<ObjId>, extras': multiset<ObjId>, roots: seq<ObjId>, o: ObjId)
    requires extras <= multiset(roots) && extras' <= extras + multiset{o}
    ensures extras' <= multiset(roots + [o])
  {
    assert multiset(roots + [o]) == multiset(roots) + multiset{o};
  }

  /** A root is measured without a count exactly when it has a `null` count. */
  lemma RootExtra(w: World, colls0: map<ClassId, ClassCollector>, colls1: map<ClassId, ClassCollector>, o: ObjId,
                  expanded: bool, known: bool)
    requires o in w.heap && ClassOf(w, o) in colls0 && AllPersist(colls0, colls1)
    requires expanded == ExecuteStep(colls0[ClassOf(w, o)], o, true).1
    requires known <==> o in colls0[ClassOf(w, o)].instancesToRefCounts
    ensures expanded && known <==> o in Nulls(w, colls1)
  {
    ExecuteStepMeaning(colls0[ClassOf(w, o)], o, true);
    NullsKept(w, colls0, colls1);
  }

  /** The extras keep their `null` counts as the collectors persist, and a
      root joins them only with a `null` count. */
  lemma ExtrasNull(w: World, colls0: map<ClassId, ClassCollector>, colls1: map<ClassId, ClassCollector>,
                   extras: multiset<ObjId>, o: ObjId)
    requires AllPersist(colls0, colls1)
    requires forall x :: x in extras ==> x in Nulls(w, colls0)
    ensures forall x :: x in extras + (if o in Nulls(w, colls1) then multiset{o} else multiset{}) ==> x in Nulls(w, colls1)
  {
    NullsKept(w, colls0, colls1);
  }

  lemma RootsMeasured(roots: seq<ObjId>, measured: seq<ObjId>, measured': seq<ObjId>, o: ObjId)
    requires forall k :: 0 <= k < |roots| ==> roots[k] in measured
    requires measured <= measured' && o in measured'
    ensures forall k :: 0 <= k < |roots + [o]| ==> (roots + [o])[k] in measured'
  {
    forall k | 0 <= k < |roots + [o]|
      ensures (roots + [o])[k] in measured'
    {
      if k < |roots| {
        assert roots[k] in measured;
        var j :| 0 <= j < |measured| && measured[j] == roots[k];
        assert measured'[j] == roots[k];
      }
    }
  }

  /** An instance with a count has been measured. */
  lemma CountedMeasured(w: World, colls: map<ClassId, ClassCollector>, measured: seq<ObjId>, extras: multiset<ObjId>, o: ObjId)
    requires BalancedIn(w, colls, measured, extras, multiset{}) && o in Counted(w, colls)
    ensures o in measured
  {
    assert multiset(measured) == multiset(Counted(w, colls)) + extras;
    assert multiset(Counted(w, colls))[o] == 1;
    assert multiset(measured)[o] >= 1;
    assert o in multiset(measured);
  }

  /** Nothing is measured more than once, except a pre-registered global
      (an instance with a `null` count), which is measured once for each
      time it is passed as a root. */
  lemma MeasuredOnce(w: World, colls: map<ClassId, ClassCollector>, measured: seq<ObjId>, extras: multiset<ObjId>,
                     roots: seq<ObjId>, o: ObjId)
    requires BalancedIn(w, colls, measured, extras, multiset{}) && extras <= multiset(roots)
    requires forall x :: x in extras ==> x in Nulls(w, colls)
    ensures o !in Nulls(w, colls) ==> multiset(measured)[o] <= 1
    ensures o in Nulls(w, colls) ==> multiset(measured)[o] <= multiset(roots)[o]
  {
    assert multiset(measured) == multiset(Counted(w, colls)) + extras;
    if o in Nulls(w, colls) {
      assert o !in Counted(w, colls);
      assert extras[o] <= multiset(roots)[o];
    } else {
      assert o !in extras;
      assert multiset(Counted(w, colls))[o] <= 1;
    }
  }

  /** A `null` count is only ever given to a registered global instance. */
  lemma NullsRegistered(w: World, colls: map<ClassId, ClassCollector>, defs: map<ClassId, Schema>, reg: Registry,
                        globals: set<ObjId>)
    requires AllMade(w, colls, defs, reg, globals)
    ensures Nulls(w, colls) <= globals
  {
    forall o | o in Nulls(w, colls)
      ensures o in globals
    {
      assert Made(w, ClassOf(w, o), colls[ClassOf(w, o)], defs, reg, globals);
    }
  }

  predicate NotNull(x: Ref)
  {
    x.Some?
  }

  function ValueOf(x: Ref): ObjId
  {
    if x.Some? then x.value else 0
  }

  /** The instances measured are the counted ones plus the extras. */
  lemma InstanceCountSplit(w: World, colls: map<ClassId, ClassCollector>, measured: seq<ObjId>, extras: multiset<ObjId>)
    requires BalancedIn(w, colls, measured, extras, multiset{})
    ensures |measured| == |Counted(w, colls)| + |extras|
  {
    assert multiset(measured) == multiset(Counted(w, colls)) + extras;
    MultisetOfSetCard(Counted(w, colls));
    assert |multiset(measured)| == |measured|;
    assert |multiset(Counted(w, colls)) + extras| == |multiset(Counted(w, colls))| + |extras|;
  }

  lemma {:induction false} MultisetOfSetCard<T>(s: set<T>)
    ensures |multiset(s)| == |s|
  {
    if s != {} {
      var x :| x in s;
      MultisetOfSetCard(s - {x});
      assert s == (s - {x}) + {x};
      assert multiset(s) == multiset(s - {x}) + multiset{x};
    }
  }

  /** The non-null instances of a sequence, in order. */
  function NonNull(xs: seq<Ref>): seq<ObjId>
  {
    FilterMap(xs, NotNull, ValueOf)
  }

  /** `Environment.sizeOf(instances...)`: a fresh collector without
      per-class totals measures each instance in order, and its
      `memoryUsed()` is the answer. Every sized instance is reachable from
      an argument; an instance reached from several arguments, or several
      times, is sized once, except a registered global instance passed
      several times, sized once per time. */
  method SizeOf(env: Env.Environment, instances: seq<Ref>) returns (r: int, ghost sized: seq<ObjId>)
    requires env.Valid()
    requires forall k :: 0 <= k < |instances| && instances[k].Some? ==> instances[k].value in env.w.heap
    modifies env
    ensures env.Valid()
    ensures (forall k :: 0 <= k < |sized| ==> sized[k] in env.w.heap) && r == SumFlat(env.w, sized)
    ensures forall k :: 0 <= k < |instances| && instances[k].Some? ==> instances[k].value in sized
    ensures forall o :: multiset(sized)[o] <= 1 || (o in env.globalObjects && multiset(sized)[o] <= multiset(NonNull(instances))[o])
    ensures forall o :: o in sized ==>
      exists k :: 0 <= k < |instances| && instances[k].Some? && o in Env.Reachable(env.w, env.definitions, instances[k].value)
    ensures NonNull(instances) == [] ==> r == 0
    ensures env.Evolved(old(env.definitions), old(env.globalObjects), old(env.Snapshot()), old(env.staticFieldPolicy))
    ensures SizedClosed(env.w, env.definitions, env.Snapshot(), env.globalObjects, sized)
    ensures forall p :: Env.IsPath(env.w, env.definitions, p) && p[0] in sized && AvoidsGlobals(env.w, env.Snapshot(), env.globalObjects, p) ==>
      p[|p| - 1] in sized
  {
    var c := new Collector(env, false);
    MeasureEach(c, instances);
    r := c.MemoryUsed();
    sized := c.measurement.measured;
    NullsRegistered(env.w, c.measurement.classColl, env.definitions, env.Snapshot(), env.globalObjects);
    SizedOnce(env.w, c.measurement.classColl, sized, c.measurement.extras, instances, env.globalObjects);
    SizedReachable(env.w, env.definitions, sized, c.measurement.parents, c.measurement.starts, instances);
    ExpandedClosed(env.w, c.measurement.classColl, sized, c.measurement.extras, env.definitions, env.Snapshot(), env.globalObjects);
    forall p | Env.IsPath(env.w, env.definitions, p) && p[0] in sized && AvoidsGlobals(env.w, env.Snapshot(), env.globalObjects, p)
      ensures p[|p| - 1] in sized
    {
      ClosedPaths(env.w, env.definitions, env.Snapshot(), env.globalObjects, sized, p);
    }
  }

  /** The loop of `sizeOf`: each instance in order is measured as a root. */
  method MeasureEach(c: Collector, instances: seq<Ref>)
    requires c.Valid() && c.measurement.env.Valid() && !c.measurement.individual
    requires c.roots == [] && c.measurement.measured == [] && c.measurement.classColl == map[]
    requires forall k :: 0 <= k < |instances| && instances[k].Some? ==> instances[k].value in c.measurement.env.w.heap
    modifies c, c.measurement, c.measurement.classSpecific.Values, c.measurement.env
    ensures c.Valid() && c.measurement.env.Valid() && !c.measurement.individual
    ensures c.roots == NonNull(instances)
    ensures c.roots == [] ==> c.measurement.measured == []
    ensures var env := c.measurement.env;
      && env.Evolved(old(env.definitions), old(env.globalObjects), old(env.Snapshot()), old(env.staticFieldPolicy))
      && AllMade(env.w, c.measurement.classColl, env.definitions, env.Snapshot(), env.globalObjects)
      && ExpandedFrom(env.w, c.measurement.classColl, c.measurement.measured, 0)
  {
    var env := c.measurement.env;
    for i := 0 to |instances|
      invariant c.Valid() && c.measurement.env.Valid() && !c.measurement.individual
      invariant c.measurement.OnlyFreshAdded()
      invariant c.roots == NonNull(instances[..i])
      invariant c.roots == [] ==> c.measurement.measured == []
      invariant env.Evolved(old(env.definitions), old(env.globalObjects), old(env.Snapshot()), old(env.staticFieldPolicy))
      invariant AllMade(env.w, c.measurement.classColl, env.definitions, env.Snapshot(), env.globalObjects)
      invariant ExpandedFrom(env.w, c.measurement.classColl, c.measurement.measured, 0)
    {
      MeasureNext(c, instances, i);
    }
    assert instances[..|instances|] == instances;
  }

  /** One turn of the loop of `sizeOf`: the next instance becomes a root. */
  method MeasureNext(c: Collector, instances: seq<Ref>, i: nat)
    requires c.Valid() && c.measurement.env.Valid() && i < |instances|
    requires instances[i].Some? ==> instances[i].value in c.measurement.env.w.heap
    requires c.roots == NonNull(instances[..i]) && (c.roots == [] ==> c.measurement.measured == [])
    requires var env := c.measurement.env;
      && AllMade(env.w, c.measurement.classColl, env.definitions, env.Snapshot(), env.globalObjects)
      && ExpandedFrom(env.w, c.measurement.classColl, c.measurement.measured, 0)
    modifies c, c.measurement, c.measurement.classSpecific.Values, c.measurement.env
    ensures c.Valid() && c.measurement.env.Valid() && c.measurement.OnlyFreshAdded()
    ensures c.roots == NonNull(instances[..i + 1]) && (c.roots == [] ==> c.measurement.measured == [])
    ensures var env := c.measurement.env;
      && env.Evolved(old(env.definitions), old(env.globalObjects), old(env.Snapshot()), old(env.staticFieldPolicy))
      && AllMade(env.w, c.measurement.classColl, env.definitions, env.Snapshot(), env.globalObjects)
      && ExpandedFrom(env.w, c.measurement.classColl, c.measurement.measured, 0)
  {
    FilterMapSnoc(instances[..i], instances[i], NotNull, ValueOf);
    assert instances[..i + 1] == instances[..i] + [instances[i]];
    var env := c.measurement.env;
    ghost var colls, measured, defs, globals := c.measurement.classColl, c.measurement.measured, env.definitions, env.globalObjects;
    c.Measure(instances[i]);
    AllMadeGrew(env.w, colls, c.measurement.classColl, defs, env.definitions, env.Snapshot(), globals, env.globalObjects);
    ExpandedJoin(env.w, colls, c.measurement.classColl, measured, c.measurement.measured, 0);
  }

  /** Every instance traced back to a non-null argument is reachable from one. */
  lemma SizedReachable(w: World, defs: map<ClassId, Schema>, sized: seq<ObjId>, parents: seq<int>, starts: set<ObjId>,
                       instances: seq<Ref>)
    requires DerivedAll(w, defs, sized, parents, starts) && forall x :: x in starts ==> x in NonNull(instances)
    requires forall k :: 0 <= k < |sized| ==> sized[k] in w.heap
    ensures forall o :: o in sized ==>
      exists k :: 0 <= k < |instances| && instances[k].Some? && o in Env.Reachable(w, defs, instances[k].value)
  {
    forall o | o in sized
      ensures exists k :: 0 <= k < |instances| && instances[k].Some? && o in Env.Reachable(w, defs, instances[k].value)
    {
      var j :| 0 <= j < |sized| && sized[j] == o;
      DerivedReaches(w, defs, sized, parents, starts, j);
      var r :| r in starts && Env.Reaches(w, defs, r, o);
      FilterMapMember(instances, NotNull, ValueOf, r);
      var k :| 0 <= k < |instances| && NotNull(instances[k]) && ValueOf(instances[k]) == r;
      assert o in Env.Reachable(w, defs, instances[k].value);
    }
  }

  /** Every reference of a sized instance, under the cached schemas, leads to
      a sized instance or to a global one. */
  ghost predicate SizedClosed(w: World, defs: map<ClassId, Schema>, reg: Registry, globals: set<ObjId>, sized: seq<ObjId>)
  {
    forall v, t :: v in sized && t in Env.Children(w, defs, v) ==> t in sized || (t in w.heap && IsGlobal(w, reg, globals, t))
  }

  /** Past its first instance, the path `p` meets no global instance. */
  ghost predicate AvoidsGlobals(w: World, reg: Registry, globals: set<ObjId>, p: seq<ObjId>)
  {
    forall i :: 0 < i < |p| ==> p[i] in w.heap && !IsGlobal(w, reg, globals, p[i])
  }

  /** A balanced measurement whose collectors were made in the environment
      and whose every instance was expanded is closed: what a measured
      instance references is measured, or global. */
  lemma ExpandedClosed(w: World, colls: map<ClassId, ClassCollector>, measured: seq<ObjId>, extras: multiset<ObjId>,
                       defs: map<ClassId, Schema>, reg: Registry, globals: set<ObjId>)
    requires BalancedIn(w, colls, measured, extras, multiset{})
    requires AllMade(w, colls, defs, reg, globals) && ExpandedFrom(w, colls, measured, 0)
    ensures SizedClosed(w, defs, reg, globals, measured)
  {
    forall v, t | v in measured && t in Env.Children(w, defs, v)
      ensures t in measured || (t in w.heap && IsGlobal(w, reg, globals, t))
    {
      var k :| 0 <= k < |measured| && measured[k] == v;
      assert Expanded(w, colls, measured[k]);
      var c := ClassOf(w, v);
      assert Made(w, c, colls[c], defs, reg, globals);
      var es := References(w, defs[c], v);
      var j :| 0 <= j < |es| && es[j].Visited? && es[j].value.Some? && es[j].value.value == t;
      assert Handled(w, colls, es[j].value.value);
      var d := ClassOf(w, t);
      assert Made(w, d, colls[d], defs, reg, globals);
      IsGlobalIsIdentityOrClass(w, reg, globals, t);
      if colls[d].kind != GlobalKind && colls[d].instancesToRefCounts[t].Some? {
        assert t in Counted(w, colls);
        CountedMeasured(w, colls, measured, extras, t);
      }
    }
  }

  /** In a closed set of sized instances, a path from a sized instance that
      meets no global instance stays among the sized ones. */
  lemma {:induction false} ClosedPaths(w: World, defs: map<ClassId, Schema>, reg: Registry, globals: set<ObjId>,
                                       sized: seq<ObjId>, p: seq<ObjId>)
    requires SizedClosed(w, defs, reg, globals, sized)
    requires Env.IsPath(w, defs, p) && p[0] in sized && AvoidsGlobals(w, reg, globals, p)
    ensures p[|p| - 1] in sized
  {
    if |p| > 1 {
      var q := p[..|p| - 1];
      assert Env.IsPath(w, defs, q) by {
        forall i | 0 <= i < |q| - 1
          ensures q[i + 1] in Env.Children(w, defs, q[i])
        {
          assert q[i] == p[i] && q[i + 1] == p[i + 1];
        }
      }
      ClosedPaths(w, defs, reg, globals, sized, q);
      assert p[|p| - 1] in Env.Children(w, defs, p[|p| - 2]);
    }
  }

  /** What `sizeOf` promises, from the invariant of its collector: every
      non-null argument is sized, and only a registered global instance is
      sized more than once, once for each time it is passed. */
  lemma SizedOnce(w: World, colls: map<ClassId, ClassCollector>, measured: seq<ObjId>, extras: multiset<ObjId>,
                  instances: seq<Ref>, globals: set<ObjId>)
    requires BalancedIn(w, colls, measured, extras, multiset{}) && extras <= multiset(NonNull(instances))
    requires (forall x :: x in extras ==> x in Nulls(w, colls)) && Nulls(w, colls) <= globals
    requires forall k :: 0 <= k < |NonNull(instances)| ==> NonNull(instances)[k] in measured
    ensures forall k :: 0 <= k < |instances| && instances[k].Some? ==> instances[k].value in measured
    ensures forall o :: multiset(measured)[o] <= 1 || (o in globals && multiset(measured)[o] <= multiset(NonNull(instances))[o])
  {
    forall o
      ensures multiset(measured)[o] <= 1 || (o in globals && multiset(measured)[o] <= multiset(NonNull(instances))[o])
    {
      MeasuredOnce(w, colls, measured, extras, NonNull(instances), o);
    }
    forall k | 0 <= k < |instances| && instances[k].Some?
      ensures instances[k].value in measured
    {
      FilterMapMember(instances, NotNull, ValueOf, instances[k].value);
    }
  }
}
