/** The bookkeeping of `Collector.ClassCollector` as values: one collector per
    exact runtime class, holding the identity map from instance to reference
    count (`None` for a pre-registered global instance), the number of counted
    instances and the tally of the reference names that led to the class. */
module ClassCollectors {
  import opened Lang
  import opened World
  import opened ClassSchema

  /** `ClassCollector`, `GlobalClassCollector` (whose `ref` does nothing) and
      `MemoryCountingClassCollector` (which also sizes each instance in a
      measurement of its own). */
  datatype CollectorKind = Counting | GlobalKind | MemoryCounting

  datatype ClassCollector = ClassCollector(
    kind: CollectorKind,
    schema: Schema,
    instancesToRefCounts: map<ObjId, Option<nat>>,
    instanceCount: nat,
    referencedBy: map<string, nat>)

  /** The instances that carry a count (every key but the pre-registered globals). */
  function CountedIn(m: map<ObjId, Option<nat>>): set<ObjId>
  {
    set o | o in m && m[o].Some?
  }

  /** The invariants of one collector of class `c`: its schema is the one of
      `c`, its entries are valid and every tallied name counts at least one
      reference. */
  ghost predicate CollectorValid(w: World, c: ClassId, cc: ClassCollector)
  {
    && IsSchemaFor(w, c, cc.schema)
    && EntriesValid(w, c, cc.instancesToRefCounts, cc.instanceCount)
    && (forall n :: n in cc.referencedBy ==> cc.referencedBy[n] >= 1)
  }

  /** The keys are instances of exactly `c`, counts are at least one, and
      `count` is the number of non-null entries. */
  ghost predicate EntriesValid(w: World, c: ClassId, m: map<ObjId, Option<nat>>, count: nat)
  {
    && (forall o :: o in m ==> o in w.heap && ClassOf(w, o) == c)
    && (forall o :: o in m && m[o].Some? ==> m[o].value >= 1)
    && count == |CountedIn(m)|
  }

  ghost predicate CollectorsValid(w: World, colls: map<ClassId, ClassCollector>)
  {
    forall c {:trigger CollectorValid(w, c, colls[c])} :: c in colls ==> CollectorValid(w, c, colls[c])
  }

  /** The collector of class `c`, out of valid collectors. */
  lemma CollectorOf(w: World, colls: map<ClassId, ClassCollector>, c: ClassId)
    requires CollectorsValid(w, colls) && c in colls
    ensures CollectorValid(w, c, colls[c])
  {
  }

  lemma CollectorsValidUpdate(w: World, colls: map<ClassId, ClassCollector>, c: ClassId, cc: ClassCollector)
    requires CollectorsValid(w, colls) && CollectorValid(w, c, cc)
    ensures CollectorsValid(w, colls[c := cc])
  {
    var colls' := colls[c := cc];
    forall d | d in colls'
      ensures CollectorValid(w, d, colls'[d])
    {
      if d != c {
        CollectorOf(w, colls, d);
      }
    }
  }

  /** A new collector of class `c`: the pre-registered globals of exactly that
      class get a `null` count, nothing is counted and nothing is tallied. */
  function NewCollector(w: World, kind: CollectorKind, c: ClassId, schema: Schema, globals: set<ObjId>): (cc: ClassCollector)
    requires globals <= w.heap.Keys
    ensures cc.instancesToRefCounts.Keys == set o | o in globals && ClassOf(w, o) == c
    ensures CountedIn(cc.instancesToRefCounts) == {}
    ensures IsSchemaFor(w, c, schema) ==> CollectorValid(w, c, cc)
  {
    var m := map o | o in globals && ClassOf(w, o) == c :: None;
    assert CountedIn(m) == {};
    ClassCollector(kind, schema, m, 0, map[])
  }

  /** `ref`'s tally: the entry for `refName` goes up by one, or is created at one. */
  function Tally(referencedBy: map<string, nat>, refName: string): (r: map<string, nat>)
    ensures r.Keys == referencedBy.Keys + {refName}
    ensures r[refName] >= 1
    ensures forall n :: n in referencedBy && n != refName ==> r[n] == referencedBy[n]
  {
    referencedBy[refName := if refName in referencedBy then referencedBy[refName] + 1 else 1]
  }

  /** A tally keeps every name with a count of at least one, and keeps every
      count from going down. */
  lemma TallyKeepsValid(w: World, c: ClassId, cc: ClassCollector, refName: string)
    requires CollectorValid(w, c, cc)
    ensures CollectorValid(w, c, cc.(referencedBy := Tally(cc.referencedBy, refName)))
    ensures refName in cc.referencedBy ==> Tally(cc.referencedBy, refName)[refName] == cc.referencedBy[refName] + 1
    ensures refName !in cc.referencedBy ==> Tally(cc.referencedBy, refName)[refName] == 1
  {
  }

  /** One more reference to a counted instance: the count goes up by one. */
  lemma BumpKeepsValid(w: World, c: ClassId, m: map<ObjId, Option<nat>>, count: nat, o: ObjId)
    requires EntriesValid(w, c, m, count) && o in m && m[o].Some?
    ensures EntriesValid(w, c, m[o := Some(m[o].value + 1)], count)
    ensures CountedIn(m[o := Some(m[o].value + 1)]) == CountedIn(m)
  {
    assert CountedIn(m[o := Some(m[o].value + 1)]) == CountedIn(m);
  }

  /** The first visit of an unseen instance: count one, and one more counted instance. */
  lemma AddKeepsValid(w: World, c: ClassId, m: map<ObjId, Option<nat>>, count: nat, o: ObjId)
    requires EntriesValid(w, c, m, count)
    requires o in w.heap && ClassOf(w, o) == c && o !in m
    ensures EntriesValid(w, c, m[o := Some(1)], count + 1)
    ensures CountedIn(m[o := Some(1)]) == CountedIn(m) + {o}
  {
    assert CountedIn(m[o := Some(1)]) == CountedIn(m) + {o};
  }

  /** The bookkeeping of `execute(instance, caller, calcGlobalObjects)`: the
      collector afterwards, and whether the instance is then sized and
      expanded (`calc`). */
  function ExecuteStep(cc: ClassCollector, o: ObjId, calcGlobal: bool): (r: (ClassCollector, bool))
    ensures r.0.kind == cc.kind && r.0.schema == cc.schema && r.0.referencedBy == cc.referencedBy
    ensures r.0.instancesToRefCounts.Keys == cc.instancesToRefCounts.Keys + {o}
  {
    var m := cc.instancesToRefCounts;
    if o in m then
      if m[o].Some? then (cc.(instancesToRefCounts := m[o := Some(m[o].value + 1)]), false)
      else (cc, calcGlobal)
    else (cc.(instancesToRefCounts := m[o := Some(1)], instanceCount := cc.instanceCount + 1), true)
  }

  /** An instance seen for the first time gets count one, raises
      `instanceCount` by one, and is sized and expanded; a counted instance
      only gets one more count; a pre-registered global keeps its `null`
      count and is sized and expanded only as a root. No other entry changes. */
  lemma ExecuteStepMeaning(cc: ClassCollector, o: ObjId, calcGlobal: bool)
    ensures var r := ExecuteStep(cc, o, calcGlobal);
      var m := cc.instancesToRefCounts;
      var m' := r.0.instancesToRefCounts;
      && (forall p :: p in m && p != o ==> m'[p] == m[p])
      && (o !in m ==> r.1 && m'[o] == Some(1) && r.0.instanceCount == cc.instanceCount + 1)
      && (o in m && m[o].Some? ==> !r.1 && m'[o] == Some(m[o].value + 1) && r.0.instanceCount == cc.instanceCount)
      && (o in m && m[o].None? ==> r.1 == calcGlobal && r.0 == cc)
  {
  }

  /** `execute` keeps a collector valid, and takes a count for the instance
      exactly when it had no entry. */
  lemma ExecuteStepKeepsValid(w: World, c: ClassId, cc: ClassCollector, o: ObjId, calcGlobal: bool)
    requires CollectorValid(w, c, cc) && o in w.heap && ClassOf(w, o) == c
    ensures CollectorValid(w, c, ExecuteStep(cc, o, calcGlobal).0)
    ensures CountedIn(ExecuteStep(cc, o, calcGlobal).0.instancesToRefCounts)
      == CountedIn(cc.instancesToRefCounts) + (if o !in cc.instancesToRefCounts then {o} else {})
  {
    var m := cc.instancesToRefCounts;
    if o !in m {
      AddKeepsValid(w, c, m, cc.instanceCount, o);
    } else if m[o].Some? {
      BumpKeepsValid(w, c, m, cc.instanceCount, o);
    }
  }

  /** Once an instance has been executed, executing it again never sizes it,
      unless it is a pre-registered global measured as a root: this is why a
      cycle ends and why an instance referenced many times is sized once. */
  lemma ExecuteStepOnce(cc: ClassCollector, o: ObjId, calcGlobal: bool, calcGlobal2: bool)
    ensures var again := ExecuteStep(ExecuteStep(cc, o, calcGlobal).0, o, calcGlobal2);
      again.1 <==> o in cc.instancesToRefCounts && cc.instancesToRefCounts[o].None? && calcGlobal2
  {
  }

  /** `cc1` is a later state of the collector `cc0`: the same kind and
      schema, no entry removed, no tally gone down, and a `null` entry
      neither added nor given a count. */
  ghost predicate Persists(cc0: ClassCollector, cc1: ClassCollector)
  {
    && cc1.kind == cc0.kind && cc1.schema == cc0.schema
    && cc0.instancesToRefCounts.Keys <= cc1.instancesToRefCounts.Keys
    && (forall n :: n in cc0.referencedBy ==> n in cc1.referencedBy && cc1.referencedBy[n] >= cc0.referencedBy[n])
    && (forall o :: o in cc1.instancesToRefCounts && cc1.instancesToRefCounts[o].None? ==>
          o in cc0.instancesToRefCounts && cc0.instancesToRefCounts[o].None?)
    && (forall o :: o in cc0.instancesToRefCounts && cc0.instancesToRefCounts[o].None? ==>
          cc1.instancesToRefCounts[o].None?)
  }

  /** Every collector of `colls0` persists in `colls1`. */
  ghost predicate AllPersist(colls0: map<ClassId, ClassCollector>, colls1: map<ClassId, ClassCollector>)
  {
    forall c {:trigger Persists(colls0[c], colls1[c])} :: c in colls0 ==> c in colls1 && Persists(colls0[c], colls1[c])
  }

  lemma PersistsOf(colls0: map<ClassId, ClassCollector>, colls1: map<ClassId, ClassCollector>, c: ClassId)
    requires AllPersist(colls0, colls1) && c in colls0
    ensures c in colls1 && Persists(colls0[c], colls1[c])
  {
  }

  lemma AllPersistTransitive(colls0: map<ClassId, ClassCollector>, colls1: map<ClassId, ClassCollector>,
                             colls2: map<ClassId, ClassCollector>)
    requires AllPersist(colls0, colls1) && AllPersist(colls1, colls2)
    ensures AllPersist(colls0, colls2)
  {
    forall c | c in colls0
      ensures c in colls2 && Persists(colls0[c], colls2[c])
    {
      PersistsOf(colls0, colls1, c);
      PersistsOf(colls1, colls2, c);
    }
  }

  /** Replacing one collector by a later state of it, or adding a new one. */
  lemma AllPersistUpdate(colls: map<ClassId, ClassCollector>, c: ClassId, cc: ClassCollector)
    requires c in colls ==> Persists(colls[c], cc)
    ensures AllPersist(colls, colls[c := cc])
  {
    forall d | d in colls
      ensures d in colls[c := cc] && Persists(colls[d], colls[c := cc][d])
    {
    }
  }

  /** `execute` and `ref`'s tally leave later states of the collector. */
  lemma StepsPersist(cc: ClassCollector, o: ObjId, calcGlobal: bool, refName: string)
    ensures Persists(cc, ExecuteStep(cc, o, calcGlobal).0)
    ensures Persists(cc, cc.(referencedBy := Tally(cc.referencedBy, refName)))
  {
  }

  /** Every instance with an entry in some collector (the keys of all the
      identity maps together). */
  ghost function Keys(w: World, colls: map<ClassId, ClassCollector>): set<ObjId>
  {
    set o | o in w.heap && ClassOf(w, o) in colls && o in colls[ClassOf(w, o)].instancesToRefCounts
  }

  /** Every instance with a non-null count in some collector. */
  ghost function Counted(w: World, colls: map<ClassId, ClassCollector>): set<ObjId>
  {
    set o | o in Keys(w, colls) && colls[ClassOf(w, o)].instancesToRefCounts[o].Some?
  }

  /** Every instance with a `null` entry in some collector: the
      pre-registered globals met so far. */
  ghost function Nulls(w: World, colls: map<ClassId, ClassCollector>): set<ObjId>
  {
    set o | o in Keys(w, colls) && colls[ClassOf(w, o)].instancesToRefCounts[o].None?
  }

  /** As collectors persist, a `null` entry stays `null`, and an instance
      of a class that already had a collector gets no new `null` entry. */
  lemma NullsKept(w: World, colls0: map<ClassId, ClassCollector>, colls1: map<ClassId, ClassCollector>)
    requires AllPersist(colls0, colls1)
    ensures Nulls(w, colls0) <= Nulls(w, colls1)
    ensures forall o :: o in Nulls(w, colls1) && ClassOf(w, o) in colls0 ==> o in Nulls(w, colls0)
  {
    forall o | o in Nulls(w, colls0)
      ensures o in Nulls(w, colls1)
    {
      PersistsOf(colls0, colls1, ClassOf(w, o));
    }
    forall o | o in Nulls(w, colls1) && ClassOf(w, o) in colls0
      ensures o in Nulls(w, colls0)
    {
      PersistsOf(colls0, colls1, ClassOf(w, o));
    }
  }

  /** Replacing the collector of `c` by one with the same entries changes no key and no count. */
  lemma SameEntries(w: World, colls: map<ClassId, ClassCollector>, c: ClassId, cc: ClassCollector)
    requires c in colls && cc.instancesToRefCounts.Keys == colls[c].instancesToRefCounts.Keys
    requires CountedIn(cc.instancesToRefCounts) == CountedIn(colls[c].instancesToRefCounts)
    ensures Keys(w, colls[c := cc]) == Keys(w, colls)
    ensures Counted(w, colls[c := cc]) == Counted(w, colls)
  {
    var colls' := colls[c := cc];
    assert Keys(w, colls') == Keys(w, colls);
    forall o | o in Keys(w, colls)
      ensures colls'[ClassOf(w, o)].instancesToRefCounts[o].Some? == colls[ClassOf(w, o)].instancesToRefCounts[o].Some?
    {
      if ClassOf(w, o) == c {
        assert o in CountedIn(cc.instancesToRefCounts) <==> o in CountedIn(colls[c].instancesToRefCounts);
      }
    }
  }

  /** A new collector adds keys but no count. */
  lemma NewEntries(w: World, colls: map<ClassId, ClassCollector>, c: ClassId, cc: ClassCollector)
    requires c !in colls && CountedIn(cc.instancesToRefCounts) == {}
    ensures Keys(w, colls) <= Keys(w, colls[c := cc])
    ensures Counted(w, colls[c := cc]) == Counted(w, colls)
  {
    var colls' := colls[c := cc];
    forall o | o in Keys(w, colls') && colls'[ClassOf(w, o)].instancesToRefCounts[o].Some?
      ensures ClassOf(w, o) != c
    {
      assert o in CountedIn(colls'[ClassOf(w, o)].instancesToRefCounts);
    }
  }

  /** Giving an unseen instance of class `c` a count adds it to the keys and to the counted instances. */
  lemma AddedEntry(w: World, colls: map<ClassId, ClassCollector>, c: ClassId, o: ObjId, n: nat)
    requires c in colls && o in w.heap && ClassOf(w, o) == c && o !in colls[c].instancesToRefCounts
    ensures var cc := colls[c].(instancesToRefCounts := colls[c].instancesToRefCounts[o := Some(n)]);
      && Keys(w, colls[c := cc]) == Keys(w, colls) + {o}
      && Counted(w, colls[c := cc]) == Counted(w, colls) + {o}
      && o !in Keys(w, colls)
  {
  }

  /** Executing an instance in the collector of its class: the collectors
      stay valid, the instance has an entry afterwards, and it becomes
      counted exactly when it had no entry before. */
  lemma ExecuteEntries(w: World, colls: map<ClassId, ClassCollector>, o: ObjId, calcGlobal: bool)
    requires CollectorsValid(w, colls) && o in w.heap && ClassOf(w, o) in colls
    ensures var c := ClassOf(w, o);
      var colls' := colls[c := ExecuteStep(colls[c], o, calcGlobal).0];
      var first := o !in colls[c].instancesToRefCounts;
      && CollectorsValid(w, colls')
      && Keys(w, colls') == Keys(w, colls) + {o}
      && (first <==> o !in Keys(w, colls))
      && Counted(w, colls') == Counted(w, colls) + (if first then {o} else {})
  {
    var c := ClassOf(w, o);
    var cc' := ExecuteStep(colls[c], o, calcGlobal).0;
    CollectorOf(w, colls, c);
    ExecuteStepKeepsValid(w, c, colls[c], o, calcGlobal);
    CollectorsValidUpdate(w, colls, c, cc');
    ReplaceEntries(w, colls, c, cc', o, if o !in colls[c].instancesToRefCounts then {o} else {});
  }

  /** Replacing the collector of `c` by one with the entry of `o` added (or
      kept) and the counts of `added` taken. */
  lemma ReplaceEntries(w: World, colls: map<ClassId, ClassCollector>, c: ClassId, cc': ClassCollector, o: ObjId, added: set<ObjId>)
    requires c in colls && o in w.heap && ClassOf(w, o) == c && added <= {o}
    requires cc'.instancesToRefCounts.Keys == colls[c].instancesToRefCounts.Keys + {o}
    requires CountedIn(cc'.instancesToRefCounts) == CountedIn(colls[c].instancesToRefCounts) + added
    ensures Keys(w, colls[c := cc']) == Keys(w, colls) + {o}
    ensures Counted(w, colls[c := cc']) == Counted(w, colls) + added
    ensures o in Keys(w, colls) <==> o in colls[c].instancesToRefCounts
  {
    var colls' := colls[c := cc'];
    forall p | p in Counted(w, colls') || p in Counted(w, colls) + added
      ensures p in Counted(w, colls') <==> p in Counted(w, colls) + added
    {
      if ClassOf(w, p) == c {
        assert p in CountedIn(cc'.instancesToRefCounts) <==> p in CountedIn(colls[c].instancesToRefCounts) + added;
      }
    }
  }

  /** `ref`'s tally in the collector of `c` keeps the collectors valid and
      changes no entry. */
  lemma TallyEntries(w: World, colls: map<ClassId, ClassCollector>, c: ClassId, refName: string)
    requires CollectorsValid(w, colls) && c in colls
    ensures var colls' := colls[c := colls[c].(referencedBy := Tally(colls[c].referencedBy, refName))];
      && CollectorsValid(w, colls')
      && Keys(w, colls') == Keys(w, colls)
      && Counted(w, colls') == Counted(w, colls)
  {
    var cc' := colls[c].(referencedBy := Tally(colls[c].referencedBy, refName));
    CollectorOf(w, colls, c);
    TallyKeepsValid(w, c, colls[c], refName);
    CollectorsValidUpdate(w, colls, c, cc');
    SameEntries(w, colls, c, cc');
  }
}
