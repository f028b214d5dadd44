/** `ClassStats`: the statistics of one measured class. `Reference` is the
    tally counter of one reference name; `MyClassStats` is the snapshot
    `Environment.classStatsFor` takes of a class collector. */
module ClassStats {
  import opened Lang
  import opened World
  import opened ClassSchema
  import opened ClassCollectors
  import opened Sequences

  /** The UTF-16 code units of a character: the character itself below
      U+10000, otherwise a high surrogate followed by a low surrogate. */
  function Utf16(c: char): (r: seq<int>)
    ensures |r| == 1 <==> (c as int) < 0x1_0000
    ensures |r| == 1 ==> r[0] == c as int
    ensures |r| != 1 ==> |r| == 2 && 0xD800 <= r[0] < 0xDC00 && 0xDC00 <= r[1] < 0xE000
    ensures |r| != 1 ==> 0x1_0000 + (r[0] - 0xD800) * 0x400 + (r[1] - 0xDC00) == c as int
  {
    if (c as int) < 0x1_0000 then [c as int]
    else [0xD800 + (c as int - 0x1_0000) / 0x400, 0xDC00 + (c as int - 0x1_0000) % 0x400]
  }

  /** The UTF-16 code units of a string, the `char`s of a Java string. */
  function Utf16Units(s: string): seq<int>
  {
    if s == [] then [] else Utf16Units(s[..|s| - 1]) + Utf16(s[|s| - 1])
  }

  /** `h = 31 * h + c` over the code units, in `int` arithmetic. */
  function UnitsHash(us: seq<int>): (h: int)
    ensures IsInt(h)
  {
    if us == [] then 0 else WrapInt(31 * UnitsHash(us[..|us| - 1]) + us[|us| - 1])
  }

  /** `String.hashCode`: the hash of the string's UTF-16 code units. */
  function StringHash(s: string): (h: int)
    ensures IsInt(h)
  {
    UnitsHash(Utf16Units(s))
  }

  /** A string of characters below U+10000 has one code unit per character. */
  lemma {:induction false} Utf16UnitsBasic(s: string)
    requires forall k :: 0 <= k < |s| ==> (s[k] as int) < 0x1_0000
    ensures Utf16Units(s) == seq(|s|, k requires 0 <= k < |s| => s[k] as int)
  {
    if s != [] {
      Utf16UnitsBasic(s[..|s| - 1]);
    }
  }

  /** `ClassStats.Reference`: a reference name and how often it was followed. */
  class Reference {
    const name: string
    var count: int

    ghost predicate Valid()
      reads this
    {
      IsInt(count)
    }

    /** `Reference(name)`: the count starts at zero. */
    constructor Named(name: string)
      ensures Valid() && this.name == name && count == 0
    {
      this.name := name;
      count := 0;
    }

    /** `Reference(name, count)`. */
    constructor(name: string, count: int)
      requires IsInt(count)
      ensures Valid() && this.name == name && this.count == count
    {
      this.name := name;
      this.count := count;
    }

    /** `increment()`: `count++` in `int` arithmetic; the name stays. */
    method Increment()
      requires Valid()
      modifies this
      ensures Valid() && count == WrapInt(old(count) + 1)
      ensures old(count) < INT_MAX ==> count == old(count) + 1
    {
      count := WrapInt(count + 1);
    }

    /** `equals(obj)` for `null` or another `Reference` (the class is final,
        so `getClass() == Reference.class` holds exactly for those). */
    predicate Equals(other: Reference?)
      reads this, other
    {
      other != null && name == other.name && count == other.count
    }

    /** `hashCode()`: `1103 + name.hashCode() + count`, wrapping like `int`. */
    function HashCode(): (h: int)
      reads this
      ensures IsInt(h)
      ensures (h - (1103 + StringHash(name) + count)) % 0x1_0000_0000 == 0
    {
      WrapInt(1103 + StringHash(name) + count)
    }
  }

  /** `equals` is an equivalence on references, never holds for `null`, and
      equal references have equal hash codes. */
  lemma EqualsContract(a: Reference, b: Reference, c: Reference)
    ensures a.Equals(a) && !a.Equals(null)
    ensures a.Equals(b) ==> b.Equals(a) && a.HashCode() == b.HashCode()
    ensures a.Equals(b) && b.Equals(c) ==> a.Equals(c)
  {
  }

  /** Two references with the same name and count are equal, whatever their identity. */
  lemma EqualsIsByValue(a: Reference, b: Reference)
    ensures a.Equals(b) <==> a.name == b.name && a.count == b.count
  {
  }

  /** The order of `referencedBy()`: `compare(o1, o2) = o2.count - o1.count`. */
  function CompareReferences(a: (string, nat), b: (string, nat)): int
  {
    b.1 - a.1
  }

  /** The comparator orders tallies by descending count, and is a total preorder. */
  lemma CompareReferencesOrder(xs: set<(string, nat)>)
    ensures forall a, b :: CompareReferences(a, b) <= 0 <==> a.1 >= b.1
    ensures TotalPreorderOn(xs, (a, b) => CompareReferences(a, b) <= 0)
  {
  }

  /** The entries of an identity map that carry a count, index-aligned with
      their counts: each counted instance exactly once, and none of the
      `null` counts of pre-registered globals. */
  ghost predicate Tabulated(m: map<ObjId, Option<nat>>, instances: seq<ObjId>, counts: seq<int>)
  {
    && |instances| == |counts|
    && (forall k :: 0 <= k < |instances| ==>
          instances[k] in m && m[instances[k]].Some? && counts[k] == m[instances[k]].value)
    && (forall j, k :: 0 <= j < k < |instances| ==> instances[j] != instances[k])
    && (forall o :: o in CountedIn(m) ==> o in instances)
  }

  /** The array-filling loop of `MyClassStats(cc)`: the entries of the
      identity map are taken in the order its entry set yields them, the
      `null` counts are skipped and the others copied into two arrays of
      length `n`, the collector's `instanceCount`. */
  method Tabulate(m: map<ObjId, Option<nat>>, n: nat) returns (instances: array<ObjId>, counts: array<int>)
    requires n == |CountedIn(m)|
    ensures fresh(instances) && fresh(counts)
    ensures instances.Length == counts.Length == n
    ensures Tabulated(m, instances[..], counts[..])
  {
    instances := new ObjId[n];
    counts := new int[n];
    var i := 0;
    var entries := m.Keys;
    ghost var done: seq<ObjId> := [];
    RemainingAll(m);
    while entries != {}
      invariant entries <= m.Keys && |done| == i && i + |Remaining(m, entries)| == n
      invariant multiset(done) + multiset(Remaining(m, entries)) == multiset(CountedIn(m))
      invariant forall k :: 0 <= k < i ==> instances[k] == done[k] && done[k] in m && m[done[k]].Some?
      invariant forall k :: 0 <= k < i ==> counts[k] == m[done[k]].value
      decreases entries
    {
      var o :| o in entries;
      RemainingStep(m, entries, o);
      entries := entries - {o};
      var count := m[o];
      if count.None? {
        // a pre-registered global instance
        continue;
      }
      instances[i] := o;
      counts[i] := count.value;
      done := done + [o];
      i := i + 1;
    }
    assert instances[..] == done;
    TabulatedFromMultiset(m, done, counts[..]);
  }

  /** The counted instances among `entries`, the entries not yet taken. */
  ghost function Remaining(m: map<ObjId, Option<nat>>, entries: set<ObjId>): set<ObjId>
  {
    set o | o in entries && o in m && m[o].Some?
  }

  lemma RemainingAll(m: map<ObjId, Option<nat>>)
    ensures Remaining(m, m.Keys) == CountedIn(m) && Remaining(m, {}) == {}
  {
  }

  /** Taking one entry: a counted one leaves the remaining instances. */
  lemma RemainingStep(m: map<ObjId, Option<nat>>, entries: set<ObjId>, o: ObjId)
    requires o in entries && entries <= m.Keys
    ensures multiset(Remaining(m, entries)) ==
      multiset(Remaining(m, entries - {o})) + if m[o].Some? then multiset{o} else multiset{}
    ensures |Remaining(m, entries)| == |Remaining(m, entries - {o})| + if m[o].Some? then 1 else 0
  {
    if m[o].Some? {
      assert Remaining(m, entries) == Remaining(m, entries - {o}) + {o};
    } else {
      assert Remaining(m, entries) == Remaining(m, entries - {o});
    }
  }

  /** A sequence holding each counted instance once, with its count beside it. */
  lemma TabulatedFromMultiset(m: map<ObjId, Option<nat>>, instances: seq<ObjId>, counts: seq<int>)
    requires multiset(instances) == multiset(CountedIn(m)) && |counts| == |instances|
    requires forall k :: 0 <= k < |instances| ==> instances[k] in m && m[instances[k]].Some? && counts[k] == m[instances[k]].value
    ensures Tabulated(m, instances, counts)
  {
    forall j, k | 0 <= j < k < |instances|
      ensures instances[j] != instances[k]
    {
      if instances[j] == instances[k] {
        DuplicateCounts(instances, j, k);
      }
    }
    forall o | o in CountedIn(m)
      ensures o in instances
    {
      assert o in multiset(instances);
    }
  }

  /** An element found at two positions occurs at least twice. */
  lemma DuplicateCounts<T>(s: seq<T>, j: nat, k: nat)
    requires j < k < |s| && s[j] == s[k]
    ensures multiset(s)[s[j]] >= 2
  {
    assert s == s[..j] + [s[j]] + s[j + 1..k] + [s[k]] + s[k + 1..];
  }

  /** `MyClassStats`: an immutable snapshot of one class collector. */
  class MyClassStats {
    const schema: Schema
    const totalSize: int
    const referencedBy: map<string, nat>
    const instances: array<ObjId>
    const referenceCounts: array<int>

    /** `MyClassStats(cc)`: the counted entries of the collector's identity
        map are copied, in the order its entry set yields them, into two
        index-aligned arrays of length `cc.instanceCount`. */
    constructor(w: World, c: ClassId, cc: ClassCollector, totalSize: int)
      requires CollectorValid(w, c, cc)
      ensures schema == cc.schema && this.totalSize == totalSize && referencedBy == cc.referencedBy
      ensures instances.Length == referenceCounts.Length == cc.instanceCount
      ensures Tabulated(cc.instancesToRefCounts, instances[..], referenceCounts[..])
      ensures fresh(instances) && fresh(referenceCounts)
    {
      var instanceArray, refCounts := Tabulate(cc.instancesToRefCounts, cc.instanceCount);
      schema := cc.schema;
      this.totalSize := totalSize;
      referencedBy := cc.referencedBy;
      instances := instanceArray;
      referenceCounts := refCounts;
    }

    /** `type()`. */
    function Type(): ClassId
    {
      schema.cls
    }

    /** `length()`: the schema's shallow size of `null`, for an array type
        the base offset, which a `null` array needs no alignment for. */
    function Length(w: World): (r: int)
      ensures r == ShallowSize(w, schema, None)
    {
      match schema
      case ObjectClassSchema(_, size, _) => size
      case _ => schema.baseOffset
    }

    /** `instanceCount()`: the number of counted instances. */
    function InstanceCount(): nat
    {
      instances.Length
    }

    /** `compareTo(o)`: `o.totalSize - totalSize` decides, and on a tie
        `o.instanceCount() - instanceCount()`. */
    function CompareTo(o: MyClassStats): int
    {
      var r := o.totalSize - totalSize;
      if r == 0 then o.InstanceCount() - InstanceCount() else if r < 0 then -1 else 1
    }

    /** `referencedBy()`: the tallies of the collector, in the order the map
        yields them, sorted by descending count. */
    method ReferencedBy() returns (r: seq<(string, nat)>)
      ensures multiset(r) == multiset(Tallies(referencedBy))
      ensures forall i, j :: 0 <= i < j < |r| ==> r[i].1 >= r[j].1
    {
      var items: seq<(string, nat)> := [];
      var names := referencedBy.Keys;
      while names != {}
        invariant names <= referencedBy.Keys
        invariant multiset(items) + multiset(Tallies(referencedBy, names)) == multiset(Tallies(referencedBy))
        decreases names
      {
        var n :| n in names;
        TalliesRemove(referencedBy, names, n);
        items := items + [(n, referencedBy[n])];
        names := names - {n};
      }
      TalliesAll(referencedBy);
      var below := (a, b) => CompareReferences(a, b) <= 0;
      CompareReferencesOrder(set k | 0 <= k < |items| :: items[k]);
      SortBySorted(items, below, set k | 0 <= k < |items| :: items[k]);
      r := SortBy(items, below);
    }
  }

  /** `compareTo` puts the larger total size first and, between equal
      totals, the larger instance count; it is antisymmetric in sign and
      answers 0 exactly for equal keys. */
  lemma CompareToOrder(a: MyClassStats, b: MyClassStats)
    ensures a.CompareTo(b) < 0 <==>
      a.totalSize > b.totalSize || (a.totalSize == b.totalSize && a.InstanceCount() > b.InstanceCount())
    ensures a.CompareTo(b) == 0 <==> a.totalSize == b.totalSize && a.InstanceCount() == b.InstanceCount()
    ensures a.CompareTo(b) < 0 <==> b.CompareTo(a) > 0
  {
  }

  /** `Arrays.sort` may rely on it: `compareTo(o) <= 0` is a total preorder. */
  lemma CompareToPreorder(xs: set<MyClassStats>)
    ensures TotalPreorderOn(xs, (a: MyClassStats, b: MyClassStats) => a.CompareTo(b) <= 0)
  {
  }

  /** `length()` of a plain class is the size of every one of its instances;
      for an array class it is the base offset, which is the size of an
      empty array whenever the base offset is aligned, and never more. */
  lemma LengthMeaning(w: World, st: MyClassStats, c: ClassId, o: HeapObject)
    requires IsSchemaFor(w, c, st.schema)
    ensures !IsArray(w, c) ==> st.Length(w) == ShallowSize(w, st.schema, Some(o)) == ObjectSize(w, c)
    ensures IsArray(w, c) && ArrayLength(o) == 0 ==> st.Length(w) <= ShallowSize(w, st.schema, Some(o))
    ensures IsArray(w, c) && ArrayLength(o) == 0 && st.schema.baseOffset % AddressSize(w) == 0 ==>
      st.Length(w) == ShallowSize(w, st.schema, Some(o))
  {
    if IsArray(w, c) && ArrayLength(o) == 0 {
      assert st.schema.baseOffset + ArrayLength(o) * st.schema.indexScale == st.schema.baseOffset;
      if st.schema.baseOffset % AddressSize(w) == 0 {
        AlignAligned(w, st.schema.baseOffset);
      }
    }
  }

  /** The tallies of the names in `names`, as (name, count) pairs. */
  ghost function Tallies(tally: map<string, nat>, names: set<string> := tally.Keys): set<(string, nat)>
  {
    set n | n in names && n in tally :: (n, tally[n])
  }

  lemma TalliesRemove(tally: map<string, nat>, names: set<string>, n: string)
    requires n in names && names <= tally.Keys
    ensures multiset(Tallies(tally, names)) == multiset(Tallies(tally, names - {n})) + multiset{(n, tally[n])}
  {
    assert Tallies(tally, names) == Tallies(tally, names - {n}) + {(n, tally[n])};
  }

  lemma TalliesAll(tally: map<string, nat>)
    ensures Tallies(tally, {}) == {}
  {
  }

  /** `classStatsFor(cc)`: `null` for a missing collector, else a snapshot of it. */
  method ClassStatsFor(w: World, c: ClassId, cc: Option<ClassCollector>, totalSize: int) returns (s: MyClassStats?)
    requires cc.Some? ==> CollectorValid(w, c, cc.value)
    ensures cc.None? <==> s == null
    ensures cc.Some? ==> s.schema == cc.value.schema && s.totalSize == totalSize && s.InstanceCount() == cc.value.instanceCount
    ensures cc.Some? ==> Tabulated(cc.value.instancesToRefCounts, s.instances[..], s.referenceCounts[..])
  {
    if cc.None? {
      return null;
    }
    s := new MyClassStats(w, c, cc.value, totalSize);
  }
}
