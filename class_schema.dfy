/** `ClassSchema`: the per-type layout used for sizing (the shallow size of an
    instance) and for traversal (which references an instance exposes, under
    which name). Three kinds of schema: plain objects, arrays of primitives and
    arrays of references. */
module ClassSchema {
  import opened Lang
  import opened World
  import opened Sequences

  /** A reference-valued instance field, and the name under which a visit
      through it is tallied. */
  datatype FieldRef = FieldRef(name: string, field: Field)

  datatype Schema =
    | ObjectClassSchema(cls: ClassId, size: int, refs: seq<FieldRef>)
    | PrimitiveArraySchema(cls: ClassId, baseOffset: int, indexScale: int)
    | ObjectArraySchema(cls: ClassId, baseOffset: int, indexScale: int, refName: string)

  /** One call of `FieldCallback.visit(refName, value)`, or the closing call of `finished()`. */
  datatype Event = Visited(refName: string, value: Ref) | Finished

  /** The address size of the VM; every object occupies a multiple of it. */
  function AddressSize(w: World): nat
  {
    Pow2(w.layout.addressShift)
  }

  /** `alignAddress`: clear the low address bits, and if that changed the
      address, move up by one address size. The result is the smallest
      multiple of the address size that is not below `address`. */
  function AlignAddress(w: World, address: int): (r: int)
    ensures r % AddressSize(w) == 0
    ensures address <= r < address + AddressSize(w)
  {
    var aligned := address - LowBits(address, w.layout.addressShift);
    AlignFacts(address, w.layout.addressShift);
    if aligned == address then aligned else aligned + AddressSize(w)
  }

  /** Clearing the low k bits gives the multiple of 2^k just below (or at) the
      address; adding 2^k to it gives the next one. */
  lemma AlignFacts(address: int, k: nat)
    ensures var aligned := address - LowBits(address, k);
      && aligned % Pow2(k) == 0 && (aligned + Pow2(k)) % Pow2(k) == 0
      && address - Pow2(k) < aligned <= address
  {
    LowBitsIsRemainder(address, k);
    var p := Pow2(k);
    var q := address / p;
    var r := address % p;
    assert address == p * q + r && 0 <= r < p;
    MultipleShift(p, q);
    DivModUnique(p * q, p, q, 0);
    DivModUnique(p * q + p, p, q + 1, 0);
  }

  lemma MultipleShift(p: int, q: int)
    ensures p * q + p == p * (q + 1)
  {
  }

  /** Aligning is idempotent and never moves an address down. */
  lemma AlignAddressIdempotent(w: World, address: int)
    ensures AlignAddress(w, AlignAddress(w, address)) == AlignAddress(w, address)
    ensures address <= AlignAddress(w, address)
  {
    var r := AlignAddress(w, address);
    var p := AddressSize(w);
    var r2 := AlignAddress(w, r);
    DivModUnique(r2, p, r2 / p, 0);
    DivModUnique(r, p, r / p, 0);
    assert r2 == p * (r2 / p) && r == p * (r / p);
    SameMultiple(p, r / p, r2 / p);
  }

  /** An address that is already a multiple of the address size stays put. */
  lemma AlignAligned(w: World, address: int)
    requires address % AddressSize(w) == 0
    ensures AlignAddress(w, address) == address
  {
    var r := AlignAddress(w, address);
    var p := AddressSize(w);
    DivModUnique(r, p, r / p, 0);
    DivModUnique(address, p, address / p, 0);
    SameMultiple(p, address / p, r / p);
  }

  /** Two multiples of `p` less than `p` apart are equal. */
  lemma SameMultiple(p: int, a: int, b: int)
    requires p > 0
    requires p * a <= p * b < p * a + p
    ensures a == b
  {
    MulAwayFromZero(p, b - a);
    assert p * b - p * a == p * (b - a);
  }

  /** Aligning preserves the order of addresses. */
  lemma AlignAddressMonotone(w: World, a: int, b: int)
    requires a <= b
    ensures AlignAddress(w, a) <= AlignAddress(w, b)
  {
    var ra, rb := AlignAddress(w, a), AlignAddress(w, b);
    if rb < ra {
      // were rb below ra, then rb <= ra - p < a <= b <= rb
      MultiplesApart(AddressSize(w), ra, rb);
    }
  }

  /** Two distinct multiples of `p` are at least `p` apart. */
  lemma MultiplesApart(p: int, x: int, y: int)
    requires p > 0 && x % p == 0 && y % p == 0 && y < x
    ensures x - y >= p
  {
    var i, j := x / p, y / p;
    assert x == p * i && y == p * j;
    assert p * (i - j) == x - y;
    MulAwayFromZero(p, i - j);
  }

  /** The width that `ObjectClassSchema` adds for the field at the highest
      offset: 8 bytes for `long` and `double`, 4 for every other primitive,
      and the reference size for everything else. */
  function FieldWidth(w: World, t: ClassId): int
  {
    if !w.ValidClass(t) then w.layout.objectRefSize
    else match w.classes[t].kind
      case PrimitiveType(Long) => 8
      case PrimitiveType(Double) => 8
      case PrimitiveType(_) => 4
      case _ => w.layout.objectRefSize
  }

  /** The running maximum of the constructor's field loop: the highest offset
      seen so far (starting at the empty object size) and the type of the field
      that last raised it. */
  datatype SizeScan = SizeScan(top: int, lastFieldType: Option<ClassId>)

  function ScanStep(f: Field, sc: SizeScan): SizeScan
  {
    if !f.isStatic && f.offset > sc.top then SizeScan(f.offset, Some(f.fieldType)) else sc
  }

  function ScanFields(w: World, fs: seq<Field>): SizeScan
  {
    if fs == [] then SizeScan(w.layout.emptyObjectSize, None)
    else ScanStep(fs[|fs| - 1], ScanFields(w, fs[..|fs| - 1]))
  }

  /** What the scan computes: the largest instance-field offset (or the empty
      object size, if no field lies above it), and, when some field lies above
      the empty object size, the type of the first field at that largest offset. */
  lemma {:induction false} ScanFieldsMeaning(w: World, fs: seq<Field>)
    ensures ScanFields(w, fs).top >= w.layout.emptyObjectSize
    ensures forall k :: 0 <= k < |fs| && !fs[k].isStatic ==> fs[k].offset <= ScanFields(w, fs).top
    ensures ScanFields(w, fs).lastFieldType.None? <==> ScanFields(w, fs).top == w.layout.emptyObjectSize
    ensures ScanFields(w, fs).lastFieldType.Some? ==>
      exists k :: 0 <= k < |fs| && !fs[k].isStatic && fs[k].offset == ScanFields(w, fs).top
        && fs[k].fieldType == ScanFields(w, fs).lastFieldType.value
        && forall j :: 0 <= j < k && !fs[j].isStatic ==> fs[j].offset < ScanFields(w, fs).top
  {
    if fs != [] {
      var p := fs[..|fs| - 1];
      var f := fs[|fs| - 1];
      ScanFieldsMeaning(w, p);
      var sp := ScanFields(w, p);
      assert forall k :: 0 <= k < |p| ==> fs[k] == p[k];
      if !f.isStatic && f.offset > sp.top {
        assert forall j :: 0 <= j < |fs| - 1 && !fs[j].isStatic ==> fs[j].offset < f.offset;
      } else if sp.lastFieldType.Some? {
        var k :| 0 <= k < |p| && !p[k].isStatic && p[k].offset == sp.top
          && p[k].fieldType == sp.lastFieldType.value
          && forall j :: 0 <= j < k && !p[j].isStatic ==> p[j].offset < sp.top;
        assert fs[k] == p[k];
      }
    }
  }

  /** The size of a plain object of class `c`: the highest field offset plus
      the width of the field found there, aligned to the address size. */
  function ObjectSize(w: World, c: ClassId): int
    requires w.ValidClass(c)
  {
    AlignAddress(w, Extent(w, ScanFields(w, ChainFields(w, c))))
  }

  /** The end of the field found at the highest offset. */
  function Extent(w: World, sc: SizeScan): int
  {
    sc.top + if sc.lastFieldType.Some? then FieldWidth(w, sc.lastFieldType.value) else 0
  }

  /** An object of class `c` is at least as large as the empty object, is a
      whole number of addresses, and covers every instance field's offset. */
  lemma ObjectSizeCovers(w: World, c: ClassId)
    requires w.ValidClass(c)
    requires w.layout.objectRefSize >= 0
    ensures ObjectSize(w, c) % AddressSize(w) == 0
    ensures ObjectSize(w, c) >= w.layout.emptyObjectSize
    ensures forall f :: f in ChainFields(w, c) && !f.isStatic ==> f.offset <= ObjectSize(w, c)
  {
    var fs := ChainFields(w, c);
    ScanFieldsMeaning(w, fs);
    var sc := ScanFields(w, fs);
    if sc.lastFieldType.Some? {
      var k :| 0 <= k < |fs| && !fs[k].isStatic && fs[k].offset == sc.top
        && fs[k].fieldType == sc.lastFieldType.value
        && forall j :: 0 <= j < k && !fs[j].isStatic ==> fs[j].offset < sc.top;
      assert FieldWidth(w, sc.lastFieldType.value) >= 0;
    }
  }

  /** The fields an object schema exposes: instance fields of a reference type
      that the filter accepts. */
  function RefSelected(w: World, filter: Field -> bool): Field -> bool
  {
    (f: Field) => !f.isStatic && !(w.ValidClass(f.fieldType) && IsPrimitive(w, f.fieldType)) && filter(f)
  }

  /** The name of a visit through field `f` of an instance measured as `cls`:
      `"<type name>#<field name>"`. */
  function RefNamer(w: World, cls: ClassId): Field -> FieldRef
    requires w.ValidClass(cls)
  {
    (f: Field) => FieldRef(w.classes[cls].name + "#" + f.name, f)
  }

  function ObjectRefs(w: World, cls: ClassId, filter: Field -> bool): seq<FieldRef>
    requires w.ValidClass(cls)
  {
    FilterMap(ChainFields(w, cls), RefSelected(w, filter), RefNamer(w, cls))
  }

  /** The references of an object schema are exactly the accepted,
      reference-typed instance fields of the class and its superclasses,
      each named after the measured type. */
  lemma ObjectRefsMeaning(w: World, cls: ClassId, filter: Field -> bool, r: FieldRef)
    requires w.ValidClass(cls)
    ensures r in ObjectRefs(w, cls, filter) <==>
      exists f :: f in ChainFields(w, cls) && !f.isStatic && !IsPrimitive(w, f.fieldType) && filter(f)
        && r == FieldRef(w.classes[cls].name + "#" + f.name, f)
  {
    var fs := ChainFields(w, cls);
    FilterMapMember(fs, RefSelected(w, filter), RefNamer(w, cls), r);
    if r in ObjectRefs(w, cls, filter) {
      var k :| 0 <= k < |fs| && RefSelected(w, filter)(fs[k]) && r == RefNamer(w, cls)(fs[k]);
      assert fs[k] in fs;
    }
    if exists f :: f in fs && !f.isStatic && !IsPrimitive(w, f.fieldType) && filter(f)
        && r == FieldRef(w.classes[cls].name + "#" + f.name, f) {
      var f :| f in fs && !f.isStatic && !IsPrimitive(w, f.fieldType) && filter(f)
        && r == FieldRef(w.classes[cls].name + "#" + f.name, f);
      var k :| 0 <= k < |fs| && fs[k] == f;
      assert RefSelected(w, filter)(fs[k]) && r == RefNamer(w, cls)(fs[k]);
    }
  }

  /** The fields still to be walked when the walk has reached class `c` (`None`: past the root). */
  ghost function ChainFrom(w: World, c: Option<ClassId>): seq<Field>
    requires c.Some? ==> w.ValidClass(c.value)
  {
    if c.Some? then ChainFields(w, c.value) else []
  }

  /** Moving from class `c` to its superclass leaves the superclass's chain. */
  lemma ChainStep(w: World, c: ClassId) returns (next: Option<ClassId>)
    requires w.ValidClass(c)
    ensures next == w.classes[c].superclass
    ensures next.Some? ==> w.ValidClass(next.value) && next.value < c
    ensures ChainFrom(w, Some(c)) == w.classes[c].fields + ChainFrom(w, next)
  {
    assert w.ValidClassInfo(c);
    next := w.classes[c].superclass;
  }

  lemma ScanFieldsSnoc(w: World, fs: seq<Field>, f: Field)
    ensures ScanFields(w, fs + [f]) == ScanStep(f, ScanFields(w, fs))
  {
    assert (fs + [f])[..|fs|] == fs;
  }

  /** The inner loop of the constructor: the declared fields of one class
      extend the running scan and the collected references. */
  method ScanDeclaredFields(w: World, cls: ClassId, filter: Field -> bool, fields: seq<Field>,
                            size0: int, last0: Option<ClassId>, refs0: seq<FieldRef>, ghost done: seq<Field>)
    returns (size: int, lastFieldType: Option<ClassId>, refs: seq<FieldRef>)
    requires w.ValidClass(cls)
    requires SizeScan(size0, last0) == ScanFields(w, done)
    requires refs0 == FilterMap(done, RefSelected(w, filter), RefNamer(w, cls))
    ensures SizeScan(size, lastFieldType) == ScanFields(w, done + fields)
    ensures refs == FilterMap(done + fields, RefSelected(w, filter), RefNamer(w, cls))
  {
    size, lastFieldType, refs := size0, last0, refs0;
    var i := 0;
    assert done + fields[..0] == done;
    while i < |fields|
      invariant 0 <= i <= |fields|
      invariant SizeScan(size, lastFieldType) == ScanFields(w, done + fields[..i])
      invariant refs == FilterMap(done + fields[..i], RefSelected(w, filter), RefNamer(w, cls))
    {
      var f := fields[i];
      if !f.isStatic {
        if f.offset > size {
          size := f.offset;
          lastFieldType := Some(f.fieldType);
        }
        if !IsPrimitive(w, f.fieldType) && filter(f) {
          refs := refs + [FieldRef(w.classes[cls].name + "#" + f.name, f)];
        }
      }
      assert done + fields[..i + 1] == (done + fields[..i]) + [f];
      FilterMapSnoc(done + fields[..i], f, RefSelected(w, filter), RefNamer(w, cls));
      ScanFieldsSnoc(w, done + fields[..i], f);
      i := i + 1;
    }
    assert fields[..i] == fields;
  }

  /** The outer loop of the constructor: the class and then each
      superclass, up to the root. */
  method ScanChain(w: World, cls: ClassId, filter: Field -> bool) returns (scan: SizeScan, refs: seq<FieldRef>)
    requires w.ValidClass(cls)
    ensures scan == ScanFields(w, ChainFields(w, cls))
    ensures refs == ObjectRefs(w, cls, filter)
  {
    var size := w.layout.emptyObjectSize;
    var lastFieldType: Option<ClassId> := None;
    refs := [];
    var c: Option<ClassId> := Some(cls);
    ghost var chain := ChainFields(w, cls);
    ghost var done: seq<Field> := [];
    while c.Some?
      invariant c.Some? ==> w.ValidClass(c.value)
      invariant done + ChainFrom(w, c) == chain
      invariant SizeScan(size, lastFieldType) == ScanFields(w, done)
      invariant refs == FilterMap(done, RefSelected(w, filter), RefNamer(w, cls))
      decreases if c.Some? then c.value + 1 else 0
    {
      var fields := w.classes[c.value].fields;
      ghost var rest := ChainStep(w, c.value);
      size, lastFieldType, refs := ScanDeclaredFields(w, cls, filter, fields, size, lastFieldType, refs, done);
      Associate3(done, fields, ChainFrom(w, rest));
      done := done + fields;
      c := w.classes[c.value].superclass;
    }
    assert done + [] == done == chain;
    scan := SizeScan(size, lastFieldType);
  }

  /** The constructor of `ObjectClassSchema`: one pass over the declared
      fields of the class and then of each superclass, keeping a running
      maximum offset and collecting the accepted reference fields; the size
      is the end of the field at the highest offset, aligned. */
  method NewObjectClassSchema(w: World, cls: ClassId, filter: Field -> bool) returns (s: Schema)
    requires w.ValidClass(cls)
    ensures s == ObjectClassSchema(cls, ObjectSize(w, cls), ObjectRefs(w, cls, filter))
  {
    var scan, refs := ScanChain(w, cls, filter);
    var size := scan.top;
    if scan.lastFieldType.Some? {
      size := size + FieldWidth(w, scan.lastFieldType.value);
    }
    s := ObjectClassSchema(cls, AlignAddress(w, size), refs);
  }

  /** `fullPrint` of a class: the name of a class that is not an array; the
      printed component type followed by `[]` for an array class. */
  function PrintedName(w: World, c: ClassId): (r: string)
    requires w.ValidClass(c)
    ensures !w.classes[c].kind.ArrayType? ==> r == w.classes[c].name
    ensures w.classes[c].kind.ArrayType? ==>
      w.ValidClass(w.classes[c].kind.component) && r == PrintedName(w, w.classes[c].kind.component) + "[]"
    decreases c
  {
    assert w.ValidClassInfo(c);
    if w.classes[c].kind.ArrayType? then PrintedName(w, w.classes[c].kind.component) + "[]" else w.classes[c].name
  }

  /** The printed name of an array class ends with one `[]` per dimension,
      after the name of its innermost component. */
  lemma {:induction false} PrintedNameOfArray(w: World, c: ClassId)
    requires w.ValidClass(c) && w.classes[c].kind.ArrayType?
    ensures |PrintedName(w, c)| >= 2 && PrintedName(w, c)[|PrintedName(w, c)| - 2..] == "[]"
  {
  }

  /** `createSchemaFor` as a value: the schema the dispatch builds for `cls`. */
  function SchemaFor(w: World, cls: ClassId, filter: Field -> bool): Schema
    requires w.ValidClass(cls)
  {
    var info := w.classes[cls];
    match info.kind
    case ArrayType(comp) =>
      if IsPrimitive(w, comp) then PrimitiveArraySchema(cls, info.arrayBaseOffset, info.arrayIndexScale)
      else ObjectArraySchema(cls, info.arrayBaseOffset, info.arrayIndexScale, PrintedName(w, cls))
    case _ => ObjectClassSchema(cls, ObjectSize(w, cls), ObjectRefs(w, cls, filter))
  }

  /** `createSchemaFor(cls, filter)`: arrays of primitives, arrays of
      references, and everything else. */
  method CreateSchemaFor(w: World, cls: ClassId, filter: Field -> bool) returns (s: Schema)
    requires w.ValidClass(cls)
    ensures s == SchemaFor(w, cls, filter)
    ensures s.cls == cls
    ensures IsArray(w, cls) <==> !s.ObjectClassSchema?
    ensures s.ObjectArraySchema? ==> s.refName == PrintedName(w, cls)
  {
    var info := w.classes[cls];
    if info.kind.ArrayType? {
      if IsPrimitive(w, info.kind.component) {
        s := PrimitiveArraySchema(cls, info.arrayBaseOffset, info.arrayIndexScale);
      } else {
        s := ObjectArraySchema(cls, info.arrayBaseOffset, info.arrayIndexScale, PrintedName(w, cls));
      }
    } else {
      s := NewObjectClassSchema(w, cls, filter);
    }
  }

  /** `s` is a schema `createSchemaFor` builds for class `c` under some field
      filter: only the references of an object schema depend on the filter. */
  ghost predicate IsSchemaFor(w: World, c: ClassId, s: Schema)
  {
    && w.ValidClass(c)
    && s.cls == c
    && match w.classes[c].kind
       case ArrayType(comp) =>
         if IsPrimitive(w, comp)
         then s == PrimitiveArraySchema(c, w.classes[c].arrayBaseOffset, w.classes[c].arrayIndexScale)
         else s == ObjectArraySchema(c, w.classes[c].arrayBaseOffset, w.classes[c].arrayIndexScale, PrintedName(w, c))
       case _ => s.ObjectClassSchema? && s.size == ObjectSize(w, c)
  }

  lemma SchemaForIsSchema(w: World, c: ClassId, filter: Field -> bool)
    requires w.ValidClass(c)
    ensures IsSchemaFor(w, c, SchemaFor(w, c, filter))
  {
  }

  /** `shallowSize(instance)`; `None` is `null`. An object schema has one size
      for every instance; an array schema answers its base offset for `null`
      and otherwise the aligned end of the last element. */
  function ShallowSize(w: World, s: Schema, instance: Option<HeapObject>): int
  {
    match s
    case ObjectClassSchema(_, size, _) => size
    case _ =>
      if instance.None? then s.baseOffset
      else AlignAddress(w, s.baseOffset + ArrayLength(instance.value) * s.indexScale)
  }

  /** A plain object schema gives every instance, and `null`, the same size. */
  lemma ObjectShallowSizeConstant(w: World, c: ClassId, s: Schema, a: Option<HeapObject>, b: Option<HeapObject>)
    requires IsSchemaFor(w, c, s) && !IsArray(w, c)
    ensures ShallowSize(w, s, a) == ShallowSize(w, s, b) == ObjectSize(w, c)
  {
  }

  /** An array's shallow size depends only on its length, covers all its
      elements, and grows with the length. */
  lemma {:induction false} ArrayShallowSizeMonotone(w: World, s: Schema, a: HeapObject, b: HeapObject)
    requires !s.ObjectClassSchema? && s.indexScale >= 0
    requires ArrayLength(a) <= ArrayLength(b)
    ensures ShallowSize(w, s, Some(a)) >= s.baseOffset + ArrayLength(a) * s.indexScale
    ensures ShallowSize(w, s, Some(a)) <= ShallowSize(w, s, Some(b))
    ensures ArrayLength(a) == ArrayLength(b) ==> ShallowSize(w, s, Some(a)) == ShallowSize(w, s, Some(b))
  {
    assert ArrayLength(a) * s.indexScale <= ArrayLength(b) * s.indexScale by {
      MulMonotone(ArrayLength(a), ArrayLength(b), s.indexScale);
    }
    AlignAddressMonotone(w, s.baseOffset + ArrayLength(a) * s.indexScale, s.baseOffset + ArrayLength(b) * s.indexScale);
  }

  lemma MulMonotone(a: nat, b: nat, k: nat)
    requires a <= b
    ensures a * k <= b * k
  {
  }

  /** The size `Measurement.measure` adds for instance `o`: its shallow size
      under any schema of its class. */
  function FlatSize(w: World, o: ObjId): int
    requires o in w.heap
  {
    var c := ClassOf(w, o);
    var info := w.classes[c];
    if info.kind.ArrayType? then AlignAddress(w, info.arrayBaseOffset + ArrayLength(w.heap[o]) * info.arrayIndexScale)
    else ObjectSize(w, c)
  }

  /** Sizing does not depend on the field filter a schema was built with. */
  lemma ShallowSizeIsFlatSize(w: World, o: ObjId, s: Schema)
    requires o in w.heap
    requires IsSchemaFor(w, ClassOf(w, o), s)
    ensures ShallowSize(w, s, Some(w.heap[o])) == FlatSize(w, o)
  {
  }

  /** `safeIterate(container, callback)`: the visits a schema makes on an
      instance, in order. Plain objects visit each exposed field; arrays of
      references visit every element, `null` included, under one name;
      arrays of primitives visit nothing. */
  function References(w: World, s: Schema, o: ObjId): (vs: seq<Event>)
    requires o in w.heap
    ensures forall k :: 0 <= k < |vs| ==> vs[k].Visited?
  {
    var obj := w.heap[o];
    match s
    case ObjectClassSchema(_, _, refs) =>
      seq(|refs|, k requires 0 <= k < |refs| => Visited(refs[k].name, Slot(obj, refs[k].field)))
    case PrimitiveArraySchema(_, _, _) => []
    case ObjectArraySchema(_, _, _, refName) =>
      if obj.payload.RefElements? then
        seq(|obj.payload.elements|, k requires 0 <= k < |obj.payload.elements| => Visited(refName, obj.payload.elements[k]))
      else []
  }

  /** Every non-null instance the events report is in `s`. */
  ghost predicate TargetsIn(es: seq<Event>, s: set<ObjId>)
  {
    forall k :: 0 <= k < |es| && es[k].Visited? && es[k].value.Some? ==> es[k].value.value in s
  }

  lemma TargetsInStep(es: seq<Event>, i: nat, s0: set<ObjId>, s1: set<ObjId>)
    requires i < |es| && TargetsIn(es[..i], s0) && s0 <= s1
    requires es[i].Visited? && es[i].value.Some? ==> es[i].value.value in s1
    ensures TargetsIn(es[..i + 1], s1)
  {
    assert forall k :: 0 <= k < i ==> es[..i + 1][k] == es[..i][k];
  }

  /** Every reference a schema exposes points into the heap. */
  lemma ReferencesInHeap(w: World, s: Schema, o: ObjId)
    requires o in w.heap
    ensures TargetsIn(References(w, s, o), w.heap.Keys)
  {
    assert w.ValidObject(w.heap[o]);
    forall k | 0 <= k < |References(w, s, o)| && References(w, s, o)[k].value.Some?
      ensures References(w, s, o)[k].value.value in w.heap
    {
      if s.ObjectClassSchema? {
        SlotInHeap(w, o, s.refs[k].field);
      }
    }
  }

  /** An array of references visits each of its elements in order, all under
      the schema's single name, the printed name of the array class. */
  lemma ObjectArrayVisitsElements(w: World, c: ClassId, s: Schema, o: ObjId)
    requires o in w.heap && ClassOf(w, o) == c
    requires IsSchemaFor(w, c, s) && s.ObjectArraySchema?
    ensures w.heap[o].payload.RefElements? && s.refName == PrintedName(w, c)
    ensures References(w, s, o) == seq(|w.heap[o].payload.elements|, k requires 0 <= k < |w.heap[o].payload.elements| =>
      Visited(s.refName, w.heap[o].payload.elements[k]))
  {
    assert w.ValidObject(w.heap[o]);
  }

  /** `iterate(container, callback)`: `null` throws `NullPointerException`, an
      instance of another type `ClassCastException`; otherwise the visits of
      `safeIterate`, then `finished()` once. */
  function Iterate(w: World, s: Schema, container: Ref): (r: Result<seq<Event>>)
    requires w.ValidClass(s.cls)
    ensures container.None? ==> r == Throws(NullPointerException)
    ensures container.Some? && container.value in w.heap && !AssignableFrom(w, s.cls, ClassOf(w, container.value))
      ==> r == Throws(ClassCastException)
    ensures container.Some? && container.value in w.heap && AssignableFrom(w, s.cls, ClassOf(w, container.value))
      ==> r == Ok(References(w, s, container.value) + [Finished])
    ensures r.Ok? ==>
      (container.Some? && container.value in w.heap && r.value == References(w, s, container.value) + [Finished])
  {
    if container.None? || container.value !in w.heap then Throws(NullPointerException)
    else if !AssignableFrom(w, s.cls, ClassOf(w, container.value)) then Throws(ClassCastException)
    else Ok(References(w, s, container.value) + [Finished])
  }

  /** A successful `iterate` ends with exactly one `finished()`. */
  lemma IterateFinishesOnce(w: World, s: Schema, container: Ref)
    requires w.ValidClass(s.cls)
    requires Iterate(w, s, container).Ok?
    ensures var t := Iterate(w, s, container).value;
      |t| >= 1 && t[|t| - 1] == Finished && forall k :: 0 <= k < |t| - 1 ==> t[k].Visited?
  {
  }

  /** The static fields `iterateStatic` reports: static fields of a reference
      type that the filter accepts. */
  function StaticSelected(w: World, filter: Field -> bool): Field -> bool
  {
    (f: Field) => f.isStatic && !(w.ValidClass(f.fieldType) && IsPrimitive(w, f.fieldType)) && filter(f)
  }

  function StaticVisit(w: World): Field -> Event
  {
    (f: Field) => Visited(f.name, StaticValue(w, f))
  }

  /** The events `iterateStatic` delivers: one visit per selected static
      field, then `finished()`. */
  function StaticTrace(w: World, cls: ClassId, filter: Field -> bool): seq<Event>
    requires w.ValidClass(cls)
  {
    FilterMap(ChainFields(w, cls), StaticSelected(w, filter), StaticVisit(w)) + [Finished]
  }

  /** `iterateStatic(cls, filter, fc)`: visits the selected static fields of
      the class and then of each superclass, each under its plain field name
      with its current value, then calls `finished()`. */
  method IterateStatic(w: World, cls: ClassId, filter: Field -> bool) returns (trace: seq<Event>)
    requires w.ValidClass(cls)
    ensures trace == StaticTrace(w, cls, filter)
  {
    trace := VisitChainStatics(w, cls, filter);
    trace := trace + [Finished];
  }

  /** The loop of `iterateStatic`: the class and then each superclass, up
      to the root. */
  method VisitChainStatics(w: World, cls: ClassId, filter: Field -> bool) returns (trace: seq<Event>)
    requires w.ValidClass(cls)
    ensures trace == FilterMap(ChainFields(w, cls), StaticSelected(w, filter), StaticVisit(w))
  {
    trace := [];
    var c: Option<ClassId> := Some(cls);
    ghost var chain := ChainFields(w, cls);
    ghost var done: seq<Field> := [];
    while c.Some?
      invariant c.Some? ==> w.ValidClass(c.value)
      invariant done + ChainFrom(w, c) == chain
      invariant trace == FilterMap(done, StaticSelected(w, filter), StaticVisit(w))
      decreases if c.Some? then c.value + 1 else 0
    {
      var fields := w.classes[c.value].fields;
      ghost var rest := ChainStep(w, c.value);
      trace := VisitDeclaredStatics(w, filter, fields, trace, done);
      Associate3(done, fields, ChainFrom(w, rest));
      done := done + fields;
      c := w.classes[c.value].superclass;
    }
    assert done + [] == done == chain;
  }

  /** The inner loop of `iterateStatic`: the declared fields of one class
      extend the trace. */
  method VisitDeclaredStatics(w: World, filter: Field -> bool, fields: seq<Field>, trace0: seq<Event>, ghost done: seq<Field>)
    returns (trace: seq<Event>)
    requires trace0 == FilterMap(done, StaticSelected(w, filter), StaticVisit(w))
    ensures trace == FilterMap(done + fields, StaticSelected(w, filter), StaticVisit(w))
  {
    trace := trace0;
    var i := 0;
    assert done + fields[..0] == done;
    while i < |fields|
      invariant 0 <= i <= |fields|
      invariant trace == FilterMap(done + fields[..i], StaticSelected(w, filter), StaticVisit(w))
    {
      var f := fields[i];
      if f.isStatic && !IsPrimitive(w, f.fieldType) && filter(f) {
        trace := trace + [Visited(f.name, StaticValue(w, f))];
      }
      assert done + fields[..i + 1] == (done + fields[..i]) + [f];
      FilterMapSnoc(done + fields[..i], f, StaticSelected(w, filter), StaticVisit(w));
      i := i + 1;
    }
    assert fields[..i] == fields;
  }

  /** A static field is reported exactly when it is a static, reference-typed
      field of the hierarchy that the filter accepts; it is reported with its
      own name and value. */
  lemma StaticVisitsMeaning(w: World, cls: ClassId, filter: Field -> bool, e: Event)
    requires w.ValidClass(cls)
    ensures e in FilterMap(ChainFields(w, cls), StaticSelected(w, filter), StaticVisit(w)) <==>
      exists f :: f in ChainFields(w, cls) && f.isStatic && !IsPrimitive(w, f.fieldType) && filter(f)
        && e == Visited(f.name, StaticValue(w, f))
  {
    var fs := ChainFields(w, cls);
    FilterMapMember(fs, StaticSelected(w, filter), StaticVisit(w), e);
    if e in FilterMap(fs, StaticSelected(w, filter), StaticVisit(w)) {
      StaticVisitSound(w, fs, filter, e);
    }
    if exists f :: f in fs && StaticReported(w, filter, f, e) {
      StaticVisitComplete(w, fs, filter, e);
    }
  }

  /** Field `f` is reported as event `e`. */
  predicate StaticReported(w: World, filter: Field -> bool, f: Field, e: Event)
  {
    f.isStatic && !IsPrimitive(w, f.fieldType) && filter(f) && e == Visited(f.name, StaticValue(w, f))
  }

  lemma StaticVisitSound(w: World, fs: seq<Field>, filter: Field -> bool, e: Event)
    requires exists k :: 0 <= k < |fs| && StaticSelected(w, filter)(fs[k]) && e == StaticVisit(w)(fs[k])
    ensures exists f :: f in fs && StaticReported(w, filter, f, e)
  {
    var k :| 0 <= k < |fs| && StaticSelected(w, filter)(fs[k]) && e == StaticVisit(w)(fs[k]);
    assert fs[k] in fs;
  }

  lemma StaticVisitComplete(w: World, fs: seq<Field>, filter: Field -> bool, e: Event)
    requires exists f :: f in fs && StaticReported(w, filter, f, e)
    ensures exists k :: 0 <= k < |fs| && StaticSelected(w, filter)(fs[k]) && e == StaticVisit(w)(fs[k])
  {
    var f :| f in fs && StaticReported(w, filter, f, e);
    var k :| 0 <= k < |fs| && fs[k] == f;
    assert StaticSelected(w, filter)(fs[k]) && e == StaticVisit(w)(fs[k]);
  }

  /** Every value a static trace reports is an instance of the heap. */
  lemma StaticTraceInHeap(w: World, cls: ClassId, filter: Field -> bool)
    requires w.ValidClass(cls)
    ensures forall e :: e in StaticTrace(w, cls, filter) && e.Visited? && e.value.Some? ==> e.value.value in w.heap
  {
    forall e | e in StaticTrace(w, cls, filter) && e.Visited? && e.value.Some?
      ensures e.value.value in w.heap
    {
      StaticVisitsMeaning(w, cls, filter, e);
    }
  }
}
