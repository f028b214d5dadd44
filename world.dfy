/** The part of the Java virtual machine that the size accounting reads through
    reflection and `sun.misc.Unsafe`, replaced by plain data: a finite class
    table, an immutable heap snapshot, the values of static fields and the
    layout constants of the running VM. */
module World {
  import opened Lang

  /** Class objects are indices into the class table. */
  type ClassId = nat
  /** Object identities; two distinct ids are two distinct instances. */
  type ObjId = nat
  /** A field or array slot: `None` is `null`. */
  type Ref = Option<ObjId>

  datatype Primitive = Boolean | Byte | Char | Short | Int | Long | Float | Double | Void

  datatype ClassKind =
    | PlainClass                      // an ordinary (instantiable or abstract) class
    | InterfaceType                   // an interface or an annotation type
    | PrimitiveType(prim: Primitive)  // int.class, long.class, ..., void.class
    | ArrayType(component: ClassId)   // T[].class

  /** An annotation instance: its annotation type and the value of its attributes. */
  datatype Annotation = Annotation(annotationType: ClassId, value: int)

  /** A declared field, as `Class.getDeclaredFields()` reports it; `offset` is
      what `Unsafe.objectFieldOffset` (or `staticFieldOffset`) returns. */
  datatype Field = Field(
    declaringClass: ClassId,
    name: string,
    isStatic: bool,
    isFinal: bool,
    fieldType: ClassId,
    offset: int,
    annotations: seq<Annotation>)

  /** What reflection reports about one class. The array offsets are those of
      `Unsafe.arrayBaseOffset` and `Unsafe.arrayIndexScale` (used for array types only). */
  datatype ClassInfo = ClassInfo(
    name: string,
    kind: ClassKind,
    superclass: Option<ClassId>,
    interfaces: seq<ClassId>,
    annotations: seq<Annotation>,
    fields: seq<Field>,
    declaredClasses: seq<ClassId>,
    arrayBaseOffset: int,
    arrayIndexScale: int)

  /** The contents of an instance: reference-valued fields (a field absent from
      `slots` holds `null`), the elements of an object array, or just the length
      of a primitive array. */
  datatype Payload =
    | Fields(slots: map<Field, ObjId>)
    | RefElements(elements: seq<Ref>)
    | PrimElements(length: nat)

  datatype HeapObject = HeapObject(cls: ClassId, payload: Payload)

  /** Layout constants of the VM: the offset of the first field of an object,
      the address size 2^addressShift (the alignment), and the size of a reference. */
  datatype Layout = Layout(emptyObjectSize: int, addressShift: nat, objectRefSize: int)

  datatype WorldData = WorldData(
    classes: seq<ClassInfo>,
    heap: map<ObjId, HeapObject>,
    statics: map<Field, ObjId>,
    layout: Layout,
    objectClass: ClassId,       // java.lang.Object
    globalMarker: ClassId,      // the @Global annotation type
    primitives: seq<ClassId>,   // int, long, byte, short, boolean, float, double, char
    wrappers: seq<ClassId>)     // Integer, Long, Byte, Short, Boolean, Float, Double, Character
  {
    predicate ValidClass(c: int) { 0 <= c < |classes| }

    predicate ValidAnnotations(anns: seq<Annotation>)
    {
      forall k :: 0 <= k < |anns| ==> ValidClass(anns[k].annotationType)
    }

    /** Java's class hierarchy is acyclic; the table lists every supertype and
        every array component before the classes that use it. */
    predicate ValidClassInfo(c: ClassId)
      requires ValidClass(c)
    {
      var info := classes[c];
      && (info.superclass.Some? ==> info.superclass.value < c)
      && (forall k :: 0 <= k < |info.interfaces| ==> info.interfaces[k] < c)
      && (info.kind.ArrayType? ==> info.kind.component < c)
      && ValidAnnotations(info.annotations)
      && (forall k :: 0 <= k < |info.declaredClasses| ==> ValidClass(info.declaredClasses[k]))
      && (forall k :: 0 <= k < |info.fields| ==>
            info.fields[k].declaringClass == c
            && ValidClass(info.fields[k].fieldType)
            && ValidAnnotations(info.fields[k].annotations))
    }

    /** Instances are of ordinary or array classes, their payload matches their
        class, and every reference in the heap points into the heap. */
    predicate ValidObject(o: HeapObject)
    {
      && ValidClass(o.cls)
      && match classes[o.cls].kind
         case PlainClass => o.payload.Fields? && o.payload.slots.Values <= heap.Keys
         case ArrayType(comp) =>
           if ValidClass(comp) && classes[comp].kind.PrimitiveType? then o.payload.PrimElements?
           else
             && o.payload.RefElements?
             && (forall k :: 0 <= k < |o.payload.elements| && o.payload.elements[k].Some? ==>
                   o.payload.elements[k].value in heap)
         case _ => false
    }

    predicate WellFormed()
    {
      && ValidClass(objectClass)
      && ValidClass(globalMarker)
      && |primitives| == 8 && |wrappers| == 8
      && (forall k :: 0 <= k < 8 ==> ValidClass(primitives[k]) && ValidClass(wrappers[k]))
      && (forall c :: 0 <= c < |classes| ==> ValidClassInfo(c))
      && (forall o :: o in heap ==> ValidObject(heap[o]))
      && (forall f :: f in statics ==> f.isStatic && statics[f] in heap)
    }
  }

  /** A well-formed VM snapshot. */
  type World = w: WorldData | w.WellFormed()
    witness WorldData(
      [ClassInfo("java.lang.Object", PlainClass, None, [], [], [], [], 0, 0)],
      map[], map[], Layout(12, 3, 4), 0, 0,
      [0, 0, 0, 0, 0, 0, 0, 0], [0, 0, 0, 0, 0, 0, 0, 0])

  predicate IsPrimitive(w: World, c: ClassId)
  {
    w.ValidClass(c) && w.classes[c].kind.PrimitiveType?
  }

  predicate IsArray(w: World, c: ClassId)
  {
    w.ValidClass(c) && w.classes[c].kind.ArrayType?
  }

  /** The class of an instance, as `getClass()` reports it. */
  function ClassOf(w: World, o: ObjId): (c: ClassId)
    requires o in w.heap
    ensures w.ValidClass(c)
  {
    w.heap[o].cls
  }

  /** The declared fields of `c`, then those of its superclass, and so on up to
      the root: the order in which the source walks a class hierarchy with
      `getDeclaredFields()` and `getSuperclass()`. */
  function ChainFields(w: World, c: ClassId): (fs: seq<Field>)
    requires w.ValidClass(c)
    ensures forall k :: 0 <= k < |fs| ==> w.ValidClass(fs[k].declaringClass) && w.ValidClass(fs[k].fieldType)
    decreases c
  {
    var info := w.classes[c];
    assert w.ValidClassInfo(c);
    info.fields + if info.superclass.Some? then ChainFields(w, info.superclass.value) else []
  }

  /** `c`, its superclass, and so on up to the root. */
  function SuperChain(w: World, c: ClassId): (cs: seq<ClassId>)
    requires w.ValidClass(c)
    ensures |cs| >= 1 && cs[0] == c
    ensures forall k :: 0 <= k < |cs| ==> w.ValidClass(cs[k])
    decreases c
  {
    assert w.ValidClassInfo(c);
    [c] + if w.classes[c].superclass.Some? then SuperChain(w, w.classes[c].superclass.value) else []
  }

  /** `sup.isAssignableFrom(sub)` of java.lang.Class: a primitive type only
      from itself; a reference type from itself, from every subclass and
      implementing class, Object from everything non-primitive, and an array
      of references from every array whose component it is assignable from. */
  predicate AssignableFrom(w: World, sup: ClassId, sub: ClassId)
    requires w.ValidClass(sup) && w.ValidClass(sub)
    decreases sub
  {
    assert w.ValidClassInfo(sub);
    var info := w.classes[sub];
    if IsPrimitive(w, sup) || IsPrimitive(w, sub) then sup == sub
    else
      || sup == sub
      || sup == w.objectClass
      || (info.superclass.Some? && AssignableFrom(w, sup, info.superclass.value))
      || (exists k :: 0 <= k < |info.interfaces| && AssignableFrom(w, sup, info.interfaces[k]))
      || (match (w.classes[sup].kind, info.kind)
          case (ArrayType(a), ArrayType(b)) =>
            assert w.ValidClassInfo(sup);
            !IsPrimitive(w, a) && !IsPrimitive(w, b) && AssignableFrom(w, a, b)
          case _ => false)
  }

  /** Every class is assignable from itself. */
  lemma AssignableFromReflexive(w: World, c: ClassId)
    requires w.ValidClass(c)
    ensures AssignableFrom(w, c, c)
  {
  }

  /** The value of a reference field of an instance (`Unsafe.getObject`). */
  function Slot(o: HeapObject, f: Field): Ref
  {
    if o.payload.Fields? && f in o.payload.slots then Some(o.payload.slots[f]) else None
  }

  /** `Array.getLength` (0 for instances that are not arrays). */
  function ArrayLength(o: HeapObject): nat
  {
    match o.payload
    case Fields(_) => 0
    case RefElements(es) => |es|
    case PrimElements(n) => n
  }

  /** The value of a static field (`Unsafe.getObject(staticFieldBase, staticFieldOffset)`). */
  function StaticValue(w: World, f: Field): Ref
  {
    if f in w.statics then Some(w.statics[f]) else None
  }

  lemma SlotInHeap(w: World, o: ObjId, f: Field)
    requires o in w.heap
    ensures Slot(w.heap[o], f).Some? ==> Slot(w.heap[o], f).value in w.heap
  {
    assert w.ValidObject(w.heap[o]);
  }
}
