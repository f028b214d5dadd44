/** The globalness rules of `Environment`: which annotations mark a field or
    a type as global, which types and instances are global, and the field
    filters built from them. Everything here is a function of a snapshot of
    the environment's registries; the mutable registries themselves live in
    the `Environment` class. */
module Globals {
  import opened Lang
  import opened World

  /** What an `AnnotationFilter` is asked about: a field or a class. */
  datatype Element = FieldElement(field: Field) | ClassElement(cls: ClassId)

  /** `AnnotationFilter.isGlobal(fieldOrClass, annotation)`. */
  type AnnotationFilter = (Element, Annotation) -> bool

  /** `AnnotationFilter.DONT_MEASURE`: marks everything it is asked about. */
  function DontMeasure(): AnnotationFilter
  {
    (e: Element, a: Annotation) => true
  }

  /** The registered global types and marker annotations (with their filters). */
  datatype Registry = Registry(globalClasses: set<ClassId>, globalAnnotations: map<ClassId, AnnotationFilter>)

  /** `getAnnotations()` of a field or class. */
  function AnnotationsOf(w: World, e: Element): seq<Annotation>
  {
    match e
    case FieldElement(f) => f.annotations
    case ClassElement(c) => if w.ValidClass(c) then w.classes[c].annotations else []
  }

  /** `annotationMarksAsGlobal(element, a)`: the annotation's type is a
      registered marker whose filter accepts the element. */
  predicate MarksAsGlobal(reg: Registry, e: Element, a: Annotation)
  {
    a.annotationType in reg.globalAnnotations && reg.globalAnnotations[a.annotationType](e, a)
  }

  /** One annotation of an element marks it: the annotation itself, or one of
      the annotations on its annotation type (one meta level, no further). */
  predicate AnnotationMarks(w: World, reg: Registry, e: Element, a: Annotation)
  {
    || MarksAsGlobal(reg, e, a)
    || (w.ValidClass(a.annotationType) &&
        exists j :: 0 <= j < |w.classes[a.annotationType].annotations| &&
          MarksAsGlobal(reg, e, w.classes[a.annotationType].annotations[j]))
  }

  /** `hasGlobalMarker(element)`. */
  predicate HasGlobalMarker(w: World, reg: Registry, e: Element)
  {
    exists k :: 0 <= k < |AnnotationsOf(w, e)| && AnnotationMarks(w, reg, e, AnnotationsOf(w, e)[k])
  }

  /** `classHasGlobalMarker(type)`: a marker on the type itself, on any
      interface it implements (and, recursively, their super-interfaces), or
      directly on any of its superclasses. Interfaces of superclasses are not
      consulted. */
  predicate ClassHasGlobalMarker(w: World, reg: Registry, c: ClassId)
    requires w.ValidClass(c)
    decreases c
  {
    assert w.ValidClassInfo(c);
    var supers := SuperChain(w, c);
    || HasGlobalMarker(w, reg, ClassElement(c))
    || (exists k :: 0 <= k < |w.classes[c].interfaces| && ClassHasGlobalMarker(w, reg, w.classes[c].interfaces[k]))
    || (exists k :: 1 <= k < |supers| && HasGlobalMarker(w, reg, ClassElement(supers[k])))
  }

  /** Some registered global type is assignable from `c`. */
  predicate RegisteredGlobalType(w: World, reg: Registry, c: ClassId)
    requires w.ValidClass(c)
  {
    exists g :: g in reg.globalClasses && w.ValidClass(g) && AssignableFrom(w, g, c)
  }

  /** `isGlobalClass(type)`: a subtype of a registered global type, or marked. */
  predicate IsGlobalClass(w: World, reg: Registry, c: ClassId)
    requires w.ValidClass(c)
  {
    RegisteredGlobalType(w, reg, c) || ClassHasGlobalMarker(w, reg, c)
  }

  /** `isGlobal(value)` for a non-null value: a registered instance, an
      instance of a registered global type, or an instance of a marked class. */
  predicate IsGlobal(w: World, reg: Registry, globalObjects: set<ObjId>, v: ObjId)
    requires v in w.heap
  {
    || v in globalObjects
    || (exists g :: g in reg.globalClasses && w.ValidClass(g) && AssignableFrom(w, g, ClassOf(w, v)))
    || ClassHasGlobalMarker(w, reg, ClassOf(w, v))
  }

  /** `isGlobalClass` is `isGlobal` without the identity rule: a value is
      global exactly when it is registered or its class is global. */
  lemma IsGlobalIsIdentityOrClass(w: World, reg: Registry, globalObjects: set<ObjId>, v: ObjId)
    requires v in w.heap
    ensures IsGlobal(w, reg, globalObjects, v) <==> v in globalObjects || IsGlobalClass(w, reg, ClassOf(w, v))
  {
  }

  /** A class carrying a marker directly makes every subclass global, however
      far down its superclass chain. */
  lemma {:induction false} MarkerInherited(w: World, reg: Registry, sup: ClassId, c: ClassId)
    requires w.ValidClass(sup) && w.ValidClass(c)
    requires sup in SuperChain(w, c)
    requires HasGlobalMarker(w, reg, ClassElement(sup))
    ensures ClassHasGlobalMarker(w, reg, c)
  {
    var supers := SuperChain(w, c);
    var k :| 0 <= k < |supers| && supers[k] == sup;
    if k == 0 {
      assert sup == c;
    }
  }

  /** Registering one more global type never makes a global class non-global. */
  lemma AddGlobalTypeMonotone(w: World, reg: Registry, g: ClassId, c: ClassId)
    requires w.ValidClass(c)
    requires IsGlobalClass(w, reg, c)
    ensures IsGlobalClass(w, reg.(globalClasses := reg.globalClasses + {g}), c)
  {
    var reg' := reg.(globalClasses := reg.globalClasses + {g});
    if RegisteredGlobalType(w, reg, c) {
      var h :| h in reg.globalClasses && w.ValidClass(h) && AssignableFrom(w, h, c);
      assert h in reg'.globalClasses;
    } else {
      MarkerIndependentOfTypes(w, reg, reg', c);
    }
  }

  /** Markers depend only on the registered annotations. */
  lemma {:induction false} MarkerIndependentOfTypes(w: World, reg: Registry, reg': Registry, c: ClassId)
    requires w.ValidClass(c)
    requires reg.globalAnnotations == reg'.globalAnnotations
    ensures ClassHasGlobalMarker(w, reg, c) == ClassHasGlobalMarker(w, reg', c)
    decreases c
  {
    assert w.ValidClassInfo(c);
    forall k | 0 <= k < |w.classes[c].interfaces|
      ensures ClassHasGlobalMarker(w, reg, w.classes[c].interfaces[k]) == ClassHasGlobalMarker(w, reg', w.classes[c].interfaces[k])
    {
      MarkerIndependentOfTypes(w, reg, reg', w.classes[c].interfaces[k]);
    }
    assert forall e :: HasGlobalMarker(w, reg, e) == HasGlobalMarker(w, reg', e) by {
      forall e, a ensures AnnotationMarks(w, reg, e, a) == AnnotationMarks(w, reg', e, a) {
        assert forall b :: MarksAsGlobal(reg, e, b) == MarksAsGlobal(reg', e, b);
      }
    }
  }

  /** `allowOnlyNonGlobal`: rejects a field that carries a marker, whose
      declared type is a subtype of a registered global type, or whose
      declared type carries a marker directly. */
  function AllowOnlyNonGlobal(w: World, reg: Registry): Field -> bool
  {
    (f: Field) =>
      && !HasGlobalMarker(w, reg, FieldElement(f))
      && !(w.ValidClass(f.fieldType) && RegisteredGlobalType(w, reg, f.fieldType))
      && !HasGlobalMarker(w, reg, ClassElement(f.fieldType))
  }

  /** `onlyGloballyAnnotated`: accepts exactly the fields that carry a marker. */
  function OnlyGloballyAnnotated(w: World, reg: Registry): Field -> bool
  {
    (f: Field) => HasGlobalMarker(w, reg, FieldElement(f))
  }

  /** A field of a registered global type, or of a type carrying a marker
      directly, is never exposed by an object schema; every other unmarked
      field is. A type that is global only through a superclass or an
      interface does not hide the field. */
  lemma AllowOnlyNonGlobalMeaning(w: World, reg: Registry, f: Field)
    requires w.ValidClass(f.fieldType)
    ensures AllowOnlyNonGlobal(w, reg)(f) <==>
      !HasGlobalMarker(w, reg, FieldElement(f))
      && !HasGlobalMarker(w, reg, ClassElement(f.fieldType))
      && forall g :: g in reg.globalClasses && w.ValidClass(g) ==> !AssignableFrom(w, g, f.fieldType)
    ensures f.fieldType in reg.globalClasses ==> !AllowOnlyNonGlobal(w, reg)(f)
  {
    AssignableFromReflexive(w, f.fieldType);
  }
}
