/** `StaticFieldPolicy`: how the static fields of a newly registered class
    seed the set of global instances. Each policy selects a filter for the
    static fields and the callback that receives their values. */
module StaticFieldPolicy {
  import opened World
  import opened Globals

  /** `NONE`, `DIRECT_REFERENCES` and `FULL_TREE`. */
  datatype StaticFieldPolicy = PolicyNone | DirectReferences | FullTree

  /** The callbacks of `Environment` that receive a static field's value:
      `directGlobalSetter` registers the value itself, `deepGlobalSetter`
      registers every instance reachable from it. */
  datatype GlobalSetter = DirectGlobalSetter | DeepGlobalSetter

  /** `filterStatics(env)`: `NONE` takes only the static fields that carry a
      marker; the other two take the fields `allowOnlyNonGlobal` accepts. */
  function FilterStatics(p: StaticFieldPolicy, w: World, reg: Registry): Field -> bool
  {
    if p == PolicyNone then OnlyGloballyAnnotated(w, reg) else AllowOnlyNonGlobal(w, reg)
  }

  /** `addToGlobalsCallback(env)`: only `FULL_TREE` registers whole trees. */
  function AddToGlobalsCallback(p: StaticFieldPolicy): GlobalSetter
  {
    if p == FullTree then DeepGlobalSetter else DirectGlobalSetter
  }

  /** Under `NONE` a static field is seeded exactly when it carries a marker;
      under the two other policies a field carrying a marker is skipped. */
  lemma MarkedStaticFields(p: StaticFieldPolicy, w: World, reg: Registry, f: Field)
    ensures p == PolicyNone ==> (FilterStatics(p, w, reg)(f) <==> HasGlobalMarker(w, reg, FieldElement(f)))
    ensures p != PolicyNone && HasGlobalMarker(w, reg, FieldElement(f)) ==> !FilterStatics(p, w, reg)(f)
  {
  }

  /** `FULL_TREE` seeds whole trees; `NONE` and `DIRECT_REFERENCES` only the
      direct values. */
  lemma SetterPerPolicy(p: StaticFieldPolicy)
    ensures AddToGlobalsCallback(p) == DeepGlobalSetter <==> p == FullTree
  {
  }
}
