# Object-graph size accounting of io.beans, in Dafny

This project models the size accounting engine of the `io.beans.sizeof`
package and the helpers it relies on, and proves properties of the model.

- **Collector.** `Collector` measures a graph of Java instances depth-first from each root. It keeps one class collector per exact runtime class.
  - Each class collector holds an identity map from instance to reference count. A `null` count marks a pre-registered global instance.
  - It also holds the number of counted instances and a tally of the reference names that led to the class.
  - `execute` decides whether a visit sizes and expands an instance or only bumps its count.
  - Each measurement adds up the total size and the instance count.
- **Environment.** `Environment` decides which instances and types are global. These are registered identities, registered types, and marker annotations on a type, its superclasses and its interfaces.
  - It caches one `ClassSchema` per type and seeds global instances from static fields the first time a type is seen.
  - It walks reference graphs cycle-safely (`iterateDeep`).
  - It takes the statistics snapshots (`MyClassStats`) and orders them.
- **ClassSchema.** `ClassSchema` gives the shallow size of an instance and the references it exposes, for plain objects, arrays of primitives and arrays of references.
- **Other pieces.**
  - `StaticFieldPolicy` picks a field filter and a global-setting callback per policy.
  - `ClassStats.Reference` is the tally counter.
  - `SwissArmyKnife` formats zero-padded numbers and durations, checks assignability with primitive wrappers, walks fields along the superclass chain (`FieldIterator`), and applies the single-match rule of `inject`.
  - `ArrayedObjects` indexes a power-of-two table through a bit mask.

Reflection and `sun.misc.Unsafe` are replaced by a `World` value (`world.dfy`). It holds:
- a finite class table with superclasses, interfaces, annotations, declared fields with their offsets, and member classes;
- an immutable heap snapshot from object ids to instances;
- the values of static fields;
- the layout constants of the VM: empty object size, address size, reference size, and each array type's base offset and index scale.

Java's `null` is `Option.None`. A thrown exception is `Result.Throws`. Java's truncating `/` and `%` are `Lang.JavaDiv` and `Lang.JavaRem`.

Each module follows one source file:

| file | module | models |
|---|---|---|
| `lang.dfy` | `Lang` | Java values, exceptions, `int`/`long` ranges, truncating division, bit masks |
| `world.dfy` | `World` | the class table, heap and layout that reflection and `Unsafe` read |
| `sequences.dfy` | `Sequences` | filtering, first index, and sorting by a comparator |
| `class_schema.dfy` | `ClassSchema` | `ClassSchema.java` |
| `globals.dfy` | `Globals` | the globalness predicates and field filters of `Environment.java` |
| `static_field_policy.dfy` | `StaticFieldPolicy` | `StaticFieldPolicy.java` |
| `environment.dfy` | `Environment` | the registries, schema cache, seeding and `iterateDeep` of `Environment.java` |
| `class_collector.dfy` | `ClassCollectors` | the three class collectors of `Collector.java` |
| `class_stats.dfy` | `ClassStats` | `ClassStats.java` and `MyClassStats` of `Environment.java` |
| `collector.dfy` | `Collector` | `Measurement` and `Collector` of `Collector.java`, and `Environment.sizeOf` |
| `swiss_army_knife.dfy` | `SwissArmyKnife` | `SwissArmyKnife.java` |
| `arrayed_objects.dfy` | `ArrayedObjects` | `ArrayedObjects.java` |

The mutable objects are classes whose methods carry `modifies` clauses:
- `Environment.Environment`;
- `Collector.Measurement` and `Collector.Collector`;
- `ClassStats.Reference` and `ClassStats.MyClassStats`;
- `SwissArmyKnife.FieldIterator`.

A class collector is a datatype value kept in the `classColl` map of its measurement.

The invariant of a measurement holds the accounting together. It is `Collector.BalancedIn`: the multiset of measured instances equals the counted instances plus the extras, the instances measured without a count being taken.
- In a `Collector`, every extra is a root whose entry is a `null` count (`Collector.RootsKept`), and only a registered global instance gets a `null` count (`Collector.NullsRegistered`). So an instance with a count is measured exactly once, and a pre-registered global once per time it is passed as a root (`Collector.MeasuredOnce`).
- Each measured instance also records the measured instance whose reference led to it, or that it was a root (`Collector.DerivedAll`). So every measured instance is reachable from a root (`Collector.DerivedReaches`).

## Model

| member | source | states |
|---|---|---|
| ClassSchema.AlignAddress | src/main/java/io/beans/sizeof/ClassSchema.java:72-75 | the aligned address is a multiple of the address size, at least the address and less than one address size above it, so it is the smallest such multiple |
| ClassSchema.AlignFacts | src/main/java/io/beans/sizeof/ClassSchema.java:73-74 | clearing the low bits with the alignment mask gives the multiple of the address size at or just below the address, and adding the summand gives the next multiple |
| ClassSchema.AlignAddressIdempotent | src/main/java/io/beans/sizeof/ClassSchema.java:72-75 | aligning twice is aligning once, and aligning never moves an address down |
| ClassSchema.AlignAligned | src/main/java/io/beans/sizeof/ClassSchema.java:72-75 | an address that is already a multiple of the address size is returned unchanged |
| ClassSchema.AlignAddressMonotone | src/main/java/io/beans/sizeof/ClassSchema.java:72-75 | aligning preserves the order of addresses |
| ClassSchema.ScanFieldsMeaning | src/main/java/io/beans/sizeof/ClassSchema.java:125-140 | the running maximum starts at the empty object size and covers every instance field's offset; the remembered field type is absent exactly when no field lies above the empty object size, and otherwise it is the type of the first field at the largest offset |
| ClassSchema.ObjectSizeCovers | src/main/java/io/beans/sizeof/ClassSchema.java:154-161 | an object's size is a whole number of address sizes, at least the empty object size, and covers the offset of every instance field of the class and its superclasses |
| ClassSchema.ScanDeclaredFields | src/main/java/io/beans/sizeof/ClassSchema.java:132-149 | the inner loop over one class's declared fields extends the running maximum and the collected references exactly by those fields |
| ClassSchema.ScanChain | src/main/java/io/beans/sizeof/ClassSchema.java:128-152 | the walk from the class up through every superclass yields the maximum over all their fields and exactly the object references of the class |
| ClassSchema.NewObjectClassSchema | src/main/java/io/beans/sizeof/ClassSchema.java:122-162 | the schema the constructor's loops build is the object schema with `ObjectSize` as its size and `ObjectRefs` as its references, whose meaning `ObjectSizeCovers` and `ObjectRefsMeaning` state |
| ClassSchema.ObjectRefsMeaning | src/main/java/io/beans/sizeof/ClassSchema.java:130-152 | a field reference is exposed exactly when some non-static, non-primitive field of the class or a superclass is accepted by the filter; it is named "measured type#field name" |
| ClassSchema.CreateSchemaFor | src/main/java/io/beans/sizeof/ClassSchema.java:239-249 | array types get an array schema (primitive or object by the component type), everything else an object schema; the schema is for the class asked for, and an array of references is named by the printed name of its type |
| ClassSchema.PrintedName | src/main/java/io/beans/util/SwissArmyKnife.java:603-606 | the printed name of an array class is the printed name of its component type followed by "[]"; any other class prints as its own name |
| ClassSchema.SchemaForIsSchema | src/main/java/io/beans/sizeof/ClassSchema.java:188-193 | an array schema carries its type's base offset and index scale, and an object schema the object size of its class, whatever the filter |
| ClassSchema.ObjectShallowSizeConstant | src/main/java/io/beans/sizeof/ClassSchema.java:172-175 | a plain object schema gives every instance, and `null`, the same shallow size, the object size of the class |
| ClassSchema.ArrayShallowSizeMonotone | src/main/java/io/beans/sizeof/ClassSchema.java:195-205 | an array's shallow size covers base offset plus length times index scale, depends only on the length, and does not decrease as the length grows |
| ClassSchema.ShallowSizeIsFlatSize | src/main/java/io/beans/sizeof/ClassSchema.java:195-205 | the shallow size of an instance does not depend on the field filter its schema was built with |
| ClassSchema.References | src/main/java/io/beans/sizeof/ClassSchema.java:164-170 | `safeIterate` only ever calls `visit`, never `finished` |
| ClassSchema.ReferencesInHeap | src/main/java/io/beans/sizeof/ClassSchema.java:164-170 | every non-null value a schema visits is an instance of the heap |
| ClassSchema.ObjectArrayVisitsElements | src/main/java/io/beans/sizeof/ClassSchema.java:219-232 | an array of references visits each of its elements in order, `null` included, all under one name: the printed name of the array type |
| ClassSchema.Iterate | src/main/java/io/beans/sizeof/ClassSchema.java:83-90 | `null` throws NullPointerException, an instance of another type ClassCastException; an instance of the schema's type or a subtype gives exactly the schema's visits of it and then `finished` |
| ClassSchema.IterateFinishesOnce | src/main/java/io/beans/sizeof/ClassSchema.java:83-90 | a successful `iterate` calls `finished` exactly once, as its last call |
| ClassSchema.IterateStatic | src/main/java/io/beans/sizeof/ClassSchema.java:251-268 | `iterateStatic` reports the selected static fields of the class and then of each superclass, in that order, and then calls `finished` once |
| ClassSchema.VisitChainStatics | src/main/java/io/beans/sizeof/ClassSchema.java:252-265 | the loop over the superclass chain visits the selected static fields of all classes of the chain |
| ClassSchema.VisitDeclaredStatics | src/main/java/io/beans/sizeof/ClassSchema.java:254-264 | the loop over one class's declared fields visits exactly its static, reference-typed, accepted fields |
| ClassSchema.StaticVisitsMeaning | src/main/java/io/beans/sizeof/ClassSchema.java:254-263 | a visit is reported exactly when a static, non-primitive field of the hierarchy is accepted by the filter, with its plain name and its current value |
| ClassSchema.StaticTraceInHeap | src/main/java/io/beans/sizeof/ClassSchema.java:258-262 | every value reported by `iterateStatic` is an instance of the heap |
| Globals.IsGlobalIsIdentityOrClass | src/main/java/io/beans/sizeof/Environment.java:215-234 | `isGlobal(v)` holds exactly when v is a registered identity or `isGlobalClass` holds for its class |
| Globals.MarkerInherited | src/main/java/io/beans/sizeof/Environment.java:135-146 | a marker on any superclass of a type makes the type marked |
| Globals.AddGlobalTypeMonotone | src/main/java/io/beans/sizeof/Environment.java:228-234 | registering another global type never makes a global class non-global |
| Globals.MarkerIndependentOfTypes | src/main/java/io/beans/sizeof/Environment.java:116-146 | whether a class has a marker depends only on the registered marker annotations, not on the registered global types |
| Globals.AllowOnlyNonGlobalMeaning | src/main/java/io/beans/sizeof/Environment.java:36-50 | `allowOnlyNonGlobal` accepts a field exactly when the field has no marker, no registered global type is assignable from its declared type, and that type has no direct marker; a field of a registered type is rejected |
| StaticFieldPolicy.MarkedStaticFields | src/main/java/io/beans/sizeof/StaticFieldPolicy.java:7-23 | NONE selects exactly the static fields with a marker; DIRECT_REFERENCES and FULL_TREE never select a field with a marker |
| StaticFieldPolicy.SetterPerPolicy | src/main/java/io/beans/sizeof/StaticFieldPolicy.java:14-27 | the deep global setter is used exactly under FULL_TREE, the direct one under NONE and DIRECT_REFERENCES |
| Environment.Environment.constructor | src/main/java/io/beans/sizeof/Environment.java:111-114 | a fresh environment has empty caches and registries, `Global` registered as a marker whose filter always answers true, and the FULL_TREE policy |
| Environment.Environment.SetStaticFieldPolicy | src/main/java/io/beans/sizeof/Environment.java:151-154 | only the policy changes |
| Environment.Environment.AddGlobalType | src/main/java/io/beans/sizeof/Environment.java:185-188 | the type joins the global types; nothing else changes |
| Environment.Environment.AddGlobalAnnotation | src/main/java/io/beans/sizeof/Environment.java:193-204 | the annotation type is mapped to its filter, replacing an earlier one; nothing else changes |
| Environment.Environment.GetSchema | src/main/java/io/beans/sizeof/Environment.java:240-251 | a cached schema is returned with no other effect; otherwise the schema is built with `allowOnlyNonGlobal` over the registries as they were and cached; the statics of the type are then seeded with the policy given, under FULL_TREE together with everything reachable from them; seeding only adds cache entries and global instances |
| Environment.Environment.AddGlobalInstance | src/main/java/io/beans/sizeof/Environment.java:166-172 | `null` changes nothing; otherwise the instance is registered and its class has a cached schema |
| Environment.Environment.AddGlobalObjectsFrom | src/main/java/io/beans/sizeof/Environment.java:278-290 | every non-null value of a static field that the policy's filter selects, in the type or in a member class of the type or of a superclass, ends up registered as global; under FULL_TREE so does every instance reachable from such a value |
| Environment.Environment.SeedAll | src/main/java/io/beans/sizeof/Environment.java:280-287 | the static trace of every source class reaches the policy's callback, and every value it reports is then registered; with the deep setter, so is every instance reachable from such a value |
| Environment.Environment.SeedNext | src/main/java/io/beans/sizeof/Environment.java:283-286 | one more source class's static trace is seeded; what was registered stays registered, and with the deep setter the registered instances reachable from the traces stay closed under references |
| Environment.Environment.Seed | src/main/java/io/beans/sizeof/Environment.java:85-109 | whichever global setter is used, every non-null value the static trace hands it is registered afterwards; with the deep setter, every instance reachable from such a value too; registrations and cached schemas are only added |
| Environment.Environment.SeedOne | src/main/java/io/beans/sizeof/Environment.java:85-109 | one visit of a global setter registers its non-null value; the deep setter also registers everything reachable from it |
| Environment.Environment.SeedDeep | src/main/java/io/beans/sizeof/Environment.java:97-102 | `deepGlobalSetter.visit` registers the value and every instance reachable from it |
| Environment.Environment.IterateDeep | src/main/java/io/beans/sizeof/Environment.java:428-444 | `null` makes no call; otherwise the callback is called once per distinct instance, starting with the instance itself, and the instances called on are exactly those reachable from it through the references their schemas expose |
| Environment.ClosedReachable | src/main/java/io/beans/sizeof/Environment.java:446-453 | a set closed under the references the cached schemas expose holds everything reachable from each of its members |
| Environment.SeededClosed | src/main/java/io/beans/sizeof/Environment.java:97-102 | seeded values that lie in a closed set of registered instances have everything reachable from them registered |
| Environment.Environment.IterateDeepFrom | src/main/java/io/beans/sizeof/Environment.java:446-453 | an instance already visited, or `null`, makes no call; otherwise the calls are exactly the newly visited instances, once each, starting with this one |
| Environment.Environment.WalkReferences | src/main/java/io/beans/sizeof/Environment.java:432-437 | walking an instance's references visits each reachable new instance once and keeps every visited instance's references inside the visited set |
| Environment.Environment.WalkOne | src/main/java/io/beans/sizeof/Environment.java:435-437 | one reference handed to the deep iterator leaves its target visited and keeps the walk's state |
| Environment.Environment.Enter | src/main/java/io/beans/sizeof/Environment.java:448-451 | the callback registers the instance, its class then has a cached schema, and every reference that schema exposes points into the heap |
| Environment.Environment.AddFullGlobalTree | src/main/java/io/beans/sizeof/Environment.java:174-180 | the instance and every instance reachable from it end up registered as global, and seeding only adds global instances and cache entries |
| ClassCollectors.NewCollector | src/main/java/io/beans/sizeof/Collector.java:29-38 | a new collector of class c holds exactly the registered global instances of exactly c, each with a `null` count, and counts nothing |
| ClassCollectors.Tally | src/main/java/io/beans/sizeof/Collector.java:43-47 | the reference name joins the tally with a count of at least one; no other name changes |
| ClassCollectors.TallyKeepsValid | src/main/java/io/beans/sizeof/Collector.java:43-47 | a tallied name's count rises by exactly one, and a new name starts at 1 |
| ClassCollectors.ExecuteStep | src/main/java/io/beans/sizeof/Collector.java:58-71 | `execute` leaves the kind, the schema and the tally alone, and the instance has an entry afterwards |
| ClassCollectors.ExecuteStepMeaning | src/main/java/io/beans/sizeof/Collector.java:58-71 | an unseen instance gets count 1, raises `instanceCount` by one and is sized; a counted one only gets one more count; a pre-registered global keeps its `null` count and is sized only when global objects are calculated; no other entry changes |
| ClassCollectors.ExecuteStepKeepsValid | src/main/java/io/beans/sizeof/Collector.java:58-71 | `execute` keeps keys of exactly the collector's class, counts of at least one, and `instanceCount` equal to the number of non-null entries; the instance becomes counted exactly when it had no entry |
| ClassCollectors.ExecuteStepOnce | src/main/java/io/beans/sizeof/Collector.java:58-71 | a second `execute` of the same instance sizes it only if it is a pre-registered global and global objects are calculated |
| ClassCollectors.BumpKeepsValid | src/main/java/io/beans/sizeof/Collector.java:61-62 | bumping a count keeps the collector valid and changes which instances are counted in no way |
| ClassCollectors.AddKeepsValid | src/main/java/io/beans/sizeof/Collector.java:66-68 | a new entry with count 1 and one more `instanceCount` keeps the collector valid and adds exactly that instance to the counted ones |
| ClassCollectors.ExecuteEntries | src/main/java/io/beans/sizeof/Collector.java:58-71 | across all collectors, the instance has an entry afterwards and becomes counted exactly when it had no entry before |
| ClassCollectors.TallyEntries | src/main/java/io/beans/sizeof/Collector.java:43-47 | a tally changes no entry of any collector |
| Collector.NewClassCollector | src/main/java/io/beans/sizeof/Collector.java:142-156 | a first-seen class gets a global collector when the class was global before seeding, otherwise a memory counting one under per-class totals and a plain one else; it holds the registered globals of exactly that class with `null` counts, its schema is the one the environment caches for the class, and seeding only evolves the environment |
| Collector.AccountKeeps | src/main/java/io/beans/sizeof/Collector.java:135-137 | sizing one more instance adds its flat size and one instance to the totals and keeps every counted instance measured once |
| Collector.ExecuteKeeps | src/main/java/io/beans/sizeof/Collector.java:58-71 | `execute`'s bookkeeping keeps the collectors valid; an instance without an entry becomes counted and its measurement pending; a known instance is re-measured only when global objects are calculated |
| Collector.Measurement.constructor | src/main/java/io/beans/sizeof/Collector.java:130-133 | a new measurement has no collectors and zero totals |
| Collector.Measurement.GetClassCollector | src/main/java/io/beans/sizeof/Collector.java:142-152 | the collector of the instance's exact class; when it exists it is returned and neither the measurement nor the environment changes; otherwise a new one is installed under the class, global when the class was global before seeding, memory counting under per-class totals and plain otherwise, holding exactly the registered global instances of the class with `null` counts, and the environment only evolves |
| Collector.Measurement.Install | src/main/java/io/beans/sizeof/Collector.java:104-108 | `classColl.put` (line 149) adds the new collector under its class; a memory counting one also gets a fresh class-specific measurement of its own, with nothing measured and a zero total, and no other class-specific measurement changes; any other kind leaves the class-specific measurements as they were |
| Collector.Measurement.Measure | src/main/java/io/beans/sizeof/Collector.java:135-140 | `measure` records the instance as measured and keeps every counted instance measured once; afterwards every reference the schema exposes leads to an instance with an entry or of a class with a global collector, and so do the references of every instance measured after it |
| Collector.Measurement.Account | src/main/java/io/beans/sizeof/Collector.java:136-137 | `totalSize` grows by exactly the shallow size of the instance and `instanceCount` by exactly one |
| Collector.Measurement.VisitReferences | src/main/java/io/beans/sizeof/Collector.java:139 | visiting the references of an instance keeps every counted instance measured once; afterwards every non-null reference leads to an instance with an entry or of a class with a global collector, and every instance measured meanwhile had its references followed likewise |
| Collector.Measurement.VisitAt | src/main/java/io/beans/sizeof/Collector.java:139 | one turn of the loop: a non-null reference is visited and its target has an entry or a global collector afterwards; the collectors only persist and grow |
| Collector.Measurement.Visit | src/main/java/io/beans/sizeof/Collector.java:159-168 | a visit keeps every counted instance measured once and never adds an extra measurement; when the target's class has a global collector, nothing is measured and no collector, total or tally changes beyond the collector created for it; otherwise the reference name's tally in that class rises by at least one; the target is taken care of afterwards |
| Collector.Measurement.Ref | src/main/java/io/beans/sizeof/Collector.java:43-49 | the reference name's tally in the instance's class rises by at least one and no tally goes down; the instance has an entry afterwards; it is executed without calculating global objects, so no extra measurement happens |
| Collector.Measurement.Execute | src/main/java/io/beans/sizeof/Collector.java:58-71 | the instance is measured exactly when the collector's step says so; a measurement without a new count happens only for a pre-registered global when global objects are calculated; the instance has an entry afterwards, and every instance measured meanwhile had its references followed |
| Collector.Measurement.Enter | src/main/java/io/beans/sizeof/Collector.java:58-68 | the collector of the instance's class takes the step of `execute`; totals are untouched; an instance without an entry is always expanded |
| Collector.Measurement.Calc | src/main/java/io/beans/sizeof/Collector.java:73-75 | `calc` measures the instance in this measurement, after its class-specific one for a memory counting collector; the instance and every instance measured after it had their references followed |
| Collector.Measurement.StartWith | src/main/java/io/beans/sizeof/Collector.java:54-71 | a root that was already counted is not measured again; any other root is measured next; the root adds itself to the extras exactly when its entry is a `null` count afterwards; it becomes a start; every instance measured meanwhile had its references followed |
| Collector.Measurement.ExecuteRoot | src/main/java/io/beans/sizeof/Collector.java:54-71 | the collector of a start executes it, recalculating globals, with the outcome `startWith` states |
| Collector.Measurement.MeasureClassSpecific | src/main/java/io/beans/sizeof/Collector.java:110-112 | the class-specific measurement of the class measures the instance next, as one of its roots, and both measurements stay valid |
| Collector.Measurement.ClassTotalSize | src/main/java/io/beans/sizeof/Collector.java:77-79 | `totalSize()` is the sum of the flat sizes in the class-specific measurement of a memory counting collector, and 0 for every collector without per-class totals |
| Collector.Measurement.StatsFor | src/main/java/io/beans/sizeof/Collector.java:175-179 | `null` exactly for a class never reached; otherwise a snapshot of its collector |
| Collector.Measurement.ClassTotals | src/main/java/io/beans/sizeof/Collector.java:181-186 | the per-class totals of every collector, one per class |
| Collector.Measurement.Stats | src/main/java/io/beans/sizeof/Collector.java:181-190 | one snapshot per collector, sorted by descending total size and then descending instance count |
| Collector.Collector.constructor | src/main/java/io/beans/sizeof/Collector.java:224-226 | the measurement computes per-class totals exactly when asked to |
| Collector.Collector.Measure | src/main/java/io/beans/sizeof/Collector.java:241-246 | `measure(null)` changes nothing; an instance already counted is not measured again; any other instance is measured next; every instance measured meanwhile had its references followed, and the old collectors persist |
| Collector.Collector.MeasureRoot | src/main/java/io/beans/sizeof/Collector.java:244-245 | a non-null root joins the roots; an already counted one is not measured again; every instance measured meanwhile had its references followed; the collector's invariant, extras included, holds afterwards |
| Collector.Collector.MemoryUsed | src/main/java/io/beans/sizeof/Collector.java:205-207 | `memoryUsed()` is the sum of the flat sizes of the measured instances |
| Collector.Collector.InstanceCount | src/main/java/io/beans/sizeof/Collector.java:210-212 | `instanceCount()` is the number of counted instances plus the extras, which the collector's invariant keeps to roots whose entry is a `null` count |
| Collector.Collector.StatsFor | src/main/java/io/beans/sizeof/Collector.java:215-217 | as the measurement's `statsFor`: `null` exactly for a class never reached, otherwise the collector's schema, total size, instance count and its counted instances tabulated with their counts |
| Collector.Collector.Stats | src/main/java/io/beans/sizeof/Collector.java:220-222 | as the measurement's `stats`: one snapshot per collector, every class represented, sorted by descending total size and then descending instance count |
| Collector.Snapshots | src/main/java/io/beans/sizeof/Collector.java:182-186 | one snapshot per collector, every class represented |
| Collector.SortStats | src/main/java/io/beans/sizeof/Collector.java:188 | the same snapshots, sorted by descending total size and then descending instance count |
| Collector.CountedMeasured | src/main/java/io/beans/sizeof/Collector.java:58-71 | every instance that carries a count has been measured |
| Collector.MeasuredOnce | src/main/java/io/beans/sizeof/Collector.java:58-71 | an instance without a `null` count is measured at most once; one with a `null` count at most once per time it is a root |
| Collector.InstanceCountSplit | src/main/java/io/beans/sizeof/Collector.java:135-137 | the number of measurements is the number of counted instances plus the extras |
| Collector.SizeOf | src/main/java/io/beans/sizeof/Environment.java:327-333 | `sizeOf` is the sum of the flat sizes of the sized instances; every non-null argument is sized, and every sized instance is reachable from a non-null argument; an instance is sized at most once, except a registered global instance, sized at most once per time it is an argument; `sizeOf(null)` is 0; every path from a sized instance that meets no global instance ends at a sized instance |
| Collector.MeasureEach | src/main/java/io/beans/sizeof/Environment.java:329-331 | the non-null arguments become the roots, in order; afterwards every collector was made with the cached schema of its class and every measured instance had its references followed |
| Collector.MeasureNext | src/main/java/io/beans/sizeof/Environment.java:329-331 | one more argument is measured as a root, and the collectors stay made in the environment and the measured instances expanded |
| Collector.ExpandedClosed | src/main/java/io/beans/sizeof/Collector.java:58-71 | in a finished measurement every instance that a measured instance references is measured, a registered global instance, or of a global class |
| Collector.ClosedPaths | src/main/java/io/beans/sizeof/Environment.java:327-333 | a path from a sized instance that meets no global instance ends at a sized instance |
| Collector.SizedOnce | src/main/java/io/beans/sizeof/Environment.java:327-333 | every non-null argument is measured, and an instance is measured more than once only when it is a registered global instance, at most once per time it is an argument |
| Collector.SizedReachable | src/main/java/io/beans/sizeof/Collector.java:159-168 | every measured instance traced back to the non-null arguments is reachable from one of them |
| Collector.DerivedReaches | src/main/java/io/beans/sizeof/Collector.java:139 | following the recorded references back, every measured instance is reachable from a start |
| Collector.NullsRegistered | src/main/java/io/beans/sizeof/Collector.java:35-37 | a `null` count is only ever given to a registered global instance |
| Collector.RootExtra | src/main/java/io/beans/sizeof/Collector.java:58-64 | a root is measured while it already had an entry exactly when that entry is a `null` count |
| ClassCollectors.NullsKept | src/main/java/io/beans/sizeof/Collector.java:58-71 | as collectors persist, a `null` count stays `null`, and an instance of a class that already had a collector gets no new `null` entry |
| ClassStats.Reference.Named | src/main/java/io/beans/sizeof/ClassStats.java:12-14 | `Reference(name)` starts at count 0 |
| ClassStats.Reference.constructor | src/main/java/io/beans/sizeof/ClassStats.java:16-19 | `Reference(name, n)` starts at count n |
| ClassStats.Reference.Increment | src/main/java/io/beans/sizeof/ClassStats.java:29-31 | the count rises by one in 32-bit arithmetic, and by exactly one below `Integer.MAX_VALUE`; the name is unchanged |
| ClassStats.Reference.HashCode | src/main/java/io/beans/sizeof/ClassStats.java:40-42 | the hash is `1103 + name.hashCode() + count` in 32-bit arithmetic, with the string hash taken over the UTF-16 code units of the name |
| ClassStats.Utf16 | src/main/java/io/beans/sizeof/ClassStats.java:40-42 | a character of the basic plane is one code unit; any other is a high and a low surrogate that decode back to it |
| ClassStats.Utf16UnitsBasic | src/main/java/io/beans/sizeof/ClassStats.java:40-42 | a name of basic-plane characters has one code unit per character |
| ClassStats.EqualsContract | src/main/java/io/beans/sizeof/ClassStats.java:34-42 | `equals` is reflexive, symmetric and transitive, is false for `null`, and equal references have equal hash codes |
| ClassStats.EqualsIsByValue | src/main/java/io/beans/sizeof/ClassStats.java:34-37 | two references are equal exactly when their names and counts are equal |
| ClassStats.CompareReferencesOrder | src/main/java/io/beans/sizeof/Environment.java:394-401 | the comparator of `referencedBy()` orders by descending count and is a total preorder |
| ClassStats.Tabulate | src/main/java/io/beans/sizeof/Environment.java:353-368 | the two arrays are index-aligned, as long as the number of counted instances, list each counted instance once with its count, and leave out the `null`-count globals |
| ClassStats.MyClassStats.constructor | src/main/java/io/beans/sizeof/Environment.java:346-369 | the snapshot takes the collector's schema, total and tally, and tabulates its counted instances |
| ClassStats.MyClassStats.Length | src/main/java/io/beans/sizeof/Environment.java:377-379 | `length()` is the schema's shallow size of `null` |
| ClassStats.LengthMeaning | src/main/java/io/beans/sizeof/ClassStats.java:55-60 | for a plain type, `length()` is the size of every instance; for an array type, it is at most the size of an empty array, and equal to it when the base offset is aligned |
| ClassStats.MyClassStats.ReferencedBy | src/main/java/io/beans/sizeof/Environment.java:392-404 | the tallies, each once, sorted by descending count |
| ClassStats.CompareToOrder | src/main/java/io/beans/sizeof/Environment.java:417-420 | the larger total size comes first, then the larger instance count; 0 exactly for equal keys, and the sign flips with the arguments |
| ClassStats.CompareToPreorder | src/main/java/io/beans/sizeof/Environment.java:417-420 | `compareTo(o) <= 0` is a total preorder, as sorting needs |
| ClassStats.ClassStatsFor | src/main/java/io/beans/sizeof/Environment.java:423-426 | `null` exactly for a missing collector, otherwise a snapshot of it |
| SwissArmyKnife.DecimalRoundTrip | src/main/java/io/beans/util/SwissArmyKnife.java:450 | the decimal text of a number reads back as that number |
| SwissArmyKnife.DecimalLength | src/main/java/io/beans/util/SwissArmyKnife.java:446-449 | a number is below 10^k exactly when its decimal text has at most k digits |
| SwissArmyKnife.PaddedRoundTrip | src/main/java/io/beans/util/SwissArmyKnife.java:438-451 | the padded text has `max(digits, length of abs(num))` characters after the optional sign, so it never truncates, and reads back as num |
| SwissArmyKnife.InitDigi | src/main/java/io/beans/util/SwissArmyKnife.java:423-433 | the table has one entry per digit of `Long.MAX_VALUE`, and entry i is 10^i for every i from 1 |
| SwissArmyKnife.AppendNumber | src/main/java/io/beans/util/SwissArmyKnife.java:438-451 | appends '-' for a negative number, then the zeros by which its digits fall short of `digits`, then its digits; `Long.MIN_VALUE` gets one zero short of the width and then its own text, sign included; `digits == Integer.MIN_VALUE` throws |
| SwissArmyKnife.LongMinTwoSigns | src/main/java/io/beans/util/SwissArmyKnife.java:439-443 | the text `appendNumber` writes for `Long.MIN_VALUE` does not read back as a number, while the padded text does |
| SwissArmyKnife.PadBeyondTable | src/main/java/io/beans/util/SwissArmyKnife.java:444-445 | the first loop appends one zero per width beyond the table, and leaves the width at most one below the table's length; `Integer.MIN_VALUE` wraps around to `Integer.MAX_VALUE` with nothing appended |
| SwissArmyKnife.PadWithinTable | src/main/java/io/beans/util/SwissArmyKnife.java:446-450 | the second loop appends the zeros by which the number's digits fall short of the remaining width, or one zero per remaining width for a negative number, which never stops it; it throws when that width is outside the table |
| SwissArmyKnife.PaddingCount | src/main/java/io/beans/util/SwissArmyKnife.java:446-449 | the zeros appended before the loop breaks are exactly those the number's digits fall short of |
| SwissArmyKnife.Split | src/main/java/io/beans/util/SwissArmyKnife.java:390-400 | the days, hours, minutes, seconds, millis and nanos recombine exactly to the duration, each within its unit for a non-negative duration |
| SwissArmyKnife.SplitDuration | src/main/java/io/beans/util/SwissArmyKnife.java:390-400 | the chain of Java `%` and `/=` gives those parts |
| SwissArmyKnife.LeadShownFromAnHour | src/main/java/io/beans/util/SwissArmyKnife.java:403-408 | something precedes the minutes exactly when the duration is at least one hour |
| SwissArmyKnife.DurationAsString | src/main/java/io/beans/util/SwissArmyKnife.java:389-421 | the method builds exactly `DurationText` for any `long` duration; `DurationRoundTrip` states what that text means |
| SwissArmyKnife.DurationRoundTrip | src/main/java/io/beans/util/SwissArmyKnife.java:389-421 | the text of a non-negative duration reads back as the duration cut down to the finest field shown |
| SwissArmyKnife.ShownFieldsRoundTrip | src/main/java/io/beans/util/SwissArmyKnife.java:403-418 | the text of a non-negative duration reads back as exactly the fields it shows |
| SwissArmyKnife.TruncatedValues | src/main/java/io/beans/util/SwissArmyKnife.java:410-417 | dropping the parts below a millisecond, a second or a minute is cutting the duration down to that unit |
| SwissArmyKnife.WrapperOf | src/main/java/io/beans/util/SwissArmyKnife.java:237-241 | a type has a wrapper exactly when it is in the primitives table |
| SwissArmyKnife.IsAssignableFrom | src/main/java/io/beans/util/SwissArmyKnife.java:276-285 | true when the plain relation holds, and otherwise, for a primitive super type, the plain relation of its wrapper from the first matching table entry |
| SwissArmyKnife.IsInstance | src/main/java/io/beans/util/SwissArmyKnife.java:254-263 | true when the value is a plain instance, and otherwise, for a primitive type, when it is an instance of the wrapper |
| SwissArmyKnife.InstanceIsAssignable | src/main/java/io/beans/util/SwissArmyKnife.java:254-285 | `isInstance(type, v)` holds exactly when v is not null and `isAssignableFrom(type, v.getClass())` holds |
| SwissArmyKnife.PrimitiveTakesItsWrapper | src/main/java/io/beans/util/SwissArmyKnife.java:276-285 | a primitive type accepts its own wrapper, and otherwise exactly itself and what its wrapper accepts |
| SwissArmyKnife.ReferenceTypesUnchanged | src/main/java/io/beans/util/SwissArmyKnife.java:276-278 | for a reference super type the answer is the plain relation |
| SwissArmyKnife.FieldIterator.constructor | src/main/java/io/beans/util/SwissArmyKnife.java:133-137 | the fields to come are the declared fields of the class and then of each superclass |
| SwissArmyKnife.FieldIterator.PrepareNextField | src/main/java/io/beans/util/SwissArmyKnife.java:139-146 | skipping classes without declared fields leaves the fields still to come unchanged |
| SwissArmyKnife.FieldIterator.Next | src/main/java/io/beans/util/SwissArmyKnife.java:149-155 | `next()` returns the first field to come and drops it; after exhaustion it throws NoSuchElementException |
| SwissArmyKnife.FieldIterator.HasNext | src/main/java/io/beans/util/SwissArmyKnife.java:158-160 | `hasNext()` holds exactly when fields remain |
| SwissArmyKnife.Matches | src/main/java/io/beans/util/SwissArmyKnife.java:40-61 | each matcher answers its relation: equality, plain assignability, assignability with primitives |
| SwissArmyKnife.MatchersWiden | src/main/java/io/beans/util/SwissArmyKnife.java:40-61 | EXACT implies ASSIGNABLE, which implies ASSIGNABLE_WITH_PRIMITIVES |
| SwissArmyKnife.MatchingMember | src/main/java/io/beans/util/SwissArmyKnife.java:178-180 | a field matches exactly when it is a field of the chain that the matcher accepts |
| SwissArmyKnife.Inject | src/main/java/io/beans/util/SwissArmyKnife.java:174-199 | no match gives false; one match is written and gives true; at a second match the first has been written and IllegalStateException is thrown; a null target throws NullPointerException |
| SwissArmyKnife.InjectFields | src/main/java/io/beans/util/SwissArmyKnife.java:176-198 | the loop over the target's field chain ends in the outcome above |
| SwissArmyKnife.SecondMatch | src/main/java/io/beans/util/SwissArmyKnife.java:181-185 | a second match means at least two matching fields, the first one being the one already written |
| SwissArmyKnife.InjectValue | src/main/java/io/beans/util/SwissArmyKnife.java:77-79 | the field type is the value's own class with primitives accepting their wrappers; a null value throws |
| SwissArmyKnife.InjectRequired | src/main/java/io/beans/util/SwissArmyKnife.java:121-126 | exactly one match succeeds; none or several throw IllegalStateException; the matcher is EXACT or ASSIGNABLE by the flag |
| ArrayedObjects.Unsigned | src/main/java/io/beans/collections/ArrayedObjects.java:17 | the unsigned 32-bit view of an `int` is below 2^32 and leaves non-negative values alone |
| ArrayedObjects.SingleBit | src/main/java/io/beans/collections/ArrayedObjects.java:17-20 | a number with one bit set is 2 to the number of its trailing zeros |
| ArrayedObjects.MaskKeepsLowBits | src/main/java/io/beans/collections/ArrayedObjects.java:24 | `index & (2^k - 1)` is the index modulo 2^k, for negative indexes too |
| ArrayedObjects.Create | src/main/java/io/beans/collections/ArrayedObjects.java:16-21 | a power-of-two length gives `length` empty slots with `2^bitShift == length`, and `Integer.MIN_VALUE`, the one negative value with one bit set, throws NegativeArraySizeException |
| ArrayedObjects.Get | src/main/java/io/beans/collections/ArrayedObjects.java:23-25 | every `int` index, negative ones included, reads the slot at the index modulo the length, which for an index in range is the index itself |

## Left out

- Reflection, `sun.misc.Unsafe` and the layout probe in the static initializer of `ClassSchema` (ClassSchema.java lines 39-70) are replaced by the `World` value: the class table, the heap snapshot, the static field values and the layout constants are parameters. The probe that measures them is not part of this model.
- The heap is immutable in the model. `inject` reports the field it writes (`written`) instead of storing the value, and the `IllegalArgumentException`/`IllegalAccessException` paths of `Field.set` and `makeAccessible` are not modelled.
- Field filters and annotation filters supplied by users are function parameters. An annotation carries one integer standing for its attributes.
- Marker annotations are checked one meta-annotation level deep, as the code does, not through a transitive closure.
- `synchronized` and thread safety are not modelled; every operation runs alone.
- Stack depth is unbounded: the recursive walks cannot overflow the stack.
- `int` and `long` wrap-around of `totalSize`, `instanceCount` and the reference counts is not modelled; they are unbounded integers. `Reference.increment` and `hashCode` are the exceptions, in 32-bit arithmetic.
- ClassCollectors.Tally: the tally of a class collector is a map from reference name to an unbounded natural count, independent of `ClassStats.Reference`. A name referenced more than `Integer.MAX_VALUE` times would wrap around in Java, through `Reference.increment`, but not in the model.
- `StringBuilder` is a string value. The builder passed to `appendNumber` is its current contents, and the result is the new contents.
- A class collector is a datatype value stored in the measurement's map, not an object updated in place. A snapshot copies the collector's tally map instead of sharing it, so tallies made after a snapshot do not show in it.
- `MyClassStats.instances` and `referenceCounts` list the counted entries in an order the model leaves open, as iteration over an `IdentityHashMap` does.
- The per-class totals of a memory counting collector: the class-specific measurement sizes an instance directly, bypassing its own deduplication. `Collector.Measurement.ClassTotalSize` states this sum and nothing more. It is not a deduplicated retained size, since a root reached again through a cycle is sized again.
- The `assert` in the constructor of `ArrayedObjects` is a precondition of `ArrayedObjects.Create`. With assertions disabled, Java would accept any length.
- `ArrayedObjects.Create` does not model the `bitShift` of `Integer.MIN_VALUE`, which throws before it is computed.
- `SwissArmyKnife.DurationRoundTrip` and `SwissArmyKnife.ShownFieldsRoundTrip` are stated for non-negative durations only. `DurationAsString` accepts negative durations, with Java's truncating remainder, but such text does not read back.
- `SwissArmyKnife.Inject` covers the overloads `inject(target, fieldType, value)` and `inject(target, fieldType, value, exactMatch)` through its matcher parameter: ASSIGNABLE for the first, and `MatcherFor(exactMatch)` for the second.
- `peek`, `dump`, `getLogger`, `log`, `runAndPrintTime`, `fullPrint` and `FieldIterator.remove` are not part of this model. They are file I/O, logging, clocks, reflective debug printing, or an unsupported operation. The one piece of `fullPrint` the core depends on, the printed name of a class, is `ClassSchema.PrintedName`.
- Collector.Measurement.Calc: does not restate, after the outer measurement, that the class-specific measurement of a memory counting collector still begins its new part with the instance. `Collector.Measurement.MeasureClassSpecific` states it right after that measurement. Nothing later removes it, but carrying the fact through every step of the recursive measurement is not done.
- The unused filters `collectStaticConstants` and `onlyGloballyAnnotatedAndConstants` are not modelled, since no policy selects them.
- `SizeOf.java`, `Comparisons.java` and `Comparison.java` are not part of this model. They are a weakly held default environment with print helpers, and thin wrappers over `equals` and `hashCode`.
- `register`, `createCollector` and `createCollectorWith` are one-line delegations to `getSchema`, the `Collector` constructor and `Collector.measure`. They are not modelled separately.
- `toString` methods are not modelled.
- `Collector.java` line 32 calls a one-argument `addGlobalObjectsFrom` that the environment does not declare. It is modelled as the two-argument version with the environment's current policy.
- Line 136 of `Collector.java` calls `flatSize`, which is modelled as `shallowSize`.
- `FieldCallback.visit` is modelled with the two arguments its implementations take.

## Findings

| source | as written | input that shows it | evidently intended | confidence | as-written member | corrected member |
|---|---|---|---|---|---|---|
| src/main/java/io/beans/util/SwissArmyKnife.java:444-447 | the post-decrement in `while (digits-- > DIGI.length)` wraps `Integer.MIN_VALUE` around to `Integer.MAX_VALUE`, and the second loop then reads `DIGI[Integer.MAX_VALUE]` | `appendNumber(sb, 5, Integer.MIN_VALUE)` throws ArrayIndexOutOfBoundsException | a negative width appends no zeros, as every other negative width does, and the number is appended as it is | not executed | SwissArmyKnife.AppendNumber | SwissArmyKnife.PaddedRoundTrip |
| src/main/java/io/beans/util/SwissArmyKnife.java:439-450 | `num *= -1` overflows for `Long.MIN_VALUE` and leaves it negative, so no `DIGI` entry stops the padding loop, and `sb.append(num)` prints its own '-' after the one already written | `appendNumber(sb, Long.MIN_VALUE, 5)` appends `-0000-9223372036854775808` | `Long.MIN_VALUE` is appended as '-' and then its 19 digits, as for every other negative number | not executed | SwissArmyKnife.LongMinTwoSigns | SwissArmyKnife.PaddedRoundTrip |
