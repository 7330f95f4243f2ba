# spring-hierarchical in Dafny

A model of the core of spring-hierarchical: a tree of bean contexts for Spring
with a custom "hierarchical" scope, and of the circular back-reference wiring
done when a bean is created in a sub-context.

- **Contexts** (`contexts.dfy`): `HierarchicalContext` nodes, kept in an
  arena (`seq<Node>`) in which every parent has a smaller index than its child.
  The module holds the upward lookups `get` and `contextOfBean`, the accessor test
  `isNameForThisClass`, `put`, `beanNameForType` and the `isInstanceOfType`
  scan. A stored null counts as absent, as in the Java code.
- **ThreadScope** (`thread_scope.dfy`): `HierarchicalThreadScope`. The active node
  is one optional field of the container state `World`. The module holds the
  target-level decision (`annotatedTargetContextBeanName`, `targetContext`,
  `lookupAnnotatedTargetContext`) and the scope's get-or-create. Spring's
  `getBean` fails on an undefined name and returns a name the active chain
  already holds unchanged; otherwise it is the scope resolution of a given
  creation sequence: the bean's dependencies, then the bean itself.
- **Circular** (`circular.dfy`): the circular back-reference pass, as
  specification functions over the state. They fold over declaration lists
  from the front, and a failure keeps the writes made before it. Lemmas then
  prove the promises: what the reciprocal step fills, the fatal errors, and
  that a successful pass fills every back-reference slot.
- **Runtime** (`runtime.dfy`): class `Hierarchy`. Its fields are the arena, the
  active slot and the objects' fields. Each Java method that changes state
  becomes a method with the same loops, breaks and early failures. Each such
  method is proved to return exactly the result, and leave exactly the state,
  of its specification function.
- **Beans** (`beans.dfy`): the shared vocabulary.
  - Values: null, application beans and context nodes.
  - The registry that stands in for Spring's `ListableBeanFactory`: type
    matches, names per type, factory products, creation dependencies.
  - The class metadata that stands in for reflection and annotations.
  - The errors the container throws.

Java exceptions become `Err` results, each named after its cause. Dereferencing
null becomes `NullReference`.

## Model

| member | source | states |
|---|---|---|
| Contexts.ContextOfBean | src/main/java/de/codecentric/spring/hierarchical/HierarchicalContext.java:43-53 | the node it answers with never has a larger index than the start node (the arena order of ancestors) |
| Contexts.PutNode | src/main/java/de/codecentric/spring/hierarchical/HierarchicalContext.java:60-62 | put maps the name to the object in that one node's map and changes no other node; parents and the arena invariant are kept |
| Contexts.BeanNameForType | src/main/java/de/codecentric/spring/hierarchical/HierarchicalContext.java:88-103 | succeeds exactly when one name is registered for the type and then returns that name; zero names fail with NoCandidate, more than one with AmbiguousCandidate and the count (never the first name) |
| Contexts.IsInstanceOfType | src/main/java/de/codecentric/spring/hierarchical/HierarchicalContext.java:264-276 | the scan returns true exactly when the type is the runtime class of the object or one of the interfaces that class declares |
| Contexts.AccessorNameIsSelf | src/main/java/de/codecentric/spring/hierarchical/HierarchicalContext.java:30-58 | a name Spring type-matches to CurrentLevelContext or to HierarchicalContext (isNameForThisClass) makes get and contextOfBean answer the node itself, before any stored entry is read |
| Contexts.GetIsNearestMatch | src/main/java/de/codecentric/spring/hierarchical/HierarchicalContext.java:30-41 | get returns the entry of the first node on the walk towards the root that holds a non-null entry (nearest match, shadowing), and null when no node does |
| Contexts.ContextOfBeanAgreesWithGet | src/main/java/de/codecentric/spring/hierarchical/HierarchicalContext.java:43-53 | contextOfBean is absent exactly when get is null; otherwise it lies on the chain and, for a non-accessor name, its own map holds what get returns |
| Contexts.ContextOfBeanIsNearest | src/main/java/de/codecentric/spring/hierarchical/HierarchicalContext.java:43-53 | for a non-accessor name, contextOfBean answers with the first node on the walk towards the root that holds a non-null entry, and with none when no node does |
| Contexts.PutThenGet | src/main/java/de/codecentric/spring/hierarchical/HierarchicalContext.java:60-62 | put of a non-null object under a non-accessor name, then get on the same node, yields that object |
| Contexts.PutLeavesOtherLookups | src/main/java/de/codecentric/spring/hierarchical/HierarchicalContext.java:60-62 | put changes no lookup of another name, and no lookup of any name from a node whose chain avoids the written node |
| Contexts.PutInvisibleToAncestors | src/main/java/de/codecentric/spring/hierarchical/HierarchicalContext.java:60-62 | put on a node changes no lookup from any of its ancestors |
| Contexts.PutInChainThenGet | src/main/java/de/codecentric/spring/hierarchical/HierarchicalContext.java:30-41 | when nothing on the chain holds a name, a put into any node of that chain makes get from the start node return the stored object |
| Contexts.NoHolderOnChain | src/main/java/de/codecentric/spring/hierarchical/HierarchicalContext.java:30-41 | a null get means no node of the chain holds a non-null entry for the name |
| ThreadScope.AnnotatedTargetContextBeanName | src/main/java/de/codecentric/spring/hierarchical/HierarchicalThreadScope.java:63-78 | a null object fails; no declaration gives no name; a declared name other than UNASSIGNED (ignoring case) is returned as is; otherwise, without an active node it fails on the null dereference, and with one it succeeds exactly when beanNameForType of the declared type does, with that name or that error |
| ThreadScope.LookupAnnotatedTargetContext | src/main/java/de/codecentric/spring/hierarchical/HierarchicalThreadScope.java:43-61 | succeeds exactly when get of the target name from the active node is non-null, with the nearest node of the active chain holding the target (the active node itself for an accessor name); otherwise fails with MissingTargetLevel, or on the null dereference without an active node |
| ThreadScope.TargetContext | src/main/java/de/codecentric/spring/hierarchical/HierarchicalThreadScope.java:36-41 | an object without declaration goes to currentContext(), which is none (Java's null) when no node is active; a failure of annotatedTargetContextBeanName is passed on; a declared target name, with a node active, gives the node contextOfBean finds for it from the active node, or MissingTargetLevel when there is none; any node chosen lies on the active chain |
| ThreadScope.ScopeGet | src/main/java/de/codecentric/spring/hierarchical/HierarchicalThreadScope.java:23-30 | get-or-create keeps the arena invariant, the parents, the active slot and every object field, never removes or replaces a live entry, and on success returns what get of the name from the active node answers afterwards |
| ThreadScope.ScopeGetDefined | src/main/java/de/codecentric/spring/hierarchical/HierarchicalContext.java:77 | an undefined name fails with NoSuchBean and changes nothing; otherwise the frame of ScopeGet holds and a success is what the active node answers for the name afterwards |
| ThreadScope.ScopeGetAll | src/main/java/de/codecentric/spring/hierarchical/HierarchicalContext.java:77 | resolving a creation sequence keeps the frame of ScopeGet, and a success is what the active node answers afterwards for the last name |
| ThreadScope.GetBean | src/main/java/de/codecentric/spring/hierarchical/HierarchicalContext.java:77 | Spring getBean, seen through the scope: an undefined name fails with NoSuchBean and changes nothing; a name the active chain already holds is returned with no change and no dependency resolved; otherwise it keeps the arena shape, the active slot and all fields, never drops a live entry, and on success returns the object the active node answers for the name afterwards |
| ThreadScope.ScopeGetReturnsChainEntry | src/main/java/de/codecentric/spring/hierarchical/HierarchicalThreadScope.java:23-30 | an entry held anywhere on the active chain, even only in an ancestor, is returned without calling the factory and without any change |
| ThreadScope.ScopeGetIdempotent | src/main/java/de/codecentric/spring/hierarchical/HierarchicalThreadScope.java:23-30 | after a get that returned a non-null object, a second get for the same name (with any factory) returns the same object, calls no factory and changes nothing |
| ThreadScope.ScopeGetStoresInActiveNode | src/main/java/de/codecentric/spring/hierarchical/HierarchicalThreadScope.java:25-41 | on a miss without target declaration the product is put into the active node under the name and returned, and no lookup from an ancestor changes |
| ThreadScope.ScopeGetStoresAtTargetLevel | src/main/java/de/codecentric/spring/hierarchical/HierarchicalThreadScope.java:36-61 | on a miss with a target declaration the product goes to the nearest chain node owning the target and is then visible from the active node; no owner fails with MissingTargetLevel and nothing is stored |
| Circular.WriteSlot | src/main/java/de/codecentric/spring/hierarchical/HierarchicalContext.java:220-223 | a slot write sets exactly that slot of that object and leaves every other slot and object as it was |
| Circular.FirstMatchingField | src/main/java/de/codecentric/spring/hierarchical/HierarchicalContext.java:212-218 | finds the first annotated field the bean is an instance of; none before it matches, and none at all when absent |
| Circular.ReciprocalSetters | src/main/java/de/codecentric/spring/hierarchical/HierarchicalContext.java:228-262 | the partner setter scan leaves the nodes and the active slot unchanged |
| Circular.NestedCandidates | src/main/java/de/codecentric/spring/hierarchical/HierarchicalContext.java:187-205 | the reciprocal step leaves the nodes and the active slot unchanged |
| Circular.GetInstance | src/main/java/de/codecentric/spring/hierarchical/HierarchicalContext.java:167-184 | a successful partner lookup yields a non-null partner, and the state only evolves (frame kept, no filled slot or live entry lost) |
| Circular.GetInstanceIsRegisteredPartner | src/main/java/de/codecentric/spring/hierarchical/HierarchicalContext.java:167-184 | with node `c` active, a returned partner is the object that get of the type's unique bean name answers from `c` afterwards (the bean already on the chain or the one getBean produced) |
| Circular.InjectFields | src/main/java/de/codecentric/spring/hierarchical/HierarchicalContext.java:153-163 | the field pass only evolves the state |
| Circular.InjectSetters | src/main/java/de/codecentric/spring/hierarchical/HierarchicalContext.java:122-150 | the setter pass only evolves the state |
| Circular.InjectBean | src/main/java/de/codecentric/spring/hierarchical/HierarchicalContext.java:116-118 | the per-bean step only evolves the state, and a null entry fails with NullReference and changes nothing |
| Circular.Pass | src/main/java/de/codecentric/spring/hierarchical/HierarchicalContext.java:115-119 | the candidate loop only evolves the state |
| Circular.ReciprocalKeepsFilled | src/main/java/de/codecentric/spring/hierarchical/HierarchicalContext.java:187-205 | the reciprocal step never clears a filled slot |
| Circular.ReciprocalFieldFillsFirstMatch | src/main/java/de/codecentric/spring/hierarchical/HierarchicalContext.java:207-226 | a field is injected exactly when some annotated field of the partner matches; then exactly the first such field receives the bean, otherwise nothing changes; no other object changes |
| Circular.MalformedPartnerSetterFails | src/main/java/de/codecentric/spring/hierarchical/HierarchicalContext.java:235-258 | an annotated partner setter with zero or several parameters makes the scan fail with MalformedInjectionPoint |
| Circular.MalformedSettersOnlyFail | src/main/java/de/codecentric/spring/hierarchical/HierarchicalContext.java:228-262 | MalformedInjectionPoint is the only way the partner setter scan fails |
| Circular.SetterScanReportsMatch | src/main/java/de/codecentric/spring/hierarchical/HierarchicalContext.java:231-261 | without malformed setters the scan succeeds and reports exactly whether some one-parameter annotated setter accepts the bean |
| Circular.EveryMatchingSetterInvoked | src/main/java/de/codecentric/spring/hierarchical/HierarchicalContext.java:232-260 | without malformed setters every matching setter of the partner is invoked with the bean, every other slot of the partner is kept and no other object changes |
| Circular.OrphanedIffNoReciprocalSlot | src/main/java/de/codecentric/spring/hierarchical/HierarchicalContext.java:191-204 | the orphaned-back-reference error is raised exactly when the partner has no matching field, no matching setter and no malformed setter |
| Circular.MalformedOwnSetterFails | src/main/java/de/codecentric/spring/hierarchical/HierarchicalContext.java:125-147 | an annotated setter of the bean itself with zero or several parameters makes its setter pass fail |
| Circular.OwnFieldsFilled | src/main/java/de/codecentric/spring/hierarchical/HierarchicalContext.java:153-163 | a successful field pass leaves every annotated field of the bean holding a non-null partner |
| Circular.OwnSettersFilled | src/main/java/de/codecentric/spring/hierarchical/HierarchicalContext.java:122-150 | a successful setter pass leaves every annotated setter slot of the bean holding a non-null partner |
| Circular.InjectBeanFills | src/main/java/de/codecentric/spring/hierarchical/HierarchicalContext.java:116-118 | a successful step over one bean fills all its back-reference slots |
| Circular.PassFillsEveryBackReference | src/main/java/de/codecentric/spring/hierarchical/HierarchicalContext.java:105-120 | after a successful pass, in any visiting order, every candidate name still denotes a non-null entry of the node and all its back-reference slots are filled |
| Circular.PairStep | src/main/java/de/codecentric/spring/hierarchical/HierarchicalContext.java:153-184 | a bean whose one annotated field resolves to a bean whose one annotated field accepts it is injected into that partner, then receives the partner |
| Circular.MutualPairWired | src/main/java/de/codecentric/spring/hierarchical/HierarchicalContext.java:105-120 | two beans of a node whose annotated fields have each other's class as type end up, in either iteration order, holding each other: A's field holds B and B's holds A |
| Circular.WithActiveChild | src/main/java/de/codecentric/spring/hierarchical/HierarchicalContext.java:72-74 | opening the child keeps every old node, appends one empty node whose parent is `self`, makes it active and keeps every field |
| Circular.ProduceInChild | src/main/java/de/codecentric/spring/hierarchical/HierarchicalContext.java:72-77 | producing the bean keeps the arena invariant, the extra node and the child as active node, and a produced bean is what the child answers for the name |
| Circular.SubContextCreation | src/main/java/de/codecentric/spring/hierarchical/HierarchicalContext.java:70-86 | on every outcome the active slot ends empty (not restored), exactly one child of the node is added and the old parents are kept |
| Circular.CreationWiresEveryBackReference | src/main/java/de/codecentric/spring/hierarchical/HierarchicalContext.java:70-86 | a successful creation returns the produced bean (the child's answer for the name, by ProduceInChild), and every bean the child held after production keeps its entry with all back-reference slots filled |
| Runtime.Hierarchy.constructor | src/main/java/de/codecentric/spring/hierarchical/HierarchicalContext.java:24-28 | a container starts with one root context, no active node and no fields |
| Runtime.Hierarchy.CurrentContext | src/main/java/de/codecentric/spring/hierarchical/HierarchicalThreadScope.java:32-34 | the thread's active node, or none; when present it is a node of the arena |
| Runtime.Hierarchy.SetCurrentThreadLocalContext | src/main/java/de/codecentric/spring/hierarchical/HierarchicalThreadScope.java:11-14 | afterwards currentContext returns the given node; nothing else changes |
| Runtime.Hierarchy.NewContext | src/main/java/de/codecentric/spring/hierarchical/HierarchicalContext.java:72-73 | a new empty node whose parent is the given node is appended; nothing else changes |
| Runtime.Hierarchy.Put | src/main/java/de/codecentric/spring/hierarchical/HierarchicalContext.java:60-62 | the node map is updated as PutNode says; nothing else changes |
| Runtime.Hierarchy.ScopeGet | src/main/java/de/codecentric/spring/hierarchical/HierarchicalThreadScope.java:23-30 | result and new state are those of ThreadScope.ScopeGet, and the factory runs exactly when the active chain has no entry |
| Runtime.Hierarchy.GetBean | src/main/java/de/codecentric/spring/hierarchical/HierarchicalContext.java:77 | the undefined-name check, the chain hit and the loop over the creation sequence yield exactly ThreadScope.GetBean |
| Runtime.Hierarchy.SetSlot | src/main/java/de/codecentric/spring/hierarchical/HierarchicalContext.java:160 | the new state is the slot write of Circular.WriteSlot |
| Runtime.Hierarchy.CircularInjectAnnotatedField | src/main/java/de/codecentric/spring/hierarchical/HierarchicalContext.java:207-226 | the scan with break yields exactly Circular.ReciprocalField |
| Runtime.Hierarchy.CircularInjectAnnotatedSetters | src/main/java/de/codecentric/spring/hierarchical/HierarchicalContext.java:228-262 | the loop with its methodFound flag and early failures yields exactly Circular.ReciprocalSetters |
| Runtime.Hierarchy.PerformCircularAutowiringOnNestedCandidates | src/main/java/de/codecentric/spring/hierarchical/HierarchicalContext.java:187-205 | yields exactly Circular.NestedCandidates |
| Runtime.Hierarchy.GetInstanceForCircularAutowiring | src/main/java/de/codecentric/spring/hierarchical/HierarchicalContext.java:167-184 | yields exactly Circular.GetInstance |
| Runtime.Hierarchy.InjectAnnotatedFields | src/main/java/de/codecentric/spring/hierarchical/HierarchicalContext.java:153-163 | the field loop yields exactly Circular.InjectFields |
| Runtime.Hierarchy.InjectAnnotatedSetters | src/main/java/de/codecentric/spring/hierarchical/HierarchicalContext.java:122-150 | the setter loop with its arity switch yields exactly Circular.InjectSetters |
| Runtime.Hierarchy.CopyCandidates | src/main/java/de/codecentric/spring/hierarchical/HierarchicalContext.java:107-113 | the copy loop produces a map equal to the node map |
| Runtime.Hierarchy.InjectCandidate | src/main/java/de/codecentric/spring/hierarchical/HierarchicalContext.java:116-118 | one iteration of the candidate loop yields exactly Circular.InjectBean of the entry looked up again |
| Runtime.Hierarchy.InjectCircularAutowiredAnnotatedBeans | src/main/java/de/codecentric/spring/hierarchical/HierarchicalContext.java:105-120 | for some enumeration of the copied key set, result and state are exactly Circular.Pass in that order |
| Runtime.Hierarchy.CreateBeanInSubContext | src/main/java/de/codecentric/spring/hierarchical/HierarchicalContext.java:70-86 | the active slot is empty on every exit, the new node is a child of this node, and for some iteration order the outcome is Circular.SubContextCreation |
| Runtime.Hierarchy.CreateBeanInSubContextForType | src/main/java/de/codecentric/spring/hierarchical/HierarchicalContext.java:64-68 | a failed name resolution returns its error and changes nothing; otherwise the outcome is that of creating by the resolved name |

## Left out

- Multi-threading: `ThreadLocal` becomes the slot of a single thread.
- `unsetCurrentThreadLocalContext` is not modelled: the core flow never uses it.
- The no-op Scope methods (`registerDestructionCallback`, `resolveContextualObject`, `getConversationId`, `remove`) are not modelled: they do nothing.
- `SpringUIProvider` is not modelled: it is UI glue around the core.
- `CurrentLevelContext` is an interface without logic, so it is not modelled.
- Spring internals are given as tables in `Registry`: `isTypeMatch`, `getBeanNamesForType`, bean definitions and their factories. `getBean` resolves a fixed creation sequence through the scope. Real factory recursion, constructor injection and Spring's own caching are not modelled.
- Reflection is replaced by `ClassInfo` metadata: declared fields and methods, their `@CircularAutowired` flag, parameter types, interfaces and the target-level declaration.
- Setting a field, or invoking a one-parameter setter, is modelled as a write to a named slot of the object. A setter's body is not modelled.
- Surrogate values: `TargetContextLevelOf.java` is not part of this model. Its `UNASSIGNED` default is assumed to be the string "UNASSIGNED". `equalsIgnoreCase` folds ASCII letters only.
- The iteration order of a `HashMap` key set is unspecified. `Runtime.Hierarchy.InjectCircularAutowiredAnnotatedBeans` promises its outcome only for some enumeration of the copied key set, not for a particular one.
- Circular.CreationWiresEveryBackReference: it speaks only of the beans the child holds when the pass starts. Beans that the pass itself adds through `getBean` are never visited by the Java loop either, and their slots are not claimed to be filled.
- OwnFieldsFilled (for the bean's annotated fields) promises only that each back-reference slot holds some non-null object, not which one. A later reciprocal write may put any bean that is an instance of the slot's type into that slot, and the registry does not relate instance-of to the names registered per type. Circular.GetInstanceIsRegisteredPartner pins each step and Circular.MutualPairWired the mutual pair.
- OwnSettersFilled (for the bean's annotated setters) promises only that each back-reference slot holds some non-null object, not which one. A later reciprocal write may put any bean that is an instance of the slot's type into that slot, and the registry does not relate instance-of to the names registered per type. Circular.GetInstanceIsRegisteredPartner pins each step and Circular.MutualPairWired the mutual pair.
- InjectBeanFills (for the bean's fields and setters) promises only that each back-reference slot holds some non-null object, not which one. A later reciprocal write may put any bean that is an instance of the slot's type into that slot, and the registry does not relate instance-of to the names registered per type. Circular.GetInstanceIsRegisteredPartner pins each step and Circular.MutualPairWired the mutual pair.
- PassFillsEveryBackReference (for every bean the pass visits) promises only that each back-reference slot holds some non-null object, not which one. A later reciprocal write may put any bean that is an instance of the slot's type into that slot, and the registry does not relate instance-of to the names registered per type. Circular.GetInstanceIsRegisteredPartner pins each step and Circular.MutualPairWired the mutual pair.
- CreationWiresEveryBackReference (for every bean the child held once the bean was produced) promises only that each back-reference slot holds some non-null object, not which one. A later reciprocal write may put any bean that is an instance of the slot's type into that slot, and the registry does not relate instance-of to the names registered per type. Circular.GetInstanceIsRegisteredPartner pins each step and Circular.MutualPairWired the mutual pair.
- ScopeGetDefined: every instantiation of a bean name yields the same object, `products[name]`, where Java's object factory creates a new instance on each call. Two sibling sub-contexts that each produce the same name therefore share one object and its slots here, and the second pass overwrites the first one's back-references.
- WriteSlot: fields and setters write to a single slot map, keyed by the declaration's name. A field and a setter method with the same name therefore write the same slot, where in Java they are distinct.
- Runtime.Hierarchy.CreateBeanInSubContext: the cast of the Class variant to `T` is not modelled, because values are untyped here.
