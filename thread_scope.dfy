/** HierarchicalThreadScope: the per-thread active node and the scope's
    get-or-create, stated as functions of the container's whole state. It also
    models Spring's getBean, which reaches the scope for every bean it produces. */
module ThreadScope {
  import opened Beans
  import opened Contexts

  /** The fields of every object, by slot name. */
  type Slots = map<ObjId, map<string, Value>>

  /** The state the container changes: the arena of context nodes, the single
      thread's active-node slot (None is Java's null), and the objects' fields. */
  datatype World = World(nodes: seq<Node>, active: Option<nat>, slots: Slots)

  ghost predicate ValidWorld(w: World)
  {
    WellFormed(w.nodes) && (w.active.Some? ==> w.active.value < |w.nodes|)
  }

  /** `w'` has the same nodes with the same parents and the same active slot as
      `w`; only entries and object fields may differ. */
  ghost predicate SameShape(w: World, w': World)
  {
    && |w'.nodes| == |w.nodes|
    && (forall i | 0 <= i < |w.nodes| :: w'.nodes[i].parent == w.nodes[i].parent)
    && w'.active == w.active
  }

  /** No live entry of `nodes` is removed or replaced in `nodes'`. */
  ghost predicate KeepsEntries(nodes: seq<Node>, nodes': seq<Node>)
  {
    forall k, n | 0 <= k < |nodes| && Holds(nodes, k, n) ::
      k < |nodes'| && Holds(nodes', k, n) && nodes'[k].entries[n] == nodes[k].entries[n]
  }

  /** The result of an operation together with the state it leaves behind; a
      failure keeps the effects performed before it was raised. */
  datatype Outcome<+T> = Outcome(result: Result<T>, world: World)

  /** annotatedTargetContextBeanName: the name of the bean whose node should hold
      `v`, None when its class has no target declaration. */
  function AnnotatedTargetContextBeanName(reg: Registry, w: World, v: Value): (r: Result<Option<Name>>)
    ensures v == Null ==> r == Err(NullReference)
    ensures v != Null && InfoOf(reg, v).target.None? ==> r == Ok(None)
    ensures v != Null && InfoOf(reg, v).target.Some?
            && !EqualsIgnoreCase(InfoOf(reg, v).target.value.beanName, Unassigned)
            ==> r == Ok(Some(InfoOf(reg, v).target.value.beanName))
    ensures r.Ok? && r.value.Some? ==>
              v != Null && InfoOf(reg, v).target.Some?
              && var decl := InfoOf(reg, v).target.value;
                 r.value.value == decl.beanName
                 || (w.active.Some? && BeanNameForType(reg, decl.value) == Ok(r.value.value))
    ensures v != Null && InfoOf(reg, v).target.Some?
            && EqualsIgnoreCase(InfoOf(reg, v).target.value.beanName, Unassigned)
            ==> var byType := BeanNameForType(reg, InfoOf(reg, v).target.value.value);
                && (w.active.None? ==> r == Err(NullReference))
                && (w.active.Some? ==>
                      && (r.Ok? <==> byType.Ok?)
                      && (r.Ok? ==> r.value == Some(byType.value))
                      && (r.Err? ==> r.error == byType.error))
  {
    if v == Null then Err(NullReference)
    else match InfoOf(reg, v).target
      case None => Ok(None)
      case Some(decl) =>
        if !EqualsIgnoreCase(decl.beanName, Unassigned) then Ok(Some(decl.beanName))
        else if w.active.None? then Err(NullReference)
        else match BeanNameForType(reg, decl.value)
          case Err(e) => Err(e)
          case Ok(n) => Ok(Some(n))
  }

  /** lookupAnnotatedTargetContext: the nearest node on the active chain that
      owns `target`; none is a fatal configuration error. */
  function LookupAnnotatedTargetContext(reg: Registry, w: World, target: Name): (r: Result<nat>)
    requires ValidWorld(w)
    ensures r.Ok? ==> w.active.Some? && r.value in Chain(w.nodes, w.active.value)
    ensures w.active.Some? ==>
              (r.Ok? <==> Get(reg, w.nodes, w.active.value, target) != Null)
    ensures w.active.Some? && r.Err? ==> r.error == MissingTargetLevel(target)
    ensures w.active.Some? && IsNameForThisClass(reg, target) ==> r == Ok(w.active.value)
    ensures w.active.Some? && r.Ok? && !IsNameForThisClass(reg, target) ==>
              var c := Chain(w.nodes, w.active.value);
              var h := NearestHolder(w.nodes, c, target);
              h.Some? && c[h.value] == r.value
    ensures w.active.None? ==> r == Err(NullReference)
  {
    if w.active.None? then Err(NullReference)
    else
      ContextOfBeanAgreesWithGet(reg, w.nodes, w.active.value, target);
      ContextOfBeanIsNearest(reg, w.nodes, w.active.value, target);
      match ContextOfBean(reg, w.nodes, w.active.value, target)
      case None => Err(MissingTargetLevel(target))
      case Some(k) => Ok(k)
  }

  /** targetContext: the node that must store a newly created `v` — the active
      node, or the ancestor its target declaration names. Without a declaration
      it is currentContext(), so None (Java's null) when no node is active. */
  function TargetContext(reg: Registry, w: World, v: Value): (r: Result<Option<nat>>)
    requires ValidWorld(w)
    ensures r.Ok? && r.value.Some? ==> w.active.Some? && r.value.value in Chain(w.nodes, w.active.value)
    ensures v != Null && InfoOf(reg, v).target.None? ==> r == Ok(w.active)
    ensures r.Ok? && r.value.None? ==> v != Null && InfoOf(reg, v).target.None? && w.active.None?
    ensures AnnotatedTargetContextBeanName(reg, w, v).Err? ==>
              r == Err(AnnotatedTargetContextBeanName(reg, w, v).error)
    ensures forall t | AnnotatedTargetContextBeanName(reg, w, v) == Ok(Some(t)) && w.active.Some? ::
              r == match ContextOfBean(reg, w.nodes, w.active.value, t)
                   case None => Err(MissingTargetLevel(t))
                   case Some(k) => Ok(Some(k))
  {
    match AnnotatedTargetContextBeanName(reg, w, v)
    case Err(e) => Err(e)
    case Ok(None) => Ok(w.active)
    case Ok(Some(target)) =>
      match LookupAnnotatedTargetContext(reg, w, target)
      case Err(e) => Err(e)
      case Ok(k) => Ok(Some(k))
  }

  /** The scope calls the object factory exactly when the active chain has no
      entry for `name`. */
  ghost predicate FactoryInvoked(reg: Registry, w: World, name: Name)
    requires ValidWorld(w)
  {
    w.active.Some? && Get(reg, w.nodes, w.active.value, name) == Null
  }

  /** HierarchicalThreadScope.get: the existing chain entry, or the factory's
      product stored in its target node. The factory is None for Java's null. */
  function ScopeGet(reg: Registry, w: World, name: Name, factory: Option<Value>): (r: Outcome<Value>)
    requires ValidWorld(w)
    ensures ValidWorld(r.world) && SameShape(w, r.world) && r.world.slots == w.slots
    ensures KeepsEntries(w.nodes, r.world.nodes)
    ensures r.result.Ok? ==> w.active.Some? && Get(reg, r.world.nodes, w.active.value, name) == r.result.value
  {
    if w.active.None? then Outcome(Err(NullReference), w)
    else
      var existing := Get(reg, w.nodes, w.active.value, name);
      if existing != Null then Outcome(Ok(existing), w)
      else match factory
        case None => Outcome(Err(NullReference), w)
        case Some(obj) =>
          match TargetContext(reg, w, obj)
          case Err(e) => Outcome(Err(e), w)
          case Ok(None) => Outcome(Err(NullReference), w)
          case Ok(Some(k)) =>
            NoHolderOnChain(reg, w.nodes, w.active.value, k, name);
            PutInChainThenGet(reg, w.nodes, w.active.value, k, name, obj);
            Outcome(Ok(obj), w.(nodes := PutNode(w.nodes, k, name, obj)))
  }

  /** The names Spring resolves through the scope while producing `name`: its
      dependencies, then the bean itself. */
  function CreationSequence(reg: Registry, name: Name): (s: seq<Name>)
    ensures |s| > 0 && s[|s| - 1] == name
  {
    (if name in reg.dependencies then reg.dependencies[name] else []) + [name]
  }

  /** One bean resolved by Spring: an undefined name fails, a defined one goes
      through the scope with its factory. */
  function ScopeGetDefined(reg: Registry, w: World, name: Name): (r: Outcome<Value>)
    requires ValidWorld(w)
    ensures ValidWorld(r.world) && SameShape(w, r.world) && r.world.slots == w.slots
    ensures KeepsEntries(w.nodes, r.world.nodes)
    ensures name !in reg.products ==> r == Outcome(Err(NoSuchBean(name)), w)
    ensures r.result.Ok? ==> w.active.Some? && Get(reg, r.world.nodes, w.active.value, name) == r.result.value
  {
    if name !in reg.products then Outcome(Err(NoSuchBean(name)), w)
    else ScopeGet(reg, w, name, Some(reg.products[name]))
  }

  /** Resolving `names` in order, stopping at the first failure; the value is
      that of the last name. */
  function ScopeGetAll(reg: Registry, w: World, names: seq<Name>): (r: Outcome<Value>)
    requires ValidWorld(w)
    ensures ValidWorld(r.world) && SameShape(w, r.world) && r.world.slots == w.slots
    ensures KeepsEntries(w.nodes, r.world.nodes)
    ensures r.result.Ok? && names != [] ==>
              w.active.Some? && Get(reg, r.world.nodes, w.active.value, names[|names| - 1]) == r.result.value
  {
    if names == [] then Outcome(Ok(Null), w)
    else
      var prev := ScopeGetAll(reg, w, names[..|names| - 1]);
      if prev.result.Err? then prev
      else ScopeGetDefined(reg, prev.world, names[|names| - 1])
  }

  /** Spring's getBean for a bean of the hierarchical scope: an undefined name
      fails before the scope is reached; a name the active chain already holds
      is the scope's hit, so nothing is produced and no dependency resolved;
      otherwise the dependencies, then the bean, go through the scope. */
  function GetBean(reg: Registry, w: World, name: Name): (r: Outcome<Value>)
    requires ValidWorld(w)
    ensures ValidWorld(r.world) && SameShape(w, r.world) && r.world.slots == w.slots
    ensures KeepsEntries(w.nodes, r.world.nodes)
    ensures r.result.Ok? ==> w.active.Some? && Get(reg, r.world.nodes, w.active.value, name) == r.result.value
    ensures name !in reg.products ==> r == Outcome(Err(NoSuchBean(name)), w)
    ensures name in reg.products && w.active.Some? && Get(reg, w.nodes, w.active.value, name) != Null ==>
              r == Outcome(Ok(Get(reg, w.nodes, w.active.value, name)), w)
  {
    if name !in reg.products then Outcome(Err(NoSuchBean(name)), w)
    else if w.active.Some? && Get(reg, w.nodes, w.active.value, name) != Null then
      Outcome(Ok(Get(reg, w.nodes, w.active.value, name)), w)
    else ScopeGetAll(reg, w, CreationSequence(reg, name))
  }

  /** Once resolving has failed, further names change nothing. */
  lemma {:induction false} ScopeGetAllStopsAtFailure(reg: Registry, w: World, names: seq<Name>, more: seq<Name>)
    requires ValidWorld(w) && ScopeGetAll(reg, w, names).result.Err?
    ensures ScopeGetAll(reg, w, names + more) == ScopeGetAll(reg, w, names)
    decreases |more|
  {
    if more == [] {
      assert names + more == names;
    } else {
      var init := more[..|more| - 1];
      assert (names + more)[..|names + more| - 1] == names + init;
      ScopeGetAllStopsAtFailure(reg, w, names, init);
    }
  }

  // ---------------------------------------------------------------------------
  // Properties of the scope

  /** An entry held anywhere on the active chain, even only in an ancestor, is
      returned without calling the factory (which may even be null) and without
      any change. */
  lemma ScopeGetReturnsChainEntry(reg: Registry, w: World, name: Name, factory: Option<Value>, k: nat)
    requires ValidWorld(w) && w.active.Some? && !IsNameForThisClass(reg, name)
    requires ContextOfBean(reg, w.nodes, w.active.value, name) == Some(k)
    ensures k < |w.nodes| && name in w.nodes[k].entries
    ensures !FactoryInvoked(reg, w, name)
    ensures ScopeGet(reg, w, name, factory) == Outcome(Ok(w.nodes[k].entries[name]), w)
  {
    ContextOfBeanAgreesWithGet(reg, w.nodes, w.active.value, name);
  }

  /** A second get for the same name returns the first call's object without
      calling the factory and without changing anything, so the factory of a
      name runs at most once while its product is non-null. */
  lemma ScopeGetIdempotent(reg: Registry, w: World, name: Name, f: Option<Value>, g: Option<Value>)
    requires ValidWorld(w)
    requires ScopeGet(reg, w, name, f).result.Ok?
    requires ScopeGet(reg, w, name, f).result.value != Null
    ensures var first := ScopeGet(reg, w, name, f);
            && !FactoryInvoked(reg, first.world, name)
            && ScopeGet(reg, first.world, name, g) == Outcome(first.result, first.world)
  {
    var a := w.active.value;
    if Get(reg, w.nodes, a, name) == Null {
      var obj := f.value;
      var k := TargetContext(reg, w, obj).value.value;
      PutInChainThenGet(reg, w.nodes, a, k, name, obj);
    }
  }

  /** On a miss without a target declaration the product is stored in the active
      node under `name` and returned; no lookup from an ancestor changes. */
  lemma ScopeGetStoresInActiveNode(reg: Registry, w: World, name: Name, obj: Value)
    requires ValidWorld(w) && FactoryInvoked(reg, w, name)
    requires obj != Null && InfoOf(reg, obj).target.None?
    ensures var r := ScopeGet(reg, w, name, Some(obj));
            && r.result == Ok(obj)
            && r.world == w.(nodes := PutNode(w.nodes, w.active.value, name, obj))
            && Get(reg, r.world.nodes, w.active.value, name) == obj
            && forall m, x | 0 <= m < w.active.value ::
                 Get(reg, r.world.nodes, m, x) == Get(reg, w.nodes, m, x)
  {
    var a := w.active.value;
    PutInChainThenGet(reg, w.nodes, a, a, name, obj);
    forall m, x | 0 <= m < a
      ensures Get(reg, PutNode(w.nodes, a, name, obj), m, x) == Get(reg, w.nodes, m, x)
    {
      PutInvisibleToAncestors(reg, w.nodes, a, name, obj, m, x);
    }
  }

  /** On a miss with a target declaration naming `target`, the product goes to
      the nearest node of the active chain that owns `target`; when no node owns
      it, the get fails with MissingTargetLevel and nothing is stored. */
  lemma ScopeGetStoresAtTargetLevel(reg: Registry, w: World, name: Name, obj: Value, target: Name)
    requires ValidWorld(w) && FactoryInvoked(reg, w, name)
    requires AnnotatedTargetContextBeanName(reg, w, obj) == Ok(Some(target))
    ensures var r := ScopeGet(reg, w, name, Some(obj));
            match ContextOfBean(reg, w.nodes, w.active.value, target)
            case None =>
              r == Outcome(Err(MissingTargetLevel(target)), w)
            case Some(k) =>
              && r.result == Ok(obj)
              && r.world == w.(nodes := PutNode(w.nodes, k, name, obj))
              && Get(reg, r.world.nodes, w.active.value, name) == obj
  {
    var a := w.active.value;
    match ContextOfBean(reg, w.nodes, a, target)
    case None =>
    case Some(k) =>
      ContextOfBeanAgreesWithGet(reg, w.nodes, a, target);
      PutInChainThenGet(reg, w.nodes, a, k, name, obj);
  }
}
