/** The container at run time: the arena of HierarchicalContext nodes, the
    active-node slot of HierarchicalThreadScope (one thread), and the fields of
    the objects the container wires. Every method here follows the Java method
    of the same name step by step and is proved to leave exactly the state, and
    return exactly the result, that its specification function describes. */
module Runtime {
  import opened Beans
  import opened Contexts
  import opened ThreadScope
  import opened Circular

  class Hierarchy {
    const reg: Registry
    var nodes: seq<Node>
    var active: Option<nat>
    var slots: Slots

    function State(): World
      reads this
    {
      World(nodes, active, slots)
    }

    ghost predicate Valid()
      reads this
    {
      ValidWorld(State())
    }

    /** A container holding one root context and no active node. */
    constructor (reg: Registry)
      ensures Valid() && this.reg == reg
      ensures nodes == [Node(None, map[])] && active == None && slots == map[]
    {
      this.reg := reg;
      nodes := [Node(None, map[])];
      active := None;
      slots := map[];
    }

    /** HierarchicalThreadScope.currentContext: the active node, a node of the
        arena whenever there is one. */
    function CurrentContext(): (c: Option<nat>)
      reads this
      ensures c == State().active
      ensures Valid() && c.Some? ==> c.value < |nodes|
    {
      active
    }

    /** HierarchicalThreadScope.setCurrentThreadLocalContext. */
    method SetCurrentThreadLocalContext(c: Option<nat>)
      requires Valid() && (c.Some? ==> c.value < |nodes|)
      modifies this
      ensures Valid() && CurrentContext() == c
      ensures nodes == old(nodes) && slots == old(slots)
    {
      active := c;
    }

    /** new HierarchicalContext(parent): a fresh empty node below `parent`. */
    method NewContext(parent: nat) returns (n: nat)
      requires Valid() && parent < |nodes|
      modifies this
      ensures Valid() && n == old(|nodes|)
      ensures nodes == old(nodes) + [Node(Some(parent), map[])]
      ensures active == old(active) && slots == old(slots)
    {
      n := |nodes|;
      nodes := nodes + [Node(Some(parent), map[])];
    }

    /** HierarchicalContext.put on node `n`. */
    method Put(n: nat, name: Name, v: Value)
      requires Valid() && n < |nodes|
      modifies this
      ensures Valid() && nodes == PutNode(old(nodes), n, name, v)
      ensures active == old(active) && slots == old(slots)
    {
      nodes := nodes[n := nodes[n].(entries := nodes[n].entries[name := v])];
    }

    /** HierarchicalThreadScope.get: the active chain's entry, or the factory's
        product stored in its target node; `invoked` says whether the factory ran. */
    method ScopeGet(name: Name, factory: Option<Value>) returns (r: Result<Value>, invoked: bool)
      requires Valid()
      modifies this
      ensures Valid() && Outcome(r, State()) == ThreadScope.ScopeGet(reg, old(State()), name, factory)
      ensures invoked == FactoryInvoked(reg, old(State()), name)
    {
      if CurrentContext().None? {
        return Err(NullReference), false;
      }
      var obj := Get(reg, nodes, CurrentContext().value, name);
      invoked := obj == Null;
      if obj == Null {
        if factory.None? {
          return Err(NullReference), true;
        }
        obj := factory.value;
        var target := TargetContext(reg, State(), obj);
        if target.Err? {
          return Err(target.error), true;
        }
        Put(target.value.value, name, obj);
      }
      r := Ok(obj);
    }

    /** Spring's getBean: an undefined name fails and a name already on the
        active chain is returned as it is; otherwise it resolves the bean's
        dependencies, then the bean, each through the scope with the factory
        its definition provides. */
    method GetBean(name: Name) returns (r: Result<Value>)
      requires Valid()
      modifies this
      ensures Valid() && Outcome(r, State()) == ThreadScope.GetBean(reg, old(State()), name)
    {
      if name !in reg.products {
        return Err(NoSuchBean(name));
      }
      if CurrentContext().Some? {
        var hit := Get(reg, nodes, CurrentContext().value, name);
        if hit != Null {
          return Ok(hit);
        }
      }
      var names := CreationSequence(reg, name);
      r := Ok(Null);
      var i := 0;
      while i < |names|
        invariant 0 <= i <= |names| && Valid() && r.Ok?
        invariant Outcome(r, State()) == ScopeGetAll(reg, old(State()), names[..i])
      {
        assert names[..i + 1][..i] == names[..i];
        assert names[..i + 1] + names[i + 1..] == names;
        var n := names[i];
        if n !in reg.products {
          r := Err(NoSuchBean(n));
          ScopeGetAllStopsAtFailure(reg, old(State()), names[..i + 1], names[i + 1..]);
          return;
        }
        var invoked;
        r, invoked := ScopeGet(n, Some(reg.products[n]));
        if r.Err? {
          ScopeGetAllStopsAtFailure(reg, old(State()), names[..i + 1], names[i + 1..]);
          return;
        }
        i := i + 1;
      }
      assert names[..i] == names;
    }

    /** Writes slot `slot` of `target` (ReflectionUtils.setField, or invoking a
        one-parameter setter). */
    method SetSlot(target: Value, slot: string, v: Value)
      requires Valid()
      modifies this
      ensures Valid() && State() == WriteSlot(old(State()), target, slot, v)
    {
      if target.Bean? {
        slots := slots[target.id := SlotsOf(slots, target.id)[slot := v]];
      }
    }

    /** circularInjectAnnotatedField: the first annotated field of `partner`
        whose type `bean` is an instance of receives `bean`. */
    method CircularInjectAnnotatedField(bean: Value, partner: Value) returns (injected: bool)
      requires Valid() && bean != Null && partner != Null
      modifies this
      ensures Valid() && (injected, State()) == ReciprocalField(reg, old(State()), bean, partner)
    {
      var fields := InfoOf(reg, partner).fields;
      var i := 0;
      while i < |fields|
        invariant 0 <= i <= |fields| && State() == old(State())
        invariant forall j | 0 <= j < i :: !MatchingField(reg, fields[j], bean)
      {
        if fields[i].circular {
          var matches := IsInstanceOfType(reg, fields[i].fieldType, bean);
          if matches {
            break;
          }
        }
        i := i + 1;
      }
      injected := i < |fields|;
      if injected {
        SetSlot(partner, fields[i].name, bean);
      }
    }

    /** circularInjectAnnotatedSetters: every annotated one-parameter setter of
        `partner` that accepts `bean` is invoked with it; an annotated setter of
        another arity is a fatal error. The flag says whether one was invoked. */
    method CircularInjectAnnotatedSetters(bean: Value, t: TypeName, partner: Value) returns (r: Result<bool>)
      requires Valid() && bean != Null && partner != Null
      modifies this
      ensures Valid()
      ensures Outcome(r, State()) == ReciprocalSetters(reg, InfoOf(reg, partner).methods, bean, partner, old(State()))
    {
      var methods := InfoOf(reg, partner).methods;
      var methodFound := false;
      var i := 0;
      while i < |methods|
        invariant 0 <= i <= |methods| && Valid()
        invariant Outcome(Ok(methodFound), State()) == ReciprocalSetters(reg, methods[..i], bean, partner, old(State()))
      {
        assert methods[..i + 1][..i] == methods[..i];
        assert methods[..i + 1] + methods[i + 1..] == methods;
        var m := methods[i];
        if m.circular {
          if |m.params| == 0 {
            r := Err(MalformedInjectionPoint(m.name, 0));
            ReciprocalSettersStopAtFailure(reg, methods[..i + 1], methods[i + 1..], bean, partner, old(State()));
            return;
          } else if |m.params| == 1 {
            var matches := IsInstanceOfType(reg, m.params[0], bean);
            if matches {
              methodFound := true;
              SetSlot(partner, m.name, bean);
            }
          } else {
            r := Err(MalformedInjectionPoint(m.name, |m.params|));
            ReciprocalSettersStopAtFailure(reg, methods[..i + 1], methods[i + 1..], bean, partner, old(State()));
            return;
          }
        }
        i := i + 1;
      }
      assert methods[..i] == methods;
      r := Ok(methodFound);
    }

    /** performCircularAutowiringOnNestedCandidates: inject `bean` into its
        partner by field and by setter; finding neither is a fatal error. */
    method PerformCircularAutowiringOnNestedCandidates(bean: Value, t: TypeName, partner: Value) returns (r: Result<Done>)
      requires Valid() && bean != Null && partner != Null
      modifies this
      ensures Valid() && Outcome(r, State()) == NestedCandidates(reg, old(State()), bean, t, partner)
    {
      var fieldInjected := CircularInjectAnnotatedField(bean, partner);
      var setterInjected := CircularInjectAnnotatedSetters(bean, t, partner);
      if setterInjected.Err? {
        return Err(setterInjected.error);
      }
      if !fieldInjected && !setterInjected.value {
        return Err(OrphanedBackReference(t));
      }
      r := Ok(Done);
    }

    /** getInstanceForCircularAutowiring, called on node `c`: the unique bean of
        type `t` (looked up from `c`, else obtained from the registry), after
        `bean` was injected back into it. */
    method GetInstanceForCircularAutowiring(c: nat, bean: Value, t: TypeName) returns (r: Result<Value>)
      requires Valid() && c < |nodes| && bean != Null
      modifies this
      ensures Valid() && Outcome(r, State()) == GetInstance(reg, old(State()), c, bean, t)
    {
      var name := BeanNameForType(reg, t);
      if name.Err? {
        return Err(name.error);
      }
      var partner := Get(reg, nodes, c, name.value);
      if partner == Null {
        var fetched := GetBean(name.value);
        if fetched.Err? {
          return fetched;
        }
        partner := fetched.value;
      }
      if partner == Null {
        return Err(NullReference);
      }
      var nested := PerformCircularAutowiringOnNestedCandidates(bean, t, partner);
      if nested.Err? {
        return Err(nested.error);
      }
      r := Ok(partner);
    }

    /** injectAnnotatedFields: every annotated field of `bean` receives its
        partner. */
    method InjectAnnotatedFields(c: nat, bean: Value) returns (r: Result<Done>)
      requires Valid() && c < |nodes| && bean != Null
      modifies this
      ensures Valid() && Outcome(r, State()) == InjectFields(reg, InfoOf(reg, bean).fields, c, bean, old(State()))
    {
      var fields := InfoOf(reg, bean).fields;
      var i := 0;
      while i < |fields|
        invariant 0 <= i <= |fields| && Valid() && c < |nodes|
        invariant Outcome(Ok(Done), State()) == InjectFields(reg, fields[..i], c, bean, old(State()))
      {
        assert fields[..i + 1][..i] == fields[..i];
        assert fields[..i + 1] + fields[i + 1..] == fields;
        var f := fields[i];
        if f.circular {
          var value := GetInstanceForCircularAutowiring(c, bean, f.fieldType);
          if value.Err? {
            r := Err(value.error);
            InjectFieldsStopAtFailure(reg, fields[..i + 1], fields[i + 1..], c, bean, old(State()));
            return;
          }
          SetSlot(bean, f.name, value.value);
        }
        i := i + 1;
      }
      assert fields[..i] == fields;
      r := Ok(Done);
    }

    /** injectAnnotatedSetters: every annotated setter of `bean` must take one
        parameter and is invoked with its partner. */
    method InjectAnnotatedSetters(c: nat, bean: Value) returns (r: Result<Done>)
      requires Valid() && c < |nodes| && bean != Null
      modifies this
      ensures Valid() && Outcome(r, State()) == InjectSetters(reg, InfoOf(reg, bean).methods, c, bean, old(State()))
    {
      var methods := InfoOf(reg, bean).methods;
      var i := 0;
      while i < |methods|
        invariant 0 <= i <= |methods| && Valid() && c < |nodes|
        invariant Outcome(Ok(Done), State()) == InjectSetters(reg, methods[..i], c, bean, old(State()))
      {
        assert methods[..i + 1][..i] == methods[..i];
        assert methods[..i + 1] + methods[i + 1..] == methods;
        var m := methods[i];
        if m.circular {
          if |m.params| == 0 {
            r := Err(MalformedInjectionPoint(m.name, 0));
            InjectSettersStopAtFailure(reg, methods[..i + 1], methods[i + 1..], c, bean, old(State()));
            return;
          } else if |m.params| == 1 {
            var value := GetInstanceForCircularAutowiring(c, bean, m.params[0]);
            if value.Err? {
              r := Err(value.error);
              InjectSettersStopAtFailure(reg, methods[..i + 1], methods[i + 1..], c, bean, old(State()));
              return;
            }
            SetSlot(bean, m.name, value.value);
          } else {
            r := Err(MalformedInjectionPoint(m.name, |m.params|));
            InjectSettersStopAtFailure(reg, methods[..i + 1], methods[i + 1..], c, bean, old(State()));
            return;
          }
        }
        i := i + 1;
      }
      assert methods[..i] == methods;
      r := Ok(Done);
    }

    /** The map copy at the start of injectCircularAutowiredAnnotatedBeans. */
    method CopyCandidates(c: nat) returns (currentCandidates: map<Name, Value>)
      requires Valid() && c < |nodes|
      ensures currentCandidates == nodes[c].entries
    {
      currentCandidates := map[];
      var toCopy := nodes[c].entries.Keys;
      while toCopy != {}
        invariant toCopy <= nodes[c].entries.Keys
        invariant currentCandidates.Keys == nodes[c].entries.Keys - toCopy
        invariant forall k | k in currentCandidates :: currentCandidates[k] == nodes[c].entries[k]
        decreases toCopy
      {
        var beanName :| beanName in toCopy;
        currentCandidates := currentCandidates[beanName := nodes[c].entries[beanName]];
        toCopy := toCopy - {beanName};
      }
    }

    /** The body of the candidate loop: look the name up again in node `c` and
        wire the bean by its fields, then by its setters. */
    method InjectCandidate(c: nat, beanName: Name) returns (r: Result<Done>)
      requires Valid() && c < |nodes|
      modifies this
      ensures Valid() && Outcome(r, State()) == InjectBean(reg, old(State()), c, EntryOf(old(State()), c, beanName))
    {
      var bean := if beanName in nodes[c].entries then nodes[c].entries[beanName] else Null;
      if bean == Null {
        return Err(NullReference);
      }
      r := InjectAnnotatedFields(c, bean);
      if r.Ok? {
        r := InjectAnnotatedSetters(c, bean);
      }
    }

    /** injectCircularAutowiredAnnotatedBeans on node `c`: copy the node's map,
        then wire every bean named in the copy, in the map's (unspecified)
        iteration order. */
    method InjectCircularAutowiredAnnotatedBeans(c: nat) returns (r: Result<Done>)
      requires Valid() && c < |nodes|
      modifies this
      ensures Valid()
      ensures exists order :: IsEnumeration(order, old(nodes[c].entries.Keys))
                              && Outcome(r, State()) == Pass(reg, old(State()), c, order)
    {
      var currentCandidates := CopyCandidates(c);
      ghost var w0 := old(State());
      ghost var keys := currentCandidates.Keys;
      ghost var order: seq<Name> := [];
      var toVisit := currentCandidates.Keys;
      while toVisit != {}
        invariant Valid() && c < |nodes| && toVisit <= keys
        invariant IsEnumeration(order, keys - toVisit)
        invariant Pass(reg, w0, c, order).result.Ok? && Pass(reg, w0, c, order).world == State()
        decreases toVisit
      {
        var beanName :| beanName in toVisit;
        VisitNext(reg, w0, c, keys, toVisit, order, beanName);
        r := InjectCandidate(c, beanName);
        order := order + [beanName];
        toVisit := toVisit - {beanName};
        if r.Err? {
          ghost var full := FailureCompletes(reg, w0, c, keys, toVisit, order);
          return;
        }
      }
      r := Ok(Done);
      assert keys - toVisit == keys;
      assert Pass(reg, w0, c, order).result.value.Done?;
    }

    /** createBeanInSubContext(name) on node `self`: a child of `self` is made
        active, the bean is produced and the child's beans wired, and the active
        slot is cleared on every path. */
    method CreateBeanInSubContext(self: nat, name: Name) returns (r: Result<Value>)
      requires Valid() && self < |nodes|
      modifies this
      ensures Valid() && CurrentContext() == None
      ensures |nodes| == old(|nodes|) + 1 && nodes[old(|nodes|)].parent == Some(self)
      ensures exists order :: ChildOrder(reg, old(State()), self, name, order)
                              && Outcome(r, State()) == SubContextCreation(reg, old(State()), self, name, order)
    {
      ghost var w := State();
      var childContext := NewContext(self);
      SetCurrentThreadLocalContext(Some(childContext));
      assert State() == WithActiveChild(w, self);
      r := GetBean(name);
      ghost var produced := State();
      if r.Ok? {
        var wired := InjectCircularAutowiredAnnotatedBeans(childContext);
        ghost var order :| IsEnumeration(order, produced.nodes[childContext].entries.Keys)
                           && Outcome(wired, State()) == Pass(reg, produced, childContext, order);
        if wired.Err? {
          r := Err(wired.error);
        }
        SetCurrentThreadLocalContext(None);
        assert ChildOrder(reg, w, self, name, order);
      } else {
        SetCurrentThreadLocalContext(None);
        assert ChildOrder(reg, w, self, name, []);
      }
    }

    /** createBeanInSubContext(Class): resolve the unique name of `t`, then
        create by name. A failed resolution opens no child and leaves the
        active slot as it was. */
    method CreateBeanInSubContextForType(self: nat, t: TypeName) returns (r: Result<Value>)
      requires Valid() && self < |nodes|
      modifies this
      ensures Valid()
      ensures BeanNameForType(reg, t).Err? ==> r == Err(BeanNameForType(reg, t).error) && State() == old(State())
      ensures BeanNameForType(reg, t).Ok? ==>
                && CurrentContext() == None
                && (exists order ::
                      && ChildOrder(reg, old(State()), self, BeanNameForType(reg, t).value, order)
                      && Outcome(r, State()) == SubContextCreation(reg, old(State()), self, BeanNameForType(reg, t).value, order))
    {
      var name := BeanNameForType(reg, t);
      if name.Err? {
        return Err(name.error);
      }
      r := CreateBeanInSubContext(self, name.value);
    }
  }
}
