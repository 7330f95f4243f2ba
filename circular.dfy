/** The circular back-reference pass of HierarchicalContext, stated as functions
    of the container's state. Each function folds over a declaration list from
    the front, so that the methods that walk those lists can be proved against
    them one element at a time. A failure keeps the writes made before it. */
module Circular {
  import opened Beans
  import opened Contexts
  import opened ThreadScope

  /** The fields of object `o` (none yet if it was never written). */
  function SlotsOf(slots: Slots, o: ObjId): map<string, Value>
  {
    if o in slots then slots[o] else map[]
  }

  /** Writes slot `slot` of `target`: a field set or a one-parameter setter call.
      The container's own nodes declare no annotated slots, so no write ever
      targets one; such a write is a no-op here. */
  function WriteSlot(w: World, target: Value, slot: string, v: Value): (w': World)
    ensures w'.nodes == w.nodes && w'.active == w.active
    ensures target.Bean? ==> slot in SlotsOf(w'.slots, target.id) && SlotsOf(w'.slots, target.id)[slot] == v
    ensures forall o | !(target.Bean? && o == target.id) :: SlotsOf(w'.slots, o) == SlotsOf(w.slots, o)
    ensures target.Bean? ==> forall s | s != slot && s in SlotsOf(w.slots, target.id) ::
              s in SlotsOf(w'.slots, target.id) && SlotsOf(w'.slots, target.id)[s] == SlotsOf(w.slots, target.id)[s]
  {
    match target
    case Bean(o) => w.(slots := w.slots[o := SlotsOf(w.slots, o)[slot := v]])
    case _ => w
  }

  /** Slot `s` of object `o` holds a non-null reference. */
  ghost predicate Filled(w: World, o: ObjId, s: string)
  {
    s in SlotsOf(w.slots, o) && SlotsOf(w.slots, o)[s] != Null
  }

  /** Every slot filled in `w` is still filled in `w'`. */
  ghost predicate KeepsFilled(w: World, w': World)
  {
    forall o, s | Filled(w, o, s) :: Filled(w', o, s)
  }

  /** The common frame of every step of the pass. */
  ghost predicate Evolves(w: World, w': World)
  {
    ValidWorld(w') && SameShape(w, w') && KeepsFilled(w, w') && KeepsEntries(w.nodes, w'.nodes)
  }

  lemma EvolvesTrans(w1: World, w2: World, w3: World)
    requires Evolves(w1, w2) && Evolves(w2, w3)
    ensures Evolves(w1, w3)
  {
  }

  lemma WriteSlotEvolves(w: World, target: Value, slot: string, v: Value)
    requires ValidWorld(w) && v != Null
    ensures Evolves(w, WriteSlot(w, target, slot, v))
  {
  }

  // ---------------------------------------------------------------------------
  // The reciprocal step: injecting `bean` into its partner

  /** An annotated field of the partner whose type `bean` is an instance of. */
  predicate MatchingField(reg: Registry, f: FieldDecl, bean: Value)
    requires bean != Null
  {
    f.circular && InstanceOf(reg, f.fieldType, bean)
  }

  /** An annotated one-parameter setter of the partner that accepts `bean`. */
  predicate MatchingSetter(reg: Registry, m: MethodDecl, bean: Value)
    requires bean != Null
  {
    m.circular && |m.params| == 1 && InstanceOf(reg, m.params[0], bean)
  }

  /** An annotated setter whose arity is not one. */
  predicate Malformed(m: MethodDecl)
  {
    m.circular && |m.params| != 1
  }

  /** The position of the first matching field. */
  ghost function FirstMatchingField(reg: Registry, fields: seq<FieldDecl>, bean: Value): (r: Option<nat>)
    requires bean != Null
    ensures r.Some? ==> r.value < |fields| && MatchingField(reg, fields[r.value], bean)
    ensures r.Some? ==> forall j | 0 <= j < r.value :: !MatchingField(reg, fields[j], bean)
    ensures r.None? ==> forall j | 0 <= j < |fields| :: !MatchingField(reg, fields[j], bean)
  {
    if fields == [] then None
    else if MatchingField(reg, fields[0], bean) then Some(0)
    else match FirstMatchingField(reg, fields[1..], bean)
      case None => None
      case Some(i) => Some(i + 1)
  }

  /** circularInjectAnnotatedField: fill the first matching field of `partner`
      with `bean`; the flag says whether one was found. */
  ghost function ReciprocalField(reg: Registry, w: World, bean: Value, partner: Value): (r: (bool, World))
    requires bean != Null && partner != Null
  {
    var fields := InfoOf(reg, partner).fields;
    match FirstMatchingField(reg, fields, bean)
    case None => (false, w)
    case Some(i) => (true, WriteSlot(w, partner, fields[i].name, bean))
  }

  /** One annotated method of the partner: a malformed one fails, a matching
      one is invoked with `bean`. */
  ghost function ReciprocalSetterStep(reg: Registry, m: MethodDecl, bean: Value, partner: Value,
                                      found: bool, w: World): Outcome<bool>
    requires bean != Null
  {
    if !m.circular then Outcome(Ok(found), w)
    else if |m.params| != 1 then Outcome(Err(MalformedInjectionPoint(m.name, |m.params|)), w)
    else if InstanceOf(reg, m.params[0], bean) then Outcome(Ok(true), WriteSlot(w, partner, m.name, bean))
    else Outcome(Ok(found), w)
  }

  /** circularInjectAnnotatedSetters over the methods `ms`; the flag says
      whether some setter was invoked. */
  ghost function ReciprocalSetters(reg: Registry, ms: seq<MethodDecl>, bean: Value, partner: Value,
                                   w: World): (r: Outcome<bool>)
    requires bean != Null
    ensures r.world.nodes == w.nodes && r.world.active == w.active
  {
    if ms == [] then Outcome(Ok(false), w)
    else
      var prev := ReciprocalSetters(reg, ms[..|ms| - 1], bean, partner, w);
      if prev.result.Err? then prev
      else ReciprocalSetterStep(reg, ms[|ms| - 1], bean, partner, prev.result.value, prev.world)
  }

  /** performCircularAutowiringOnNestedCandidates: both reciprocal passes, and
      the orphaned-declaration error when neither found a slot. */
  ghost function NestedCandidates(reg: Registry, w: World, bean: Value, t: TypeName, partner: Value): (r: Outcome<Done>)
    requires bean != Null && partner != Null
    ensures r.world.nodes == w.nodes && r.world.active == w.active
  {
    var (fieldInjected, w1) := ReciprocalField(reg, w, bean, partner);
    var s := ReciprocalSetters(reg, InfoOf(reg, partner).methods, bean, partner, w1);
    if s.result.Err? then Outcome(Err(s.result.error), s.world)
    else if !fieldInjected && !s.result.value then Outcome(Err(OrphanedBackReference(t)), s.world)
    else Outcome(Ok(Done), s.world)
  }

  // ---------------------------------------------------------------------------
  // The bean's own declarations

  /** getInstanceForCircularAutowiring: the partner of type `t` (from the chain of
      node `c`, else from the registry), after injecting `bean` into it. */
  ghost function GetInstance(reg: Registry, w: World, c: nat, bean: Value, t: TypeName): (r: Outcome<Value>)
    requires ValidWorld(w) && c < |w.nodes| && bean != Null
    ensures Evolves(w, r.world)
    ensures r.result.Ok? ==> r.result.value != Null
  {
    match BeanNameForType(reg, t)
    case Err(e) => Outcome(Err(e), w)
    case Ok(name) =>
      var found := Get(reg, w.nodes, c, name);
      var fetched := if found != Null then Outcome(Ok(found), w) else GetBean(reg, w, name);
      if fetched.result.Err? then fetched
      else
        var partner := fetched.result.value;
        if partner == Null then Outcome(Err(NullReference), fetched.world)
        else
          var n := NestedCandidates(reg, fetched.world, bean, t, partner);
          ReciprocalKeepsFilled(reg, fetched.world, bean, t, partner);
          if n.result.Err? then Outcome(Err(n.result.error), n.world)
          else Outcome(Ok(partner), n.world)
  }

  /** With node `c` active, the partner getInstanceForCircularAutowiring returns
      is the object that `get` of the type's unique bean name answers from `c`
      afterwards: the bean already on the chain, or the one getBean produced. */
  lemma GetInstanceIsRegisteredPartner(reg: Registry, w: World, c: nat, bean: Value, t: TypeName)
    requires ValidWorld(w) && c < |w.nodes| && bean != Null && w.active == Some(c)
    ensures var r := GetInstance(reg, w, c, bean, t);
            r.result.Ok? ==>
              && BeanNameForType(reg, t).Ok?
              && Get(reg, r.world.nodes, c, BeanNameForType(reg, t).value) == r.result.value
  {
    var r := GetInstance(reg, w, c, bean, t);
    match BeanNameForType(reg, t)
    case Err(_) =>
    case Ok(name) =>
      var found := Get(reg, w.nodes, c, name);
      if found != Null {
        assert r.world == NestedCandidates(reg, w, bean, t, found).world;
        assert r.result.Ok? ==> r.result.value == found;
      } else {
        var fetched := GetBean(reg, w, name);
        if fetched.result.Ok? && fetched.result.value != Null {
          var partner := fetched.result.value;
          assert r.world == NestedCandidates(reg, fetched.world, bean, t, partner).world;
          assert r.result.Ok? ==> r.result.value == partner;
          assert Get(reg, fetched.world.nodes, c, name) == partner;
        }
      }
  }

  /** injectAnnotatedFields over the fields `fs` of `bean`. */
  ghost function InjectFields(reg: Registry, fs: seq<FieldDecl>, c: nat, bean: Value, w: World): (r: Outcome<Done>)
    requires ValidWorld(w) && c < |w.nodes| && bean != Null
    ensures Evolves(w, r.world)
  {
    if fs == [] then Outcome(Ok(Done), w)
    else
      var prev := InjectFields(reg, fs[..|fs| - 1], c, bean, w);
      var f := fs[|fs| - 1];
      if prev.result.Err? || !f.circular then prev
      else
        var g := GetInstance(reg, prev.world, c, bean, f.fieldType);
        EvolvesTrans(w, prev.world, g.world);
        if g.result.Err? then Outcome(Err(g.result.error), g.world)
        else
          WriteSlotEvolves(g.world, bean, f.name, g.result.value);
          EvolvesTrans(w, g.world, WriteSlot(g.world, bean, f.name, g.result.value));
          Outcome(Ok(Done), WriteSlot(g.world, bean, f.name, g.result.value))
  }

  /** injectAnnotatedSetters over the methods `ms` of `bean`. */
  ghost function InjectSetters(reg: Registry, ms: seq<MethodDecl>, c: nat, bean: Value, w: World): (r: Outcome<Done>)
    requires ValidWorld(w) && c < |w.nodes| && bean != Null
    ensures Evolves(w, r.world)
  {
    if ms == [] then Outcome(Ok(Done), w)
    else
      var prev := InjectSetters(reg, ms[..|ms| - 1], c, bean, w);
      var m := ms[|ms| - 1];
      if prev.result.Err? || !m.circular then prev
      else if |m.params| != 1 then Outcome(Err(MalformedInjectionPoint(m.name, |m.params|)), prev.world)
      else
        var g := GetInstance(reg, prev.world, c, bean, m.params[0]);
        EvolvesTrans(w, prev.world, g.world);
        if g.result.Err? then Outcome(Err(g.result.error), g.world)
        else
          WriteSlotEvolves(g.world, bean, m.name, g.result.value);
          EvolvesTrans(w, g.world, WriteSlot(g.world, bean, m.name, g.result.value));
          Outcome(Ok(Done), WriteSlot(g.world, bean, m.name, g.result.value))
  }

  /** Both passes over one bean: its fields first, then its setters. A null
      entry fails on getClass(). */
  ghost function InjectBean(reg: Registry, w: World, c: nat, bean: Value): (r: Outcome<Done>)
    requires ValidWorld(w) && c < |w.nodes|
    ensures Evolves(w, r.world)
    ensures bean == Null ==> r == Outcome(Err(NullReference), w)
  {
    if bean == Null then Outcome(Err(NullReference), w)
    else
      var f := InjectFields(reg, InfoOf(reg, bean).fields, c, bean, w);
      if f.result.Err? then f
      else InjectSetters(reg, InfoOf(reg, bean).methods, c, bean, f.world)
  }

  /** The entry node `c` holds now under `k` (null when there is none). */
  function EntryOf(w: World, c: nat, k: Name): Value
    requires c < |w.nodes|
  {
    if k in w.nodes[c].entries then w.nodes[c].entries[k] else Null
  }

  /** injectCircularAutowiredAnnotatedBeans for the candidate names `keys`, in
      that order; each name is looked up again in the node before its bean is
      processed. */
  ghost function Pass(reg: Registry, w: World, c: nat, keys: seq<Name>): (r: Outcome<Done>)
    requires ValidWorld(w) && c < |w.nodes|
    ensures Evolves(w, r.world)
  {
    if keys == [] then Outcome(Ok(Done), w)
    else
      var prev := Pass(reg, w, c, keys[..|keys| - 1]);
      if prev.result.Err? then prev
      else InjectBean(reg, prev.world, c, EntryOf(prev.world, c, keys[|keys| - 1]))
  }

  /** `order` lists every name of `keys` exactly once: one possible iteration
      order of a HashMap's key set. */
  ghost predicate IsEnumeration(order: seq<Name>, keys: set<Name>)
  {
    (forall k :: k in order <==> k in keys) && (forall i, j | 0 <= i < j < |order| :: order[i] != order[j])
  }

  // ---------------------------------------------------------------------------
  // Lemmas

  /** The reciprocal steps only ever write `bean`, so no filled slot is cleared. */
  lemma ReciprocalKeepsFilled(reg: Registry, w: World, bean: Value, t: TypeName, partner: Value)
    requires bean != Null && partner != Null
    ensures KeepsFilled(w, NestedCandidates(reg, w, bean, t, partner).world)
  {
    var (_, w1) := ReciprocalField(reg, w, bean, partner);
    ReciprocalSettersWriteOnlyBean(reg, InfoOf(reg, partner).methods, bean, partner, w1);
  }

  /** Every write of the setter scan stores `bean`. */
  lemma {:induction false} ReciprocalSettersWriteOnlyBean(reg: Registry, ms: seq<MethodDecl>, bean: Value,
                                                          partner: Value, w: World)
    requires bean != Null
    ensures KeepsFilled(w, ReciprocalSetters(reg, ms, bean, partner, w).world)
    decreases |ms|
  {
    if ms != [] {
      ReciprocalSettersWriteOnlyBean(reg, ms[..|ms| - 1], bean, partner, w);
    }
  }

  /** The reciprocal field step fills exactly the first matching field of the
      partner with `bean` and touches no other slot. */
  lemma ReciprocalFieldFillsFirstMatch(reg: Registry, w: World, bean: Value, partner: Value)
    requires bean != Null && partner.Bean?
    ensures var fields := InfoOf(reg, partner).fields;
            var (injected, w') := ReciprocalField(reg, w, bean, partner);
            && (injected <==> exists i | 0 <= i < |fields| :: MatchingField(reg, fields[i], bean))
            && (injected ==> exists i | 0 <= i < |fields| ::
                  && MatchingField(reg, fields[i], bean)
                  && (forall j | 0 <= j < i :: !MatchingField(reg, fields[j], bean))
                  && SlotsOf(w'.slots, partner.id) == SlotsOf(w.slots, partner.id)[fields[i].name := bean])
            && (!injected ==> w' == w)
            && (forall o | o != partner.id :: SlotsOf(w'.slots, o) == SlotsOf(w.slots, o))
  {
    var fields := InfoOf(reg, partner).fields;
    match FirstMatchingField(reg, fields, bean)
    case None =>
    case Some(i) =>
      assert MatchingField(reg, fields[i], bean);
  }

  /** A setter of the partner with zero or several parameters makes the setter
      scan fail with MalformedInjectionPoint, whatever else it declares. */
  lemma {:induction false} MalformedPartnerSetterFails(reg: Registry, ms: seq<MethodDecl>, bean: Value,
                                                       partner: Value, w: World, i: nat)
    requires bean != Null && i < |ms| && Malformed(ms[i])
    ensures var r := ReciprocalSetters(reg, ms, bean, partner, w);
            r.result.Err? && r.result.error.MalformedInjectionPoint?
    decreases |ms|
  {
    var r := ReciprocalSetters(reg, ms, bean, partner, w);
    if i < |ms| - 1 {
      MalformedPartnerSetterFails(reg, ms[..|ms| - 1], bean, partner, w, i);
    } else {
      var prev := ReciprocalSetters(reg, ms[..|ms| - 1], bean, partner, w);
      if prev.result.Err? {
        MalformedSettersOnlyFail(reg, ms[..|ms| - 1], bean, partner, w);
      }
    }
  }

  /** The only failure of the setter scan is MalformedInjectionPoint. */
  lemma {:induction false} MalformedSettersOnlyFail(reg: Registry, ms: seq<MethodDecl>, bean: Value,
                                                    partner: Value, w: World)
    requires bean != Null
    ensures var r := ReciprocalSetters(reg, ms, bean, partner, w);
            r.result.Err? ==> r.result.error.MalformedInjectionPoint?
    decreases |ms|
  {
    if ms != [] {
      MalformedSettersOnlyFail(reg, ms[..|ms| - 1], bean, partner, w);
    }
  }

  /** Without malformed setters the scan succeeds and reports whether some
      setter of the partner accepts `bean`. */
  lemma {:induction false} SetterScanReportsMatch(reg: Registry, ms: seq<MethodDecl>, bean: Value,
                                                  partner: Value, w: World)
    requires bean != Null
    requires forall i | 0 <= i < |ms| :: !Malformed(ms[i])
    ensures ReciprocalSetters(reg, ms, bean, partner, w).result
            == Ok(exists i | 0 <= i < |ms| :: MatchingSetter(reg, ms[i], bean))
    decreases |ms|
  {
    if ms != [] {
      var init := ms[..|ms| - 1];
      SetterScanReportsMatch(reg, init, bean, partner, w);
      assert forall i | 0 <= i < |init| :: init[i] == ms[i];
      if MatchingSetter(reg, ms[|ms| - 1], bean) {
        assert MatchingSetter(reg, ms[|ms| - 1], bean);
      }
    }
  }

  /** Without malformed setters, every matching setter of the partner is invoked
      with `bean`, every other slot of the partner keeps its value and no other
      object changes. */
  lemma {:induction false} EveryMatchingSetterInvoked(reg: Registry, ms: seq<MethodDecl>, bean: Value,
                                                      partner: Value, w: World)
    requires bean != Null && partner.Bean?
    requires forall i | 0 <= i < |ms| :: !Malformed(ms[i])
    ensures var after := SlotsOf(ReciprocalSetters(reg, ms, bean, partner, w).world.slots, partner.id);
            forall i | 0 <= i < |ms| && MatchingSetter(reg, ms[i], bean) ::
              ms[i].name in after && after[ms[i].name] == bean
    ensures var after := SlotsOf(ReciprocalSetters(reg, ms, bean, partner, w).world.slots, partner.id);
            forall s | s in SlotsOf(w.slots, partner.id) && !SetterNamed(reg, ms, bean, s) ::
              s in after && after[s] == SlotsOf(w.slots, partner.id)[s]
    ensures forall o | o != partner.id ::
              SlotsOf(ReciprocalSetters(reg, ms, bean, partner, w).world.slots, o) == SlotsOf(w.slots, o)
    decreases |ms|
  {
    if ms != [] {
      var init := ms[..|ms| - 1];
      EveryMatchingSetterInvoked(reg, init, bean, partner, w);
      assert forall i | 0 <= i < |init| :: init[i] == ms[i];
      var prev := ReciprocalSetters(reg, init, bean, partner, w);
      MalformedSettersOnlyFail(reg, init, bean, partner, w);
      SetterScanReportsMatch(reg, init, bean, partner, w);
    }
  }

  /** Some matching setter among `ms` is named `s`. */
  ghost predicate SetterNamed(reg: Registry, ms: seq<MethodDecl>, bean: Value, s: string)
    requires bean != Null
  {
    exists i | 0 <= i < |ms| :: MatchingSetter(reg, ms[i], bean) && ms[i].name == s
  }

  /** The orphaned-declaration error is raised exactly when the partner has no
      matching field, no matching setter and no malformed setter. */
  lemma OrphanedIffNoReciprocalSlot(reg: Registry, w: World, bean: Value, t: TypeName, partner: Value)
    requires bean != Null && partner != Null
    ensures var info := InfoOf(reg, partner);
            (NestedCandidates(reg, w, bean, t, partner).result == Err(OrphanedBackReference(t)))
            <==>
            (&& (forall i | 0 <= i < |info.fields| :: !MatchingField(reg, info.fields[i], bean))
             && (forall i | 0 <= i < |info.methods| :: !MatchingSetter(reg, info.methods[i], bean))
             && (forall i | 0 <= i < |info.methods| :: !Malformed(info.methods[i])))
  {
    var info := InfoOf(reg, partner);
    var (f, w1) := ReciprocalField(reg, w, bean, partner);
    if partner.Bean? {
      ReciprocalFieldFillsFirstMatch(reg, w, bean, partner);
    } else {
      assert info == ContextClassInfo;
    }
    MalformedSettersOnlyFail(reg, info.methods, bean, partner, w1);
    if exists i | 0 <= i < |info.methods| :: Malformed(info.methods[i]) {
      var i :| 0 <= i < |info.methods| && Malformed(info.methods[i]);
      MalformedPartnerSetterFails(reg, info.methods, bean, partner, w1, i);
    } else {
      SetterScanReportsMatch(reg, info.methods, bean, partner, w1);
    }
  }

  /** A setter of the bean itself with zero or several parameters makes its
      setter pass fail (with MalformedInjectionPoint unless an earlier
      declaration failed first). */
  lemma {:induction false} MalformedOwnSetterFails(reg: Registry, ms: seq<MethodDecl>, c: nat, bean: Value,
                                                   w: World, i: nat)
    requires ValidWorld(w) && c < |w.nodes| && bean != Null
    requires i < |ms| && Malformed(ms[i])
    ensures InjectSetters(reg, ms, c, bean, w).result.Err?
    decreases |ms|
  {
    if i < |ms| - 1 {
      MalformedOwnSetterFails(reg, ms[..|ms| - 1], c, bean, w, i);
    }
  }

  /** A successful field pass fills every annotated field of the bean. */
  lemma {:induction false} OwnFieldsFilled(reg: Registry, fs: seq<FieldDecl>, c: nat, bean: Value, w: World)
    requires ValidWorld(w) && c < |w.nodes| && bean.Bean?
    requires InjectFields(reg, fs, c, bean, w).result.Ok?
    ensures forall i | 0 <= i < |fs| && fs[i].circular ::
              Filled(InjectFields(reg, fs, c, bean, w).world, bean.id, fs[i].name)
    decreases |fs|
  {
    if fs != [] {
      var init := fs[..|fs| - 1];
      FieldStepFills(reg, fs, c, bean, w);
      OwnFieldsFilled(reg, init, c, bean, w);
      assert forall i | 0 <= i < |init| :: init[i] == fs[i];
    }
  }

  /** The last declaration of a successful field pass: the pass before it
      succeeded too, no filled slot was cleared, and an annotated one was filled. */
  lemma FieldStepFills(reg: Registry, fs: seq<FieldDecl>, c: nat, bean: Value, w: World)
    requires ValidWorld(w) && c < |w.nodes| && bean.Bean? && fs != []
    requires InjectFields(reg, fs, c, bean, w).result.Ok?
    ensures var prev := InjectFields(reg, fs[..|fs| - 1], c, bean, w);
            var final := InjectFields(reg, fs, c, bean, w).world;
            && prev.result.Ok?
            && KeepsFilled(prev.world, final)
            && (fs[|fs| - 1].circular ==> Filled(final, bean.id, fs[|fs| - 1].name))
  {
    var prev := InjectFields(reg, fs[..|fs| - 1], c, bean, w);
    var f := fs[|fs| - 1];
    if f.circular {
      var g := GetInstance(reg, prev.world, c, bean, f.fieldType);
      WriteSlotEvolves(g.world, bean, f.name, g.result.value);
    }
  }

  /** A successful setter pass invokes every annotated setter of the bean. */
  lemma {:induction false} OwnSettersFilled(reg: Registry, ms: seq<MethodDecl>, c: nat, bean: Value, w: World)
    requires ValidWorld(w) && c < |w.nodes| && bean.Bean?
    requires InjectSetters(reg, ms, c, bean, w).result.Ok?
    ensures forall i | 0 <= i < |ms| && ms[i].circular ::
              Filled(InjectSetters(reg, ms, c, bean, w).world, bean.id, ms[i].name)
    decreases |ms|
  {
    if ms != [] {
      var init := ms[..|ms| - 1];
      SetterStepFills(reg, ms, c, bean, w);
      OwnSettersFilled(reg, init, c, bean, w);
      assert forall i | 0 <= i < |init| :: init[i] == ms[i];
    }
  }

  /** The last declaration of a successful setter pass: the pass before it
      succeeded too, no filled slot was cleared, and an annotated one was filled. */
  lemma SetterStepFills(reg: Registry, ms: seq<MethodDecl>, c: nat, bean: Value, w: World)
    requires ValidWorld(w) && c < |w.nodes| && bean.Bean? && ms != []
    requires InjectSetters(reg, ms, c, bean, w).result.Ok?
    ensures var prev := InjectSetters(reg, ms[..|ms| - 1], c, bean, w);
            var final := InjectSetters(reg, ms, c, bean, w).world;
            && prev.result.Ok?
            && KeepsFilled(prev.world, final)
            && (ms[|ms| - 1].circular ==> Filled(final, bean.id, ms[|ms| - 1].name))
  {
    var prev := InjectSetters(reg, ms[..|ms| - 1], c, bean, w);
    var m := ms[|ms| - 1];
    if m.circular {
      var g := GetInstance(reg, prev.world, c, bean, m.params[0]);
      WriteSlotEvolves(g.world, bean, m.name, g.result.value);
    }
  }

  /** `bean` is non-null and, when it is an application bean, every annotated
      field and setter slot of it holds a reference. */
  ghost predicate BackReferencesFilled(reg: Registry, w: World, bean: Value)
  {
    && bean != Null
    && (bean.Bean? ==>
          var info := InfoOf(reg, bean);
          && (forall i | 0 <= i < |info.fields| && info.fields[i].circular :: Filled(w, bean.id, info.fields[i].name))
          && (forall i | 0 <= i < |info.methods| && info.methods[i].circular :: Filled(w, bean.id, info.methods[i].name)))
  }

  lemma BackReferencesStayFilled(reg: Registry, w: World, w': World, bean: Value)
    requires BackReferencesFilled(reg, w, bean) && KeepsFilled(w, w')
    ensures BackReferencesFilled(reg, w', bean)
  {
  }

  /** A successful pass over one bean fills all its back-reference slots. */
  lemma InjectBeanFills(reg: Registry, w: World, c: nat, bean: Value)
    requires ValidWorld(w) && c < |w.nodes|
    requires InjectBean(reg, w, c, bean).result.Ok?
    ensures BackReferencesFilled(reg, InjectBean(reg, w, c, bean).world, bean)
  {
    if bean.Bean? {
      var info := InfoOf(reg, bean);
      var f := InjectFields(reg, info.fields, c, bean, w);
      OwnFieldsFilled(reg, info.fields, c, bean, w);
      OwnSettersFilled(reg, info.methods, c, bean, f.world);
    }
  }

  /** After a successful pass every candidate name still denotes a non-null entry
      of the node, and every back-reference slot of that bean is filled, in
      whatever order the names were visited. */
  lemma {:induction false} PassFillsEveryBackReference(reg: Registry, w: World, c: nat, keys: seq<Name>)
    requires ValidWorld(w) && c < |w.nodes|
    requires Pass(reg, w, c, keys).result.Ok?
    ensures var final := Pass(reg, w, c, keys).world;
            forall j | 0 <= j < |keys| ::
              && Holds(final.nodes, c, keys[j])
              && BackReferencesFilled(reg, final, final.nodes[c].entries[keys[j]])
    decreases |keys|
  {
    if keys != [] {
      var init := keys[..|keys| - 1];
      var last := keys[|keys| - 1];
      var prev := Pass(reg, w, c, init);
      var final := Pass(reg, w, c, keys).world;
      PassFillsEveryBackReference(reg, w, c, init);
      var bean := EntryOf(prev.world, c, last);
      InjectBeanFills(reg, prev.world, c, bean);
      forall j | 0 <= j < |keys|
        ensures Holds(final.nodes, c, keys[j])
        ensures BackReferencesFilled(reg, final, final.nodes[c].entries[keys[j]])
      {
        if j < |keys| - 1 {
          assert keys[j] == init[j];
          var b := prev.world.nodes[c].entries[keys[j]];
          BackReferencesStayFilled(reg, prev.world, final, b);
        } else {
          assert Holds(prev.world.nodes, c, last);
        }
      }
    }
  }

  /** Once a pass has failed, visiting more names changes nothing. */
  lemma {:induction false} PassStopsAtFailure(reg: Registry, w: World, c: nat, keys: seq<Name>, more: seq<Name>)
    requires ValidWorld(w) && c < |w.nodes|
    requires Pass(reg, w, c, keys).result.Err?
    ensures Pass(reg, w, c, keys + more) == Pass(reg, w, c, keys)
    decreases |more|
  {
    if more == [] {
      assert keys + more == keys;
    } else {
      var init := more[..|more| - 1];
      assert (keys + more)[..|keys + more| - 1] == keys + init;
      PassStopsAtFailure(reg, w, c, keys, init);
    }
  }

  /** Once the partner's setter scan has failed, further methods change nothing. */
  lemma {:induction false} ReciprocalSettersStopAtFailure(reg: Registry, ms: seq<MethodDecl>, more: seq<MethodDecl>,
                                                          bean: Value, partner: Value, w: World)
    requires bean != Null && ReciprocalSetters(reg, ms, bean, partner, w).result.Err?
    ensures ReciprocalSetters(reg, ms + more, bean, partner, w) == ReciprocalSetters(reg, ms, bean, partner, w)
    decreases |more|
  {
    if more == [] {
      assert ms + more == ms;
    } else {
      var init := more[..|more| - 1];
      assert (ms + more)[..|ms + more| - 1] == ms + init;
      ReciprocalSettersStopAtFailure(reg, ms, init, bean, partner, w);
    }
  }

  /** Once the bean's field pass has failed, further fields change nothing. */
  lemma {:induction false} InjectFieldsStopAtFailure(reg: Registry, fs: seq<FieldDecl>, more: seq<FieldDecl>,
                                                     c: nat, bean: Value, w: World)
    requires ValidWorld(w) && c < |w.nodes| && bean != Null
    requires InjectFields(reg, fs, c, bean, w).result.Err?
    ensures InjectFields(reg, fs + more, c, bean, w) == InjectFields(reg, fs, c, bean, w)
    decreases |more|
  {
    if more == [] {
      assert fs + more == fs;
    } else {
      var init := more[..|more| - 1];
      assert (fs + more)[..|fs + more| - 1] == fs + init;
      InjectFieldsStopAtFailure(reg, fs, init, c, bean, w);
    }
  }

  /** Once the bean's setter pass has failed, further methods change nothing. */
  lemma {:induction false} InjectSettersStopAtFailure(reg: Registry, ms: seq<MethodDecl>, more: seq<MethodDecl>,
                                                      c: nat, bean: Value, w: World)
    requires ValidWorld(w) && c < |w.nodes| && bean != Null
    requires InjectSetters(reg, ms, c, bean, w).result.Err?
    ensures InjectSetters(reg, ms + more, c, bean, w) == InjectSetters(reg, ms, c, bean, w)
    decreases |more|
  {
    if more == [] {
      assert ms + more == ms;
    } else {
      var init := more[..|more| - 1];
      assert (ms + more)[..|ms + more| - 1] == ms + init;
      InjectSettersStopAtFailure(reg, ms, init, c, bean, w);
    }
  }

  /** Visiting one more name: the pass so far, then that name's bean. */
  lemma PassAppend(reg: Registry, w: World, c: nat, keys: seq<Name>, k: Name)
    requires ValidWorld(w) && c < |w.nodes|
    ensures var prev := Pass(reg, w, c, keys);
            Pass(reg, w, c, keys + [k]) ==
              if prev.result.Err? then prev
              else InjectBean(reg, prev.world, c, EntryOf(prev.world, c, k))
  {
    assert (keys + [k])[..|keys|] == keys;
  }

  /** One more step of the candidate loop: `k`, still to visit, extends the
      enumeration of the names visited so far, and the pass visits its bean next. */
  lemma VisitNext(reg: Registry, w: World, c: nat, keys: set<Name>, toVisit: set<Name>,
                  order: seq<Name>, k: Name)
    requires ValidWorld(w) && c < |w.nodes|
    requires toVisit <= keys && k in toVisit && IsEnumeration(order, keys - toVisit)
    ensures IsEnumeration(order + [k], keys - (toVisit - {k}))
    ensures var prev := Pass(reg, w, c, order);
            Pass(reg, w, c, order + [k]) ==
              if prev.result.Err? then prev
              else InjectBean(reg, prev.world, c, EntryOf(prev.world, c, k))
  {
    PassAppend(reg, w, c, order, k);
    EnumerationJoin(order, keys - toVisit, [k], {k});
    assert keys - toVisit + {k} == keys - (toVisit - {k});
  }

  /** A pass that failed part-way has the outcome of a pass over a complete
      enumeration of `keys`: the names not yet visited change nothing. */
  lemma FailureCompletes(reg: Registry, w: World, c: nat, keys: set<Name>, toVisit: set<Name>,
                         order: seq<Name>) returns (full: seq<Name>)
    requires ValidWorld(w) && c < |w.nodes|
    requires toVisit <= keys && IsEnumeration(order, keys - toVisit)
    requires Pass(reg, w, c, order).result.Err?
    ensures IsEnumeration(full, keys) && Pass(reg, w, c, full) == Pass(reg, w, c, order)
  {
    var rest := EnumerationExists(toVisit);
    PassStopsAtFailure(reg, w, c, order, rest);
    EnumerationJoin(order, keys - toVisit, rest, toVisit);
    assert keys - toVisit + toVisit == keys;
    full := order + rest;
  }

  /** Enumerations of disjoint sets concatenate. */
  lemma EnumerationJoin(a: seq<Name>, sa: set<Name>, b: seq<Name>, sb: set<Name>)
    requires IsEnumeration(a, sa) && IsEnumeration(b, sb) && sa !! sb
    ensures IsEnumeration(a + b, sa + sb)
  {
    forall i, j | 0 <= i < j < |a + b| ensures (a + b)[i] != (a + b)[j] {
      if j < |a| {
      } else if i >= |a| {
        assert (a + b)[i] == b[i - |a|] && (a + b)[j] == b[j - |a|];
      } else {
        assert (a + b)[i] in sa && (a + b)[j] == b[j - |a|];
      }
    }
  }

  /** Every finite set of names has an enumeration. */
  lemma EnumerationExists(s: set<Name>) returns (order: seq<Name>)
    ensures IsEnumeration(order, s)
    decreases s
  {
    if s == {} {
      order := [];
    } else {
      var k :| k in s;
      var rest := EnumerationExists(s - {k});
      order := [k] + rest;
      forall i, j | 0 <= i < j < |order| ensures order[i] != order[j] {
        if i > 0 {
          assert order[i] == rest[i - 1] && order[j] == rest[j - 1];
        } else {
          assert order[j] == rest[j - 1];
        }
      }
    }
  }

  // ---------------------------------------------------------------------------
  // Two beans that refer to each other

  /** A repetition-free sequence drawn from `s` is no longer than `s`. */
  lemma {:induction false} DistinctBound(order: seq<Name>, s: set<Name>)
    requires forall k | 0 <= k < |order| :: order[k] in s
    requires forall i, j | 0 <= i < j < |order| :: order[i] != order[j]
    ensures |order| <= |s|
    decreases |order|
  {
    if order != [] {
      var rest := order[1..];
      forall k | 0 <= k < |rest| ensures rest[k] in s - {order[0]} {
        assert rest[k] == order[k + 1];
      }
      forall i, j | 0 <= i < j < |rest| ensures rest[i] != rest[j] {
        assert rest[i] == order[i + 1] && rest[j] == order[j + 1];
      }
      DistinctBound(rest, s - {order[0]});
    }
  }

  /** The only enumerations of a two-name set. */
  lemma TwoNameEnumeration(order: seq<Name>, a: Name, b: Name)
    requires a != b && IsEnumeration(order, {a, b})
    ensures order == [a, b] || order == [b, a]
  {
    forall k | 0 <= k < |order| ensures order[k] in {a, b} {
      assert order[k] in order;
    }
    DistinctBound(order, {a, b});
    assert |{a, b}| == 2;
    var i :| 0 <= i < |order| && order[i] == a;
    var j :| 0 <= j < |order| && order[j] == b;
    assert i != j;
  }

  /** Wiring a bean `x` whose one annotated field (type `ty`) resolves to the
      bean `yv` of node `c`, whose own annotated field (type `tx`) accepts `x`:
      `x` goes into `yv`, then `yv` into `x`. */
  lemma PairStep(reg: Registry, w: World, c: nat, x: Value, y: Name, yv: Value,
                 fx: string, tx: TypeName, fy: string, ty: TypeName)
    requires ValidWorld(w) && c < |w.nodes| && x.Bean? && yv.Bean?
    requires InfoOf(reg, x).fields == [FieldDecl(fy, ty, true)] && InfoOf(reg, x).methods == []
    requires InfoOf(reg, yv).fields == [FieldDecl(fx, tx, true)] && InfoOf(reg, yv).methods == []
    requires ClassOf(reg, x) == tx
    requires BeanNameForType(reg, ty) == Ok(y) && Get(reg, w.nodes, c, y) == yv
    ensures InjectBean(reg, w, c, x) == Outcome(Ok(Done), WriteSlot(WriteSlot(w, yv, fx, x), x, fy, yv))
  {
    var fields := InfoOf(reg, x).fields;
    assert fields[..0] == [];
    assert FirstMatchingField(reg, InfoOf(reg, yv).fields, x) == Some(0);
    var w1 := WriteSlot(w, yv, fx, x);
    assert ReciprocalField(reg, w, x, yv) == (true, w1);
    assert ReciprocalSetters(reg, [], x, yv, w1) == Outcome(Ok(false), w1);
    assert NestedCandidates(reg, w, x, ty, yv) == Outcome(Ok(Done), w1);
    assert GetInstance(reg, w, c, x, ty) == Outcome(Ok(yv), w1);
    var w2 := WriteSlot(w1, x, fy, yv);
    assert InjectFields(reg, [], c, x, w) == Outcome(Ok(Done), w);
    assert InjectFields(reg, fields, c, x, w) == Outcome(Ok(Done), w2);
    assert InjectSetters(reg, [], c, x, w2) == Outcome(Ok(Done), w2);
  }

  /** The mutual pair visited in the order `a`, then `b`. */
  lemma PairInOrder(reg: Registry, w: World, c: nat, a: Name, b: Name, bA: Value, bB: Value,
                    fa: string, tA: TypeName, fb: string, tB: TypeName)
    requires ValidWorld(w) && c < |w.nodes|
    requires a != b && w.nodes[c].entries == map[a := bA, b := bB]
    requires !IsNameForThisClass(reg, a) && !IsNameForThisClass(reg, b)
    requires bA.Bean? && bB.Bean? && ClassOf(reg, bA) == tA && ClassOf(reg, bB) == tB
    requires InfoOf(reg, bA).fields == [FieldDecl(fb, tB, true)] && InfoOf(reg, bA).methods == []
    requires InfoOf(reg, bB).fields == [FieldDecl(fa, tA, true)] && InfoOf(reg, bB).methods == []
    requires BeanNameForType(reg, tA) == Ok(a) && BeanNameForType(reg, tB) == Ok(b)
    ensures var p := Pass(reg, w, c, [a, b]);
            && p.result == Ok(Done)
            && fb in SlotsOf(p.world.slots, bA.id) && SlotsOf(p.world.slots, bA.id)[fb] == bB
            && fa in SlotsOf(p.world.slots, bB.id) && SlotsOf(p.world.slots, bB.id)[fa] == bA
  {
    assert [a, b][..1] == [a] && [a][..0] == [];
    assert Get(reg, w.nodes, c, b) == bB;
    PairStep(reg, w, c, bA, b, bB, fa, tA, fb, tB);
    var w1 := WriteSlot(WriteSlot(w, bB, fa, bA), bA, fb, bB);
    assert Pass(reg, w, c, [a]) == Outcome(Ok(Done), w1);
    assert w1.nodes == w.nodes && Get(reg, w1.nodes, c, a) == bA;
    PairStep(reg, w1, c, bB, a, bA, fb, tB, fa, tA);
    var w1' := WriteSlot(w1, bA, fb, bB);
    var w2 := WriteSlot(w1', bB, fa, bA);
    assert Pass(reg, w, c, [a, b]) == Outcome(Ok(Done), w2);
    assert fb in SlotsOf(w1'.slots, bA.id) && SlotsOf(w1'.slots, bA.id)[fb] == bB;
    if bA.id != bB.id {
      assert SlotsOf(w2.slots, bA.id) == SlotsOf(w1'.slots, bA.id);
    }
  }

  /** Two beans of node `c`, each declaring one annotated field whose type is
      the other's class: after the pass, in whichever order the map yields
      the names, A's field holds B and B's field holds A. */
  lemma MutualPairWired(reg: Registry, w: World, c: nat, a: Name, b: Name, bA: Value, bB: Value,
                        fa: string, tA: TypeName, fb: string, tB: TypeName, order: seq<Name>)
    requires ValidWorld(w) && c < |w.nodes|
    requires a != b && w.nodes[c].entries == map[a := bA, b := bB]
    requires !IsNameForThisClass(reg, a) && !IsNameForThisClass(reg, b)
    requires bA.Bean? && bB.Bean? && ClassOf(reg, bA) == tA && ClassOf(reg, bB) == tB
    requires InfoOf(reg, bA).fields == [FieldDecl(fb, tB, true)] && InfoOf(reg, bA).methods == []
    requires InfoOf(reg, bB).fields == [FieldDecl(fa, tA, true)] && InfoOf(reg, bB).methods == []
    requires BeanNameForType(reg, tA) == Ok(a) && BeanNameForType(reg, tB) == Ok(b)
    requires IsEnumeration(order, {a, b})
    ensures var p := Pass(reg, w, c, order);
            && p.result == Ok(Done)
            && fb in SlotsOf(p.world.slots, bA.id) && SlotsOf(p.world.slots, bA.id)[fb] == bB
            && fa in SlotsOf(p.world.slots, bB.id) && SlotsOf(p.world.slots, bB.id)[fa] == bA
  {
    TwoNameEnumeration(order, a, b);
    if order == [a, b] {
      PairInOrder(reg, w, c, a, b, bA, bB, fa, tA, fb, tB);
    } else {
      assert map[a := bA, b := bB] == map[b := bB, a := bA];
      PairInOrder(reg, w, c, b, a, bB, bA, fb, tB, fa, tA);
    }
  }

  // ---------------------------------------------------------------------------
  // createBeanInSubContext

  /** The state right after a child of `self` is created and made active. */
  function WithActiveChild(w: World, self: nat): (w': World)
    ensures |w'.nodes| == |w.nodes| + 1 && w'.active == Some(|w.nodes|)
    ensures w'.nodes[..|w.nodes|] == w.nodes && w'.nodes[|w.nodes|] == Node(Some(self), map[])
    ensures w'.slots == w.slots
  {
    w.(nodes := w.nodes + [Node(Some(self), map[])], active := Some(|w.nodes|))
  }

  /** The bean produced in the child, before the circular pass. */
  ghost function ProduceInChild(reg: Registry, w: World, self: nat, name: Name): (r: Outcome<Value>)
    requires ValidWorld(w) && self < |w.nodes|
    ensures ValidWorld(r.world) && |r.world.nodes| == |w.nodes| + 1
    ensures r.world.active == Some(|w.nodes|)
    ensures r.result.Ok? ==> Get(reg, r.world.nodes, |w.nodes|, name) == r.result.value
  {
    GetBean(reg, WithActiveChild(w, self), name)
  }

  /** `order` is a possible iteration order of the child's names once the bean
      was produced (any order will do when production failed). */
  ghost predicate ChildOrder(reg: Registry, w: World, self: nat, name: Name, order: seq<Name>)
    requires ValidWorld(w) && self < |w.nodes|
  {
    var b := ProduceInChild(reg, w, self, name);
    b.result.Ok? ==> IsEnumeration(order, b.world.nodes[|w.nodes|].entries.Keys)
  }

  /** createBeanInSubContext(name) with the child's names visited in `order`:
      produce the bean with the child active, run the pass over the child, and
      clear the active slot whatever happened. */
  ghost function SubContextCreation(reg: Registry, w: World, self: nat, name: Name, order: seq<Name>): (r: Outcome<Value>)
    requires ValidWorld(w) && self < |w.nodes|
    ensures r.world.active == None
    ensures |r.world.nodes| == |w.nodes| + 1 && r.world.nodes[|w.nodes|].parent == Some(self)
    ensures forall i | 0 <= i < |w.nodes| :: r.world.nodes[i].parent == w.nodes[i].parent
  {
    var child := |w.nodes|;
    var b := ProduceInChild(reg, w, self, name);
    assert b.world.nodes[child].parent == Some(self);
    if b.result.Err? then Outcome(b.result, b.world.(active := None))
    else
      var p := Pass(reg, b.world, child, order);
      if p.result.Err? then Outcome(Err(p.result.error), p.world.(active := None))
      else Outcome(b.result, p.world.(active := None))
  }

  /** A successful creation is the production followed by a successful pass
      over the child, with the active slot cleared. */
  lemma SubContextCreationSucceeded(reg: Registry, w: World, self: nat, name: Name, order: seq<Name>)
    requires ValidWorld(w) && self < |w.nodes|
    requires SubContextCreation(reg, w, self, name, order).result.Ok?
    ensures var r := SubContextCreation(reg, w, self, name, order);
            var b := ProduceInChild(reg, w, self, name);
            var p := Pass(reg, b.world, |w.nodes|, order);
            && b.result.Ok? && p.result.Ok?
            && r == Outcome(b.result, p.world.(active := None))
  {
  }

  /** A successful creation returns the produced bean, and every bean the child
      held once the bean was produced is still there with all its back-reference
      slots filled. (Beans the pass itself adds to the child are not visited.) */
  lemma CreationWiresEveryBackReference(reg: Registry, w: World, self: nat, name: Name, order: seq<Name>)
    requires ValidWorld(w) && self < |w.nodes| && ChildOrder(reg, w, self, name, order)
    requires SubContextCreation(reg, w, self, name, order).result.Ok?
    ensures var r := SubContextCreation(reg, w, self, name, order);
            var b := ProduceInChild(reg, w, self, name);
            var child := |w.nodes|;
            && r.result == b.result
            && forall k | k in b.world.nodes[child].entries ::
                 && Holds(r.world.nodes, child, k)
                 && BackReferencesFilled(reg, r.world, r.world.nodes[child].entries[k])
  {
    var child := |w.nodes|;
    var b := ProduceInChild(reg, w, self, name);
    var p := Pass(reg, b.world, child, order);
    SubContextCreationSucceeded(reg, w, self, name, order);
    PassFillsEveryBackReference(reg, b.world, child, order);
    var r := SubContextCreation(reg, w, self, name, order);
    assert r.world == p.world.(active := None);
    forall k | k in b.world.nodes[child].entries
      ensures Holds(r.world.nodes, child, k)
      ensures BackReferencesFilled(reg, r.world, r.world.nodes[child].entries[k])
    {
      var j :| 0 <= j < |order| && order[j] == k;
      assert Holds(p.world.nodes, child, order[j]);
      assert BackReferencesFilled(reg, p.world, p.world.nodes[child].entries[order[j]]);
    }
  }
}
