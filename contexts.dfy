/** The tree of context nodes (HierarchicalContext) as an arena: node `i` of the
    sequence may only have a parent with a smaller index, so every walk towards
    the root terminates. The lookups here change nothing. */
module Contexts {
  import opened Beans

  /** One HierarchicalContext: its parent (None at the root) and its own
      name-to-object map. */
  datatype Node = Node(parent: Option<nat>, entries: map<Name, Value>)

  /** The arena invariant: every parent has a smaller index than its child. */
  ghost predicate WellFormed(nodes: seq<Node>)
  {
    forall i | 0 <= i < |nodes| :: nodes[i].parent.Some? ==> nodes[i].parent.value < i
  }

  /** The registry says `name` denotes the container's own type (the accessor
      CurrentLevelContext or HierarchicalContext itself). */
  predicate IsNameForThisClass(reg: Registry, name: Name)
  {
    (name, CurrentLevelContextType) in reg.typeMatches
    || (name, HierarchicalContextType) in reg.typeMatches
  }

  /** Node `k` holds a non-null entry under `name` (a stored null counts as absent). */
  ghost predicate Holds(nodes: seq<Node>, k: nat, name: Name)
    requires k < |nodes|
  {
    name in nodes[k].entries && nodes[k].entries[name] != Null
  }

  /** The nodes met when walking from `n` up to the root, `n` first. */
  ghost function Chain(nodes: seq<Node>, n: nat): (c: seq<nat>)
    requires WellFormed(nodes) && n < |nodes|
    ensures |c| > 0 && c[0] == n
    ensures forall i | 0 <= i < |c| :: c[i] <= n
    ensures forall i | 0 <= i < |c| - 1 :: nodes[c[i]].parent == Some(c[i + 1])
    ensures nodes[c[|c| - 1]].parent == None
    decreases n
  {
    match nodes[n].parent
    case None => [n]
    case Some(p) => [n] + Chain(nodes, p)
  }

  /** Reference definition of "nearest match": the position in `c` of the first
      node that holds `name`. */
  ghost function NearestHolder(nodes: seq<Node>, c: seq<nat>, name: Name): (r: Option<nat>)
    requires forall i | 0 <= i < |c| :: c[i] < |nodes|
    ensures r.Some? ==> r.value < |c| && Holds(nodes, c[r.value], name)
    ensures r.Some? ==> forall j | 0 <= j < r.value :: !Holds(nodes, c[j], name)
    ensures r.None? ==> forall j | 0 <= j < |c| :: !Holds(nodes, c[j], name)
  {
    if c == [] then None
    else if Holds(nodes, c[0], name) then Some(0)
    else match NearestHolder(nodes, c[1..], name)
      case None => None
      case Some(i) => Some(i + 1)
  }

  /** HierarchicalContext.get. */
  function Get(reg: Registry, nodes: seq<Node>, n: nat, name: Name): Value
    requires WellFormed(nodes) && n < |nodes|
    decreases n
  {
    if IsNameForThisClass(reg, name) then Context(n)
    else if name in nodes[n].entries && nodes[n].entries[name] != Null then nodes[n].entries[name]
    else match nodes[n].parent
      case None => Null
      case Some(p) => Get(reg, nodes, p, name)
  }

  /** HierarchicalContext.contextOfBean: the node that answers `Get`. */
  function ContextOfBean(reg: Registry, nodes: seq<Node>, n: nat, name: Name): (r: Option<nat>)
    requires WellFormed(nodes) && n < |nodes|
    ensures r.Some? ==> r.value <= n
    decreases n
  {
    if IsNameForThisClass(reg, name) then Some(n)
    else if name in nodes[n].entries && nodes[n].entries[name] != Null then Some(n)
    else match nodes[n].parent
      case None => None
      case Some(p) => ContextOfBean(reg, nodes, p, name)
  }

  /** HierarchicalContext.put on node `n` of the arena. */
  function PutNode(nodes: seq<Node>, n: nat, name: Name, v: Value): (r: seq<Node>)
    requires n < |nodes|
    ensures |r| == |nodes|
    ensures forall i | 0 <= i < |r| && i != n :: r[i] == nodes[i]
    ensures r[n].parent == nodes[n].parent && r[n].entries == nodes[n].entries[name := v]
    ensures forall i | 0 <= i < |r| :: r[i].parent == nodes[i].parent
    ensures WellFormed(nodes) ==> WellFormed(r)
  {
    nodes[n := nodes[n].(entries := nodes[n].entries[name := v])]
  }

  /** HierarchicalContext.beanNameForType: the unique registered name or an error. */
  function BeanNameForType(reg: Registry, t: TypeName): (r: Result<Name>)
    ensures var names := if t in reg.namesForType then reg.namesForType[t] else [];
            && (r.Ok? <==> |names| == 1)
            && (r.Ok? ==> names == [r.value])
            && (|names| == 0 ==> r == Err(NoCandidate(t)))
            && (|names| > 1 ==> r == Err(AmbiguousCandidate(t, |names|)))
  {
    var names := if t in reg.namesForType then reg.namesForType[t] else [];
    if |names| == 0 then Err(NoCandidate(t))
    else if |names| == 1 then Ok(names[0])
    else Err(AmbiguousCandidate(t, |names|))
  }

  /** Reference definition for isInstanceOfType: `t` is the runtime class of `v`
      or one of the interfaces that class declares directly. */
  predicate InstanceOf(reg: Registry, t: TypeName, v: Value)
    requires v != Null
  {
    t == ClassOf(reg, v) || t in InfoOf(reg, v).interfaces
  }

  /** HierarchicalContext.isInstanceOfType: compare with the class, then scan
      its interfaces. */
  method IsInstanceOfType(reg: Registry, t: TypeName, v: Value) returns (r: bool)
    requires v != Null
    ensures r == InstanceOf(reg, t, v)
  {
    if t == ClassOf(reg, v) {
      return true;
    }
    var interfaces := InfoOf(reg, v).interfaces;
    var i := 0;
    while i < |interfaces|
      invariant 0 <= i <= |interfaces|
      invariant t !in interfaces[..i]
    {
      if interfaces[i] == t {
        return true;
      }
      i := i + 1;
    }
    assert interfaces[..i] == interfaces;
    return false;
  }

  // ---------------------------------------------------------------------------
  // Lookup lemmas

  /** An accessor name resolves to the node itself, before any stored entry. */
  lemma AccessorNameIsSelf(reg: Registry, nodes: seq<Node>, n: nat, name: Name)
    requires WellFormed(nodes) && n < |nodes| && IsNameForThisClass(reg, name)
    ensures Get(reg, nodes, n, name) == Context(n)
    ensures ContextOfBean(reg, nodes, n, name) == Some(n)
  {
  }

  /** `Get` returns the entry of the nearest node on the way to the root that
      holds one, and null when none does. */
  lemma {:induction false} GetIsNearestMatch(reg: Registry, nodes: seq<Node>, n: nat, name: Name)
    requires WellFormed(nodes) && n < |nodes| && !IsNameForThisClass(reg, name)
    ensures var c := Chain(nodes, n);
            Get(reg, nodes, n, name) ==
              match NearestHolder(nodes, c, name)
              case None => Null
              case Some(i) => nodes[c[i]].entries[name]
    decreases n
  {
    var c := Chain(nodes, n);
    if !Holds(nodes, n, name) {
      match nodes[n].parent
      case None =>
        assert c == [n];
        assert c[1..] == [];
      case Some(p) =>
        GetIsNearestMatch(reg, nodes, p, name);
        assert c[1..] == Chain(nodes, p);
    }
  }

  /** contextOfBean answers exactly when get does, and the node it names holds
      the value get returns. */
  lemma {:induction false} ContextOfBeanAgreesWithGet(reg: Registry, nodes: seq<Node>, n: nat, name: Name)
    requires WellFormed(nodes) && n < |nodes|
    ensures var k := ContextOfBean(reg, nodes, n, name);
            && (k.None? <==> Get(reg, nodes, n, name) == Null)
            && (k.Some? && !IsNameForThisClass(reg, name) ==>
                  k.value < |nodes| && Holds(nodes, k.value, name)
                  && nodes[k.value].entries[name] == Get(reg, nodes, n, name))
            && (k.Some? ==> k.value in Chain(nodes, n))
    decreases n
  {
    if !IsNameForThisClass(reg, name) && !Holds(nodes, n, name) {
      match nodes[n].parent
      case None =>
      case Some(p) =>
        ContextOfBeanAgreesWithGet(reg, nodes, p, name);
        assert Chain(nodes, n) == [n] + Chain(nodes, p);
    }
  }

  /** contextOfBean answers with the nearest node on the way to the root that
      holds the name, and with none when no node does. */
  lemma {:induction false} ContextOfBeanIsNearest(reg: Registry, nodes: seq<Node>, n: nat, name: Name)
    requires WellFormed(nodes) && n < |nodes|
    ensures !IsNameForThisClass(reg, name) ==>
              var c := Chain(nodes, n);
              ContextOfBean(reg, nodes, n, name) ==
                match NearestHolder(nodes, c, name)
                case None => None
                case Some(i) => Some(c[i])
    decreases n
  {
    var c := Chain(nodes, n);
    if !IsNameForThisClass(reg, name) && !Holds(nodes, n, name) {
      match nodes[n].parent
      case None =>
        assert c == [n];
        assert c[1..] == [];
      case Some(p) =>
        ContextOfBeanIsNearest(reg, nodes, p, name);
        assert c[1..] == Chain(nodes, p);
    }
  }

  /** put then get on the same node yields the stored object. */
  lemma PutThenGet(reg: Registry, nodes: seq<Node>, n: nat, name: Name, v: Value)
    requires WellFormed(nodes) && n < |nodes|
    requires v != Null && !IsNameForThisClass(reg, name)
    ensures Get(reg, PutNode(nodes, n, name, v), n, name) == v
  {
  }

  /** put on node `n` changes no lookup of another name, and no lookup of any
      name from a node whose chain avoids `n` (every ancestor of `n`, in particular). */
  lemma {:induction false} PutLeavesOtherLookups(reg: Registry, nodes: seq<Node>, n: nat, name: Name,
                                                 v: Value, m: nat, x: Name)
    requires WellFormed(nodes) && n < |nodes| && m < |nodes|
    requires x != name || n !in Chain(nodes, m)
    ensures Get(reg, PutNode(nodes, n, name, v), m, x) == Get(reg, nodes, m, x)
    ensures ContextOfBean(reg, PutNode(nodes, n, name, v), m, x) == ContextOfBean(reg, nodes, m, x)
    decreases m
  {
    var nodes' := PutNode(nodes, n, name, v);
    assert nodes'[m].parent == nodes[m].parent;
    assert x in nodes'[m].entries <==> x in nodes[m].entries;
    assert x in nodes[m].entries ==> nodes'[m].entries[x] == nodes[m].entries[x];
    match nodes[m].parent
    case None =>
    case Some(p) =>
      assert Chain(nodes, m) == [m] + Chain(nodes, p);
      PutLeavesOtherLookups(reg, nodes, n, name, v, p, x);
  }

  /** A put on node `n` changes no lookup from a node of smaller index, and so
      none from an ancestor of `n`. */
  lemma PutInvisibleToAncestors(reg: Registry, nodes: seq<Node>, n: nat, name: Name, v: Value, m: nat, x: Name)
    requires WellFormed(nodes) && n < |nodes| && m < n
    ensures Get(reg, PutNode(nodes, n, name, v), m, x) == Get(reg, nodes, m, x)
  {
    assert n !in Chain(nodes, m);
    PutLeavesOtherLookups(reg, nodes, n, name, v, m, x);
  }

  /** When no node on the chain of `a` holds `name`, a put into any node of that
      chain makes `Get` from `a` return the stored object. */
  lemma {:induction false} PutInChainThenGet(reg: Registry, nodes: seq<Node>, a: nat, k: nat, name: Name, v: Value)
    requires WellFormed(nodes) && a < |nodes| && k < |nodes|
    requires k in Chain(nodes, a)
    requires v != Null && Get(reg, nodes, a, name) == Null
    ensures Get(reg, PutNode(nodes, k, name, v), a, name) == v
    decreases a
  {
    if a != k {
      match nodes[a].parent
      case None =>
      case Some(p) =>
        assert Chain(nodes, a) == [a] + Chain(nodes, p);
        PutInChainThenGet(reg, nodes, p, k, name, v);
    }
  }

  /** When `Get` from `a` finds nothing, no node of `a`'s chain holds `name`. */
  lemma {:induction false} NoHolderOnChain(reg: Registry, nodes: seq<Node>, a: nat, k: nat, name: Name)
    requires WellFormed(nodes) && a < |nodes| && k < |nodes|
    requires k in Chain(nodes, a) && Get(reg, nodes, a, name) == Null
    ensures !Holds(nodes, k, name)
    decreases a
  {
    if a != k {
      match nodes[a].parent
      case None =>
      case Some(p) =>
        assert Chain(nodes, a) == [a] + Chain(nodes, p);
        NoHolderOnChain(reg, nodes, p, k, name);
    }
  }
}
