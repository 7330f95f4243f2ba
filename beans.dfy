/** The vocabulary shared by the whole model: bean values, the bean registry that
    stands in for Spring's ListableBeanFactory, the class metadata that stands in
    for reflection and annotations, and the errors the container raises. */
module Beans {

  datatype Option<+T> = None | Some(value: T)

  type Name = string
  type TypeName = string
  type ObjId = nat

  /** A Java reference as the container sees it: null, an application bean, or
      one of the container's own context nodes (identified by its arena index). */
  datatype Value = Null | Bean(id: ObjId) | Context(node: nat)

  /** A declared field; `circular` says whether it carries @CircularAutowired. */
  datatype FieldDecl = FieldDecl(name: string, fieldType: TypeName, circular: bool)

  /** A declared method with its parameter types; `circular` as for fields. */
  datatype MethodDecl = MethodDecl(name: string, params: seq<TypeName>, circular: bool)

  /** A @TargetContextLevelOf declaration: a target type and an optional bean name. */
  datatype TargetDecl = TargetDecl(value: TypeName, beanName: string)

  /** What reflection reveals about one class. */
  datatype ClassInfo = ClassInfo(
    interfaces: seq<TypeName>,
    fields: seq<FieldDecl>,
    methods: seq<MethodDecl>,
    target: Option<TargetDecl>)

  /** The bean registry and the class metadata, all fixed while the container runs.
      - `typeMatches` holds (name, type) when Spring's isTypeMatch(name, type) holds;
      - `namesForType` is getBeanNamesForType (a missing type has no names);
      - `products` is what the object factory of each defined bean yields;
      - `dependencies` lists, for a bean name, the names Spring resolves through the
        scope while it produces that bean, in order (the bean itself comes last);
      - `classOf` and `classes` give every object's runtime class and its metadata. */
  datatype Registry = Registry(
    typeMatches: set<(Name, TypeName)>,
    namesForType: map<TypeName, seq<Name>>,
    products: map<Name, Value>,
    dependencies: map<Name, seq<Name>>,
    classOf: map<ObjId, TypeName>,
    classes: map<TypeName, ClassInfo>)

  const CurrentLevelContextType: TypeName := "de.codecentric.spring.hierarchical.CurrentLevelContext"
  const HierarchicalContextType: TypeName := "de.codecentric.spring.hierarchical.HierarchicalContext"
  const ObjectType: TypeName := "java.lang.Object"

  /** The default bean name of @TargetContextLevelOf, meaning "no name given". */
  const Unassigned: string := "UNASSIGNED"

  /** The container's own class: it implements CurrentLevelContext and declares
      nothing annotated. */
  const ContextClassInfo: ClassInfo := ClassInfo([CurrentLevelContextType], [], [], None)

  datatype Error =
    | NoCandidate(forType: TypeName)
    | AmbiguousCandidate(forType: TypeName, count: nat)
    | MissingTargetLevel(targetName: Name)
    | MalformedInjectionPoint(methodName: string, arity: nat)
    | OrphanedBackReference(forType: TypeName)
    | NoSuchBean(beanName: Name)
    | NullReference

  datatype Result<+T> = Ok(value: T) | Err(error: Error)

  /** The value of an operation that returns nothing (Java's void). */
  datatype Done = Done

  /** `getClass()` of a non-null reference. */
  function ClassOf(reg: Registry, v: Value): TypeName
    requires v != Null
  {
    match v
    case Context(_) => HierarchicalContextType
    case Bean(o) => if o in reg.classOf then reg.classOf[o] else ObjectType
  }

  /** The metadata of a non-null reference's runtime class. */
  function InfoOf(reg: Registry, v: Value): ClassInfo
    requires v != Null
  {
    match v
    case Context(_) => ContextClassInfo
    case Bean(_) =>
      var t := ClassOf(reg, v);
      if t in reg.classes then reg.classes[t] else ClassInfo([], [], [], None)
  }

  /** Java's Character.toLowerCase restricted to ASCII letters. */
  function Lower(c: char): char
  {
    if 'A' <= c <= 'Z' then (c as int + 32) as char else c
  }

  /** String.equalsIgnoreCase over ASCII. */
  predicate EqualsIgnoreCase(a: string, b: string)
  {
    |a| == |b| && forall i | 0 <= i < |a| :: Lower(a[i]) == Lower(b[i])
  }
}
