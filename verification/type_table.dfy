/**
 An explicit type table standing in for .NET reflection: for every type id its
 name, kind, base class, implemented interfaces, shape (plain, array or generic
 instantiation), constructors and discovery attributes.
 */
module TypeTable {
  import opened Wrappers

  type TypeId = nat

  datatype Kind = ClassKind | InterfaceKind | StructKind

  /** Generic type definitions: the six the container treats as collections, and any other. */
  datatype GenericDef =
    | ListDef | IListDef | ICollectionDef | IEnumerableDef | IReadOnlyCollectionDef | IReadOnlyListDef
    | OtherDef(id: nat)

  /** `T[]`, `G<A, ...>`, or any other type. */
  datatype Shape = Plain | ArrayOf(element: TypeId) | Generic(definition: GenericDef, arguments: seq<TypeId>)

  /** A `[Module]` or `[Prototype]` attribute: its `Enabled` and `Priority` properties. */
  datatype Attr = Attr(enabled: bool, priority: int)

  /** A constructor, given by the types of its parameters in declaration order. */
  type Ctor = seq<TypeId>

  /**
   What reflection reports about one type. `interfaces` is `GetInterfaces()` as
   the table gives it (not assumed to be flattened); `ctors` is
   `GetConstructors(Instance | Public | NonPublic)` in declaration order;
   `factoryTarget` is the `TargetType` of a type implementing `IFactory`.
   */
  datatype TypeInfo = TypeInfo(
    name: string,
    kind: Kind,
    isAbstract: bool,
    isGenericDefinition: bool,
    base: Option<TypeId>,
    interfaces: seq<TypeId>,
    shape: Shape,
    ctors: seq<Ctor>,
    moduleAttr: Option<Attr>,
    prototypeAttr: Option<Attr>,
    factoryTarget: Option<TypeId>)

  /**
   Ids are numbered so that every supertype precedes its subtypes, which is
   possible because .NET inheritance is acyclic; an array or generic type is
   never its own element type.
   */
  predicate EntryWellFormed(m: map<TypeId, TypeInfo>, t: TypeId)
    requires t in m
  {
    var info := m[t];
    && (info.base.Some? ==> info.base.value < t && info.base.value in m)
    && (forall i | i in info.interfaces :: i < t && i in m)
    && (info.shape.ArrayOf? ==> info.shape.element != t)
    && (info.shape.Generic? ==> |info.shape.arguments| > 0 && t !in info.shape.arguments)
  }

  predicate WellFormed(m: map<TypeId, TypeInfo>) {
    forall t | t in m :: EntryWellFormed(m, t)
  }

  type Table = m: map<TypeId, TypeInfo> | WellFormed(m) witness map[]

  /** What an id outside the table stands for: a class with no supertypes, constructors or attributes. */
  const Unknown := TypeInfo("", ClassKind, false, false, None, [], Plain, [], None, None, None)

  function Info(tbl: Table, t: TypeId): TypeInfo {
    if t in tbl then tbl[t] else Unknown
  }

  predicate IsClass(tbl: Table, t: TypeId) {
    Info(tbl, t).kind == ClassKind
  }

  predicate IsInterface(tbl: Table, t: TypeId) {
    Info(tbl, t).kind == InterfaceKind
  }

  /** The direct supertypes of `t`: its base class and its listed interfaces. */
  function Parents(tbl: Table, t: TypeId): (ps: set<TypeId>)
    ensures forall p | p in ps :: p < t && p in tbl
  {
    assert t in tbl ==> EntryWellFormed(tbl, t);
    var info := Info(tbl, t);
    (if info.base.Some? then {info.base.value} else {}) + (set i | i in info.interfaces)
  }

  /**
   `target.IsAssignableFrom(t)`: the reflexive-transitive closure of the
   supertype relation.
   */
  predicate Assignable(tbl: Table, target: TypeId, t: TypeId)
    decreases t
  {
    t == target || exists p | p in Parents(tbl, t) :: Assignable(tbl, target, p)
  }

  /** `t.IsSubclassOf(ancestor)`: `ancestor` lies strictly above `t` on its base-class chain. */
  predicate DerivesFrom(tbl: Table, t: TypeId, ancestor: TypeId)
    decreases t
  {
    var b := Info(tbl, t).base;
    assert t in tbl ==> EntryWellFormed(tbl, t);
    b.Some? && (b.value == ancestor || DerivesFrom(tbl, b.value, ancestor))
  }

  lemma {:induction false} DerivesFromIsAssignable(tbl: Table, t: TypeId, ancestor: TypeId)
    requires DerivesFrom(tbl, t, ancestor)
    ensures Assignable(tbl, ancestor, t) && ancestor < t
  {
    var b := Info(tbl, t).base.value;
    assert b in Parents(tbl, t);
    if b != ancestor {
      DerivesFromIsAssignable(tbl, b, ancestor);
    }
  }

  lemma {:induction false} AssignableTransitive(tbl: Table, a: TypeId, b: TypeId, c: TypeId)
    requires Assignable(tbl, a, b) && Assignable(tbl, b, c)
    ensures Assignable(tbl, a, c)
    decreases c
  {
    if c != b {
      var p :| p in Parents(tbl, c) && Assignable(tbl, b, p);
      AssignableTransitive(tbl, a, b, p);
    }
  }

  /** A supertype never has a larger id than the type it is assignable from. */
  lemma {:induction false} AssignableOrdered(tbl: Table, target: TypeId, t: TypeId)
    requires Assignable(tbl, target, t)
    ensures target <= t
    decreases t
  {
    if t != target {
      var p :| p in Parents(tbl, t) && Assignable(tbl, target, p);
      AssignableOrdered(tbl, target, p);
    }
  }

  /**
   The ids the container treats specially: the `Scope` class, the `IScope`
   interface, the `IFactory` interface and `System.Attribute`.
   */
  datatype Universe = Universe(
    table: Table,
    scopeType: TypeId,
    iscopeType: TypeId,
    factoryType: TypeId,
    attributeType: TypeId)
}
