/**
 The container's state: singleton and prototype definitions in registration
 order, the factory list, and the object heap with the singleton instance
 cache; plus the type queries of Scope.Singleton.cs and Scope.Prototype.cs
 that only read definitions.
 */
module Definitions {
  import opened Wrappers
  import opened TypeTable
  import opened Ordering

  /** Objects are named by fresh naturals: the n-th object created gets id n. */
  type ObjId = nat

  /**
   A `SingletonDef` or `PrototypeDef`: type, priority, selected constructor
   and assigned factory (`None` for the source's `null`). A singleton's
   `Instance` is kept in the heap's cache, keyed by its type.
   */
  datatype Def = Def(ty: TypeId, priority: int, ctor: Option<Ctor>, factory: Option<ObjId>)

  /** Definitions (the source's dictionaries, in insertion order) and the factory list. */
  datatype Registry = Registry(singletons: seq<Def>, prototypes: seq<Def>, factories: seq<ObjId>)

  /** What a constructor received for one parameter. */
  datatype Arg = Single(obj: ObjId) | ArrayArg(items: seq<ObjId>) | ListArg(items: seq<ObjId>)

  /** How an object came to exist. */
  datatype Origin = Supplied | Constructed(args: seq<Arg>) | ByFactory(factory: ObjId)

  datatype Obj = Obj(ty: TypeId, origin: Origin)

  /** All objects created so far, and the singleton instance cache. */
  datatype Heap = Heap(objects: seq<Obj>, instances: map<TypeId, ObjId>)

  /** The three tags the unsatisfiable-constructor message gives a parameter. */
  datatype ParamStatus = OkParam | PrototypeParam | MissingParam

  datatype ParamReport = ParamReport(ty: TypeId, status: ParamStatus)

  /** Every exception the container throws. */
  datatype ScopeError =
    | NoSatisfiableConstructor(owner: TypeId, considered: seq<seq<ParamReport>>)
    | PrototypeInCollection(prototype: TypeId, parameter: TypeId, owner: TypeId)
    | CircularDependency(cycle: seq<TypeId>)
    | AmbiguousFactory(target: TypeId, factories: seq<ObjId>)
    | PrototypeViaResolve(ty: TypeId)
    | SingletonViaNew(ty: TypeId)
    | NoSingleton(ty: TypeId)
    | MultipleSingletons(ty: TypeId, matches: seq<TypeId>)
    | NoPrototype(ty: TypeId)
    | MultiplePrototypes(ty: TypeId, matches: seq<TypeId>)
    | NotRegisteredAsSingleton(ty: TypeId)
    | MissingConstructor(ty: TypeId)
    | CannotInstantiate(ty: TypeId)
    | NoSatisfiableUnregisteredConstructor(ty: TypeId)
    | Reentrant(ty: TypeId)

  // === Definition lists used as dictionaries ===

  /** The dictionary's keys, in insertion order. */
  function Types(defs: seq<Def>): (ts: seq<TypeId>)
    ensures |ts| == |defs|
    ensures forall i | 0 <= i < |defs| :: ts[i] == defs[i].ty
  {
    if defs == [] then [] else [defs[0].ty] + Types(defs[1..])
  }

  predicate DistinctTypes(defs: seq<Def>) {
    forall i, j | 0 <= i < j < |defs| :: defs[i].ty != defs[j].ty
  }

  function Lookup(defs: seq<Def>, t: TypeId): (r: Option<Def>)
    ensures r.Some? <==> t in Types(defs)
    ensures r.Some? ==> r.value in defs && r.value.ty == t
  {
    if defs == [] then None
    else if defs[0].ty == t then Some(defs[0])
    else Lookup(defs[1..], t)
  }

  lemma TypesCons(x: Def, s: seq<Def>)
    ensures Types([x] + s) == [x.ty] + Types(s)
  {
    assert ([x] + s)[1..] == s;
  }

  lemma LookupCons(x: Def, s: seq<Def>)
    ensures forall t :: Lookup([x] + s, t) == if x.ty == t then Some(x) else Lookup(s, t)
  {
    assert ([x] + s)[1..] == s;
  }

  lemma DistinctCons(x: Def, s: seq<Def>)
    ensures DistinctTypes([x] + s) <==> DistinctTypes(s) && x.ty !in Types(s)
  {
    if DistinctTypes(s) && x.ty !in Types(s) {
      DistinctConsBuild(x, s);
    }
    if DistinctTypes([x] + s) {
      DistinctConsSplit(x, s);
    }
  }

  lemma DistinctConsBuild(x: Def, s: seq<Def>)
    requires DistinctTypes(s) && x.ty !in Types(s)
    ensures DistinctTypes([x] + s)
  {
    var xs := [x] + s;
    forall i, j | 0 <= i < j < |xs|
      ensures xs[i].ty != xs[j].ty
    {
      assert xs[j] == s[j - 1];
      if i == 0 {
        assert Types(s)[j - 1] == s[j - 1].ty;
      } else {
        assert xs[i] == s[i - 1];
      }
    }
  }

  lemma DistinctConsSplit(x: Def, s: seq<Def>)
    requires DistinctTypes([x] + s)
    ensures DistinctTypes(s) && x.ty !in Types(s)
  {
    var xs := [x] + s;
    forall i, j | 0 <= i < j < |s|
      ensures s[i].ty != s[j].ty
    {
      assert s[i] == xs[i + 1] && s[j] == xs[j + 1];
    }
    forall j | 0 <= j < |s|
      ensures Types(s)[j] != x.ty
    {
      assert xs[0] == x && xs[j + 1] == s[j];
    }
  }

  lemma ConsFacts(x: Def, s: seq<Def>)
    ensures Types([x] + s) == [x.ty] + Types(s)
    ensures forall t :: Lookup([x] + s, t) == if x.ty == t then Some(x) else Lookup(s, t)
    ensures DistinctTypes([x] + s) <==> DistinctTypes(s) && x.ty !in Types(s)
  {
    TypesCons(x, s);
    LookupCons(x, s);
    DistinctCons(x, s);
  }

  /** `dict[d.ty] = d`: replaces the definition in place, or appends a new key. */
  function Put(defs: seq<Def>, d: Def): (r: seq<Def>)
    requires DistinctTypes(defs)
    ensures DistinctTypes(r)
    ensures Lookup(r, d.ty) == Some(d)
    ensures forall t | t != d.ty :: Lookup(r, t) == Lookup(defs, t)
    ensures Types(r) == if d.ty in Types(defs) then Types(defs) else Types(defs) + [d.ty]
  {
    PutListFacts(defs, d);
    PutList(defs, d)
  }

  /** The list `Put` builds. */
  function PutList(defs: seq<Def>, d: Def): seq<Def> {
    if defs == [] then [d]
    else if defs[0].ty == d.ty then [d] + defs[1..]
    else [defs[0]] + PutList(defs[1..], d)
  }

  lemma {:induction false} PutListFacts(defs: seq<Def>, d: Def)
    requires DistinctTypes(defs)
    ensures DistinctTypes(PutList(defs, d))
    ensures Lookup(PutList(defs, d), d.ty) == Some(d)
    ensures forall t | t != d.ty :: Lookup(PutList(defs, d), t) == Lookup(defs, t)
    ensures Types(PutList(defs, d)) == if d.ty in Types(defs) then Types(defs) else Types(defs) + [d.ty]
  {
    PutListTypes(defs, d);
    PutListLookup(defs, d);
    PutListDistinct(defs, d);
  }

  lemma {:induction false} PutListTypes(defs: seq<Def>, d: Def)
    ensures Types(PutList(defs, d)) == if d.ty in Types(defs) then Types(defs) else Types(defs) + [d.ty]
    decreases |defs|
  {
    if defs != [] {
      var x, tail := defs[0], defs[1..];
      assert defs == [x] + tail;
      TypesCons(x, tail);
      if x.ty == d.ty {
        TypesCons(d, tail);
      } else {
        PutListTypes(tail, d);
        TypesCons(x, PutList(tail, d));
        assert d.ty in Types(defs) <==> d.ty in Types(tail);
      }
    }
  }

  lemma {:induction false} PutListLookup(defs: seq<Def>, d: Def)
    ensures Lookup(PutList(defs, d), d.ty) == Some(d)
    ensures forall t | t != d.ty :: Lookup(PutList(defs, d), t) == Lookup(defs, t)
    decreases |defs|
  {
    if defs == [] {
      LookupCons(d, []);
    } else {
      var x, tail := defs[0], defs[1..];
      assert defs == [x] + tail;
      LookupCons(x, tail);
      if x.ty == d.ty {
        LookupCons(d, tail);
      } else {
        PutListLookup(tail, d);
        LookupCons(x, PutList(tail, d));
      }
    }
  }

  lemma {:induction false} PutListDistinct(defs: seq<Def>, d: Def)
    requires DistinctTypes(defs)
    ensures DistinctTypes(PutList(defs, d))
    decreases |defs|
  {
    if defs == [] {
      DistinctCons(d, []);
    } else {
      var x, tail := defs[0], defs[1..];
      assert defs == [x] + tail;
      DistinctCons(x, tail);
      if x.ty == d.ty {
        TypesCons(x, tail);
        DistinctCons(d, tail);
      } else {
        PutListDistinct(tail, d);
        PutListTypes(tail, d);
        assert x.ty !in Types(PutList(tail, d));
        DistinctCons(x, PutList(tail, d));
      }
    }
  }

  // === Heap ===

  /** Every cached instance is an existing object. */
  predicate HeapOk(h: Heap) {
    forall t | t in h.instances :: h.instances[t] < |h.objects|
  }

  /** `h2` extends `h1`: objects are only appended and cached instances never change. */
  ghost predicate Grows(h1: Heap, h2: Heap) {
    && |h1.objects| <= |h2.objects|
    && h2.objects[..|h1.objects|] == h1.objects
    && forall t | t in h1.instances :: t in h2.instances && h2.instances[t] == h1.instances[t]
  }

  lemma GrowsTransitive(h1: Heap, h2: Heap, h3: Heap)
    requires Grows(h1, h2) && Grows(h2, h3)
    ensures Grows(h1, h3)
  {
    assert h3.objects[..|h1.objects|] == h3.objects[..|h2.objects|][..|h1.objects|];
  }

  /** Appends a new object; its id is the number of objects before it. */
  function Allocate(h: Heap, o: Obj): (r: (ObjId, Heap))
    requires HeapOk(h)
    ensures |r.1.objects| == |h.objects| + 1
    ensures r.0 == |h.objects| && r.1.objects[r.0] == o
    ensures HeapOk(r.1) && Grows(h, r.1) && r.1.instances == h.instances
  {
    (|h.objects|, Heap(h.objects + [o], h.instances))
  }

  // === Type queries (Scope.Singleton.cs, Scope.Prototype.cs, Scope.cs) ===

  /** The priority the ordering reads for `t`: its definition's, or 0 when it has none. */
  function PriorityIn(defs: seq<Def>, t: TypeId): int {
    match Lookup(defs, t)
    case Some(d) => d.priority
    case None => 0
  }

  /** Sort key of `OrderBy(priority).ThenBy(FullName, OrdinalIgnoreCase)`. */
  function RankIn(tbl: Table, defs: seq<Def>): TypeId -> Rank {
    (t: TypeId) => Rank(PriorityIn(defs, t), Info(tbl, t).name)
  }

  function OrderByPriority(tbl: Table, defs: seq<Def>, types: seq<TypeId>): (r: seq<TypeId>)
    ensures multiset(r) == multiset(types) && |r| == |types|
    ensures SortedBy(r, RankIn(tbl, defs))
  {
    SortBy(types, RankIn(tbl, defs))
  }

  /** The registered types of `defs` that are assignable to `target`, in registration order. */
  function AssignableTypes(tbl: Table, defs: seq<Def>, target: TypeId): (r: seq<TypeId>)
    ensures forall t :: t in r <==> t in Types(defs) && Assignable(tbl, target, t)
    ensures DistinctTypes(defs) ==> NoDup(r)
  {
    if defs == [] then []
    else
      var rest := AssignableTypes(tbl, defs[1..], target);
      assert Types(defs) == [defs[0].ty] + Types(defs[1..]);
      if Assignable(tbl, target, defs[0].ty) then [defs[0].ty] + rest else rest
  }

  /**
   The registered types assignable to `target`, each exactly once, in
   (priority, case-insensitive name) order; shared by `FindAllSingletonTypes`,
   `GetRegisteredSingletonTypes(t)` and `GetRegisteredPrototypeTypes(t)`.
   */
  function Matching(tbl: Table, defs: seq<Def>, target: TypeId): (r: seq<TypeId>)
    requires DistinctTypes(defs)
    ensures forall t :: t in r <==> t in Types(defs) && Assignable(tbl, target, t)
    ensures NoDup(r)
    ensures SortedBy(r, RankIn(tbl, defs))
  {
    var found := AssignableTypes(tbl, defs, target);
    SortedKeepsSet(found, RankIn(tbl, defs));
    SortByNoDup(found, RankIn(tbl, defs));
    OrderByPriority(tbl, defs, found)
  }

  lemma SortedKeepsSet<T>(s: seq<T>, rank: T -> Rank)
    ensures forall x :: x in SortBy(s, rank) <==> x in s
  {
    forall x
      ensures x in SortBy(s, rank) <==> x in s
    {
      SortByKeepsElements(s, rank, x);
    }
  }

  /** All keys of `defs`, in priority order (`GetRegisteredSingletonTypes()` and its prototype twin). */
  function AllOrdered(tbl: Table, defs: seq<Def>): (r: seq<TypeId>)
    requires DistinctTypes(defs)
    ensures forall t :: t in r <==> t in Types(defs)
    ensures NoDup(r) && |r| == |defs|
    ensures SortedBy(r, RankIn(tbl, defs))
  {
    SortedKeepsSet(Types(defs), RankIn(tbl, defs));
    SortByNoDup(Types(defs), RankIn(tbl, defs));
    OrderByPriority(tbl, defs, Types(defs))
  }

  /**
   The single match of `Matching`, or the error for zero or several matches;
   used by `FindSingletonType`, `GetRegisteredSingletonType` and
   `GetRegisteredPrototypeType`. Priorities never break a tie: several
   matches are an error whatever their priorities.
   */
  function Unique(matches: seq<TypeId>, none: ScopeError, many: ScopeError): (r: Result<TypeId, ScopeError>)
    ensures r.Ok? <==> |matches| == 1
    ensures r.Ok? ==> r.value == matches[0]
    ensures |matches| == 0 ==> r == Err(none)
    ensures |matches| > 1 ==> r == Err(many)
  {
    if |matches| == 0 then Err(none)
    else if |matches| > 1 then Err(many)
    else Ok(matches[0])
  }

  /** How many registered types match decides the outcome of every `Unique` lookup. */
  lemma MatchingCount(tbl: Table, defs: seq<Def>, target: TypeId)
    requires DistinctTypes(defs)
    ensures var m := Matching(tbl, defs, target);
      && (|m| == 0 <==> forall s | s in Types(defs) :: !Assignable(tbl, target, s))
      && (|m| == 1 ==> forall s | s in Types(defs) && Assignable(tbl, target, s) :: s == m[0])
      && (|m| > 1 ==> m[0] != m[1] && m[0] in Types(defs) && m[1] in Types(defs)
                       && Assignable(tbl, target, m[0]) && Assignable(tbl, target, m[1]))
  {
    var m := Matching(tbl, defs, target);
    if |m| == 0 {
      assert m == [];
      forall s | s in Types(defs)
        ensures !Assignable(tbl, target, s)
      {
        assert s !in m;
      }
    } else {
      assert m[0] in m;
      assert m[0] in Types(defs) && Assignable(tbl, target, m[0]);
      if |m| == 1 {
        forall s | s in Types(defs) && Assignable(tbl, target, s)
          ensures s == m[0]
        {
          assert s in m;
          assert m == [m[0]];
        }
      } else {
        assert m[1] in m;
        assert m[1] in Types(defs) && Assignable(tbl, target, m[1]);
        assert m[0] != m[1];
      }
    }
  }

  /** `FindSingletonType`: the one registered singleton assignable to `target`. */
  function FindSingletonType(tbl: Table, reg: Registry, target: TypeId): (r: Result<TypeId, ScopeError>)
    requires DistinctTypes(reg.singletons)
    ensures r.Ok? ==> r.value in Types(reg.singletons) && Assignable(tbl, target, r.value)
    ensures r.Ok? ==> forall s | s in Types(reg.singletons) && Assignable(tbl, target, s) :: s == r.value
    ensures r.Err? ==> r == Err(NoSingleton(target)) || r.error.MultipleSingletons?
    ensures r == Err(NoSingleton(target)) <==> forall s | s in Types(reg.singletons) :: !Assignable(tbl, target, s)
    ensures r.Err? && r.error.MultipleSingletons? ==>
      exists s1, s2 :: s1 != s2 && s1 in Types(reg.singletons) && s2 in Types(reg.singletons) &&
        Assignable(tbl, target, s1) && Assignable(tbl, target, s2)
  {
    var matches := Matching(tbl, reg.singletons, target);
    MatchingCount(tbl, reg.singletons, target);
    Unique(matches, NoSingleton(target), MultipleSingletons(target, matches))
  }

  /** `GetRegisteredPrototypeType`: the one registered prototype assignable to `target`. */
  function GetRegisteredPrototypeType(tbl: Table, reg: Registry, target: TypeId): (r: Result<TypeId, ScopeError>)
    requires DistinctTypes(reg.prototypes)
    ensures r.Ok? ==> r.value in Types(reg.prototypes) && Assignable(tbl, target, r.value)
    ensures r.Ok? ==> forall p | p in Types(reg.prototypes) && Assignable(tbl, target, p) :: p == r.value
    ensures r == Err(NoPrototype(target)) <==> forall p | p in Types(reg.prototypes) :: !Assignable(tbl, target, p)
    ensures r.Err? ==> r == Err(NoPrototype(target)) || r.error.MultiplePrototypes?
    ensures r.Err? && r.error.MultiplePrototypes? ==>
      exists p1, p2 :: p1 != p2 && p1 in Types(reg.prototypes) && p2 in Types(reg.prototypes) &&
        Assignable(tbl, target, p1) && Assignable(tbl, target, p2)
  {
    var matches := Matching(tbl, reg.prototypes, target);
    MatchingCount(tbl, reg.prototypes, target);
    Unique(matches, NoPrototype(target), MultiplePrototypes(target, matches))
  }

  /** `CanResolve`: some registered singleton is assignable to `t`. */
  predicate CanResolve(tbl: Table, reg: Registry, t: TypeId) {
    exists s | s in Types(reg.singletons) :: Assignable(tbl, t, s)
  }

  // === Constructor choice, shared by registered and unregistered types ===

  /** The sort key of `OrderByDescending` on the parameter count. */
  function ArityRank(k: Ctor): Rank {
    Rank(-|k|, "")
  }

  /** The constructors of `ctors` with exactly `n` parameters, in their order in `ctors`. */
  function WithArity(ctors: seq<Ctor>, n: int): (r: seq<Ctor>)
    ensures forall k | k in r :: |k| == n
  {
    if ctors == [] then []
    else (if |ctors[0]| == n then [ctors[0]] else []) + WithArity(ctors[1..], n)
  }

  /**
   Constructors with the most parameters first (`OrderByDescending`, a stable
   sort): constructors of equal arity keep their declaration order.
   */
  function ByArityDescending(ctors: seq<Ctor>): (r: seq<Ctor>)
    ensures multiset(r) == multiset(ctors) && |r| == |ctors|
    ensures forall i, j | 0 <= i < j < |r| :: |r[i]| >= |r[j]|
    ensures forall n: int :: WithArity(r, n) == WithArity(ctors, n)
  {
    var sorted := SortBy(ctors, ArityRank);
    assert forall i, j | 0 <= i < j < |sorted| :: RankLe(ArityRank(sorted[i]), ArityRank(sorted[j]));
    forall n: int
      ensures WithArity(sorted, n) == WithArity(ctors, n)
    {
      SortByStable(ctors, ArityRank, Rank(-n, ""));
      TiedArity(sorted, n);
      TiedArity(ctors, n);
    }
    sorted
  }

  /** Tying with arity `n` under `ArityRank` is having `n` parameters. */
  lemma {:induction false} TiedArity(ctors: seq<Ctor>, n: int)
    ensures Tied(ctors, ArityRank, Rank(-n, "")) == WithArity(ctors, n)
    decreases |ctors|
  {
    if ctors != [] {
      TiedArity(ctors[1..], n);
      assert SameRank(ArityRank(ctors[0]), Rank(-n, "")) <==> |ctors[0]| == n;
    }
  }

  /** The index of the first element `ok` accepts. */
  function FirstWhere<T>(s: seq<T>, ok: T -> bool): (r: Option<nat>)
    ensures r.Some? ==> r.value < |s| && ok(s[r.value])
    ensures r.Some? ==> forall k | 0 <= k < r.value :: !ok(s[k])
    ensures r.None? <==> forall k | 0 <= k < |s| :: !ok(s[k])
  {
    if s == [] then None
    else if ok(s[0]) then Some(0)
    else match FirstWhere(s[1..], ok)
      case None => None
      case Some(k) => Some(k + 1)
  }

  lemma NoneAccepted(all: seq<Ctor>, ctors: seq<Ctor>, ok: Ctor -> bool)
    requires multiset(ctors) == multiset(all)
    requires forall k | 0 <= k < |ctors| :: !ok(ctors[k])
    ensures forall ctor | ctor in all :: !ok(ctor)
  {
    forall ctor | ctor in all ensures !ok(ctor) {
      assert ctor in multiset(ctors);
    }
  }

  /** The first accepted constructor of the arity-sorted list is an accepted one of greatest arity. */
  lemma FirstIsLongest(all: seq<Ctor>, ctors: seq<Ctor>, ok: Ctor -> bool, i: nat)
    requires multiset(ctors) == multiset(all) && i < |ctors|
    requires forall a, b | 0 <= a < b < |ctors| :: |ctors[a]| >= |ctors[b]|
    requires forall k | 0 <= k < i :: !ok(ctors[k])
    ensures ctors[i] in all
    ensures forall other | other in all && |other| > |ctors[i]| :: !ok(other)
  {
    assert ctors[i] in multiset(all);
    forall other | other in all && |other| > |ctors[i]|
      ensures !ok(other)
    {
      assert other in multiset(ctors);
      var k :| 0 <= k < |ctors| && ctors[k] == other;
      assert k < i;
    }
  }
}
