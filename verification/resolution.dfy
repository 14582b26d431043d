/**
 Run-time resolution: `Resolve`, `ResolveAll`, `New`, the singleton cache and
 constructor injection. Every operation threads the heap and returns the
 heap it leaves behind, on failure too, because singletons created before a
 failure stay cached in the source.
 */
module Resolution {
  import opened Wrappers
  import opened TypeTable
  import opened Collections
  import opened Definitions

  /** The immutable part of a built scope; `self` is the scope object itself. */
  datatype Container = Container(u: Universe, reg: Registry, self: ObjId)

  predicate Valid(c: Container) {
    DistinctTypes(c.reg.singletons) && DistinctTypes(c.reg.prototypes)
  }

  /** An outcome and the heap after it. */
  datatype Step<T> = Step(result: Result<T, ScopeError>, heap: Heap)

  function Singletons(c: Container): seq<TypeId> {
    Types(c.reg.singletons)
  }

  function Prototypes(c: Container): seq<TypeId> {
    Types(c.reg.prototypes)
  }

  /**
   Singleton types whose creation has not started on the current call
   chain; it shrinks each time a creation starts, which bounds the recursion.
   */
  ghost function Todo(c: Container, pending: set<TypeId>): nat {
    |Elems(Singletons(c)) - pending|
  }

  lemma TodoShrinks(c: Container, pending: set<TypeId>, s: TypeId)
    requires s in Singletons(c) && s !in pending
    ensures Todo(c, pending + {s}) < Todo(c, pending)
  {
    var all := Elems(Singletons(c));
    assert s in all - pending;
    assert all - (pending + {s}) == (all - pending) - {s};
  }

  // === What a constructor argument must be ===

  /** `items` are the cached instances of `ResolveAll(element)`'s types, in that order. */
  ghost predicate Fills(c: Container, h: Heap, element: TypeId, items: seq<ObjId>)
    requires Valid(c)
  {
    var ts := Matching(c.u.table, c.reg.singletons, element);
    |items| == |ts| && forall i | 0 <= i < |ts| :: ts[i] in h.instances && items[i] == h.instances[ts[i]]
  }

  /**
   The argument a parameter of type `p` receives: an array or a list of every
   matching singleton for a collection parameter, otherwise the cached
   instance of the one singleton `p` resolves to.
   */
  ghost predicate ArgFits(c: Container, h: Heap, p: TypeId, a: Arg)
    requires Valid(c)
  {
    var tbl := c.u.table;
    if IsArray(tbl, p) then a.ArrayArg? && Fills(c, h, ElementType(tbl, p), a.items)
    else if IsCollectionType(tbl, p) then a.ListArg? && Fills(c, h, ElementType(tbl, p), a.items)
    else
      && a.Single?
      && p !in Prototypes(c)
      && FindSingletonType(tbl, c.reg, p).Ok?
      && FindSingletonType(tbl, c.reg, p).value in h.instances
      && a.obj == h.instances[FindSingletonType(tbl, c.reg, p).value]
  }

  lemma ArgFitsGrows(c: Container, h1: Heap, h2: Heap, p: TypeId, a: Arg)
    requires Valid(c) && Grows(h1, h2) && ArgFits(c, h1, p, a)
    ensures ArgFits(c, h2, p, a)
  {
  }

  lemma ArgsFitGrow(c: Container, h1: Heap, h2: Heap, ps: seq<TypeId>, args: seq<Arg>)
    requires Valid(c) && Grows(h1, h2) && |args| == |ps|
    requires forall k | 0 <= k < |ps| :: ArgFits(c, h1, ps[k], args[k])
    ensures forall k | 0 <= k < |ps| :: ArgFits(c, h2, ps[k], args[k])
  {
    forall k | 0 <= k < |ps| ensures ArgFits(c, h2, ps[k], args[k]) {
      ArgFitsGrows(c, h1, h2, ps[k], args[k]);
    }
  }

  // === The mutually recursive resolution group ===

  /**
   `EnsureSingletonInstance`: the cached instance of singleton `s`, created on
   first use. Re-entering the creation of a type already being created is the
   source's unbounded recursion; it is reported as `Reentrant`.
   */
  function Ensure(c: Container, h: Heap, pending: set<TypeId>, s: TypeId): (r: Step<ObjId>)
    requires Valid(c) && HeapOk(h)
    ensures HeapOk(r.heap) && Grows(h, r.heap)
    ensures r.result.Ok? ==> s in r.heap.instances && r.heap.instances[s] == r.result.value
    ensures s !in Singletons(c) ==> r == Step(Err(NotRegisteredAsSingleton(s)), h)
    ensures s in Singletons(c) && s in h.instances ==> r == Step(Ok(h.instances[s]), h)
    ensures forall t | t in pending && t !in h.instances :: t !in r.heap.instances
    decreases Todo(c, pending), 0, 0
  {
    match Lookup(c.reg.singletons, s)
    case None => Step(Err(NotRegisteredAsSingleton(s)), h)
    case Some(def) =>
      if s in h.instances then Step(Ok(h.instances[s]), h)
      else if s in pending then Step(Err(Reentrant(s)), h)
      else
        TodoShrinks(c, pending, s);
        var made := CreateSingleton(c, h, pending + {s}, def);
        if made.result.Err? then made
        else Step(made.result, made.heap.(instances := made.heap.instances[s := made.result.value]))
  }

  /** `CreateSingletonInstance`: through the assigned factory, else through the selected constructor. */
  function CreateSingleton(c: Container, h: Heap, pending: set<TypeId>, def: Def): (r: Step<ObjId>)
    requires Valid(c) && HeapOk(h)
    ensures HeapOk(r.heap) && Grows(h, r.heap)
    ensures forall t | t in pending && t !in h.instances :: t !in r.heap.instances
    ensures r.result.Ok? ==> Created(h, r, def.ty)
    ensures r.result.Ok? && def.factory.Some? ==> r.heap.objects[r.result.value].origin == ByFactory(def.factory.value)
    ensures r.result.Ok? && def.factory.None? ==>
      def.ctor.Some? && ConstructedWith(c, r.heap, r.result.value, def.ctor.value)
    ensures def.factory.None? && def.ctor.None? ==> r == Step(Err(MissingConstructor(def.ty)), h)
    decreases Todo(c, pending), 6, 0
  {
    match def.factory
    case Some(f) =>
      var (o, h') := Allocate(h, Obj(def.ty, ByFactory(f)));
      Step(Ok(o), h')
    case None =>
      match def.ctor
      case None => Step(Err(MissingConstructor(def.ty)), h)
      case Some(ctor) => CreateViaConstructor(c, h, pending, def.ty, ctor)
  }

  /** `r` produced one new object of type `t`, the last one on the heap. */
  ghost predicate Created(h: Heap, r: Step<ObjId>, t: TypeId)
    requires r.result.Ok?
  {
    && |h.objects| <= r.result.value == |r.heap.objects| - 1
    && r.heap.objects[r.result.value].ty == t
  }

  /** Neither an interface nor an abstract class nor an open generic definition. */
  predicate CanInstantiate(tbl: Table, t: TypeId) {
    var info := Info(tbl, t);
    info.kind != InterfaceKind && !info.isAbstract && !info.isGenericDefinition
  }

  /**
   `CreateViaConstructor`: resolves every parameter in order, then invokes the
   constructor, which fails for a type that cannot be instantiated.
   */
  function CreateViaConstructor(c: Container, h: Heap, pending: set<TypeId>, t: TypeId, ctor: Ctor): (r: Step<ObjId>)
    requires Valid(c) && HeapOk(h)
    ensures HeapOk(r.heap) && Grows(h, r.heap)
    ensures forall t' | t' in pending && t' !in h.instances :: t' !in r.heap.instances
    ensures r.result.Ok? ==> Created(h, r, t) && CanInstantiate(c.u.table, t)
    ensures r.result.Ok? ==> ConstructedWith(c, r.heap, r.result.value, ctor)
    decreases Todo(c, pending), 5, 0
  {
    var args := ResolveArgs(c, h, pending, ctor);
    if args.result.Err? then Step(Err(args.result.error), args.heap)
    else if !CanInstantiate(c.u.table, t) then Step(Err(CannotInstantiate(t)), args.heap)
    else
      var (o, h') := Allocate(args.heap, Obj(t, Constructed(args.result.value)));
      ArgsFitGrow(c, args.heap, h', ctor, args.result.value);
      Step(Ok(o), h')
  }

  /** Object `o` was built by a constructor, one fitting argument per parameter. */
  ghost predicate ConstructedWith(c: Container, h: Heap, o: ObjId, ctor: Ctor)
    requires Valid(c)
  {
    && o < |h.objects|
    && h.objects[o].origin.Constructed?
    && |h.objects[o].origin.args| == |ctor|
    && forall k | 0 <= k < |ctor| :: ArgFits(c, h, ctor[k], h.objects[o].origin.args[k])
  }

  /** The arguments for parameters `ps`, resolved left to right. */
  function ResolveArgs(c: Container, h: Heap, pending: set<TypeId>, ps: seq<TypeId>): (r: Step<seq<Arg>>)
    requires Valid(c) && HeapOk(h)
    ensures HeapOk(r.heap) && Grows(h, r.heap)
    ensures forall t | t in pending && t !in h.instances :: t !in r.heap.instances
    ensures r.result.Ok? ==> |r.result.value| == |ps|
    ensures r.result.Ok? ==> forall k | 0 <= k < |ps| :: ArgFits(c, r.heap, ps[k], r.result.value[k])
    decreases Todo(c, pending), 4, |ps|
  {
    if ps == [] then Step(Ok([]), h)
    else
      var first := ResolveParam(c, h, pending, ps[0]);
      if first.result.Err? then Step(Err(first.result.error), first.heap)
      else
        var rest := ResolveArgs(c, first.heap, pending, ps[1..]);
        if rest.result.Err? then rest
        else
          GrowsTransitive(h, first.heap, rest.heap);
          ArgFitsGrows(c, first.heap, rest.heap, ps[0], first.result.value);
          Step(Ok([first.result.value] + rest.result.value), rest.heap)
  }

  /** `ResolveConstructorParameter`: array, list, or a single resolved singleton. */
  function ResolveParam(c: Container, h: Heap, pending: set<TypeId>, p: TypeId): (r: Step<Arg>)
    requires Valid(c) && HeapOk(h)
    ensures HeapOk(r.heap) && Grows(h, r.heap)
    ensures forall t | t in pending && t !in h.instances :: t !in r.heap.instances
    ensures r.result.Ok? ==> ArgFits(c, r.heap, p, r.result.value)
    decreases Todo(c, pending), 3, 0
  {
    var tbl := c.u.table;
    if IsArray(tbl, p) then
      var all := ResolveAll(c, h, pending, ElementType(tbl, p));
      if all.result.Err? then Step(Err(all.result.error), all.heap)
      else Step(Ok(ArrayArg(all.result.value)), all.heap)
    else if IsCollectionType(tbl, p) then
      var all := ResolveAll(c, h, pending, ElementType(tbl, p));
      if all.result.Err? then Step(Err(all.result.error), all.heap)
      else Step(Ok(ListArg(all.result.value)), all.heap)
    else
      var one := Resolve(c, h, pending, p);
      if one.result.Err? then Step(Err(one.result.error), one.heap)
      else Step(Ok(Single(one.result.value)), one.heap)
  }

  /**
   `Resolve`: refuses a registered prototype, otherwise the cached instance of
   the one singleton assignable to `t`.
   */
  function Resolve(c: Container, h: Heap, pending: set<TypeId>, t: TypeId): (r: Step<ObjId>)
    requires Valid(c) && HeapOk(h)
    ensures HeapOk(r.heap) && Grows(h, r.heap)
    ensures forall t' | t' in pending && t' !in h.instances :: t' !in r.heap.instances
    ensures t in Prototypes(c) ==> r == Step(Err(PrototypeViaResolve(t)), h)
    ensures FindSingletonType(c.u.table, c.reg, t).Err? && t !in Prototypes(c) ==>
      r == Step(Err(FindSingletonType(c.u.table, c.reg, t).error), h)
    ensures r.result.Ok? ==>
      && t !in Prototypes(c)
      && FindSingletonType(c.u.table, c.reg, t).Ok?
      && FindSingletonType(c.u.table, c.reg, t).value in r.heap.instances
      && r.result.value == r.heap.instances[FindSingletonType(c.u.table, c.reg, t).value]
    decreases Todo(c, pending), 2, 0
  {
    if t in Prototypes(c) then Step(Err(PrototypeViaResolve(t)), h)
    else
      match FindSingletonType(c.u.table, c.reg, t)
      case Err(e) => Step(Err(e), h)
      case Ok(s) => Ensure(c, h, pending, s)
  }

  /** `ResolveAll`: the instances of every singleton assignable to `t`, in priority order. */
  function ResolveAll(c: Container, h: Heap, pending: set<TypeId>, t: TypeId): (r: Step<seq<ObjId>>)
    requires Valid(c) && HeapOk(h)
    ensures HeapOk(r.heap) && Grows(h, r.heap)
    ensures forall t' | t' in pending && t' !in h.instances :: t' !in r.heap.instances
    ensures r.result.Ok? ==> Fills(c, r.heap, t, r.result.value)
    decreases Todo(c, pending), 2, 0
  {
    EnsureAll(c, h, pending, Matching(c.u.table, c.reg.singletons, t))
  }

  /** The instances of the singletons `ts`, in order. */
  function EnsureAll(c: Container, h: Heap, pending: set<TypeId>, ts: seq<TypeId>): (r: Step<seq<ObjId>>)
    requires Valid(c) && HeapOk(h)
    ensures HeapOk(r.heap) && Grows(h, r.heap)
    ensures forall t | t in pending && t !in h.instances :: t !in r.heap.instances
    ensures r.result.Ok? ==> |r.result.value| == |ts|
    ensures r.result.Ok? ==> forall i | 0 <= i < |ts| ::
      ts[i] in r.heap.instances && r.result.value[i] == r.heap.instances[ts[i]]
    decreases Todo(c, pending), 1, |ts|
  {
    if ts == [] then Step(Ok([]), h)
    else
      var first := Ensure(c, h, pending, ts[0]);
      if first.result.Err? then Step(Err(first.result.error), first.heap)
      else
        var rest := EnsureAll(c, first.heap, pending, ts[1..]);
        if rest.result.Err? then rest
        else
          GrowsTransitive(h, first.heap, rest.heap);
          Step(Ok([first.result.value] + rest.result.value), rest.heap)
  }

  // === Prototypes and unregistered types ===

  /** `CreatePrototypeInstance(def)`: a new object on every call. */
  function CreatePrototype(c: Container, h: Heap, def: Def): (r: Step<ObjId>)
    requires Valid(c) && HeapOk(h)
    ensures HeapOk(r.heap) && Grows(h, r.heap)
    ensures r.result.Ok? ==> Created(h, r, def.ty)
    ensures r.result.Ok? && def.factory.Some? ==> r.heap.objects[r.result.value].origin == ByFactory(def.factory.value)
    ensures r.result.Ok? && def.factory.None? ==> def.ctor.Some? && ConstructedWith(c, r.heap, r.result.value, def.ctor.value)
    ensures def.factory.None? && def.ctor.None? ==> r == Step(Err(MissingConstructor(def.ty)), h)
  {
    match def.factory
    case Some(f) =>
      var (o, h') := Allocate(h, Obj(def.ty, ByFactory(f)));
      Step(Ok(o), h')
    case None =>
      match def.ctor
      case None => Step(Err(MissingConstructor(def.ty)), h)
      case Some(ctor) => CreateViaConstructor(c, h, {}, def.ty, ctor)
  }

  /** `CanSatisfyUnregisteredConstructor`: collections, `IScope` and resolvable singletons. */
  predicate CanSatisfyUnregisteredCtor(c: Container, ctor: Ctor) {
    forall p | p in ctor ::
      IsCollectionType(c.u.table, p) || p == c.u.iscopeType || CanResolve(c.u.table, c.reg, p)
  }

  /** `CanCreateUnregisteredType`: no constructors, a parameterless one, or a satisfiable one. */
  predicate CanCreateUnregistered(c: Container, t: TypeId) {
    var ctors := Info(c.u.table, t).ctors;
    || ctors == []
    || (exists ctor | ctor in ctors :: ctor == [])
    || (exists ctor | ctor in ctors :: CanSatisfyUnregisteredCtor(c, ctor))
  }

  /** `ResolveUnregisteredParameter`: `IScope` gets the scope itself; anything else as for a registered type. */
  function ResolveUnregisteredParam(c: Container, h: Heap, p: TypeId): (r: Step<Arg>)
    requires Valid(c) && HeapOk(h)
    ensures HeapOk(r.heap) && Grows(h, r.heap)
    ensures p == c.u.iscopeType ==> r == Step(Ok(Single(c.self)), h)
    ensures p != c.u.iscopeType ==> r == ResolveParam(c, h, {}, p)
  {
    if p == c.u.iscopeType then Step(Ok(Single(c.self)), h)
    else ResolveParam(c, h, {}, p)
  }

  /** The argument an unregistered type's parameter receives. */
  ghost predicate UnregisteredArgFits(c: Container, h: Heap, p: TypeId, a: Arg)
    requires Valid(c)
  {
    if p == c.u.iscopeType then a == Single(c.self) else ArgFits(c, h, p, a)
  }

  lemma UnregisteredArgFitsGrows(c: Container, h1: Heap, h2: Heap, p: TypeId, a: Arg)
    requires Valid(c) && Grows(h1, h2) && UnregisteredArgFits(c, h1, p, a)
    ensures UnregisteredArgFits(c, h2, p, a)
  {
    if p != c.u.iscopeType {
      ArgFitsGrows(c, h1, h2, p, a);
    }
  }

  lemma UnregisteredArgsFitGrow(c: Container, h1: Heap, h2: Heap, ps: seq<TypeId>, args: seq<Arg>)
    requires Valid(c) && Grows(h1, h2) && |args| == |ps|
    requires forall k | 0 <= k < |ps| :: UnregisteredArgFits(c, h1, ps[k], args[k])
    ensures forall k | 0 <= k < |ps| :: UnregisteredArgFits(c, h2, ps[k], args[k])
  {
    forall k | 0 <= k < |ps| ensures UnregisteredArgFits(c, h2, ps[k], args[k]) {
      UnregisteredArgFitsGrows(c, h1, h2, ps[k], args[k]);
    }
  }

  function ResolveUnregisteredArgs(c: Container, h: Heap, ps: seq<TypeId>): (r: Step<seq<Arg>>)
    requires Valid(c) && HeapOk(h)
    decreases |ps|
    ensures HeapOk(r.heap) && Grows(h, r.heap)
    ensures r.result.Ok? ==> |r.result.value| == |ps|
    ensures r.result.Ok? ==> forall k | 0 <= k < |ps| :: UnregisteredArgFits(c, r.heap, ps[k], r.result.value[k])
  {
    if ps == [] then Step(Ok([]), h)
    else
      var first := ResolveUnregisteredParam(c, h, ps[0]);
      if first.result.Err? then Step(Err(first.result.error), first.heap)
      else
        var rest := ResolveUnregisteredArgs(c, first.heap, ps[1..]);
        if rest.result.Err? then rest
        else
          GrowsTransitive(h, first.heap, rest.heap);
          UnregisteredArgFitsGrows(c, first.heap, rest.heap, ps[0], first.result.value);
          Step(Ok([first.result.value] + rest.result.value), rest.heap)
  }

  /** Invokes `ctor` of `t` on arguments resolved as for an unregistered type. */
  function InvokeUnregistered(c: Container, h: Heap, t: TypeId, ctor: Ctor): (r: Step<ObjId>)
    requires Valid(c) && HeapOk(h)
    ensures HeapOk(r.heap) && Grows(h, r.heap)
    ensures r.result.Ok? ==> Created(h, r, t) && CanInstantiate(c.u.table, t)
    ensures r.result.Ok? ==> UnregisteredConstructedWith(c, r.heap, r.result.value, ctor)
  {
    var args := ResolveUnregisteredArgs(c, h, ctor);
    if args.result.Err? then Step(Err(args.result.error), args.heap)
    else if !CanInstantiate(c.u.table, t) then Step(Err(CannotInstantiate(t)), args.heap)
    else
      var (o, h') := Allocate(args.heap, Obj(t, Constructed(args.result.value)));
      UnregisteredArgsFitGrow(c, args.heap, h', ctor, args.result.value);
      Step(Ok(o), h')
  }

  /** Object `o` was built by `ctor`, one argument per parameter as an unregistered type receives them. */
  ghost predicate UnregisteredConstructedWith(c: Container, h: Heap, o: ObjId, ctor: Ctor)
    requires Valid(c)
  {
    && o < |h.objects|
    && h.objects[o].origin.Constructed?
    && |h.objects[o].origin.args| == |ctor|
    && forall k | 0 <= k < |ctor| :: UnregisteredArgFits(c, h, ctor[k], h.objects[o].origin.args[k])
  }

  /**
   `CreateUnregisteredInstance`: with no constructors the runtime's default
   instance; otherwise the satisfiable constructor with the most parameters.
   */
  function CreateUnregistered(c: Container, h: Heap, t: TypeId): (r: Step<ObjId>)
    requires Valid(c) && HeapOk(h)
    ensures HeapOk(r.heap) && Grows(h, r.heap)
    ensures r.result.Ok? ==> Created(h, r, t) && CanInstantiate(c.u.table, t)
    ensures r.result.Ok? && Info(c.u.table, t).ctors == [] ==>
      r.heap.objects[r.result.value].origin == Constructed([])
    ensures r.result.Ok? && Info(c.u.table, t).ctors != [] ==>
      exists ctor | ctor in Info(c.u.table, t).ctors ::
        && CanSatisfyUnregisteredCtor(c, ctor)
        && UnregisteredConstructedWith(c, r.heap, r.result.value, ctor)
        && (forall other | other in Info(c.u.table, t).ctors && |other| > |ctor| :: !CanSatisfyUnregisteredCtor(c, other))
    ensures Info(c.u.table, t).ctors != [] && !CanCreateUnregistered(c, t) ==>
      r == Step(Err(NoSatisfiableUnregisteredConstructor(t)), h)
  {
    var all := Info(c.u.table, t).ctors;
    if all == [] then
      if CanInstantiate(c.u.table, t) then
        var (o, h') := Allocate(h, Obj(t, Constructed([])));
        Step(Ok(o), h')
      else Step(Err(CannotInstantiate(t)), h)
    else
      var ctors := ByArityDescending(all);
      var ok := (k: Ctor) => CanSatisfyUnregisteredCtor(c, k);
      match FirstWhere(ctors, ok)
      case None =>
        NoneAccepted(all, ctors, ok);
        Step(Err(NoSatisfiableUnregisteredConstructor(t)), h)
      case Some(i) =>
        FirstIsLongest(all, ctors, ok, i);
        InvokeUnregistered(c, h, t, ctors[i])
  }

  // === The public API of a scope ===

  /** `New`: refuses a registered singleton; a registered prototype or an unregistered type otherwise. */
  function New(c: Container, h: Heap, t: TypeId): (r: Step<ObjId>)
    requires Valid(c) && HeapOk(h)
    ensures HeapOk(r.heap) && Grows(h, r.heap)
    ensures t in Singletons(c) ==> r == Step(Err(SingletonViaNew(t)), h)
    ensures r.result.Ok? ==> Created(h, r, t)
  {
    if t in Singletons(c) then Step(Err(SingletonViaNew(t)), h)
    else match Lookup(c.reg.prototypes, t)
      case Some(def) => CreatePrototype(c, h, def)
      case None => CreateUnregistered(c, h, t)
  }

  /** `CanNew`: false for singletons, true for prototypes, the constructor check otherwise. */
  predicate CanNew(c: Container, t: TypeId) {
    if t in Singletons(c) then false
    else if t in Prototypes(c) then true
    else CanCreateUnregistered(c, t)
  }
}
