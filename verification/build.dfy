/**
 The rest of `Build`: the dependency graph and its cycle check, singleton
 factories and their assignment, and `Scope.Create`.
 */
module Build {
  import opened Wrappers
  import opened TypeTable
  import opened Collections
  import opened Distance
  import opened Definitions
  import opened Resolution
  import opened Cycles
  import opened Registration

  // === Dependency graph ===

  /** `w` is a singleton assignable to the element type of a parameter of `ctor`. */
  ghost predicate DependsOn(tbl: Table, reg: Registry, ctor: Option<Ctor>, w: TypeId) {
    && ctor.Some?
    && w in Types(reg.singletons)
    && exists p | p in ctor.value :: Assignable(tbl, ElementType(tbl, p), w)
  }

  function ParamDependencies(tbl: Table, reg: Registry, ps: seq<TypeId>): (r: seq<TypeId>)
    ensures forall w :: w in r <==>
      w in Types(reg.singletons) && exists p | p in ps :: Assignable(tbl, ElementType(tbl, p), w)
  {
    if ps == [] then []
    else
      var rest := ParamDependencies(tbl, reg, ps[1..]);
      assert forall p | p in ps :: p == ps[0] || p in ps[1..];
      AssignableTypes(tbl, reg.singletons, ElementType(tbl, ps[0])) + rest
  }

  /** `GetSingletonDependencies`: for each parameter, every singleton its element type accepts. */
  function Dependencies(tbl: Table, reg: Registry, ctor: Option<Ctor>): (r: seq<TypeId>)
    ensures forall w :: w in r <==> DependsOn(tbl, reg, ctor, w)
  {
    if ctor.None? then [] else ParamDependencies(tbl, reg, ctor.value)
  }

  /** `graph[def.Type] = deps` for each definition in order; a new key goes to the end. */
  function AddEdges(tbl: Table, reg: Registry, g: Graph, defs: seq<Def>): (r: Graph)
    requires GraphOk(g) && DistinctTypes(defs)
    ensures GraphOk(r)
    ensures forall v :: v in r.keys <==> v in g.keys || v in Types(defs)
    ensures forall d | d in defs :: Succ(r, d.ty) == Dependencies(tbl, reg, d.ctor)
    ensures forall v | v !in Types(defs) :: Succ(r, v) == Succ(g, v)
    decreases |defs|
  {
    if defs == [] then g
    else
      var d := defs[0];
      var keys := if d.ty in g.edges then g.keys else g.keys + [d.ty];
      var g1 := Graph(keys, g.edges[d.ty := Dependencies(tbl, reg, d.ctor)]);
      ConsFacts(d, defs[1..]);
      assert defs == [d] + defs[1..];
      AddEdges(tbl, reg, g1, defs[1..])
  }

  /** `BuildDependencyGraph`: singleton definitions first, then prototypes, which win on a shared type. */
  function DependencyGraph(tbl: Table, reg: Registry): (g: Graph)
    requires RegistryOk(reg)
    ensures GraphOk(g)
    ensures forall v :: v in g.keys <==> v in Types(reg.singletons) || v in Types(reg.prototypes)
    ensures forall d, w | d in reg.prototypes :: w in Succ(g, d.ty) <==> DependsOn(tbl, reg, d.ctor, w)
    ensures forall d, w | d in reg.singletons && d.ty !in Types(reg.prototypes) ::
      w in Succ(g, d.ty) <==> DependsOn(tbl, reg, d.ctor, w)
  {
    var g1 := AddEdges(tbl, reg, Graph([], map[]), reg.singletons);
    AddEdges(tbl, reg, g1, reg.prototypes)
  }

  // === Singleton factories ===

  /** The registered singletons that implement the factory interface, in registration order. */
  function FactoryTypes(c: Container): (r: seq<TypeId>)
    ensures forall t :: t in r <==> t in Singletons(c) && Assignable(c.u.table, c.u.factoryType, t)
  {
    AssignableTypes(c.u.table, c.reg.singletons, c.u.factoryType)
  }

  /**
   `InstantiateSingletonFactories` as the source writes it: each factory is
   built through its constructor and stored as the type's instance,
   whether or not that type already has one.
   */
  function InstantiateFactoriesAsWritten(c: Container, h: Heap, fts: seq<TypeId>): (r: Step<seq<ObjId>>)
    requires Valid(c) && HeapOk(h)
    requires forall t | t in fts :: t in Singletons(c)
    ensures HeapOk(r.heap)
    ensures |h.objects| <= |r.heap.objects| && r.heap.objects[..|h.objects|] == h.objects
    ensures r.result.Ok? ==> |r.result.value| == |fts|
    decreases |fts|
  {
    if fts == [] then Step(Ok([]), h)
    else
      assert fts[0] in fts;
      assert fts[0] in Singletons(c);
      var def := Lookup(c.reg.singletons, fts[0]).value;
      if def.ctor.None? then Step(Err(MissingConstructor(fts[0])), h)
      else
        var made := CreateViaConstructor(c, h, {}, def.ty, def.ctor.value);
        if made.result.Err? then Step(Err(made.result.error), made.heap)
        else
          var h1 := made.heap.(instances := made.heap.instances[fts[0] := made.result.value]);
          var rest := InstantiateFactoriesAsWritten(c, h1, fts[1..]);
          assert rest.heap.objects[..|h.objects|] == rest.heap.objects[..|h1.objects|][..|h.objects|];
          if rest.result.Err? then rest
          else Step(Ok([made.result.value] + rest.result.value), rest.heap)
  }

  /**
   Whenever a factory type already has an instance when its turn comes (a
   supplied instance, or one created as a dependency of an earlier factory),
   the as-written step either fails or replaces that instance by a second,
   newer object: the singleton then has two instances.
   */
  lemma AsWrittenDuplicatesSingleton(c: Container, h: Heap, fts: seq<TypeId>)
    requires Valid(c) && HeapOk(h)
    requires forall t | t in fts :: t in Singletons(c)
    requires |fts| > 0 && fts[0] in h.instances
    requires InstantiateFactoriesAsWritten(c, h, [fts[0]]).result.Ok?
    ensures var r := InstantiateFactoriesAsWritten(c, h, [fts[0]]);
      && fts[0] in r.heap.instances
      && r.heap.instances[fts[0]] != h.instances[fts[0]]
      && h.instances[fts[0]] < |h.objects| <= r.heap.instances[fts[0]]
  {
  }

  /**
   Concrete case: factory `F1` (id 2) takes factory `F2` (id 1) as its only
   constructor parameter and is registered first. Building `F1` creates `F2`
   (object 0) as a dependency; `F2`'s own turn then creates object 2 and caches
   it, while `F1` (object 1) keeps object 0.
   */
  lemma AsWrittenTwoInstancesExample()
    ensures var o1, o2 := Obj(1, Constructed([])), Obj(2, Constructed([Single(0)]));
      InstantiateFactoriesAsWritten(ExampleContainer(), Heap([], map[]), [2, 1])
        == Step(Ok([1, 2]), Heap([o1, o2, o1], map[1 := 2, 2 := 1]))
  {
    var c := ExampleContainer();
    var o1, o2 := Obj(1, Constructed([])), Obj(2, Constructed([Single(0)]));
    ExampleFirstTurn();
    ExampleSecondFactory();
    var rest := InstantiateFactoriesAsWritten(c, Heap([o1, o2], map[1 := 0, 2 := 1]), [1]);
    assert rest == Step(Ok([2]), Heap([o1, o2, o1], map[1 := 2, 2 := 1]));
    assert [1] + [2] == [1, 2];
  }

  /** `F1`'s turn, with `F2`'s turn still to come. */
  lemma ExampleFirstTurn()
    ensures var c := ExampleContainer();
      var o1, o2 := Obj(1, Constructed([])), Obj(2, Constructed([Single(0)]));
      var rest := InstantiateFactoriesAsWritten(c, Heap([o1, o2], map[1 := 0, 2 := 1]), [1]);
      rest.result.Ok? ==>
        InstantiateFactoriesAsWritten(c, Heap([], map[]), [2, 1]) == Step(Ok([1] + rest.result.value), rest.heap)
  {
    var c := ExampleContainer();
    ExampleFacts();
    ExampleFirstFactory();
    var o1, o2 := Obj(1, Constructed([])), Obj(2, Constructed([Single(0)]));
    var hb := Heap([o1, o2], map[1 := 0]);
    assert hb.(instances := hb.instances[2 := 1]) == Heap([o1, o2], map[1 := 0, 2 := 1]);
    assert [2, 1][1..] == [1] && [2, 1][0] == 2;
    assert Lookup(c.reg.singletons, 2).value.ctor == Some([1]);
  }

  /** The lookups the example needs: both factories' definitions, and `F2` as the only singleton assignable to `F2`. */
  lemma ExampleFacts()
    ensures var c := ExampleContainer();
      && Lookup(c.reg.singletons, 1) == Some(Def(1, 0, Some([]), None))
      && Lookup(c.reg.singletons, 2) == Some(Def(2, 0, Some([1]), None))
      && CanInstantiate(c.u.table, 1) && CanInstantiate(c.u.table, 2)
      && !IsArray(c.u.table, 1) && !IsCollectionType(c.u.table, 1)
      && 1 !in Prototypes(c)
      && FindSingletonType(c.u.table, c.reg, 1) == Ok(1)
      && Singletons(c) == [2, 1] && Prototypes(c) == []
  {
    var c := ExampleContainer();
    var tbl := c.u.table;
    assert !Assignable(tbl, 1, 2) by {
      assert Parents(tbl, 2) == {0};
      assert !Assignable(tbl, 1, 0);
    }
    assert AssignableTypes(tbl, c.reg.singletons, 1) == [1];
  }

  /** `F1`'s one parameter: `F2` is created as a dependency (object 0) and cached. */
  lemma ExampleDependency()
    ensures ResolveArgs(ExampleContainer(), Heap([], map[]), {}, [1])
      == Step(Ok([Single(0)]), Heap([Obj(1, Constructed([]))], map[1 := 0]))
  {
    var c := ExampleContainer();
    ExampleFacts();
    ExampleEnsureF2();
    var ha := Heap([Obj(1, Constructed([]))], map[1 := 0]);
    assert Resolve(c, Heap([], map[]), {}, 1) == Step(Ok(0), ha);
    assert ResolveParam(c, Heap([], map[]), {}, 1) == Step(Ok(Single(0)), ha);
    assert ResolveArgs(c, ha, {}, []) == Step(Ok([]), ha);
    assert [1][1..] == [] && [Single(0)] + [] == [Single(0)];
  }

  /** `F2` resolved on an empty heap: created as object 0 and cached. */
  lemma ExampleEnsureF2()
    ensures Ensure(ExampleContainer(), Heap([], map[]), {}, 1) == Step(Ok(0), Heap([Obj(1, Constructed([]))], map[1 := 0]))
  {
    var c := ExampleContainer();
    ExampleFacts();
    var h0 := Heap([], map[]);
    var o1 := Obj(1, Constructed([]));
    var d1 := Def(1, 0, Some([]), None);
    assert ResolveArgs(c, h0, {1}, []) == Step(Ok([]), h0);
    assert CreateViaConstructor(c, h0, {1}, 1, []) == Step(Ok(0), Heap([o1], map[]));
    assert CreateSingleton(c, h0, {1}, d1) == Step(Ok(0), Heap([o1], map[]));
    assert {} + {1} == {1};
  }

  /** `F1` itself: object 1, built with object 0. */
  lemma ExampleFirstFactory()
    ensures CreateViaConstructor(ExampleContainer(), Heap([], map[]), {}, 2, [1])
      == Step(Ok(1), Heap([Obj(1, Constructed([])), Obj(2, Constructed([Single(0)]))], map[1 := 0]))
  {
    ExampleFacts();
    ExampleDependency();
  }

  /** `F2`'s own turn: object 2 is created and replaces object 0 as `F2`'s instance. */
  lemma ExampleSecondFactory()
    ensures var c := ExampleContainer();
      var o1, o2 := Obj(1, Constructed([])), Obj(2, Constructed([Single(0)]));
      InstantiateFactoriesAsWritten(c, Heap([o1, o2], map[1 := 0, 2 := 1]), [1])
        == Step(Ok([2]), Heap([o1, o2, o1], map[1 := 2, 2 := 1]))
  {
    var c := ExampleContainer();
    ExampleFacts();
    var o1, o2 := Obj(1, Constructed([])), Obj(2, Constructed([Single(0)]));
    var hb := Heap([o1, o2], map[1 := 0, 2 := 1]);
    assert ResolveArgs(c, hb, {}, []) == Step(Ok([]), hb);
    var hc := Heap([o1, o2, o1], map[1 := 0, 2 := 1]);
    assert CreateViaConstructor(c, hb, {}, 1, []) == Step(Ok(2), hc);
    var hc' := Heap([o1, o2, o1], map[1 := 2, 2 := 1]);
    assert hc.(instances := hc.instances[1 := 2]) == hc';
    assert [1][1..] == [] && [1][0] == 1 && [2] + [] == [2];
    assert Lookup(c.reg.singletons, 1).value.ctor == Some([]);
    assert InstantiateFactoriesAsWritten(c, hc', []) == Step(Ok([]), hc');
  }

  /** A factory interface (0) and two factories; `F1` (2) depends on `F2` (1). */
  function ExampleContainer(): (c: Container)
    ensures Valid(c)
  {
    var factory := TypeInfo("IFactory", InterfaceKind, false, false, None, [], Plain, [], None, None, None);
    var f2 := TypeInfo("F2", ClassKind, false, false, None, [0], Plain, [[]], Some(Attr(true, 0)), None, Some(3));
    var f1 := TypeInfo("F1", ClassKind, false, false, None, [0], Plain, [[1]], Some(Attr(true, 0)), None, Some(4));
    var tbl: map<TypeId, TypeInfo> := map[0 := factory, 1 := f2, 2 := f1];
    assert WellFormed(tbl) by {
      assert EntryWellFormed(tbl, 0) && EntryWellFormed(tbl, 1) && EntryWellFormed(tbl, 2);
    }
    var u := Universe(tbl, 5, 6, 0, 7);
    var reg := Registry([Def(2, 0, Some([1]), None), Def(1, 0, Some([]), None)], [], []);
    Container(u, reg, 0)
  }

  /**
   `InstantiateSingletonFactories`, corrected: each factory is the type's one
   cached instance, created only when the type has none.
   */
  function InstantiateSingletonFactories(c: Container, h: Heap): (r: Step<seq<ObjId>>)
    requires Valid(c) && HeapOk(h)
    ensures HeapOk(r.heap) && Grows(h, r.heap)
    ensures r.result.Ok? ==> |r.result.value| == |FactoryTypes(c)|
    ensures r.result.Ok? ==> forall i | 0 <= i < |FactoryTypes(c)| ::
      FactoryTypes(c)[i] in r.heap.instances && r.result.value[i] == r.heap.instances[FactoryTypes(c)[i]]
  {
    EnsureAll(c, h, {}, FactoryTypes(c))
  }

  // === Factory assignment ===

  /** `CalculateDistance(type, factory.TargetType)`; a factory without a target type matches nothing. */
  function FactoryDistance(tbl: Table, h: Heap, f: ObjId, t: TypeId): int {
    if f >= |h.objects| then -1
    else match Info(tbl, h.objects[f].ty).factoryTarget
    case None => -1
    case Some(target) => CalculateDistance(tbl, t, target)
  }

  /** The smallest non-negative entry of `ds`, or -1 when there is none. */
  function MinDistance(ds: seq<int>): (m: int)
    ensures m >= -1
    ensures m == -1 <==> forall k | 0 <= k < |ds| :: ds[k] < 0
    ensures m >= 0 ==> (exists k | 0 <= k < |ds| :: ds[k] == m) && forall k | 0 <= k < |ds| && ds[k] >= 0 :: m <= ds[k]
  {
    if ds == [] then -1
    else
      var rest := MinDistance(ds[1..]);
      assert forall k | 1 <= k < |ds| :: ds[k] == ds[1..][k - 1];
      if ds[0] < 0 then rest
      else if rest == -1 || ds[0] <= rest then ds[0]
      else rest
  }

  /** The indices `k >= from` with `ds[k] == m`, ascending. */
  function IndicesOf(ds: seq<int>, m: int, from: nat): (r: seq<nat>)
    requires from <= |ds|
    ensures forall k :: k in r <==> from <= k < |ds| && ds[k] == m
    ensures forall i, j | 0 <= i < j < |r| :: r[i] < r[j]
    decreases |ds| - from
  {
    if from == |ds| then []
    else
      var rest := IndicesOf(ds, m, from + 1);
      assert forall j | 0 <= j < |rest| :: rest[j] in rest;
      if ds[from] == m then [from] + rest else rest
  }

  /**
   The index of the unique smallest non-negative entry of `ds`, nothing when
   every entry is negative, or every index at the smallest distance when
   several share it.
   */
  function Closest(ds: seq<int>): (r: Result<Option<nat>, seq<nat>>)
    ensures r == Ok(None) <==> forall k | 0 <= k < |ds| :: ds[k] < 0
    ensures r.Ok? && r.value.Some? ==>
      var i := r.value.value;
      i < |ds| && ds[i] >= 0 && forall k | 0 <= k < |ds| && k != i :: ds[k] < 0 || ds[k] > ds[i]
    ensures r.Err? ==>
      var best := r.error;
      && |best| >= 2 && best[0] < best[1] < |ds|
      && ds[best[0]] == ds[best[1]] >= 0
      && (forall k | 0 <= k < |ds| && ds[k] >= 0 :: ds[k] >= ds[best[0]])
      && (forall k :: k in best <==> 0 <= k < |ds| && ds[k] == ds[best[0]])
  {
    var m := MinDistance(ds);
    if m == -1 then Ok(None)
    else
      var best := IndicesOf(ds, m, 0);
      WitnessInIndices(ds, m, best);
      if |best| > 1 then
        assert best[0] in best && best[1] in best;
        Err(best)
      else
        assert best[0] in best;
        Ok(Some(best[0]))
  }

  lemma WitnessInIndices(ds: seq<int>, m: int, best: seq<nat>)
    requires exists k | 0 <= k < |ds| :: ds[k] == m
    requires forall k :: k in best <==> 0 <= k < |ds| && ds[k] == m
    ensures |best| > 0
    ensures |best| == 1 ==> forall k | 0 <= k < |ds| && k != best[0] :: ds[k] != m
  {
    var k :| 0 <= k < |ds| && ds[k] == m;
    assert k in best;
  }

  /** The distance from `t` to each factory's target type, in factory order. */
  function Distances(tbl: Table, h: Heap, fs: seq<ObjId>, t: TypeId): (ds: seq<int>)
    ensures |ds| == |fs|
    ensures forall k | 0 <= k < |fs| :: ds[k] == FactoryDistance(tbl, h, fs[k], t)
  {
    seq(|fs|, k requires 0 <= k < |fs| => FactoryDistance(tbl, h, fs[k], t))
  }

  /** The entries of `fs` at the given indices. */
  function Pick(fs: seq<ObjId>, ks: seq<nat>): (r: seq<ObjId>)
    requires forall i | 0 <= i < |ks| :: ks[i] < |fs|
    ensures |r| == |ks| && forall i | 0 <= i < |ks| :: r[i] == fs[ks[i]]
  {
    if ks == [] then []
    else
      [fs[ks[0]]] + Pick(fs, ks[1..])
  }

  /**
   The choice `FindFactoryForType` makes, given each factory's distance: no
   factory when none applies, the unique closest one, or an error naming
   every factory at the smallest distance.
   */
  function ChooseFactory(fs: seq<ObjId>, ds: seq<int>, t: TypeId): (r: Result<Option<ObjId>, ScopeError>)
    requires |ds| == |fs|
    ensures r == Ok(None) <==> forall k | 0 <= k < |fs| :: ds[k] < 0
    ensures r.Ok? && r.value.Some? ==> exists i | 0 <= i < |fs| ::
      && fs[i] == r.value.value && ds[i] >= 0
      && forall k | 0 <= k < |fs| && k != i :: ds[k] < 0 || ds[k] > ds[i]
    ensures r.Err? ==> r.error.AmbiguousFactory? && r.error.target == t && |r.error.factories| >= 2
    ensures r.Err? ==> exists i, j | 0 <= i < j < |fs| ::
      && ds[i] == ds[j] >= 0
      && forall k | 0 <= k < |fs| && ds[k] >= 0 :: ds[k] >= ds[i]
  {
    match Closest(ds)
    case Ok(None) => Ok(None)
    case Ok(Some(i)) =>
      assert fs[i] == fs[i] && ds[i] >= 0;
      Ok(Some(fs[i]))
    case Err(best) =>
      TiedFacts(ds, best);
      Err(AmbiguousFactory(t, Pick(fs, best)))
  }

  /** What a tie reported by `Closest` guarantees: at least two valid indices at the smallest non-negative distance. */
  lemma TiedFacts(ds: seq<int>, best: seq<nat>)
    requires Closest(ds) == Err(best)
    ensures |best| >= 2 && forall m | 0 <= m < |best| :: best[m] < |ds|
    ensures exists i, j | 0 <= i < j < |ds| ::
      && ds[i] == ds[j] >= 0
      && forall k | 0 <= k < |ds| && ds[k] >= 0 :: ds[k] >= ds[i]
    ensures exists k | 0 <= k < |ds| :: ds[k] >= 0
  {
    var i, j := best[0], best[1];
    assert 0 <= i < j < |ds| && ds[i] == ds[j] >= 0;
    assert forall m | 0 <= m < |best| :: best[m] in best;
  }

  /** `FindFactoryForType`: `ChooseFactory` over the distances from `t` to each factory's target. */
  function FindFactoryForType(tbl: Table, h: Heap, fs: seq<ObjId>, t: TypeId): (r: Result<Option<ObjId>, ScopeError>)
  {
    ChooseFactory(fs, Distances(tbl, h, fs, t), t)
  }

  /** The factory-assignment loop over one definition list; `skip` as in `SelectFor`. */
  function AssignFor(tbl: Table, h: Heap, fs: seq<ObjId>, defs: seq<Def>, skip: set<TypeId>): (r: Result<seq<Def>, ScopeError>)
    ensures r.Ok? ==> |r.value| == |defs| && Types(r.value) == Types(defs)
    ensures r.Ok? ==> forall i | 0 <= i < |defs| ::
      && r.value[i].ty == defs[i].ty && r.value[i].priority == defs[i].priority
      && r.value[i].ctor == defs[i].ctor
      && (defs[i].ty in skip ==> r.value[i].factory == defs[i].factory)
      && (defs[i].ty !in skip ==> FindFactoryForType(tbl, h, fs, defs[i].ty) == Ok(r.value[i].factory))
    ensures r.Err? <==> exists i | 0 <= i < |defs| :: defs[i].ty !in skip && FindFactoryForType(tbl, h, fs, defs[i].ty).Err?
  {
    if defs == [] then Ok([])
    else
      var d := defs[0];
      var first: Result<Def, ScopeError> :=
        if d.ty in skip then Ok(d)
        else match FindFactoryForType(tbl, h, fs, d.ty)
          case Ok(f) => Ok(d.(factory := f))
          case Err(e) => Err(e);
      if first.Err? then Err(first.error)
      else match AssignFor(tbl, h, fs, defs[1..], skip)
        case Err(e) => Err(e)
        case Ok(rest) =>
          assert Types(defs) == [d.ty] + Types(defs[1..]);
          var r := [first.value] + rest;
          assert Types(r) == [first.value.ty] + Types(rest);
          Ok(r)
  }

  /** Every definition that can be created has the factory `FindFactoryForType` picks for it. */
  ghost predicate FactoriesAssigned(tbl: Table, reg: Registry, h: Heap, out: Registry) {
    && Types(out.singletons) == Types(reg.singletons)
    && Types(out.prototypes) == Types(reg.prototypes)
    && out.factories == reg.factories
    && (forall i | 0 <= i < |reg.singletons| ::
          && out.singletons[i].ctor == reg.singletons[i].ctor
          && out.singletons[i].priority == reg.singletons[i].priority
          && (reg.singletons[i].ty !in h.instances ==>
                FindFactoryForType(tbl, h, reg.factories, reg.singletons[i].ty) == Ok(out.singletons[i].factory)))
    && (forall i | 0 <= i < |reg.prototypes| ::
          && out.prototypes[i].ctor == reg.prototypes[i].ctor
          && out.prototypes[i].priority == reg.prototypes[i].priority
          && FindFactoryForType(tbl, h, reg.factories, reg.prototypes[i].ty) == Ok(out.prototypes[i].factory))
  }

  /** `AssignFactoriesToTypes`: singletons without an instance, then every prototype. */
  function AssignFactoriesToTypes(tbl: Table, reg: Registry, h: Heap): (r: Result<Registry, ScopeError>)
    requires RegistryOk(reg)
    ensures r.Ok? ==> RegistryOk(r.value) && FactoriesAssigned(tbl, reg, h, r.value)
  {
    match AssignFor(tbl, h, reg.factories, reg.singletons, h.instances.Keys)
    case Err(e) => Err(e)
    case Ok(singletons) =>
      match AssignFor(tbl, h, reg.factories, reg.prototypes, {})
      case Err(e) => Err(e)
      case Ok(prototypes) =>
        SameTypesDistinct(reg.singletons, singletons);
        SameTypesDistinct(reg.prototypes, prototypes);
        Ok(Registry(singletons, prototypes, reg.factories))
  }

  // === Build and Create ===

  /** A built scope: the container and the heap. */
  datatype Scope = Scope(container: Container, heap: Heap)

  /**
   The first four steps of `Build`: registration, constructor selection, the
   prototype-in-collection check and the cycle check. They pass exactly when
   every definition to be constructed has a satisfiable constructor, no
   collection parameter collects a prototype, and the dependency graph has
   no cycle.
   */
  function Prepare(tbl: Table, reg0: Registry, h0: Heap, types: seq<TypeId>): (r: Result<Registry, ScopeError>)
    requires RegistryOk(reg0) && HeapOk(h0)
    ensures var (reg1, h1) := RegisterTypes(tbl, reg0, h0, types);
      r.Ok? ==>
        && RegistryOk(r.value)
        && ConstructorsSelected(tbl, reg1, h1, r.value)
        && NoPrototypeInCollections(tbl, r.value, r.value.singletons)
        && NoPrototypeInCollections(tbl, r.value, r.value.prototypes)
        && Acyclic(DependencyGraph(tbl, r.value))
    ensures var (reg1, h1) := RegisterTypes(tbl, reg0, h0, types);
      SelectAllConstructors(tbl, reg1, h1).Ok? ==>
        var sel := SelectAllConstructors(tbl, reg1, h1).value;
        (r.Ok? <==>
          && NoPrototypeInCollections(tbl, sel, sel.singletons)
          && NoPrototypeInCollections(tbl, sel, sel.prototypes)
          && Acyclic(DependencyGraph(tbl, sel)))
    ensures var (reg1, h1) := RegisterTypes(tbl, reg0, h0, types);
      SelectAllConstructors(tbl, reg1, h1).Err? ==> r.Err?
  {
    var (reg1, h1) := RegisterTypes(tbl, reg0, h0, types);
    match SelectAllConstructors(tbl, reg1, h1)
    case Err(e) => Err(e)
    case Ok(reg2) =>
      match ValidatePrototypeUsage(tbl, reg2)
      case Err(e) => Err(e)
      case Ok(_) =>
        var g := DependencyGraph(tbl, reg2);
        VerifyNoCyclesCorrect(g);
        match VerifyNoCycles(g)
        case Err(cycle) => Err(CircularDependency(cycle))
        case Ok(_) => Ok(reg2)
  }

  /** The definitions of `a` and `b` have the same types and constructors, in the same order. */
  ghost predicate SameDefinitions(a: Registry, b: Registry) {
    && Types(a.singletons) == Types(b.singletons)
    && Types(a.prototypes) == Types(b.prototypes)
    && (forall i | 0 <= i < |a.singletons| :: a.singletons[i].ctor == b.singletons[i].ctor)
    && (forall i | 0 <= i < |a.prototypes| :: a.prototypes[i].ctor == b.prototypes[i].ctor)
  }

  /**
   The last two steps of `Build`: singleton factories are created and cached,
   then assigned to the types they serve.
   */
  function Finish(u: Universe, reg: Registry, h: Heap, self: ObjId): (r: Result<Scope, ScopeError>)
    requires RegistryOk(reg) && HeapOk(h)
    ensures r.Ok? ==> Valid(r.value.container) && HeapOk(r.value.heap) && Grows(h, r.value.heap)
    ensures r.Ok? ==> r.value.container.u == u && r.value.container.self == self
    ensures r.Ok? ==> SameDefinitions(r.value.container.reg, reg)
    ensures r.Ok? ==> FactoriesAssigned(u.table, reg.(factories := r.value.container.reg.factories), r.value.heap, r.value.container.reg)
  {
    var made := InstantiateSingletonFactories(Container(u, reg, self), h);
    match made.result
    case Err(e) => Err(e)
    case Ok(fs) =>
      var reg3 := reg.(factories := fs);
      match AssignFactoriesToTypes(u.table, reg3, made.heap)
      case Err(e) => Err(e)
      case Ok(reg4) => Ok(Scope(Container(u, reg4, self), made.heap))
  }

  /**
   `Build`: the six steps in order; the first failure aborts the build. A
   built scope keeps the prepared definitions, with factories assigned.
   */
  function BuildScope(u: Universe, reg0: Registry, h0: Heap, self: ObjId, types: seq<TypeId>): (r: Result<Scope, ScopeError>)
    requires RegistryOk(reg0) && HeapOk(h0)
    ensures r.Ok? ==> Valid(r.value.container) && HeapOk(r.value.heap)
    ensures r.Ok? ==> r.value.container.u == u && r.value.container.self == self
    ensures r.Ok? ==> |h0.objects| <= |r.value.heap.objects| && r.value.heap.objects[..|h0.objects|] == h0.objects
    ensures r.Ok? ==> forall t | t in h0.instances && t !in types ::
      t in r.value.heap.instances && r.value.heap.instances[t] == h0.instances[t]
    ensures r.Ok? ==> Prepare(u.table, reg0, h0, types).Ok?
    ensures r.Ok? ==> SameDefinitions(r.value.container.reg, Prepare(u.table, reg0, h0, types).value)
    ensures Prepare(u.table, reg0, h0, types).Err? ==> r.Err?
  {
    var (reg1, h1) := RegisterTypes(u.table, reg0, h0, types);
    match Prepare(u.table, reg0, h0, types)
    case Err(e) => Err(e)
    case Ok(reg2) => Finish(u, reg2, h1, self)
  }

  /** Every cached instance is a supplied object of its own type. */
  predicate SuppliedHeap(h: Heap) {
    forall t | t in h.instances :: h.instances[t] < |h.objects| && h.objects[h.instances[t]] == Obj(t, Supplied)
  }

  /** The invariant `Supply` keeps: every cached type has a singleton definition. */
  predicate SupplyOk(reg: Registry, h: Heap) {
    && RegistryOk(reg) && SuppliedHeap(h)
    && forall t | t in h.instances :: t in Types(reg.singletons)
  }

  /** One supplied instance of runtime type `t`: a new object, cached as `t`'s instance. */
  function SupplyOne(reg: Registry, h: Heap, t: TypeId): (r: (Registry, Heap))
    requires SupplyOk(reg, h)
    ensures SupplyOk(r.0, r.1)
    ensures r.0.prototypes == reg.prototypes && r.0.factories == reg.factories
    ensures forall x :: x in r.1.instances <==> x in h.instances || x == t
    ensures r.1.objects == h.objects + [Obj(t, Supplied)]
  {
    var (o, h1) := Allocate(h, Obj(t, Supplied));
    var h2 := h1.(instances := h1.instances[t := o]);
    var reg1 := reg.(singletons := Put(reg.singletons, Def(t, 0, None, None)));
    assert forall x | x != t :: Lookup(reg1.singletons, x) == Lookup(reg.singletons, x);
    (reg1, h2)
  }

  /**
   The definitions and objects for instances handed to `Create`, in order: each
   becomes a singleton definition of its runtime type that already has its
   instance; a later instance of the same type replaces an earlier one.
   */
  function Supply(reg: Registry, h: Heap, ts: seq<TypeId>): (r: (Registry, Heap))
    requires SupplyOk(reg, h)
    ensures SupplyOk(r.0, r.1) && HeapOk(r.1)
    ensures r.0.prototypes == reg.prototypes && r.0.factories == reg.factories
    ensures forall t :: t in r.1.instances <==> t in h.instances || t in ts
    ensures |r.1.objects| == |h.objects| + |ts| && r.1.objects[..|h.objects|] == h.objects
    decreases |ts|
  {
    if ts == [] then (reg, h)
    else
      var (reg1, h1) := SupplyOne(reg, h, ts[0]);
      var r := Supply(reg1, h1, ts[1..]);
      assert forall t | t in ts :: t == ts[0] || t in ts[1..];
      assert r.1.objects[..|h.objects|] == r.1.objects[..|h1.objects|][..|h.objects|];
      r
  }

  /**
   `Scope.Create`: the scope itself (object 0, of the scope type) and each
   supplied instance become singleton definitions with instances, then the
   types are built.
   */
  function Create(u: Universe, types: seq<TypeId>, supplied: seq<TypeId>): (r: Result<Scope, ScopeError>)
    ensures r.Ok? ==> r.value.container.u == u && r.value.container.self == 0
    ensures r.Ok? ==> forall t | (t == u.scopeType || t in supplied) && t !in types ::
      var h := r.value.heap;
      t in h.instances && h.instances[t] < |h.objects| && h.objects[h.instances[t]] == Obj(t, Supplied)
  {
    var reg0 := Registry([Def(u.scopeType, 0, None, None)], [], []);
    var h0 := Heap([Obj(u.scopeType, Supplied)], map[u.scopeType := 0]);
    ConsFacts(Def(u.scopeType, 0, None, None), []);
    var (reg1, h1) := Supply(reg0, h0, supplied);
    var r := BuildScope(u, reg1, h1, 0, types);
    if r.Ok? then
      KeepsSupplied(h1, r.value.heap, types);
      r
    else r
  }

  lemma KeepsSupplied(h1: Heap, h: Heap, types: seq<TypeId>)
    requires SuppliedHeap(h1)
    requires |h1.objects| <= |h.objects| && h.objects[..|h1.objects|] == h1.objects
    requires forall t | t in h1.instances && t !in types :: t in h.instances && h.instances[t] == h1.instances[t]
    ensures forall t | t in h1.instances && t !in types ::
      t in h.instances && h.instances[t] < |h.objects| && h.objects[h.instances[t]] == Obj(t, Supplied)
  {
    forall t | t in h1.instances && t !in types
      ensures t in h.instances && h.instances[t] < |h.objects| && h.objects[h.instances[t]] == Obj(t, Supplied)
    {
      assert h.objects[h1.instances[t]] == h.objects[..|h1.objects|][h1.instances[t]];
    }
  }

  /**
   After `Create`, resolving a supplied instance's type (one that no other
   singleton matches) returns that very instance and creates nothing.
   */
  lemma ResolveSupplied(u: Universe, types: seq<TypeId>, supplied: seq<TypeId>, t: TypeId)
    requires Create(u, types, supplied).Ok?
    requires t in supplied && t !in types
    requires var sc := Create(u, types, supplied).value;
      t !in Prototypes(sc.container) && FindSingletonType(u.table, sc.container.reg, t) == Ok(t)
    ensures var sc := Create(u, types, supplied).value;
      var r := Resolve(sc.container, sc.heap, {}, t);
      && r.heap == sc.heap && r.result.Ok?
      && sc.heap.objects[r.result.value] == Obj(t, Supplied)
  {
    var sc := Create(u, types, supplied).value;
    var m := FindSingletonType(u.table, sc.container.reg, t);
    assert t in Singletons(sc.container);
  }
}
