/**
 The first three build steps: `RegisterTypes`, constructor selection and the
 prototype-in-collection check.
 */
module Registration {
  import opened Wrappers
  import opened TypeTable
  import opened Collections
  import opened Definitions

  // === RegisterTypes ===

  /** The prototype attribute's priority, else the module attribute's, else 0. */
  function PriorityOf(tbl: Table, t: TypeId): int {
    var info := Info(tbl, t);
    if info.prototypeAttr.Some? then info.prototypeAttr.value.priority
    else if info.moduleAttr.Some? then info.moduleAttr.value.priority
    else 0
  }

  /** A fresh definition for a registered type: no constructor or factory yet. */
  function FreshDef(tbl: Table, t: TypeId): Def {
    Def(t, PriorityOf(tbl, t), None, None)
  }

  predicate RegistryOk(reg: Registry) {
    DistinctTypes(reg.singletons) && DistinctTypes(reg.prototypes)
  }

  /**
   One iteration of `RegisterTypes`: a type with the prototype attribute
   becomes (or replaces) a prototype definition, any other type a singleton
   definition; a replaced singleton definition loses its instance.
   */
  function RegisterType(tbl: Table, reg: Registry, h: Heap, t: TypeId): (r: (Registry, Heap))
    requires RegistryOk(reg) && HeapOk(h)
    ensures RegistryOk(r.0) && HeapOk(r.1)
    ensures r.0.factories == reg.factories && r.1.objects == h.objects
    ensures Info(tbl, t).prototypeAttr.Some? ==>
      && Lookup(r.0.prototypes, t) == Some(FreshDef(tbl, t))
      && r.0.singletons == reg.singletons && r.1 == h
    ensures Info(tbl, t).prototypeAttr.None? ==>
      && Lookup(r.0.singletons, t) == Some(FreshDef(tbl, t))
      && r.0.prototypes == reg.prototypes && t !in r.1.instances
    ensures forall x | x != t :: Lookup(r.0.singletons, x) == Lookup(reg.singletons, x)
    ensures forall x | x != t :: Lookup(r.0.prototypes, x) == Lookup(reg.prototypes, x)
    ensures forall x | x != t :: (x in r.1.instances <==> x in h.instances)
    ensures forall x | x in r.1.instances :: x in h.instances && r.1.instances[x] == h.instances[x]
  {
    if Info(tbl, t).prototypeAttr.Some? then
      (reg.(prototypes := Put(reg.prototypes, FreshDef(tbl, t))), h)
    else
      (reg.(singletons := Put(reg.singletons, FreshDef(tbl, t))), h.(instances := h.instances - {t}))
  }

  /** `RegisterTypes`: `RegisterType` for each type in list order. */
  function RegisterTypes(tbl: Table, reg: Registry, h: Heap, types: seq<TypeId>): (r: (Registry, Heap))
    requires RegistryOk(reg) && HeapOk(h)
    ensures RegistryOk(r.0) && HeapOk(r.1)
    ensures r.0.factories == reg.factories && r.1.objects == h.objects
    decreases |types|
    ensures forall t | t in types && Info(tbl, t).prototypeAttr.Some? ::
      Lookup(r.0.prototypes, t) == Some(FreshDef(tbl, t))
    ensures forall t | t in types && Info(tbl, t).prototypeAttr.None? ::
      Lookup(r.0.singletons, t) == Some(FreshDef(tbl, t)) && t !in r.1.instances
    ensures forall x | x !in types :: Lookup(r.0.singletons, x) == Lookup(reg.singletons, x)
    ensures forall x | x !in types :: Lookup(r.0.prototypes, x) == Lookup(reg.prototypes, x)
    ensures forall x | x !in types :: (x in r.1.instances <==> x in h.instances)
    ensures forall x | x in r.1.instances :: x in h.instances && r.1.instances[x] == h.instances[x]
  {
    if types == [] then (reg, h)
    else
      var (reg1, h1) := RegisterType(tbl, reg, h, types[0]);
      RegisterTypes(tbl, reg1, h1, types[1..])
  }

  // === Constructor selection ===

  /** `CanSatisfyParameter`: a collection (possibly empty) or a resolvable singleton. */
  predicate CanSatisfyParameter(tbl: Table, reg: Registry, p: TypeId) {
    IsCollectionType(tbl, p) || CanResolve(tbl, reg, p)
  }

  predicate CanSatisfyConstructor(tbl: Table, reg: Registry, ctor: Ctor) {
    forall p | p in ctor :: CanSatisfyParameter(tbl, reg, p)
  }

  /** `IsPrototypeDependency`: some registered prototype is assignable to `p`. */
  predicate IsPrototypeDependency(tbl: Table, reg: Registry, p: TypeId) {
    exists q | q in Types(reg.prototypes) :: Assignable(tbl, p, q)
  }

  /** The tag the failure message gives one parameter. */
  function Status(tbl: Table, reg: Registry, p: TypeId): ParamStatus {
    if CanSatisfyParameter(tbl, reg, p) then OkParam
    else if IsPrototypeDependency(tbl, reg, p) then PrototypeParam
    else MissingParam
  }

  function Report(tbl: Table, reg: Registry, ctor: Ctor): (r: seq<ParamReport>)
    ensures |r| == |ctor|
    ensures forall i | 0 <= i < |ctor| :: r[i].ty == ctor[i]
    ensures forall i | 0 <= i < |ctor| :: (r[i].status == OkParam <==> CanSatisfyParameter(tbl, reg, ctor[i]))
    ensures forall i | 0 <= i < |ctor| ::
      (r[i].status == PrototypeParam <==> !CanSatisfyParameter(tbl, reg, ctor[i]) && IsPrototypeDependency(tbl, reg, ctor[i]))
  {
    seq(|ctor|, i requires 0 <= i < |ctor| => ParamReport(ctor[i], Status(tbl, reg, ctor[i])))
  }

  /** Some parameter of the report is not satisfiable. */
  predicate FlagsFailure(rep: seq<ParamReport>) {
    exists j | 0 <= j < |rep| :: rep[j].status != OkParam
  }

  /** The reports on unsatisfiable constructors, one per constructor, in the given order. */
  function Reports(tbl: Table, reg: Registry, ctors: seq<Ctor>): (r: seq<seq<ParamReport>>)
    requires forall k | 0 <= k < |ctors| :: !CanSatisfyConstructor(tbl, reg, ctors[k])
    ensures |r| == |ctors|
    ensures forall k | 0 <= k < |ctors| :: r[k] == Report(tbl, reg, ctors[k])
    ensures forall k | 0 <= k < |r| :: FlagsFailure(r[k])
  {
    var r := seq(|ctors|, k requires 0 <= k < |ctors| => Report(tbl, reg, ctors[k]));
    NotOkParams(tbl, reg, ctors, r);
    r
  }

  lemma NotOkParams(tbl: Table, reg: Registry, ctors: seq<Ctor>, r: seq<seq<ParamReport>>)
    requires forall k | 0 <= k < |ctors| :: !CanSatisfyConstructor(tbl, reg, ctors[k])
    requires |r| == |ctors| && forall k | 0 <= k < |ctors| :: r[k] == Report(tbl, reg, ctors[k])
    ensures forall k | 0 <= k < |r| :: FlagsFailure(r[k])
  {
    forall k | 0 <= k < |r|
      ensures FlagsFailure(r[k])
    {
      var p :| p in ctors[k] && !CanSatisfyParameter(tbl, reg, p);
      var j :| 0 <= j < |ctors[k]| && ctors[k][j] == p;
      assert r[k][j].status != OkParam;
      assert FlagsFailure(r[k]);
    }
  }

  /**
   `SelectConstructor`: the satisfiable constructor with the most parameters
   (the first such in declaration order among equals), or the failure with a
   report on every constructor, longest first.
   */
  function SelectConstructor(tbl: Table, reg: Registry, t: TypeId): (r: Result<Ctor, ScopeError>)
    ensures r.Ok? ==> r.value in Info(tbl, t).ctors && CanSatisfyConstructor(tbl, reg, r.value)
    ensures r.Ok? ==> forall other | other in Info(tbl, t).ctors && |other| > |r.value| ::
      !CanSatisfyConstructor(tbl, reg, other)
    ensures r.Err? <==> forall ctor | ctor in Info(tbl, t).ctors :: !CanSatisfyConstructor(tbl, reg, ctor)
    ensures r.Err? ==> r.error.NoSatisfiableConstructor? && r.error.owner == t
    ensures r.Err? ==> |r.error.considered| == |Info(tbl, t).ctors|
    ensures r.Err? ==> forall k | 0 <= k < |r.error.considered| :: FlagsFailure(r.error.considered[k])
    ensures r.Err? ==> forall k | 0 <= k < |r.error.considered| ::
      r.error.considered[k] == Report(tbl, reg, ByArityDescending(Info(tbl, t).ctors)[k])
  {
    var all := Info(tbl, t).ctors;
    var ctors := ByArityDescending(all);
    var ok := (k: Ctor) => CanSatisfyConstructor(tbl, reg, k);
    match FirstWhere(ctors, ok)
    case Some(i) =>
      FirstIsLongest(all, ctors, ok, i);
      Ok(ctors[i])
    case None =>
      NoneAccepted(all, ctors, ok);
      Err(NoSatisfiableConstructor(t, Reports(tbl, reg, ctors)))
  }

  /**
   The constructor-selection loop over one definition list: definitions whose
   type is in `skip` (singletons that already have an instance) keep their
   constructor; every other gets `SelectConstructor`'s choice.
   */
  function SelectFor(tbl: Table, reg: Registry, defs: seq<Def>, skip: set<TypeId>): (r: Result<seq<Def>, ScopeError>)
    ensures r.Ok? ==> |r.value| == |defs| && Types(r.value) == Types(defs)
    ensures r.Ok? ==> forall i | 0 <= i < |defs| ::
      && r.value[i].ty == defs[i].ty && r.value[i].priority == defs[i].priority
      && r.value[i].factory == defs[i].factory
      && (defs[i].ty in skip ==> r.value[i].ctor == defs[i].ctor)
      && (defs[i].ty !in skip ==> r.value[i].ctor.Some? && SelectConstructor(tbl, reg, defs[i].ty) == Ok(r.value[i].ctor.value))
    ensures r.Err? <==> exists i | 0 <= i < |defs| :: defs[i].ty !in skip && SelectConstructor(tbl, reg, defs[i].ty).Err?
    ensures r.Err? ==> exists i | 0 <= i < |defs| :: defs[i].ty !in skip && SelectConstructor(tbl, reg, defs[i].ty) == Err(r.error)
  {
    if defs == [] then Ok([])
    else
      var d := defs[0];
      var first: Result<Def, ScopeError> :=
        if d.ty in skip then Ok(d)
        else match SelectConstructor(tbl, reg, d.ty)
          case Ok(ctor) => Ok(d.(ctor := Some(ctor)))
          case Err(e) => Err(e);
      if first.Err? then Err(first.error)
      else match SelectFor(tbl, reg, defs[1..], skip)
        case Err(e) => Err(e)
        case Ok(rest) =>
          assert Types(defs) == [d.ty] + Types(defs[1..]);
          var r := [first.value] + rest;
          assert Types(r) == [first.value.ty] + Types(rest);
          Ok(r)
  }

  lemma SameTypesDistinct(a: seq<Def>, b: seq<Def>)
    requires Types(a) == Types(b) && DistinctTypes(a)
    ensures DistinctTypes(b)
  {
    assert forall i | 0 <= i < |b| :: b[i].ty == Types(b)[i] == a[i].ty;
  }

  lemma SameTypesLookup(a: seq<Def>, b: seq<Def>, t: TypeId)
    requires Types(a) == Types(b) && |a| == |b| && DistinctTypes(a)
    requires forall i | 0 <= i < |a| :: b[i].ty == a[i].ty
    ensures Lookup(a, t).Some? <==> Lookup(b, t).Some?
    ensures Lookup(a, t).Some? ==> exists i | 0 <= i < |a| :: Lookup(a, t) == Some(a[i]) && Lookup(b, t) == Some(b[i])
  {
    if a != [] {
      assert Types(a) == [a[0].ty] + Types(a[1..]);
      assert Types(b) == [b[0].ty] + Types(b[1..]);
      if a[0].ty != t {
        assert DistinctTypes(a[1..]);
        SameTypesLookup(a[1..], b[1..], t);
        if Lookup(a, t).Some? {
          var i :| 0 <= i < |a[1..]| && Lookup(a[1..], t) == Some(a[1..][i]) && Lookup(b[1..], t) == Some(b[1..][i]);
          assert Lookup(a, t) == Some(a[i + 1]);
        }
      } else {
        assert Lookup(a, t) == Some(a[0]);
      }
    }
  }

  /**
   After constructor selection: every singleton without an instance and every
   prototype has a satisfiable constructor chosen by `SelectConstructor`.
   */
  ghost predicate ConstructorsSelected(tbl: Table, reg: Registry, h: Heap, sel: Registry) {
    && Types(sel.singletons) == Types(reg.singletons)
    && Types(sel.prototypes) == Types(reg.prototypes)
    && sel.factories == reg.factories
    && (forall d | d in sel.singletons && d.ty !in h.instances ::
          d.ctor.Some? && SelectConstructor(tbl, reg, d.ty) == Ok(d.ctor.value))
    && (forall d | d in sel.prototypes :: d.ctor.Some? && SelectConstructor(tbl, reg, d.ty) == Ok(d.ctor.value))
  }

  /** `SelectAllConstructors`: singletons first, then prototypes; the first failure aborts. */
  function SelectAllConstructors(tbl: Table, reg: Registry, h: Heap): (r: Result<Registry, ScopeError>)
    requires RegistryOk(reg)
    ensures r.Ok? ==> RegistryOk(r.value) && ConstructorsSelected(tbl, reg, h, r.value)
    ensures r.Ok? <==>
      && (forall d | d in reg.singletons && d.ty !in h.instances :: SelectConstructor(tbl, reg, d.ty).Ok?)
      && (forall d | d in reg.prototypes :: SelectConstructor(tbl, reg, d.ty).Ok?)
  {
    SelectAllFacts(tbl, reg, h);
    SelectAll(tbl, reg, h)
  }

  /** The selection itself; `SelectAllFacts` states what it achieves. */
  function SelectAll(tbl: Table, reg: Registry, h: Heap): Result<Registry, ScopeError> {
    match SelectFor(tbl, reg, reg.singletons, h.instances.Keys)
    case Err(e) => Err(e)
    case Ok(singletons) =>
      match SelectFor(tbl, reg, reg.prototypes, {})
      case Err(e) => Err(e)
      case Ok(prototypes) => Ok(Registry(singletons, prototypes, reg.factories))
  }

  lemma SelectAllFacts(tbl: Table, reg: Registry, h: Heap)
    requires RegistryOk(reg)
    ensures var r := SelectAll(tbl, reg, h);
      r.Ok? ==> RegistryOk(r.value) && ConstructorsSelected(tbl, reg, h, r.value)
    ensures SelectAll(tbl, reg, h).Ok? <==>
      && (forall d | d in reg.singletons && d.ty !in h.instances :: SelectConstructor(tbl, reg, d.ty).Ok?)
      && (forall d | d in reg.prototypes :: SelectConstructor(tbl, reg, d.ty).Ok?)
  {
    SelectForMembers(tbl, reg, reg.singletons, h.instances.Keys);
    SelectForMembers(tbl, reg, reg.prototypes, {});
    var r := SelectAll(tbl, reg, h);
    if r.Ok? {
      SameTypesDistinct(reg.singletons, r.value.singletons);
      SameTypesDistinct(reg.prototypes, r.value.prototypes);
    }
  }

  /** `SelectFor` read per member: it succeeds exactly when every unskipped type has a constructor, and records it. */
  lemma SelectForMembers(tbl: Table, reg: Registry, defs: seq<Def>, skip: set<TypeId>)
    ensures SelectFor(tbl, reg, defs, skip).Ok? ==> forall d | d in SelectFor(tbl, reg, defs, skip).value && d.ty !in skip ::
      d.ctor.Some? && SelectConstructor(tbl, reg, d.ty) == Ok(d.ctor.value)
    ensures SelectFor(tbl, reg, defs, skip).Ok? <==> forall d | d in defs && d.ty !in skip :: SelectConstructor(tbl, reg, d.ty).Ok?
  {
    var r := SelectFor(tbl, reg, defs, skip);
    if r.Ok? {
      forall d | d in r.value && d.ty !in skip
        ensures d.ctor.Some? && SelectConstructor(tbl, reg, d.ty) == Ok(d.ctor.value)
      {
        var i :| 0 <= i < |r.value| && r.value[i] == d;
      }
      forall d | d in defs && d.ty !in skip
        ensures SelectConstructor(tbl, reg, d.ty).Ok?
      {
        var i :| 0 <= i < |defs| && defs[i] == d;
      }
    } else {
      var i :| 0 <= i < |defs| && defs[i].ty !in skip && SelectConstructor(tbl, reg, defs[i].ty).Err?;
      assert defs[i] in defs;
    }
  }

  // === Prototype validation ===

  /** A collection parameter whose element type some registered prototype is assignable to. */
  ghost predicate CollectsPrototype(tbl: Table, reg: Registry, p: TypeId) {
    IsCollectionType(tbl, p) && exists q | q in Types(reg.prototypes) :: Assignable(tbl, ElementType(tbl, p), q)
  }

  ghost predicate NoPrototypeInCollections(tbl: Table, reg: Registry, defs: seq<Def>) {
    forall d, p | d in defs && d.ctor.Some? && p in d.ctor.value :: !CollectsPrototype(tbl, reg, p)
  }

  /** `FirstOrDefault` over the prototype definitions: the first whose type fits `element`. */
  function FirstPrototypeFor(tbl: Table, reg: Registry, element: TypeId): (r: Option<Def>)
    ensures r.Some? ==> r.value.ty in Types(reg.prototypes) && Assignable(tbl, element, r.value.ty)
    ensures r.None? <==> forall q | q in Types(reg.prototypes) :: !Assignable(tbl, element, q)
  {
    var defs := reg.prototypes;
    match FirstWhere(defs, (d: Def) => Assignable(tbl, element, d.ty))
    case None =>
      assert forall q | q in Types(defs) :: exists i | 0 <= i < |defs| :: defs[i].ty == q;
      None
    case Some(i) =>
      assert Types(defs)[i] == defs[i].ty;
      Some(defs[i])
  }

  /** `ValidateNoPrototypesInCollectionParameters` for the parameters `ps` of `owner`. */
  function ValidateParams(tbl: Table, reg: Registry, owner: TypeId, ps: seq<TypeId>): (r: Result<(), ScopeError>)
    ensures r.Ok? <==> forall p | p in ps :: !CollectsPrototype(tbl, reg, p)
    ensures r.Err? ==>
      && r.error.PrototypeInCollection? && r.error.owner == owner
      && r.error.parameter in ps && IsCollectionType(tbl, r.error.parameter)
      && r.error.prototype in Types(reg.prototypes)
      && Assignable(tbl, ElementType(tbl, r.error.parameter), r.error.prototype)
  {
    if ps == [] then Ok(())
    else
      var p := ps[0];
      var rest := ValidateParams(tbl, reg, owner, ps[1..]);
      match ElementTypeIfCollection(tbl, p)
      case None =>
        assert forall x | x in ps :: x == p || x in ps[1..];
        rest
      case Some(e) =>
        ElementLookupsAgree(tbl, p);
        match FirstPrototypeFor(tbl, reg, e)
        case Some(q) =>
          assert CollectsPrototype(tbl, reg, p);
          Err(PrototypeInCollection(q.ty, p, owner))
        case None =>
          assert forall x | x in ps :: x == p || x in ps[1..];
          rest
  }

  function ValidateDefs(tbl: Table, reg: Registry, defs: seq<Def>): (r: Result<(), ScopeError>)
    ensures r.Ok? <==> NoPrototypeInCollections(tbl, reg, defs)
    ensures r.Err? ==> r.error.PrototypeInCollection? && r.error.owner in Types(defs)
  {
    if defs == [] then Ok(())
    else
      var d := defs[0];
      assert Types(defs) == [d.ty] + Types(defs[1..]);
      var first := if d.ctor.None? then Ok(()) else ValidateParams(tbl, reg, d.ty, d.ctor.value);
      if first.Err? then first
      else
        assert forall x | x in defs :: x == d || x in defs[1..];
        ValidateDefs(tbl, reg, defs[1..])
  }

  /** `ValidatePrototypeUsage`: no constructor may collect prototypes through a collection parameter. */
  function ValidatePrototypeUsage(tbl: Table, reg: Registry): (r: Result<(), ScopeError>)
    ensures r.Ok? <==> NoPrototypeInCollections(tbl, reg, reg.singletons) && NoPrototypeInCollections(tbl, reg, reg.prototypes)
    ensures r.Err? ==> r.error.PrototypeInCollection?
  {
    var s := ValidateDefs(tbl, reg, reg.singletons);
    if s.Err? then s else ValidateDefs(tbl, reg, reg.prototypes)
  }
}
