/**
 Module discovery: which of an assembly's types become the container's
 registration list.
 */
module Bootstrap {
  import opened Wrappers
  import opened TypeTable

  /** A concrete class that is not an open generic definition. */
  predicate IsConcreteClass(tbl: Table, t: TypeId) {
    var info := Info(tbl, t);
    info.kind == ClassKind && !info.isAbstract && !info.isGenericDefinition
  }

  predicate HasModuleAttribute(tbl: Table, t: TypeId) {
    Info(tbl, t).moduleAttr.Some?
  }

  predicate HasPrototypeAttribute(tbl: Table, t: TypeId) {
    Info(tbl, t).prototypeAttr.Some?
  }

  /** `IsEnabled`: neither attribute that is present says `Enabled = false`. */
  predicate IsEnabled(tbl: Table, t: TypeId) {
    var info := Info(tbl, t);
    if info.moduleAttr.Some? && !info.moduleAttr.value.enabled then false
    else if info.prototypeAttr.Some? && !info.prototypeAttr.value.enabled then false
    else true
  }

  /** The four `Where` filters of `DiscoverTypes`, in order. */
  predicate Kept(u: Universe, t: TypeId) {
    && IsConcreteClass(u.table, t)
    && !DerivesFrom(u.table, t, u.attributeType)
    && (HasModuleAttribute(u.table, t) || HasPrototypeAttribute(u.table, t))
    && IsEnabled(u.table, t)
  }

  /** `sub` is `s` with some elements deleted and the rest in their original order. */
  ghost predicate IsSubsequence<T>(sub: seq<T>, s: seq<T>) {
    if sub == [] then true
    else if s == [] then false
    else if sub[0] == s[0] then IsSubsequence(sub[1..], s[1..])
    else IsSubsequence(sub, s[1..])
  }

  /**
   `DiscoverTypes`: the assembly's types that pass every filter, in the order
   the assembly lists them.
   */
  function DiscoverTypes(u: Universe, types: seq<TypeId>): (r: seq<TypeId>)
    ensures forall t :: t in r <==> t in types && Kept(u, t)
    ensures IsSubsequence(r, types)
    ensures |r| <= |types|
  {
    if types == [] then []
    else if Kept(u, types[0]) then [types[0]] + DiscoverTypes(u, types[1..])
    else DiscoverTypes(u, types[1..])
  }

  /** A type switched off by either attribute is never discovered, whatever the other says. */
  lemma DisabledNeverDiscovered(u: Universe, types: seq<TypeId>, t: TypeId)
    requires (Info(u.table, t).moduleAttr.Some? && !Info(u.table, t).moduleAttr.value.enabled)
          || (Info(u.table, t).prototypeAttr.Some? && !Info(u.table, t).prototypeAttr.value.enabled)
    ensures t !in DiscoverTypes(u, types)
  {
  }

  /** Discovered types are concrete classes that carry a discovery attribute and are not attributes. */
  lemma DiscoveredAreAnnotatedClasses(u: Universe, types: seq<TypeId>, t: TypeId)
    requires t in DiscoverTypes(u, types)
    ensures Info(u.table, t).kind == ClassKind && !Info(u.table, t).isAbstract
    ensures !Info(u.table, t).isGenericDefinition
    ensures !DerivesFrom(u.table, t, u.attributeType)
    ensures Info(u.table, t).moduleAttr.Some? || Info(u.table, t).prototypeAttr.Some?
  {
  }
}
