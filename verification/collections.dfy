/**
 Which parameter types the container fills with "every matching singleton":
 arrays and six generic collection interfaces and classes.
 */
module Collections {
  import opened Wrappers
  import opened TypeTable

  /** `List<>`, `IList<>`, `ICollection<>`, `IEnumerable<>`, `IReadOnlyCollection<>`, `IReadOnlyList<>`. */
  const CollectionDefinitions: set<GenericDef> :=
    {ListDef, IListDef, ICollectionDef, IEnumerableDef, IReadOnlyCollectionDef, IReadOnlyListDef}

  predicate IsArray(tbl: Table, t: TypeId) {
    Info(tbl, t).shape.ArrayOf?
  }

  /** An instantiation of one of the six collection definitions. */
  predicate IsGenericCollection(tbl: Table, t: TypeId) {
    var shape := Info(tbl, t).shape;
    shape.Generic? && shape.definition in CollectionDefinitions
  }

  predicate IsCollectionType(tbl: Table, t: TypeId) {
    IsArray(tbl, t) || IsGenericCollection(tbl, t)
  }

  /**
   The type a collection parameter collects: the array element type or the
   first generic argument; any other type is its own element type.
   */
  function ElementType(tbl: Table, t: TypeId): (e: TypeId)
    ensures IsArray(tbl, t) ==> e == Info(tbl, t).shape.element
    ensures IsGenericCollection(tbl, t) ==> e == Info(tbl, t).shape.arguments[0]
    ensures IsCollectionType(tbl, t) <==> e != t
  {
    assert t in tbl ==> EntryWellFormed(tbl, t);
    var shape := Info(tbl, t).shape;
    if shape.ArrayOf? then shape.element
    else if shape.Generic? && shape.definition in CollectionDefinitions then shape.arguments[0]
    else t
  }

  /**
   The build phase's own copy of the element lookup: the element type of a
   collection, nothing for any other type.
   */
  function ElementTypeIfCollection(tbl: Table, t: TypeId): (e: Option<TypeId>)
    ensures e.Some? <==> IsCollectionType(tbl, t)
  {
    assert t in tbl ==> EntryWellFormed(tbl, t);
    var shape := Info(tbl, t).shape;
    if shape.ArrayOf? then Some(shape.element)
    else if shape.Generic? && shape.definition in CollectionDefinitions then Some(shape.arguments[0])
    else None
  }

  /** The two element lookups agree wherever the build phase's one answers. */
  lemma ElementLookupsAgree(tbl: Table, t: TypeId)
    ensures ElementTypeIfCollection(tbl, t).Some? ==> ElementTypeIfCollection(tbl, t).value == ElementType(tbl, t)
    ensures ElementTypeIfCollection(tbl, t).None? ==> ElementType(tbl, t) == t
  {
  }

  /** Every array type is a collection; a generic type is one exactly for the six definitions. */
  lemma CollectionForms(tbl: Table, t: TypeId)
    ensures Info(tbl, t).shape.ArrayOf? ==> IsCollectionType(tbl, t)
    ensures Info(tbl, t).shape.Generic? ==>
      (IsCollectionType(tbl, t) <==> Info(tbl, t).shape.definition in CollectionDefinitions)
    ensures Info(tbl, t).shape.Plain? ==> !IsCollectionType(tbl, t)
  {
  }
}
