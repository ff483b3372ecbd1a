/** Non-database domain objects describing content types
    (src/pulp/server/content/types/model.py). */
module ContentTypes {
  import opened Wrappers

  /** A value handed to the `TypeDefinition` constructor for one of its
      spec fields: a Python list, a Python tuple, or any other single value
      (a bare field name, `None`, ...). */
  datatype Argument<T> = ListArg(items: seq<T>) | TupleArg(items: seq<T>) | Bare(value: T)

  /** What the constructor stores for a spec field: always a list or a tuple. */
  datatype SpecField<T> = List(items: seq<T>) | Tuple(items: seq<T>)

  /** One index spec: a single field name or an ordered compound field list. */
  datatype IndexSpec = Field(name: string) | Compound(fields: seq<string>)

  /** An element of an index-spec list; `None` is Python's `None`. */
  type IndexEntry = Option<IndexSpec>

  /** An element of a child-type list. */
  type ChildEntry = Option<string>

  datatype TypeDefinition = TypeDefinition(
    id: string,
    displayName: string,
    description: string,
    uniqueIndexes: SpecField<IndexEntry>,
    searchIndexes: SpecField<IndexEntry>,
    childTypes: SpecField<ChildEntry>)

  datatype TypeDescriptor = TypeDescriptor(
    filename: string,
    contents: string,
    parsed: Option<seq<TypeDefinition>>)

  /** The list-or-tuple test of the constructor: a list or tuple is kept as it
      is, anything else becomes a one-element list holding it. */
  function Normalize<T>(a: Argument<T>): (f: SpecField<T>)
    ensures a.Bare? ==> f.List? && f.items == [a.value]
    ensures !a.Bare? ==> f.items == a.items && (f.List? <==> a.ListArg?)
  {
    match a
    case ListArg(xs) => List(xs)
    case TupleArg(xs) => Tuple(xs)
    case Bare(v) => List([v])
  }

  /** Hands a stored spec field back to the constructor as it is. */
  function AsArgument<T>(f: SpecField<T>): (a: Argument<T>)
    ensures !a.Bare? && a.items == f.items
    ensures a.ListArg? <==> f.List?
  {
    match f
    case List(xs) => ListArg(xs)
    case Tuple(xs) => TupleArg(xs)
  }

  /** `TypeDefinition.__init__`: identity and display text verbatim, each of
      the three spec fields normalised on its own. */
  function NewTypeDefinition(
    id: string, displayName: string, description: string,
    uniqueIndexes: Argument<IndexEntry>, searchIndexes: Argument<IndexEntry>,
    childTypes: Argument<ChildEntry>): (d: TypeDefinition)
    ensures d.id == id && d.displayName == displayName && d.description == description
    ensures d.uniqueIndexes == Normalize(uniqueIndexes)
    ensures d.searchIndexes == Normalize(searchIndexes)
    ensures d.childTypes == Normalize(childTypes)
  {
    TypeDefinition(id, displayName, description,
                   Normalize(uniqueIndexes), Normalize(searchIndexes), Normalize(childTypes))
  }

  /** `TypeDescriptor.__init__`: file name and contents verbatim, nothing parsed yet. */
  function NewTypeDescriptor(filename: string, contents: string): (t: TypeDescriptor)
    ensures t.filename == filename && t.contents == contents
    ensures t.parsed == None
  {
    TypeDescriptor(filename, contents, None)
  }

  /** Normalising an already-normalised field changes nothing. */
  lemma NormalizeIdempotent<T>(f: SpecField<T>)
    ensures Normalize(AsArgument(f)) == f
  {
  }

  /** Feeding a definition's own fields back through the constructor rebuilds it. */
  lemma DefinitionRebuildsItself(d: TypeDefinition)
    ensures NewTypeDefinition(d.id, d.displayName, d.description, AsArgument(d.uniqueIndexes),
                              AsArgument(d.searchIndexes), AsArgument(d.childTypes)) == d
  {
    NormalizeIdempotent(d.uniqueIndexes);
    NormalizeIdempotent(d.searchIndexes);
    NormalizeIdempotent(d.childTypes);
  }

  /** A normalised field is empty exactly when an empty list or tuple was passed. */
  lemma NormalizedEmptyIff<T>(a: Argument<T>)
    ensures |Normalize(a).items| == 0 <==> !a.Bare? && a.items == []
    ensures a.Bare? ==> |Normalize(a).items| == 1
  {
  }

  /** `None` is wrapped like any other bare value: it becomes `[None]`, not `[]`. */
  lemma NoneBecomesSingletonNone()
    ensures Normalize<IndexEntry>(Bare(None)) == List([None])
    ensures |NewTypeDefinition("busted", "Busted", "Busted", Bare(None), Bare(None), ListArg([])).uniqueIndexes.items| == 1
  {
  }
}
