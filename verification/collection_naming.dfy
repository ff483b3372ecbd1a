/** Names the store sees: the per-type collection of a type id, and the name
    MongoDB gives an index by default (`field_direction` per key, joined by `_`). */
module CollectionNaming {

  /** Stand-in for the fixed prefix of every per-type collection name; the
      proofs rely only on `UnitCollectionNameInjective` and on
      `IsTypeCollectionName`, not on these particular characters. */
  const TypeCollectionPrefix: string := "units_"

  predicate IsTypeCollectionName(name: string) {
    TypeCollectionPrefix <= name
  }

  /** `unit_collection_name`: the per-type collection of a type id. */
  function UnitCollectionName(typeId: string): (name: string)
    ensures IsTypeCollectionName(name)
    ensures name[|TypeCollectionPrefix|..] == typeId
  {
    TypeCollectionPrefix + typeId
  }

  /** Two distinct type ids never share a collection. */
  lemma UnitCollectionNameInjective()
    ensures forall a, b :: UnitCollectionName(a) == UnitCollectionName(b) ==> a == b
  {
    forall a, b | UnitCollectionName(a) == UnitCollectionName(b)
      ensures a == b
    {
      assert a == UnitCollectionName(a)[|TypeCollectionPrefix|..];
    }
  }

  /** Sort direction of one index key (pymongo's ASCENDING = 1, DESCENDING = -1). */
  datatype Direction = Ascending | Descending

  function DirectionText(d: Direction): (t: string)
    ensures |t| > 0 && t[|t| - 1] == '1'
  {
    match d
    case Ascending => "1"
    case Descending => "-1"
  }

  datatype KeyPart = KeyPart(field: string, direction: Direction)

  function KeyPartName(k: KeyPart): (n: string)
    ensures |n| > 0 && n[|n| - 1] == '1'
  {
    k.field + "_" + DirectionText(k.direction)
  }

  /** Default index name: `field_1` per key, joined by `_`. A non-empty key
      always yields a name ending in the direction digit. */
  function IndexName(key: seq<KeyPart>): (name: string)
    ensures |key| > 0 ==> |name| > 0 && name[|name| - 1] == '1'
  {
    if |key| == 0 then ""
    else if |key| == 1 then KeyPartName(key[0])
    else KeyPartName(key[0]) + "_" + IndexName(key[1..])
  }

  /** The two names asserted for a single and a compound ascending index. */
  lemma IndexNameExamples()
    ensures IndexName([KeyPart("individual_1", Ascending)]) == "individual_1_1"
    ensures IndexName([KeyPart("compound_1", Ascending), KeyPart("compound_2", Ascending)])
            == "compound_1_1_compound_2_1"
  {
  }
}
