/** The two stores the types database keeps in step, as values: the
    ContentType registry (type id -> record) and the database's collections
    (collection name -> its indexes); and what one definition and one batch
    of definitions do to them. */
module TypesStore {
  import opened ContentTypes
  import opened CollectionNaming
  import opened IndexTables

  /** One document of the ContentType registry collection. */
  datatype TypeRecord = TypeRecord(
    id: string,
    displayName: string,
    description: string,
    uniqueIndexes: SpecField<IndexEntry>,
    searchIndexes: SpecField<IndexEntry>)

  /** The record written for a definition: its five stored fields verbatim. */
  function RecordOf(d: TypeDefinition): (r: TypeRecord)
    ensures r.id == d.id && r.displayName == d.displayName && r.description == d.description
    ensures r.uniqueIndexes == d.uniqueIndexes && r.searchIndexes == d.searchIndexes
  {
    TypeRecord(d.id, d.displayName, d.description, d.uniqueIndexes, d.searchIndexes)
  }

  datatype Store = Store(registry: map<string, TypeRecord>, collections: map<string, IndexTable>)

  /** A database with no registry records and no type collections. */
  const EmptyStore: Store := Store(map[], map[])

  /** Kept by every operation: each collection carries the identity index;
      each record is filed under its own id and its collection exists. */
  ghost predicate StoreInvariant(s: Store)
  {
    (forall c :: c in s.collections ==>
       IdIndexName in s.collections[c] && s.collections[c][IdIndexName] == IdIndex)
    && (forall k :: k in s.registry ==> s.registry[k].id == k && UnitCollectionName(k) in s.collections)
  }

  /** The indexes of a type's collection; a collection not yet created is
      created with the identity index alone. */
  function TableOf(s: Store, typeId: string): IndexTable
  {
    var c := UnitCollectionName(typeId);
    if c in s.collections then s.collections[c] else IdOnlyTable()
  }

  /** `_drop_indexes`: every index of the type's collection but the identity
      index goes; a missing collection is left missing. */
  function WithoutIndexes(s: Store, typeId: string): (r: Store)
    ensures r.registry == s.registry && r.collections.Keys == s.collections.Keys
    ensures UnitCollectionName(typeId) in s.collections ==>
              r.collections[UnitCollectionName(typeId)] == IdOnlyTable()
    ensures forall c :: c in s.collections && c != UnitCollectionName(typeId) ==>
              r.collections[c] == s.collections[c]
  {
    var c := UnitCollectionName(typeId);
    if c in s.collections then s.(collections := s.collections[c := IdOnlyTable()]) else s
  }

  /** Index creation on a type whose id the store accepts: the collection is
      created if absent, every buildable spec gets its index, nothing else changes. */
  function WithIndexes(s: Store, typeId: string, specs: seq<IndexEntry>, unique: bool,
                       validField: string -> bool): (r: Store)
    ensures r.registry == s.registry
    ensures r.collections.Keys == s.collections.Keys + {UnitCollectionName(typeId)}
    ensures forall k :: k in TableOf(s, typeId) ==>
              k in r.collections[UnitCollectionName(typeId)]
              && r.collections[UnitCollectionName(typeId)][k] == TableOf(s, typeId)[k]
    ensures forall c :: c in s.collections && c != UnitCollectionName(typeId) ==>
              r.collections[c] == s.collections[c]
    ensures forall i :: 0 <= i < |specs| && Creatable(specs[i], validField) ==>
              SpecIndexName(specs[i]) in r.collections[UnitCollectionName(typeId)]
  {
    var c := UnitCollectionName(typeId);
    s.(collections := s.collections[c := EnsureIndexes(TableOf(s, typeId), specs, unique, validField)])
  }

  /** `_create_or_update_type` on an accepted id: the record is inserted or
      replaced, never duplicated, and the collection is created if absent. */
  function Upserted(s: Store, d: TypeDefinition): (r: Store)
    ensures r.registry.Keys == s.registry.Keys + {d.id}
    ensures r.registry[d.id] == RecordOf(d)
    ensures forall k :: k in s.registry && k != d.id ==> r.registry[k] == s.registry[k]
    ensures r.collections.Keys == s.collections.Keys + {UnitCollectionName(d.id)}
    ensures forall c :: c in s.collections ==> r.collections[c] == s.collections[c]
    ensures UnitCollectionName(d.id) !in s.collections ==>
              r.collections[UnitCollectionName(d.id)] == IdOnlyTable()
  {
    var c := UnitCollectionName(d.id);
    Store(s.registry[d.id := RecordOf(d)],
          if c in s.collections then s.collections else s.collections[c := IdOnlyTable()])
  }

  lemma DropKeepsInvariant(s: Store, typeId: string)
    requires StoreInvariant(s)
    ensures StoreInvariant(WithoutIndexes(s, typeId))
  {
  }

  lemma IndexesKeepInvariant(s: Store, typeId: string, specs: seq<IndexEntry>, unique: bool,
                             validField: string -> bool)
    requires StoreInvariant(s)
    ensures StoreInvariant(WithIndexes(s, typeId, specs, unique, validField))
  {
    var r := WithIndexes(s, typeId, specs, unique, validField);
    var c := UnitCollectionName(typeId);
    assert IdIndexName in TableOf(s, typeId) && TableOf(s, typeId)[IdIndexName] == IdIndex;
    assert r.collections[c][IdIndexName] == IdIndex;
  }

  lemma UpsertKeepsInvariant(s: Store, d: TypeDefinition)
    requires StoreInvariant(s)
    ensures StoreInvariant(Upserted(s, d))
  {
  }

  /** A definition the store accepts: a legal id and only buildable index specs. */
  predicate Acceptable(d: TypeDefinition, validId: string -> bool, validField: string -> bool)
  {
    validId(d.id)
    && Rejected(d.uniqueIndexes.items, validField) == []
    && Rejected(d.searchIndexes.items, validField) == []
  }

  datatype Applied = Applied(store: Store, ok: bool)

  /** One definition of an `update_database` batch: refused at once for an
      illegal id; otherwise the old indexes are dropped, the unique and then
      the search indexes are created, and only when both succeed is the
      registry record upserted. Only this type's record and collection can
      change, and a failure leaves the registry as it was. */
  function ApplyDefinition(s: Store, d: TypeDefinition, validId: string -> bool,
                           validField: string -> bool): (a: Applied)
    ensures a.ok == Acceptable(d, validId, validField)
    ensures !a.ok ==> a.store.registry == s.registry
    ensures forall k :: k != d.id ==>
              (k in a.store.registry <==> k in s.registry)
              && (k in s.registry ==> a.store.registry[k] == s.registry[k])
    ensures s.collections.Keys <= a.store.collections.Keys
    ensures forall c :: c != UnitCollectionName(d.id) ==>
              (c in a.store.collections <==> c in s.collections)
              && (c in s.collections ==> a.store.collections[c] == s.collections[c])
  {
    if !validId(d.id) then Applied(s, false)
    else
      var dropped := WithoutIndexes(s, d.id);
      var withUnique := WithIndexes(dropped, d.id, d.uniqueIndexes.items, true, validField);
      if Rejected(d.uniqueIndexes.items, validField) != [] then Applied(withUnique, false)
      else
        var withSearch := WithIndexes(withUnique, d.id, d.searchIndexes.items, false, validField);
        if Rejected(d.searchIndexes.items, validField) != [] then Applied(withSearch, false)
        else Applied(Upserted(withSearch, d), true)
  }

  /** The indexes of a type's collection right after a successful apply. */
  function TableFor(d: TypeDefinition, validField: string -> bool): IndexTable
  {
    EnsureIndexes(EnsureIndexes(IdOnlyTable(), d.uniqueIndexes.items, true, validField),
                  d.searchIndexes.items, false, validField)
  }

  /** The store with `d`'s record and collection as a successful apply leaves them. */
  function Installed(s: Store, d: TypeDefinition, validField: string -> bool): Store
  {
    Store(s.registry[d.id := RecordOf(d)],
          s.collections[UnitCollectionName(d.id) := TableFor(d, validField)])
  }

  /** The definitions of a batch the store refuses, in batch order. */
  function RejectedDefinitions(defs: seq<TypeDefinition>, validId: string -> bool,
                               validField: string -> bool): (r: seq<TypeDefinition>)
    ensures r == [] <==> forall i :: 0 <= i < |defs| ==> Acceptable(defs[i], validId, validField)
    ensures forall d :: d in r ==> d in defs && !Acceptable(d, validId, validField)
    ensures forall i :: 0 <= i < |defs| && !Acceptable(defs[i], validId, validField) ==> defs[i] in r
    decreases |defs|
  {
    if defs == [] then []
    else
      var prefix := defs[..|defs| - 1];
      assert forall i :: 0 <= i < |prefix| ==> prefix[i] == defs[i];
      var rest := RejectedDefinitions(prefix, validId, validField);
      assert forall i :: 0 <= i < |prefix| && !Acceptable(defs[i], validId, validField) ==> defs[i] in rest;
      if Acceptable(defs[|defs| - 1], validId, validField) then rest else rest + [defs[|defs| - 1]]
  }

  datatype Batch = Batch(store: Store, failed: seq<TypeDefinition>)

  /** The loop of `update_database`: every definition is attempted in order,
      and those that fail are collected, exactly the refused ones. */
  function UpdateAll(s: Store, defs: seq<TypeDefinition>, validId: string -> bool,
                     validField: string -> bool): (b: Batch)
    ensures b.failed == RejectedDefinitions(defs, validId, validField)
    decreases |defs|
  {
    if defs == [] then Batch(s, [])
    else
      var prior := UpdateAll(s, defs[..|defs| - 1], validId, validField);
      var d := defs[|defs| - 1];
      var a := ApplyDefinition(prior.store, d, validId, validField);
      Batch(a.store, if a.ok then prior.failed else prior.failed + [d])
  }

  /** Attempting one more definition of a batch applies it to the store the
      earlier ones left, and adds it to the failures exactly when it fails. */
  lemma UpdateAllStep(s: Store, defs: seq<TypeDefinition>, i: nat, validId: string -> bool,
                      validField: string -> bool)
    requires i < |defs|
    ensures UpdateAll(s, defs[..i + 1], validId, validField).store
            == ApplyDefinition(UpdateAll(s, defs[..i], validId, validField).store, defs[i], validId, validField).store
    ensures UpdateAll(s, defs[..i + 1], validId, validField).failed
            == if ApplyDefinition(UpdateAll(s, defs[..i], validId, validField).store, defs[i], validId, validField).ok
               then UpdateAll(s, defs[..i], validId, validField).failed
               else UpdateAll(s, defs[..i], validId, validField).failed + [defs[i]]
  {
    var done := defs[..i + 1];
    assert done[..|done| - 1] == defs[..i];
  }

  /** What `update_database` reports: `UpdateFailed` with the failed
      definitions, `MissingDefinitions` with the registered ids absent from
      the batch (only when asked for), or success. */
  datatype UpdateOutcome =
    | Updated
    | UpdateFailed(typeDefinitions: seq<TypeDefinition>)
    | MissingDefinitions(missingTypeIds: set<string>)

  function IdSet(defs: seq<TypeDefinition>): set<string>
  {
    set d | d in defs :: d.id
  }

  /** The collections a batch's definitions would be stored in. */
  function CollectionNames(defs: seq<TypeDefinition>): set<string>
  {
    set d | d in defs :: UnitCollectionName(d.id)
  }

  /** What `all_type_collection_names` lists: every collection carrying the
      type-collection prefix, whether or not the registry knows it. */
  function TypeCollections(collections: map<string, IndexTable>): set<string>
  {
    set c | c in collections && IsTypeCollectionName(c)
  }

  /** The report of a batch run on `s`. Failures are reported first; missing
      ids are those registered in `s`, before the batch ran. */
  function OutcomeOf(s: Store, defs: seq<TypeDefinition>, errorOnMissingDefinitions: bool,
                     validId: string -> bool, validField: string -> bool): (o: UpdateOutcome)
    ensures o.UpdateFailed? <==> !(forall i :: 0 <= i < |defs| ==> Acceptable(defs[i], validId, validField))
    ensures o.UpdateFailed? ==> o.typeDefinitions == RejectedDefinitions(defs, validId, validField)
    ensures o.MissingDefinitions? ==>
              errorOnMissingDefinitions && o.missingTypeIds == s.registry.Keys - IdSet(defs)
              && o.missingTypeIds != {}
    ensures o.Updated? ==> !errorOnMissingDefinitions || forall k :: k in s.registry ==> k in IdSet(defs)
  {
    var failed := UpdateAll(s, defs, validId, validField).failed;
    var missing := s.registry.Keys - IdSet(defs);
    assert forall k :: k in s.registry && k !in IdSet(defs) ==> k in missing;
    if failed != [] then UpdateFailed(failed)
    else if errorOnMissingDefinitions && missing != {} then MissingDefinitions(missing)
    else Updated
  }
}
