/** The types database as the program drives it: one object holding the
    ContentType registry and the collections of the document store, changed
    in place by `_create_or_update_type`, `_drop_indexes`,
    `_update_unique_indexes`, `_update_search_indexes` and `update_database`.
    Each method is proved against the store functions of `TypesStore`, whose
    properties `TypesStoreProperties` proves. */
module TypesDatabase {
  import opened ContentTypes
  import opened CollectionNaming
  import opened IndexTables
  import opened TypesStore

  class Database {
    /** The store's rule for legal type ids (collection-name fragments). */
    const validId: string -> bool
    /** The store's rule for legal index field names. */
    const validField: string -> bool
    /** The ContentType registry: type id -> stored record. */
    var registry: map<string, TypeRecord>
    /** Every collection of the database with its indexes by name. */
    var collections: map<string, IndexTable>

    ghost function State(): Store
      reads this
    {
      Store(registry, collections)
    }

    ghost predicate Valid()
      reads this
    {
      StoreInvariant(State())
    }

    /** A clean database: no registry records and no collections. */
    constructor (validId: string -> bool, validField: string -> bool)
      ensures Valid() && State() == EmptyStore
      ensures this.validId == validId && this.validField == validField
    {
      this.validId := validId;
      this.validField := validField;
      registry := map[];
      collections := map[];
    }

    /** `_create_or_update_type`: a legal id gets its record inserted or
        replaced and its collection created if absent; an illegal id fails
        and changes nothing. */
    method CreateOrUpdateType(d: TypeDefinition) returns (ok: bool)
      requires Valid()
      modifies this
      ensures Valid()
      ensures ok == validId(d.id)
      ensures State() == if ok then Upserted(old(State()), d) else old(State())
    {
      if !validId(d.id) {
        return false;
      }
      UpsertKeepsInvariant(State(), d);
      var c := UnitCollectionName(d.id);
      registry := registry[d.id := RecordOf(d)];
      if c !in collections {
        collections := collections[c := IdOnlyTable()];
      }
      ok := true;
    }

    /** `_drop_indexes`: the type's collection keeps only its identity index. */
    method DropIndexes(d: TypeDefinition)
      requires Valid()
      modifies this
      ensures Valid()
      ensures State() == WithoutIndexes(old(State()), d.id)
    {
      DropKeepsInvariant(State(), d.id);
      var c := UnitCollectionName(d.id);
      if c in collections {
        collections := collections[c := IdOnlyTable()];
      }
    }

    /** `ensure_index` for each spec in turn, on a copy of a collection's
        indexes. A spec the store cannot build is collected and the remaining
        specs are still attempted. */
    method EnsureEach(t: IndexTable, specs: seq<IndexEntry>, unique: bool)
      returns (table: IndexTable, rejected: seq<IndexEntry>)
      ensures table == EnsureIndexes(t, specs, unique, validField)
      ensures rejected == Rejected(specs, validField)
    {
      table, rejected := t, [];
      for i := 0 to |specs|
        invariant table == EnsureIndexes(t, specs[..i], unique, validField)
        invariant rejected == Rejected(specs[..i], validField)
      {
        PrefixStep(t, specs, i, unique, validField);
        if !Creatable(specs[i], validField) {
          rejected := rejected + [specs[i]];
        }
        table := EnsureIndex(table, specs[i], unique, validField);
      }
      assert specs[..|specs|] == specs;
    }

    /** The indexes of the specs on the type's collection, which is created
        if needed; fails, after attempting all of them, when any cannot be built. */
    method EnsureSpecIndexes(typeId: string, specs: seq<IndexEntry>, unique: bool)
      returns (rejected: seq<IndexEntry>)
      requires Valid()
      modifies this
      ensures Valid()
      ensures State() == WithIndexes(old(State()), typeId, specs, unique, validField)
      ensures rejected == Rejected(specs, validField)
    {
      ghost var s0 := State();
      IndexesKeepInvariant(s0, typeId, specs, unique, validField);
      var c := UnitCollectionName(typeId);
      var current := if c in collections then collections[c] else IdOnlyTable();
      assert current == TableOf(s0, typeId);
      var table;
      table, rejected := EnsureEach(current, specs, unique);
      collections := collections[c := table];
      assert State() == WithIndexes(s0, typeId, specs, unique, validField);
    }

    /** `_update_unique_indexes`: a unique index per spec of `unique_indexes`;
        fails when the id is illegal or any spec cannot be built. */
    method UpdateUniqueIndexes(d: TypeDefinition) returns (ok: bool)
      requires Valid()
      modifies this
      ensures Valid()
      ensures ok == (validId(d.id) && Rejected(d.uniqueIndexes.items, validField) == [])
      ensures State() == if validId(d.id)
                         then WithIndexes(old(State()), d.id, d.uniqueIndexes.items, true, validField)
                         else old(State())
    {
      if !validId(d.id) {
        return false;
      }
      var rejected := EnsureSpecIndexes(d.id, d.uniqueIndexes.items, true);
      ok := rejected == [];
    }

    /** `_update_search_indexes`: a non-unique index per spec of
        `search_indexes`; fails like `_update_unique_indexes`. */
    method UpdateSearchIndexes(d: TypeDefinition) returns (ok: bool)
      requires Valid()
      modifies this
      ensures Valid()
      ensures ok == (validId(d.id) && Rejected(d.searchIndexes.items, validField) == [])
      ensures State() == if validId(d.id)
                         then WithIndexes(old(State()), d.id, d.searchIndexes.items, false, validField)
                         else old(State())
    {
      if !validId(d.id) {
        return false;
      }
      var rejected := EnsureSpecIndexes(d.id, d.searchIndexes.items, false);
      ok := rejected == [];
    }

    /** One definition of an `update_database` batch: refused for an illegal
        id; otherwise old indexes dropped, unique then search indexes
        ensured, and the record upserted once both succeed. */
    method UpdateType(d: TypeDefinition) returns (ok: bool)
      requires Valid()
      modifies this
      ensures Valid()
      ensures ok == Acceptable(d, validId, validField)
      ensures State() == ApplyDefinition(old(State()), d, validId, validField).store
    {
      if !validId(d.id) {
        return false;
      }
      DropIndexes(d);
      ok := UpdateUniqueIndexes(d);
      if !ok {
        return;
      }
      ok := UpdateSearchIndexes(d);
      if !ok {
        return;
      }
      ok := CreateOrUpdateType(d);
    }

    /** `update_database`: every definition is attempted in order, the
        failed ones collected; `UpdateFailed` carries them, else
        `MissingDefinitions` (when asked for) carries the ids registered
        before the call and absent from the batch. */
    method UpdateDatabase(defs: seq<TypeDefinition>, errorOnMissingDefinitions: bool)
      returns (outcome: UpdateOutcome)
      requires Valid()
      modifies this
      ensures Valid()
      ensures State() == UpdateAll(old(State()), defs, validId, validField).store
      ensures outcome == OutcomeOf(old(State()), defs, errorOnMissingDefinitions, validId, validField)
    {
      ghost var s0 := State();
      var registered := registry.Keys;
      var failed: seq<TypeDefinition> := [];
      var i := 0;
      while i < |defs|
        invariant 0 <= i <= |defs|
        invariant Valid()
        invariant State() == UpdateAll(s0, defs[..i], validId, validField).store
        invariant failed == UpdateAll(s0, defs[..i], validId, validField).failed
      {
        UpdateAllStep(s0, defs, i, validId, validField);
        var d := defs[i];
        var ok := UpdateType(d);
        if !ok {
          failed := failed + [d];
        }
        i := i + 1;
      }
      assert defs[..|defs|] == defs;
      var incoming := set d | d in defs :: d.id;
      var missing := registered - incoming;
      if failed != [] {
        outcome := UpdateFailed(failed);
      } else if errorOnMissingDefinitions && missing != {} {
        outcome := MissingDefinitions(missing);
      } else {
        outcome := Updated;
      }
    }

    /** `all_type_collection_names`: each collection carrying the type
        prefix, listed once. */
    method AllTypeCollectionNames() returns (names: seq<string>)
      requires Valid()
      ensures forall k :: k in registry ==> UnitCollectionName(k) in names
      ensures forall n :: n in names <==> n in collections && IsTypeCollectionName(n)
      ensures Distinct(names)
      ensures |names| == |TypeCollections(collections)|
    {
      names := [];
      var rest := collections.Keys;
      while rest != {}
        invariant rest <= collections.Keys
        invariant forall n :: n in names <==> n in collections && IsTypeCollectionName(n) && n !in rest
        invariant Distinct(names)
        decreases |rest|
      {
        var n :| n in rest;
        if IsTypeCollectionName(n) {
          DistinctAppend(names, n);
          names := names + [n];
        }
        rest := rest - {n};
      }
      DistinctCount(names, TypeCollections(collections));
    }
  }
}
