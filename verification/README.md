# Pulp content-type schema manager, in Dafny

Pulp stores content units in MongoDB, one collection per content type. Each
type is described by a `TypeDefinition`. The definition gives the type's id,
a display name and a description. It also lists the fields the type must be
indexed on: `unique_indexes` and `search_indexes`, each an ordered list of
specs. A spec is one field name or a list of field names (a compound index).

`update_database` takes a batch of definitions and converges the database on
them. For each type, it creates the type's collection, rebuilds that
collection's indexes and upserts the type's record in the ContentType
registry. Definitions that fail are collected and reported together as
`UpdateFailed`. On request, types registered earlier but absent from the
batch are reported as `MissingDefinitions`.

The project has these modules:

- `ContentTypes` (`content_types.dfy`): the pure constructors of
  `model.py`.
  - `TypeDefinition` wraps any spec argument that is neither a list nor a
    tuple into a one-element list. Lists and tuples are kept as they are.
  - `TypeDescriptor` stores a file name and its contents, with nothing
    parsed yet.
- `CollectionNaming` (`collection_naming.dfy`): the names the store uses.
  - `unit_collection_name`: the type collection named for an id.
  - MongoDB's index name for a key, such as `compound_1_1_compound_2_1`.
- `IndexTables` (`index_tables.dfy`): a collection's indexes as a map from
  index name to key and uniqueness.
  - `ensure_index` for one spec (`EnsureIndex`) and for a list of specs
    (`EnsureIndexes`).
  - The specs the store refuses (`Rejected`).
- `TypesStore` (`types_store.dfy`): the registry and the collections as one
  value, and what each operation does to it.
  - Each operation as a function: `Upserted`, `WithoutIndexes`,
    `WithIndexes`, `ApplyDefinition`, `UpdateAll`.
  - The batch report, `OutcomeOf`.
- `TypesStoreProperties` (`types_store_properties.dfy`): batch-level
  properties of those functions. Examples:
  - clean loads and idempotent reloads;
  - omitted types are kept;
  - missing ids are reported exactly;
  - the exact failure list;
  - drop-then-create replaces the index set.
- `TypesDatabase` (`types_database.dfy`): the database as an object. Its
  `registry` and `collections` fields are changed in place by
  `CreateOrUpdateType`, `DropIndexes`, `UpdateUniqueIndexes`,
  `UpdateSearchIndexes` and `UpdateDatabase`. Each method is proved equal to
  the corresponding `TypesStore` function, so every property above holds of
  the object as well.

The database module that implements these operations is not part of this
model. Its behaviour is taken from what `test/unit/test_types_database.py`
asserts about it. Where the tests leave a choice open, the model fixes it
and says so under "## Left out". Those choices are:

- the order of steps within one definition;
- what happens after a failed index;
- which error is reported when both apply;
- that the batch is applied in full even when it reports
  `MissingDefinitions`;
- that index creation refuses the `None` spec;
- that an `ensure_index` whose name is already present changes nothing.

## Model

| member | source | states |
|---|---|---|
| ContentTypes.Normalize | src/pulp/server/content/types/model.py:48-59 | A list or tuple argument is kept with the same elements, in the same order and of the same kind. Any other value, `None` included, becomes a one-element list holding it. |
| ContentTypes.NewTypeDefinition | src/pulp/server/content/types/model.py:43-59 | `id`, `display_name` and `description` are stored verbatim. Each of the three spec fields is normalised independently of the others. |
| ContentTypes.NewTypeDescriptor | src/pulp/server/content/types/model.py:23-35 | `filename` and `contents` are stored verbatim, and `parsed` starts as `None`. |
| ContentTypes.NormalizeIdempotent | src/pulp/server/content/types/model.py:48-59 | Normalising an already-normalised field returns it unchanged. |
| ContentTypes.DefinitionRebuildsItself | src/pulp/server/content/types/model.py:43-59 | Rebuilding a definition from its own fields gives the same definition. |
| ContentTypes.NormalizedEmptyIff | src/pulp/server/content/types/model.py:48-59 | A normalised field is empty exactly when an empty list or tuple was passed. A wrapped value always gives length 1. |
| ContentTypes.NoneBecomesSingletonNone | src/pulp/server/content/types/model.py:48-49 | `None` as `unique_indexes` becomes `[None]`, a list of length 1, not an empty list. The busted definition of the tests is an example. |
| CollectionNaming.UnitCollectionName | test/unit/test_types_database.py:58-62 | The name of a type's collection carries the type-collection prefix, and the id follows the prefix unchanged. |
| CollectionNaming.UnitCollectionNameInjective | test/unit/test_types_database.py:54-62 | Distinct type ids never share a collection. |
| CollectionNaming.IndexName | test/unit/test_types_database.py:323-332 | The name of a non-empty key ends in the direction digit `1`. |
| CollectionNaming.IndexNameExamples | test/unit/test_types_database.py:323-332 | The names for `individual_1` and for `compound_1`,`compound_2` are `individual_1_1` and `compound_1_1_compound_2_1`. |
| IndexTables.SingleFieldName | test/unit/test_types_database.py:323 | The index of any single-field spec is named after the field followed by `_1`. |
| IndexTables.SpecIndexNameIsNotId | test/unit/test_types_database.py:320 | The index of a non-empty spec never takes the name of the identity index `_id_`. |
| IndexTables.EnsureIndex | test/unit/test_types_database.py:305-320 | One `ensure_index` keeps every existing index. It adds exactly the spec's name when the spec can be built, and nothing otherwise. A new name gets the spec's fields in order, ascending, with the requested uniqueness. An existing name is left as it was. |
| IndexTables.DefaultNamesCollide | test/unit/test_types_database.py:323-332 | Default index names are not injective: the single field `a_1_b` and the compound key `a`,`b` are both named `a_1_b_1`. Ensuring both on a fresh collection gives two indexes, not three. |
| IndexTables.EnsureIndexes | test/unit/test_types_database.py:305-340 | Existing indexes survive unchanged, and every buildable spec ends with an index under its name. |
| IndexTables.Rejected | test/unit/test_types_database.py:176-203 | The refused specs are empty exactly when every spec can be built. Each refused spec is in the list and cannot be built. |
| IndexTables.EnsureIndexesKeys | test/unit/test_types_database.py:318-320 | When all specs are buildable, the index names afterwards are the old names plus one name per spec. |
| IndexTables.EnsureFreshIndexes | test/unit/test_types_database.py:318-340 | Distinct new names on a table that has none of them give exactly `|t| + |specs|` indexes. Each index is keyed by its spec's fields in order, all ascending, and carries the given uniqueness. |
| IndexTables.EnsurePresentIndexes | test/unit/test_types_database.py:78-97 | Ensuring specs whose names are all present changes nothing. |
| IndexTables.EnsureIndexesIdempotent | test/unit/test_types_database.py:78-97 | Ensuring the same specs twice is the same as ensuring them once. |
| TypesStore.RecordOf | test/unit/test_types_database.py:252-257 | The registry record holds the definition's id, display name, description, unique and search specs verbatim. |
| TypesStore.WithoutIndexes | test/unit/test_types_database.py:405 | Drop leaves the type's collection holding only the identity index. Every other collection and the registry are unchanged, and a missing collection stays missing. |
| TypesStore.WithIndexes | test/unit/test_types_database.py:312-320 | Index creation keeps every earlier index and creates the collection if absent. Every buildable spec has an index under its name afterwards. It never touches the registry or other collections. |
| TypesStore.Upserted | test/unit/test_types_database.py:241-295 | Upsert inserts or replaces the record under its id, never duplicating it. Other records are unchanged, and the collection exists afterwards with its indexes intact. |
| TypesStore.ApplyDefinition | test/unit/test_types_database.py:157-203 | A definition succeeds exactly when its id is legal and all its specs can be built. A failure leaves the registry unchanged. Nothing outside the type's own record and collection changes, and no collection disappears. |
| TypesStore.RejectedDefinitions | test/unit/test_types_database.py:164-166 | The failure list is empty exactly when every definition is acceptable. It holds only refused definitions of the batch, and every refused definition of the batch. |
| TypesStoreProperties.RejectedDefinitionsAppend | test/unit/test_types_database.py:164-166 | The failure list keeps batch order: the failures of two consecutive parts of a batch are the first part's followed by the second part's. |
| TypesStore.UpdateAll | test/unit/test_types_database.py:54-55 | A batch's failure list is exactly its refused definitions. With `TypesStoreProperties.RejectedDefinitionsAppend` this list is in batch order. |
| TypesStore.OutcomeOf | test/unit/test_types_database.py:134-166 | `UpdateFailed` is reported exactly when some definition fails, and carries the failure list. `MissingDefinitions` needs the flag, and carries the ids registered before the call and absent from the batch, never empty. Success with the flag means nothing registered was left out. |
| TypesStoreProperties.RebuiltCollections | test/unit/test_types_database.py:394-414 | Dropping a type's indexes, then ensuring its unique and its search indexes, replaces that type's collection with exactly the declared table. Every other collection is kept as it was. |
| TypesStoreProperties.ApplyAcceptable | test/unit/test_types_database.py:394-414 | An accepted definition's result does not depend on the collection's old indexes: the record is upserted and the collection holds exactly the declared indexes. |
| TypesStoreProperties.BatchCommits | test/unit/test_types_database.py:157-166 | For a batch with distinct ids, even a failing one: every accepted definition ends registered and indexed as declared. Every refused one leaves its old record alone. Types outside the batch are untouched, and no collection is removed. |
| TypesStoreProperties.CollectionNamesCount | test/unit/test_types_database.py:58-62 | n definitions with distinct ids name n distinct collections. |
| TypesStoreProperties.TableForShape | test/unit/test_types_database.py:64-69 | With distinct index names, an accepted definition's collection holds `1 + |unique_indexes| + |search_indexes|` indexes: the identity index, a unique index per unique spec and a non-unique index per search spec. |
| TypesStoreProperties.CleanLoad | test/unit/test_types_database.py:54-69 | A clean store loaded with n acceptable definitions of distinct ids reports nothing failed. It lists exactly the n collections named for the ids, each holding its declared indexes and, with distinct index names, `1 + |u| + |s|` of them. |
| TypesStoreProperties.ReloadKeepsRegistry | test/unit/test_types_database.py:78-83 | Reloading installed definitions rewrites every registry record to the value it already had. |
| TypesStoreProperties.ReloadKeepsCollections | test/unit/test_types_database.py:78-97 | Reloading installed definitions rebuilds every collection to the indexes it already had. |
| TypesStoreProperties.ReloadIsIdempotent | test/unit/test_types_database.py:78-97 | Loading the same acceptable definitions again, in any order, fails nothing and leaves the store exactly as the first load left it. |
| TypesStoreProperties.DisjointBatches | test/unit/test_types_database.py:106-111 | Ids distinct across two batches are distinct within each, and no earlier id or collection appears in the later batch. |
| TypesStoreProperties.CollectionNamesAppend | test/unit/test_types_database.py:115 | The collections of two batches together are the union of each batch's collections. |
| TypesStoreProperties.EarlierStayInstalled | test/unit/test_types_database.py:117-125 | A later batch that mentions no earlier id leaves every earlier type registered and indexed as it was. |
| TypesStoreProperties.TypeCollectionsGrow | test/unit/test_types_database.py:114-115 | After a fully accepted batch, the type collections are those before it plus one per definition of the batch. |
| TypesStoreProperties.OmittedTypesKept | test/unit/test_types_database.py:106-125 | Loading {1,2,3} then {4} fails nothing and lists four type collections. The omitted types keep their records and their full index sets. |
| TypesStoreProperties.CleanRegistry | test/unit/test_types_database.py:54-69 | After a clean load of acceptable definitions with distinct ids, the registered ids are exactly the batch's ids. |
| TypesStoreProperties.AcceptedBatchOutcome | test/unit/test_types_database.py:134-147 | From any store, a batch in which every definition is acceptable reports with the flag exactly the registered ids it omits, or success if it omits none. Without the flag it reports success. |
| TypesStoreProperties.MissingDefinitionsReported | test/unit/test_types_database.py:134-147 | After a clean load, a batch with the flag reports exactly the loaded ids it omits as `MissingDefinitions`, or succeeds if it omits none. Without the flag the same batch succeeds. |
| TypesStoreProperties.RejectedDefinitionsSingle | test/unit/test_types_database.py:164-166 | A batch with one refused definition has exactly that definition as its failure list, wherever it stands. |
| TypesStoreProperties.SingleBadDefinitionFails | test/unit/test_types_database.py:157-203 | A bad id, unique spec or search spec, first or last in the batch, raises `UpdateFailed` carrying exactly that definition. |
| TypesStoreProperties.DroppedThenCreated | test/unit/test_types_database.py:405-406 | After a drop, index creation starts from the identity index alone. |
| TypesStoreProperties.DropThenUpdateReplaces | test/unit/test_types_database.py:394-414 | Drop then unique-index update leaves `1 + |specs|` indexes, named `_id_` and one per new spec; the old set is not merged in. |
| TypesStoreProperties.ReapplyReplacesRecord | test/unit/test_types_database.py:270-295 | Re-applying a definition with the same id holds one record for the id, equal to the latest definition, and the collection still exists. |
| TypesStoreProperties.ApplyKeepsInvariant | test/unit/test_types_database.py:54-69 | Every definition, accepted or not, keeps the store invariant: each collection has its identity index, and each record is filed under its id with its collection present. |
| TypesStoreProperties.BatchKeepsInvariant | test/unit/test_types_database.py:54-69 | A whole batch keeps the store invariant. |
| TypesStoreProperties.UniqueIndexesExample | test/unit/test_types_database.py:305-340 | Specs `[[compound_1, compound_2], individual_1]` on a fresh collection give three indexes. `individual_1_1` is keyed on `individual_1` ascending, `compound_1_1_compound_2_1` on `compound_1` then `compound_2` ascending, and both are unique. |
| TypesStoreProperties.SingleTypeListed | test/unit/test_types_database.py:211-219 | `_create_or_update_type` alone on a clean database leaves exactly one type collection, the one named for the type. |
| TypesDatabase.Database.constructor | test/unit/test_types_database.py:227-231 | A clean database has no records and no collections. |
| TypesDatabase.Database.CreateOrUpdateType | test/unit/test_types_database.py:241-295 | Succeeds exactly for a legal id. The object's new state is the upsert of the old one, or the old state on failure. |
| TypesDatabase.Database.DropIndexes | test/unit/test_types_database.py:405 | The new state is the old one with the type's collection reduced to its identity index. |
| TypesDatabase.Database.EnsureEach | test/unit/test_types_database.py:312-340 | The loop over the specs yields exactly `EnsureIndexes` of the table and `Rejected` of the specs. |
| TypesDatabase.Database.EnsureSpecIndexes | test/unit/test_types_database.py:312-320 | The new state is `WithIndexes` of the old one, and the refused specs are reported. |
| TypesDatabase.Database.UpdateUniqueIndexes | test/unit/test_types_database.py:305-340 | Succeeds exactly when the id is legal and every unique spec can be built. The new state carries the unique indexes. |
| TypesDatabase.Database.UpdateSearchIndexes | test/unit/test_types_database.py:350-385 | As for the unique indexes, with non-unique indexes from the search specs. |
| TypesDatabase.Database.UpdateType | test/unit/test_types_database.py:157-203 | Succeeds exactly for an acceptable definition. The new state is `ApplyDefinition` of the old one. |
| TypesDatabase.Database.UpdateDatabase | test/unit/test_types_database.py:54-203 | The new state is `UpdateAll` of the old one. The report is `OutcomeOf` the old state, with missing ids taken from the registry before the batch ran. |
| TypesDatabase.Database.AllTypeCollectionNames | test/unit/test_types_database.py:205-231 | Lists each collection that carries the type prefix exactly once, and nothing else. The list is empty, never absent, on a clean database. Every registered type's collection is listed. |

## Left out

- The database module that `test/unit/test_types_database.py` drives is not
  part of this model. Its operations are modelled from what the tests assert.
- The type-collection prefix is written as `units_`. The proofs use only
  that the name is the prefix followed by the id, which makes the naming
  injective.
- MongoDB's rules for legal collection and field names are store behaviour.
  They are abstract: the `validId` and `validField` parameters, constants of
  the `Database` object. The tests' `'!@#$%^&*()'` and `'bad..dot..notation'`
  are examples of names those rules refuse.
- Connection handling, `clean()`, the exceptions' `__str__`
  (test/unit/test_types_database.py:148, 167) and concurrent updates are not
  modelled. `type_units_collection` and `index_information` are read
  directly from the `collections` map.
- Within one definition, the model assumes this order:
  1. the id is checked;
  2. the old indexes are dropped;
  3. the unique indexes, then the search indexes, are ensured;
  4. the registry record is upserted last.

  A failed step ends that definition's processing. Within one index list,
  every spec is attempted and the list fails if any spec failed.
- When a batch both has failures and omits registered ids, the model reports
  `UpdateFailed`. Missing ids are computed from the registry as it was before
  the batch. The batch is applied in full whatever it reports: definitions
  accepted in a batch that reports `UpdateFailed` or `MissingDefinitions`
  stay committed, since `UpdateDatabase` always leaves the state `UpdateAll`
  gives.
- `None` as `unique_indexes` or `search_indexes` normalises to `[None]`, as
  `model.py` does. An empty list would mean "no indexes", but the code
  produces `[None]`. Index creation refuses the `None` spec because it names
  no field.
- The tests reassign fields of an existing `TypeDefinition`
  (test/unit/test_types_database.py:274-277, 403). The model builds a new
  definition value with the changed fields instead. This differs at lines
  276-277: the reassignment bypasses the constructor, so the source's
  definition then holds a bare `None` and not `[None]`. `SpecField` cannot
  hold a bare `None`, so the model's definition holds `[None]` there.
- IndexTables.EnsureIndex: an `ensure_index` whose default name is already
  present is taken to change nothing, even when the existing index has a
  different key or uniqueness. The store's behaviour in that case is not
  modelled. MongoDB's default names are not injective
  (`IndexTables.DefaultNamesCollide`), so two specs of one definition can
  share a single index. The spec `name` at
  test/unit/test_types_database.py:211, both unique and search, ends with
  the unique index only. `EnsurePresentIndexes`, `EnsureIndexesIdempotent`
  and the distinct-names precondition of `TableForShape` rest on this.
- `child_types` is normalised, but the registry record does not hold it. The
  tests compare only the five other fields of the record.
- TypesStoreProperties.TableForShape: the count `1 + |unique_indexes| +
  |search_indexes|` is stated only for definitions whose specs have distinct
  index names. The test at test/unit/test_types_database.py:211 uses `name`
  for both kinds, and then one index serves both.
- TypesStoreProperties.ReloadIsIdempotent and
  TypesStoreProperties.OmittedTypesKept require acceptable definitions with
  distinct ids, as in the tests. Duplicate ids within a batch are not
  covered.
- Ascending order is the only index direction the code produces, so
  `Descending` is never used by an operation.
