/** What the types database promises across whole batches: exact failure
    lists, upserts that never duplicate, idempotent reloads, omitted types
    kept, missing ids reported, and the index count of every type collection. */
module TypesStoreProperties {
  import opened Wrappers
  import opened ContentTypes
  import opened CollectionNaming
  import opened IndexTables
  import opened TypesStore

  predicate DistinctIds(defs: seq<TypeDefinition>)
  {
    forall i, j :: 0 <= i < j < |defs| ==> defs[i].id != defs[j].id
  }

  predicate AllAcceptable(defs: seq<TypeDefinition>, validId: string -> bool, validField: string -> bool)
  {
    forall i :: 0 <= i < |defs| ==> Acceptable(defs[i], validId, validField)
  }

  /** Every unique and search spec of `d` yields its own index name. */
  predicate DistinctIndexNames(d: TypeDefinition)
  {
    Distinct(SpecNames(d.uniqueIndexes.items + d.searchIndexes.items))
  }

  /** Every accepted definition of the batch is registered and indexed as it says. */
  ghost predicate AcceptedInstalled(defs: seq<TypeDefinition>, r: Store,
                                    validId: string -> bool, validField: string -> bool)
  {
    forall i :: 0 <= i < |defs| && Acceptable(defs[i], validId, validField) ==>
      defs[i].id in r.registry && r.registry[defs[i].id] == RecordOf(defs[i])
      && UnitCollectionName(defs[i].id) in r.collections
      && r.collections[UnitCollectionName(defs[i].id)] == TableFor(defs[i], validField)
  }

  /** A refused definition leaves its previous record, or its absence, alone. */
  ghost predicate RefusedKept(s: Store, defs: seq<TypeDefinition>, r: Store,
                              validId: string -> bool, validField: string -> bool)
  {
    forall i :: 0 <= i < |defs| && !Acceptable(defs[i], validId, validField) ==>
      (defs[i].id in r.registry <==> defs[i].id in s.registry)
      && (defs[i].id in s.registry ==> r.registry[defs[i].id] == s.registry[defs[i].id])
  }

  /** Types the batch does not mention are untouched, and no collection is deleted. */
  ghost predicate OthersUntouched(s: Store, defs: seq<TypeDefinition>, r: Store)
  {
    (forall k :: k !in IdSet(defs) ==>
       (k in r.registry <==> k in s.registry) && (k in s.registry ==> r.registry[k] == s.registry[k]))
    && (forall c :: c !in CollectionNames(defs) ==>
          (c in r.collections <==> c in s.collections)
          && (c in s.collections ==> r.collections[c] == s.collections[c]))
    && s.collections.Keys <= r.collections.Keys
  }

  /** What a batch leaves behind, relative to the store `s` it ran on. */
  ghost predicate Committed(s: Store, defs: seq<TypeDefinition>, r: Store,
                            validId: string -> bool, validField: string -> bool)
  {
    AcceptedInstalled(defs, r, validId, validField)
    && RefusedKept(s, defs, r, validId, validField)
    && OthersUntouched(s, defs, r)
  }

  /** Drop, then unique and search indexes: the type's collection ends as
      `TableFor(d)`, whatever it held, and every other collection is kept. */
  lemma RebuiltCollections(s: Store, d: TypeDefinition, validField: string -> bool)
    ensures WithIndexes(WithIndexes(WithoutIndexes(s, d.id), d.id, d.uniqueIndexes.items, true, validField),
                        d.id, d.searchIndexes.items, false, validField).collections
            == s.collections[UnitCollectionName(d.id) := TableFor(d, validField)]
  {
    var c := UnitCollectionName(d.id);
    var dropped := WithoutIndexes(s, d.id);
    assert TableOf(dropped, d.id) == IdOnlyTable();
    var t1 := EnsureIndexes(IdOnlyTable(), d.uniqueIndexes.items, true, validField);
    var withUnique := WithIndexes(dropped, d.id, d.uniqueIndexes.items, true, validField);
    assert withUnique.collections == s.collections[c := t1];
    assert TableOf(withUnique, d.id) == t1;
  }

  /** An accepted definition's result does not depend on what its collection
      held before: the old indexes are dropped and the declared ones built. */
  lemma ApplyAcceptable(s: Store, d: TypeDefinition, validId: string -> bool, validField: string -> bool)
    requires Acceptable(d, validId, validField)
    ensures ApplyDefinition(s, d, validId, validField).store == Installed(s, d, validField)
  {
    var dropped := WithoutIndexes(s, d.id);
    var withUnique := WithIndexes(dropped, d.id, d.uniqueIndexes.items, true, validField);
    var withSearch := WithIndexes(withUnique, d.id, d.searchIndexes.items, false, validField);
    RebuiltCollections(s, d, validField);
    assert withSearch.registry == s.registry;
    assert UnitCollectionName(d.id) in withSearch.collections;
    assert ApplyDefinition(s, d, validId, validField).store == Upserted(withSearch, d);
  }

  /** The ids of a batch with distinct ids pick out distinct definitions. */
  lemma LastIdIsNew(defs: seq<TypeDefinition>)
    requires |defs| > 0 && DistinctIds(defs)
    ensures defs[|defs| - 1].id !in IdSet(defs[..|defs| - 1])
    ensures UnitCollectionName(defs[|defs| - 1].id) !in CollectionNames(defs[..|defs| - 1])
  {
    var n := |defs| - 1;
    var p := defs[..n];
    UnitCollectionNameInjective();
    forall x | x in p
      ensures x.id != defs[n].id && UnitCollectionName(x.id) != UnitCollectionName(defs[n].id)
    {
      var i :| 0 <= i < n && p[i] == x;
      assert defs[i].id != defs[n].id;
    }
  }

  lemma AcceptedInstalledStep(defs: seq<TypeDefinition>, b: Store, validId: string -> bool, validField: string -> bool)
    requires |defs| > 0 && AcceptedInstalled(defs[..|defs| - 1], b, validId, validField)
    requires defs[|defs| - 1].id !in IdSet(defs[..|defs| - 1])
    requires UnitCollectionName(defs[|defs| - 1].id) !in CollectionNames(defs[..|defs| - 1])
    ensures AcceptedInstalled(defs, ApplyDefinition(b, defs[|defs| - 1], validId, validField).store, validId, validField)
  {
    var n := |defs| - 1;
    var p, d := defs[..n], defs[n];
    var r := ApplyDefinition(b, d, validId, validField).store;
    if Acceptable(d, validId, validField) {
      ApplyAcceptable(b, d, validId, validField);
    }
    forall i | 0 <= i < |defs| && Acceptable(defs[i], validId, validField)
      ensures defs[i].id in r.registry && r.registry[defs[i].id] == RecordOf(defs[i])
      ensures UnitCollectionName(defs[i].id) in r.collections
      ensures r.collections[UnitCollectionName(defs[i].id)] == TableFor(defs[i], validField)
    {
      if i < n {
        assert defs[i] == p[i] && p[i] in p;
      }
    }
  }

  lemma RefusedKeptStep(s: Store, defs: seq<TypeDefinition>, b: Store, validId: string -> bool, validField: string -> bool)
    requires |defs| > 0
    requires RefusedKept(s, defs[..|defs| - 1], b, validId, validField) && OthersUntouched(s, defs[..|defs| - 1], b)
    requires defs[|defs| - 1].id !in IdSet(defs[..|defs| - 1])
    ensures RefusedKept(s, defs, ApplyDefinition(b, defs[|defs| - 1], validId, validField).store, validId, validField)
  {
    var n := |defs| - 1;
    var p, d := defs[..n], defs[n];
    var r := ApplyDefinition(b, d, validId, validField).store;
    forall i | 0 <= i < |defs| && !Acceptable(defs[i], validId, validField)
      ensures defs[i].id in r.registry <==> defs[i].id in s.registry
      ensures defs[i].id in s.registry ==> r.registry[defs[i].id] == s.registry[defs[i].id]
    {
      if i < n {
        assert defs[i] == p[i] && p[i] in p;
      }
    }
  }

  lemma OthersUntouchedStep(s: Store, defs: seq<TypeDefinition>, b: Store, validId: string -> bool, validField: string -> bool)
    requires |defs| > 0 && OthersUntouched(s, defs[..|defs| - 1], b)
    ensures OthersUntouched(s, defs, ApplyDefinition(b, defs[|defs| - 1], validId, validField).store)
  {
    var n := |defs| - 1;
    assert defs == defs[..n] + [defs[n]];
    assert IdSet(defs) == IdSet(defs[..n]) + {defs[n].id};
    assert CollectionNames(defs) == CollectionNames(defs[..n]) + {UnitCollectionName(defs[n].id)};
  }

  /** One batch, definition by definition: accepted definitions end up
      registered and indexed as declared, refused ones keep their previous
      record, and nothing outside the batch changes. */
  lemma {:induction false} BatchCommits(s: Store, defs: seq<TypeDefinition>,
                                        validId: string -> bool, validField: string -> bool)
    requires DistinctIds(defs)
    ensures Committed(s, defs, UpdateAll(s, defs, validId, validField).store, validId, validField)
    decreases |defs|
  {
    if defs != [] {
      var n := |defs| - 1;
      var p := defs[..n];
      assert forall i :: 0 <= i < n ==> p[i] == defs[i];
      assert DistinctIds(p);
      BatchCommits(s, p, validId, validField);
      LastIdIsNew(defs);
      var b := UpdateAll(s, p, validId, validField).store;
      assert UpdateAll(s, defs, validId, validField).store == ApplyDefinition(b, defs[n], validId, validField).store;
      AcceptedInstalledStep(defs, b, validId, validField);
      RefusedKeptStep(s, defs, b, validId, validField);
      OthersUntouchedStep(s, defs, b, validId, validField);
    }
  }

  /** Distinct ids give distinct collections: a batch of n types names n collections. */
  lemma {:induction false} CollectionNamesCount(defs: seq<TypeDefinition>)
    requires DistinctIds(defs)
    ensures |CollectionNames(defs)| == |defs|
    decreases |defs|
  {
    if defs != [] {
      var n := |defs| - 1;
      var p := defs[..n];
      assert forall i :: 0 <= i < n ==> p[i] == defs[i];
      CollectionNamesCount(p);
      LastIdIsNew(defs);
      assert defs == p + [defs[n]];
      assert CollectionNames(defs) == CollectionNames(p) + {UnitCollectionName(defs[n].id)};
    }
  }

  lemma DistinctSplit(a: seq<string>, b: seq<string>)
    requires Distinct(a + b)
    ensures Distinct(a) && Distinct(b)
    ensures forall j :: 0 <= j < |b| ==> b[j] !in a
  {
    var ab := a + b;
    forall j | 0 <= j < |a| ensures a[j] !in a[..j] {
      assert ab[..j] == a[..j];
    }
    forall j | 0 <= j < |b| ensures b[j] !in a && b[j] !in b[..j] {
      assert ab[|a| + j] == b[j];
      assert ab[..|a| + j] == a + b[..j];
    }
  }

  /** The unique layer of an accepted definition's table: the identity index
      and one unique index per spec, with no search spec's name among them. */
  lemma UniqueLayer(u: seq<IndexEntry>, sr: seq<IndexEntry>, validField: string -> bool)
    requires Rejected(u, validField) == [] && Rejected(sr, validField) == []
    requires Distinct(SpecNames(u + sr))
    ensures |EnsureIndexes(IdOnlyTable(), u, true, validField)| == 1 + |u|
    ensures IdIndexName in EnsureIndexes(IdOnlyTable(), u, true, validField)
    ensures forall i :: 0 <= i < |u| ==>
              EnsureIndexes(IdOnlyTable(), u, true, validField)[SpecIndexName(u[i])] == IndexFor(u[i], true)
    ensures forall j :: 0 <= j < |sr| ==> SpecIndexName(sr[j]) !in EnsureIndexes(IdOnlyTable(), u, true, validField)
    ensures Distinct(SpecNames(sr))
  {
    SplitNames(u, sr);
    NamesNotId(u, validField);
    EnsureFreshIndexes(IdOnlyTable(), u, true, validField);
    SearchNamesAbsent(u, sr, validField);
  }

  /** Distinct names for two lists together are distinct within each list and
      across them. */
  lemma SplitNames(u: seq<IndexEntry>, sr: seq<IndexEntry>)
    requires Distinct(SpecNames(u + sr))
    ensures Distinct(SpecNames(u)) && Distinct(SpecNames(sr))
    ensures forall j :: 0 <= j < |SpecNames(sr)| ==> SpecNames(sr)[j] !in SpecNames(u)
  {
    assert SpecNames(u + sr) == SpecNames(u) + SpecNames(sr);
    DistinctSplit(SpecNames(u), SpecNames(sr));
  }

  /** No buildable spec is named like the identity index. */
  lemma NamesNotId(specs: seq<IndexEntry>, validField: string -> bool)
    requires Rejected(specs, validField) == []
    ensures forall i :: 0 <= i < |specs| ==> SpecIndexName(specs[i]) !in IdOnlyTable()
  {
    forall i | 0 <= i < |specs| ensures SpecIndexName(specs[i]) !in IdOnlyTable() {
      SpecIndexNameIsNotId(specs[i]);
    }
  }

  /** No search spec takes the name of the identity index or of a unique spec. */
  lemma SearchNamesAbsent(u: seq<IndexEntry>, sr: seq<IndexEntry>, validField: string -> bool)
    requires Rejected(u, validField) == [] && Rejected(sr, validField) == []
    requires forall j :: 0 <= j < |SpecNames(sr)| ==> SpecNames(sr)[j] !in SpecNames(u)
    ensures forall j :: 0 <= j < |sr| ==> SpecIndexName(sr[j]) !in EnsureIndexes(IdOnlyTable(), u, true, validField)
  {
    EnsureIndexesKeys(IdOnlyTable(), u, true, validField);
    forall j | 0 <= j < |sr| ensures SpecIndexName(sr[j]) !in EnsureIndexes(IdOnlyTable(), u, true, validField) {
      SpecIndexNameIsNotId(sr[j]);
      assert SpecNames(sr)[j] !in SpecNames(u);
    }
  }

  /** The collection of an accepted definition holds the identity index plus
      one index per declared spec: 1 + |unique_indexes| + |search_indexes|
      when the spec names are distinct. Each index is keyed by its spec's
      fields in order, ascending, unique exactly for the unique specs. */
  lemma TableForShape(d: TypeDefinition, validField: string -> bool)
    requires Rejected(d.uniqueIndexes.items, validField) == []
    requires Rejected(d.searchIndexes.items, validField) == []
    requires DistinctIndexNames(d)
    ensures |TableFor(d, validField)| == 1 + |d.uniqueIndexes.items| + |d.searchIndexes.items|
    ensures IdIndexName in TableFor(d, validField) && TableFor(d, validField)[IdIndexName] == IdIndex
    ensures forall i :: 0 <= i < |d.uniqueIndexes.items| ==>
              TableFor(d, validField)[SpecIndexName(d.uniqueIndexes.items[i])]
                == IndexFor(d.uniqueIndexes.items[i], true)
    ensures forall j :: 0 <= j < |d.searchIndexes.items| ==>
              TableFor(d, validField)[SpecIndexName(d.searchIndexes.items[j])]
                == IndexFor(d.searchIndexes.items[j], false)
  {
    var u := d.uniqueIndexes.items;
    var sr := d.searchIndexes.items;
    UniqueLayer(u, sr, validField);
    var t1 := EnsureIndexes(IdOnlyTable(), u, true, validField);
    EnsureFreshIndexes(t1, sr, false, validField);
  }

  /** Every collection installed for a definition with distinct index names
      holds `1 + |unique_indexes| + |search_indexes|` indexes. */
  lemma InstalledCounts(defs: seq<TypeDefinition>, r: Store, validId: string -> bool, validField: string -> bool)
    requires AllAcceptable(defs, validId, validField)
    requires AcceptedInstalled(defs, r, validId, validField)
    ensures forall i :: 0 <= i < |defs| && DistinctIndexNames(defs[i]) ==>
              |r.collections[UnitCollectionName(defs[i].id)]|
                == 1 + |defs[i].uniqueIndexes.items| + |defs[i].searchIndexes.items|
  {
    forall i | 0 <= i < |defs| && DistinctIndexNames(defs[i])
      ensures |r.collections[UnitCollectionName(defs[i].id)]|
                == 1 + |defs[i].uniqueIndexes.items| + |defs[i].searchIndexes.items|
    {
      TableForShape(defs[i], validField);
    }
  }

  /** `update_database` on a clean store with n accepted definitions of
      distinct ids: nothing fails, exactly n type collections exist, one per
      `unit_collection_name(id)`, each holding its declared indexes. */
  lemma CleanLoad(defs: seq<TypeDefinition>, validId: string -> bool, validField: string -> bool)
    requires AllAcceptable(defs, validId, validField) && DistinctIds(defs)
    ensures UpdateAll(EmptyStore, defs, validId, validField).failed == []
    ensures TypeCollections(UpdateAll(EmptyStore, defs, validId, validField).store.collections)
            == CollectionNames(defs)
    ensures |TypeCollections(UpdateAll(EmptyStore, defs, validId, validField).store.collections)| == |defs|
    ensures forall i :: 0 <= i < |defs| ==>
              UnitCollectionName(defs[i].id) in UpdateAll(EmptyStore, defs, validId, validField).store.collections
              && UpdateAll(EmptyStore, defs, validId, validField).store.collections[UnitCollectionName(defs[i].id)]
                 == TableFor(defs[i], validField)
    ensures forall i :: 0 <= i < |defs| && DistinctIndexNames(defs[i]) ==>
              |UpdateAll(EmptyStore, defs, validId, validField).store.collections[UnitCollectionName(defs[i].id)]|
                == 1 + |defs[i].uniqueIndexes.items| + |defs[i].searchIndexes.items|
  {
    var r := UpdateAll(EmptyStore, defs, validId, validField).store;
    BatchCommits(EmptyStore, defs, validId, validField);
    CollectionNamesCount(defs);
    TypeCollectionsGrow(EmptyStore, defs, r, validId, validField);
    assert TypeCollections(EmptyStore.collections) == {};
    InstalledCounts(defs, r, validId, validField);
  }

  /** A second batch made of definitions the first one installed rewrites
      each registry record to the value it already had. */
  lemma ReloadKeepsRegistry(first: Store, defs: seq<TypeDefinition>, again: seq<TypeDefinition>, second: Store,
                            validId: string -> bool, validField: string -> bool)
    requires AllAcceptable(defs, validId, validField) && AllAcceptable(again, validId, validField)
    requires AcceptedInstalled(defs, first, validId, validField)
    requires AcceptedInstalled(again, second, validId, validField) && OthersUntouched(first, again, second)
    requires forall d :: d in again <==> d in defs
    ensures second.registry == first.registry
  {
    forall k | k in IdSet(again)
      ensures k in first.registry && k in second.registry && second.registry[k] == first.registry[k]
    {
      var x :| x in again && x.id == k;
      var j :| 0 <= j < |again| && again[j] == x;
      var i :| 0 <= i < |defs| && defs[i] == x;
    }
    assert forall k :: k in second.registry <==> k in first.registry;
  }

  /** Likewise for the type collections: each is rebuilt to the indexes it had. */
  lemma ReloadKeepsCollections(first: Store, defs: seq<TypeDefinition>, again: seq<TypeDefinition>, second: Store,
                               validId: string -> bool, validField: string -> bool)
    requires AllAcceptable(defs, validId, validField) && AllAcceptable(again, validId, validField)
    requires AcceptedInstalled(defs, first, validId, validField)
    requires AcceptedInstalled(again, second, validId, validField) && OthersUntouched(first, again, second)
    requires forall d :: d in again <==> d in defs
    ensures second.collections == first.collections
  {
    forall c | c in CollectionNames(again)
      ensures c in first.collections && c in second.collections && second.collections[c] == first.collections[c]
    {
      var x :| x in again && c == UnitCollectionName(x.id);
      var j :| 0 <= j < |again| && again[j] == x;
      var i :| 0 <= i < |defs| && defs[i] == x;
    }
    assert forall c :: c in second.collections <==> c in first.collections;
  }

  /** Loading the same accepted definitions again, in any order, leaves the
      registry and every collection exactly as the first load left them. */
  lemma ReloadIsIdempotent(s: Store, defs: seq<TypeDefinition>, again: seq<TypeDefinition>,
                           validId: string -> bool, validField: string -> bool)
    requires AllAcceptable(defs, validId, validField) && DistinctIds(defs) && DistinctIds(again)
    requires forall d :: d in again <==> d in defs
    ensures UpdateAll(UpdateAll(s, defs, validId, validField).store, again, validId, validField).failed == []
    ensures UpdateAll(UpdateAll(s, defs, validId, validField).store, again, validId, validField).store
            == UpdateAll(s, defs, validId, validField).store
  {
    var first := UpdateAll(s, defs, validId, validField).store;
    var second := UpdateAll(first, again, validId, validField).store;
    forall j | 0 <= j < |again| ensures Acceptable(again[j], validId, validField) {
      assert again[j] in defs;
    }
    BatchCommits(s, defs, validId, validField);
    BatchCommits(first, again, validId, validField);
    ReloadKeepsRegistry(first, defs, again, second, validId, validField);
    ReloadKeepsCollections(first, defs, again, second, validId, validField);
  }

  /** Ids distinct across two batches are distinct within each, and no id
      (hence no collection) of the first appears in the second. */
  lemma DisjointBatches(defs: seq<TypeDefinition>, later: seq<TypeDefinition>)
    requires DistinctIds(defs + later)
    ensures DistinctIds(defs) && DistinctIds(later)
    ensures forall i :: 0 <= i < |defs| ==>
              defs[i].id !in IdSet(later) && UnitCollectionName(defs[i].id) !in CollectionNames(later)
  {
    var all := defs + later;
    assert forall i :: 0 <= i < |defs| ==> all[i] == defs[i];
    assert forall j :: 0 <= j < |later| ==> all[|defs| + j] == later[j];
    UnitCollectionNameInjective();
    forall i | 0 <= i < |defs| ensures defs[i].id !in IdSet(later) {
      forall x | x in later ensures x.id != defs[i].id {
        var j :| 0 <= j < |later| && later[j] == x;
        assert all[i].id != all[|defs| + j].id;
      }
    }
  }

  lemma CollectionNamesAppend(defs: seq<TypeDefinition>, later: seq<TypeDefinition>)
    ensures CollectionNames(defs + later) == CollectionNames(defs) + CollectionNames(later)
  {
    var all := defs + later;
    forall c | c in CollectionNames(all) ensures c in CollectionNames(defs) + CollectionNames(later) {
      var x :| x in all && c == UnitCollectionName(x.id);
      assert x in defs || x in later;
    }
  }

  /** A later batch that mentions none of the earlier ids keeps every earlier
      type installed as it was. */
  lemma EarlierStayInstalled(defs: seq<TypeDefinition>, first: Store, later: seq<TypeDefinition>, second: Store,
                             validId: string -> bool, validField: string -> bool)
    requires AllAcceptable(defs, validId, validField)
    requires AcceptedInstalled(defs, first, validId, validField)
    requires OthersUntouched(first, later, second)
    requires forall i :: 0 <= i < |defs| ==>
               defs[i].id !in IdSet(later) && UnitCollectionName(defs[i].id) !in CollectionNames(later)
    ensures forall i :: 0 <= i < |defs| ==>
              defs[i].id in second.registry && second.registry[defs[i].id] == RecordOf(defs[i])
              && UnitCollectionName(defs[i].id) in second.collections
              && second.collections[UnitCollectionName(defs[i].id)] == TableFor(defs[i], validField)
  {
  }

  /** The type collections after a fully accepted batch are those before it
      plus one per definition of the batch. */
  lemma TypeCollectionsGrow(first: Store, later: seq<TypeDefinition>, second: Store,
                            validId: string -> bool, validField: string -> bool)
    requires AllAcceptable(later, validId, validField)
    requires AcceptedInstalled(later, second, validId, validField)
    requires OthersUntouched(first, later, second)
    ensures TypeCollections(second.collections) == TypeCollections(first.collections) + CollectionNames(later)
  {
    forall c | c in CollectionNames(later) ensures c in second.collections {
      var x :| x in later && c == UnitCollectionName(x.id);
      var j :| 0 <= j < |later| && later[j] == x;
    }
  }

  /** Types left out of a later batch are not deleted: loading `defs` and
      then `later` (ids all distinct) keeps every earlier type registered and
      indexed as before, and lists |defs| + |later| type collections. */
  lemma OmittedTypesKept(defs: seq<TypeDefinition>, later: seq<TypeDefinition>,
                         validId: string -> bool, validField: string -> bool)
    requires AllAcceptable(defs, validId, validField) && AllAcceptable(later, validId, validField)
    requires DistinctIds(defs + later)
    ensures UpdateAll(UpdateAll(EmptyStore, defs, validId, validField).store, later, validId, validField).failed == []
    ensures |TypeCollections(UpdateAll(UpdateAll(EmptyStore, defs, validId, validField).store, later,
                                       validId, validField).store.collections)| == |defs| + |later|
    ensures forall i :: 0 <= i < |defs| ==>
              var r := UpdateAll(UpdateAll(EmptyStore, defs, validId, validField).store, later,
                                 validId, validField).store;
              defs[i].id in r.registry && r.registry[defs[i].id] == RecordOf(defs[i])
              && UnitCollectionName(defs[i].id) in r.collections
              && r.collections[UnitCollectionName(defs[i].id)] == TableFor(defs[i], validField)
  {
    var first := UpdateAll(EmptyStore, defs, validId, validField).store;
    var second := UpdateAll(first, later, validId, validField).store;
    DisjointBatches(defs, later);
    CleanLoad(defs, validId, validField);
    BatchCommits(EmptyStore, defs, validId, validField);
    BatchCommits(first, later, validId, validField);
    EarlierStayInstalled(defs, first, later, second, validId, validField);
    TypeCollectionsGrow(first, later, second, validId, validField);
    CollectionNamesAppend(defs, later);
    CollectionNamesCount(defs + later);
  }

  /** A clean load registers exactly the ids of its definitions. */
  lemma CleanRegistry(defs: seq<TypeDefinition>, validId: string -> bool, validField: string -> bool)
    requires AllAcceptable(defs, validId, validField) && DistinctIds(defs)
    ensures UpdateAll(EmptyStore, defs, validId, validField).store.registry.Keys == IdSet(defs)
  {
    var first := UpdateAll(EmptyStore, defs, validId, validField).store;
    BatchCommits(EmptyStore, defs, validId, validField);
    forall k | k in IdSet(defs) ensures k in first.registry {
      var x :| x in defs && x.id == k;
      var i :| 0 <= i < |defs| && defs[i] == x;
    }
  }

  /** On any store, a batch of acceptable definitions reports exactly the
      registered ids it omits when asked to, and succeeds otherwise. */
  lemma AcceptedBatchOutcome(s: Store, later: seq<TypeDefinition>, validId: string -> bool, validField: string -> bool)
    requires AllAcceptable(later, validId, validField)
    ensures OutcomeOf(s, later, true, validId, validField)
            == if s.registry.Keys <= IdSet(later) then Updated else MissingDefinitions(s.registry.Keys - IdSet(later))
    ensures OutcomeOf(s, later, false, validId, validField) == Updated
  {
    assert UpdateAll(s, later, validId, validField).failed == [];
  }

  /** With `error_on_missing_definitions`, a batch that omits loaded types
      reports exactly the omitted ids; without it the same batch succeeds. */
  lemma MissingDefinitionsReported(defs: seq<TypeDefinition>, later: seq<TypeDefinition>,
                                   validId: string -> bool, validField: string -> bool)
    requires AllAcceptable(defs, validId, validField) && DistinctIds(defs)
    requires AllAcceptable(later, validId, validField)
    ensures OutcomeOf(UpdateAll(EmptyStore, defs, validId, validField).store, later, true, validId, validField)
            == if IdSet(defs) <= IdSet(later) then Updated else MissingDefinitions(IdSet(defs) - IdSet(later))
    ensures OutcomeOf(UpdateAll(EmptyStore, defs, validId, validField).store, later, false, validId, validField)
            == Updated
  {
    CleanRegistry(defs, validId, validField);
    AcceptedBatchOutcome(UpdateAll(EmptyStore, defs, validId, validField).store, later, validId, validField);
  }

  /** One more definition extends the failure list by itself alone, or not at all. */
  lemma RejectedDefinitionsStep(defs: seq<TypeDefinition>, validId: string -> bool, validField: string -> bool)
    requires defs != []
    ensures RejectedDefinitions(defs, validId, validField)
            == RejectedDefinitions(defs[..|defs| - 1], validId, validField)
               + (if Acceptable(defs[|defs| - 1], validId, validField) then [] else [defs[|defs| - 1]])
  {
  }

  /** The failure list keeps batch order: the failures of a batch split in
      two are the first part's failures followed by the second part's. With
      the one-element cases this fixes the list as the in-order filter of the
      refused definitions. */
  lemma {:induction false} RejectedDefinitionsAppend(a: seq<TypeDefinition>, b: seq<TypeDefinition>,
                                                     validId: string -> bool, validField: string -> bool)
    ensures RejectedDefinitions(a + b, validId, validField)
            == RejectedDefinitions(a, validId, validField) + RejectedDefinitions(b, validId, validField)
    decreases |b|
  {
    if b == [] {
      assert a + b == a;
    } else {
      var n := |b| - 1;
      var ab := a + b;
      assert ab[..|ab| - 1] == a + b[..n];
      assert ab[|ab| - 1] == b[n];
      RejectedDefinitionsStep(ab, validId, validField);
      RejectedDefinitionsStep(b, validId, validField);
      RejectedDefinitionsAppend(a, b[..n], validId, validField);
    }
  }

  /** The failure list of a batch with exactly one refused definition is
      that definition alone, wherever it stands in the batch. */
  lemma {:induction false} RejectedDefinitionsSingle(defs: seq<TypeDefinition>, k: nat,
                                                     validId: string -> bool, validField: string -> bool)
    requires k < |defs| && !Acceptable(defs[k], validId, validField)
    requires forall i :: 0 <= i < |defs| && i != k ==> Acceptable(defs[i], validId, validField)
    ensures RejectedDefinitions(defs, validId, validField) == [defs[k]]
    decreases |defs|
  {
    var n := |defs| - 1;
    var p := defs[..n];
    RejectedDefinitionsStep(defs, validId, validField);
    if k < n {
      assert p[k] == defs[k];
      assert forall i :: 0 <= i < |p| && i != k ==> Acceptable(p[i], validId, validField) by {
        forall i | 0 <= i < |p| && i != k ensures Acceptable(p[i], validId, validField) {
          assert p[i] == defs[i];
        }
      }
      RejectedDefinitionsSingle(p, k, validId, validField);
    } else {
      assert forall i :: 0 <= i < |p| ==> Acceptable(p[i], validId, validField) by {
        forall i | 0 <= i < |p| ensures Acceptable(p[i], validId, validField) {
          assert p[i] == defs[i];
        }
      }
    }
  }

  /** A batch with one bad definition, first or last or anywhere, raises
      `UpdateFailed` naming exactly that definition. */
  lemma SingleBadDefinitionFails(s: Store, defs: seq<TypeDefinition>, k: nat, errorOnMissingDefinitions: bool,
                                 validId: string -> bool, validField: string -> bool)
    requires k < |defs| && !Acceptable(defs[k], validId, validField)
    requires forall i :: 0 <= i < |defs| && i != k ==> Acceptable(defs[i], validId, validField)
    ensures OutcomeOf(s, defs, errorOnMissingDefinitions, validId, validField) == UpdateFailed([defs[k]])
  {
    RejectedDefinitionsSingle(defs, k, validId, validField);
  }

  /** After a drop, index creation starts from the identity index alone,
      whatever the collection held before. */
  lemma DroppedThenCreated(s: Store, typeId: string, specs: seq<IndexEntry>, unique: bool,
                           validField: string -> bool)
    ensures WithIndexes(WithoutIndexes(s, typeId), typeId, specs, unique, validField)
              .collections[UnitCollectionName(typeId)]
            == EnsureIndexes(IdOnlyTable(), specs, unique, validField)
  {
    assert TableOf(WithoutIndexes(s, typeId), typeId) == IdOnlyTable();
  }

  /** `_drop_indexes` then `_update_unique_indexes` replaces the whole index
      set rather than merging: whatever the collection held, it ends with the
      identity index and one index per new spec. */
  lemma DropThenUpdateReplaces(s: Store, typeId: string, specs: seq<IndexEntry>, validField: string -> bool)
    requires Rejected(specs, validField) == [] && Distinct(SpecNames(specs))
    ensures var t := WithIndexes(WithoutIndexes(s, typeId), typeId, specs, true, validField)
                       .collections[UnitCollectionName(typeId)];
            |t| == 1 + |specs|
            && (forall k :: k in t <==> k in IdOnlyTable() || k in SpecNames(specs))
  {
    forall i | 0 <= i < |specs| ensures SpecIndexName(specs[i]) !in IdOnlyTable() {
      SpecIndexNameIsNotId(specs[i]);
    }
    DroppedThenCreated(s, typeId, specs, true, validField);
    EnsureFreshIndexes(IdOnlyTable(), specs, true, validField);
    EnsureIndexesKeys(IdOnlyTable(), specs, true, validField);
  }

  /** Re-applying `_create_or_update_type` for the same id with changed
      metadata or specs leaves one record for the id, equal to the latest
      definition, and the type collection in place. */
  lemma ReapplyReplacesRecord(s: Store, first: TypeDefinition, latest: TypeDefinition)
    requires first.id == latest.id
    ensures Upserted(Upserted(s, first), latest).registry.Keys == s.registry.Keys + {latest.id}
    ensures Upserted(Upserted(s, first), latest).registry[latest.id] == RecordOf(latest)
    ensures UnitCollectionName(latest.id) in Upserted(Upserted(s, first), latest).collections
  {
  }

  /** One definition, accepted or not, keeps the store invariant. */
  lemma ApplyKeepsInvariant(s: Store, d: TypeDefinition, validId: string -> bool, validField: string -> bool)
    requires StoreInvariant(s)
    ensures StoreInvariant(ApplyDefinition(s, d, validId, validField).store)
  {
    if validId(d.id) {
      var dropped := WithoutIndexes(s, d.id);
      DropKeepsInvariant(s, d.id);
      var withUnique := WithIndexes(dropped, d.id, d.uniqueIndexes.items, true, validField);
      IndexesKeepInvariant(dropped, d.id, d.uniqueIndexes.items, true, validField);
      var withSearch := WithIndexes(withUnique, d.id, d.searchIndexes.items, false, validField);
      IndexesKeepInvariant(withUnique, d.id, d.searchIndexes.items, false, validField);
      UpsertKeepsInvariant(withSearch, d);
    }
  }

  lemma {:induction false} BatchKeepsInvariant(s: Store, defs: seq<TypeDefinition>,
                                               validId: string -> bool, validField: string -> bool)
    requires StoreInvariant(s)
    ensures StoreInvariant(UpdateAll(s, defs, validId, validField).store)
    decreases |defs|
  {
    if defs != [] {
      BatchKeepsInvariant(s, defs[..|defs| - 1], validId, validField);
      ApplyKeepsInvariant(UpdateAll(s, defs[..|defs| - 1], validId, validField).store, defs[|defs| - 1],
                          validId, validField);
    }
  }

  /** The keys and names of the two specs of the index tests. */
  lemma ExampleSpecs()
    ensures AscendingKey(KeyFields(Some(Compound(["compound_1", "compound_2"]))))
            == [KeyPart("compound_1", Ascending), KeyPart("compound_2", Ascending)]
    ensures AscendingKey(KeyFields(Some(Field("individual_1")))) == [KeyPart("individual_1", Ascending)]
    ensures SpecIndexName(Some(Compound(["compound_1", "compound_2"]))) == "compound_1_1_compound_2_1"
    ensures SpecIndexName(Some(Field("individual_1"))) == "individual_1_1"
  {
    IndexNameExamples();
  }

  /** Unique indexes on a fresh collection for one compound and one single
      field spec: three indexes, named by field and direction, keyed
      ascending in the spec's field order, all unique. */
  lemma UniqueIndexesExample(validField: string -> bool)
    requires validField("compound_1") && validField("compound_2") && validField("individual_1")
    ensures var specs := [Some(Compound(["compound_1", "compound_2"])), Some(Field("individual_1"))];
            var t := WithIndexes(EmptyStore, "rpm", specs, true, validField).collections[UnitCollectionName("rpm")];
            |t| == 3
            && "individual_1_1" in t
            && t["individual_1_1"] == IndexInfo([KeyPart("individual_1", Ascending)], true)
            && "compound_1_1_compound_2_1" in t
            && t["compound_1_1_compound_2_1"]
               == IndexInfo([KeyPart("compound_1", Ascending), KeyPart("compound_2", Ascending)], true)
  {
    var compound := Some(Compound(["compound_1", "compound_2"]));
    var single := Some(Field("individual_1"));
    var specs := [compound, single];
    ExampleSpecs();
    var names := SpecNames(specs);
    assert names[0] == "compound_1_1_compound_2_1" && names[1] == "individual_1_1";
    assert names[1][0] != names[0][0];
    assert Distinct(names);
    assert Creatable(compound, validField) && Creatable(single, validField);
    NamesNotId(specs, validField);
    EnsureFreshIndexes(IdOnlyTable(), specs, true, validField);
    assert TableOf(EmptyStore, "rpm") == IdOnlyTable();
  }

  /** `_create_or_update_type` alone on a clean database leaves exactly one
      type collection, the one named for the type. */
  lemma SingleTypeListed(d: TypeDefinition)
    ensures TypeCollections(Upserted(EmptyStore, d).collections) == {UnitCollectionName(d.id)}
  {
    var c := UnitCollectionName(d.id);
    assert c in Upserted(EmptyStore, d).collections;
  }
}
