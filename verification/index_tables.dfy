/** The indexes of one per-type collection, as `index_information()` reports
    them (index name -> key and uniqueness), and how index specs are turned
    into indexes. */
module IndexTables {
  import opened Wrappers
  import opened ContentTypes
  import opened CollectionNaming

  datatype IndexInfo = IndexInfo(key: seq<KeyPart>, unique: bool)

  type IndexTable = map<string, IndexInfo>

  /** The identity index every collection carries implicitly. */
  const IdIndexName: string := "_id_"
  const IdIndex: IndexInfo := IndexInfo([KeyPart("_id", Ascending)], true)

  /** A freshly created collection: nothing but the identity index. */
  function IdOnlyTable(): (t: IndexTable)
    ensures t.Keys == {IdIndexName} && t[IdIndexName] == IdIndex
  {
    map[IdIndexName := IdIndex]
  }

  /** The fields an index spec asks for; a `None` entry asks for none. */
  function KeyFields(spec: IndexEntry): seq<string>
  {
    match spec
    case None => []
    case Some(Field(n)) => [n]
    case Some(Compound(fs)) => fs
  }

  /** The store can build an index for `spec`: it names at least one field
      and every field is legal for the store. */
  predicate Creatable(spec: IndexEntry, validField: string -> bool)
  {
    spec.Some? && |KeyFields(spec)| > 0 && forall f :: f in KeyFields(spec) ==> validField(f)
  }

  /** Every field of a spec, in order, sorted ascending. */
  function AscendingKey(fields: seq<string>): (key: seq<KeyPart>)
    ensures |key| == |fields|
    ensures forall i :: 0 <= i < |fields| ==> key[i].field == fields[i] && key[i].direction == Ascending
  {
    seq(|fields|, i requires 0 <= i < |fields| => KeyPart(fields[i], Ascending))
  }

  function SpecIndexName(spec: IndexEntry): string
  {
    IndexName(AscendingKey(KeyFields(spec)))
  }

  /** A single-field spec is named after its field, followed by `_1`. */
  lemma SingleFieldName(f: string)
    ensures SpecIndexName(Some(Field(f))) == f + "_1"
  {
  }

  /** The index built for a spec: its fields in order, all ascending. */
  function IndexFor(spec: IndexEntry, unique: bool): IndexInfo
  {
    IndexInfo(AscendingKey(KeyFields(spec)), unique)
  }

  function SpecNames(specs: seq<IndexEntry>): (names: seq<string>)
    ensures |names| == |specs|
  {
    seq(|specs|, i requires 0 <= i < |specs| => SpecIndexName(specs[i]))
  }

  /** No name repeats an earlier one. */
  predicate Distinct(names: seq<string>)
  {
    forall j :: 0 <= j < |names| ==> names[j] !in names[..j]
  }

  /** Appending a new name keeps a list free of repeats. */
  lemma DistinctAppend(names: seq<string>, n: string)
    requires Distinct(names) && n !in names
    ensures Distinct(names + [n])
  {
    var r := names + [n];
    forall j | 0 <= j < |r| ensures r[j] !in r[..j] {
      if j < |names| {
        assert r[..j] == names[..j];
      } else {
        assert r[..j] == names;
      }
    }
  }

  /** A list without repeats is as long as the set of its elements. */
  lemma {:induction false} DistinctCount(names: seq<string>, s: set<string>)
    requires Distinct(names)
    requires forall n :: n in names <==> n in s
    ensures |names| == |s|
    decreases |names|
  {
    if names != [] {
      var k := |names| - 1;
      var p := names[..k];
      assert names == p + [names[k]];
      forall j | 0 <= j < |p| ensures p[j] !in p[..j] {
        assert p[..j] == names[..j];
      }
      assert forall n :: n in names <==> n in p || n == names[k];
      DistinctCount(p, s - {names[k]});
    }
  }

  /** No spec names the identity index: spec names end in a direction digit. */
  lemma SpecIndexNameIsNotId(spec: IndexEntry)
    requires |KeyFields(spec)| > 0
    ensures SpecIndexName(spec) != IdIndexName
  {
    var n := SpecIndexName(spec);
    assert n[|n| - 1] == '1';
    assert IdIndexName[|IdIndexName| - 1] == '_';
  }

  /** Default index names are not injective: a single field whose name
      contains `_1_` and a compound key can share a name, and then the second
      spec finds the name taken and adds nothing. */
  lemma DefaultNamesCollide(validField: string -> bool)
    requires validField("a_1_b") && validField("a") && validField("b")
    ensures SpecIndexName(Some(Field("a_1_b"))) == SpecIndexName(Some(Compound(["a", "b"])))
    ensures |EnsureIndexes(IdOnlyTable(), [Some(Field("a_1_b")), Some(Compound(["a", "b"]))], true, validField)| == 2
  {
    var single, pair := Some(Field("a_1_b")), Some(Compound(["a", "b"]));
    assert KeyFields(single) == ["a_1_b"];
    assert KeyFields(pair) == ["a", "b"];
    assert SpecIndexName(single) == "a_1_b_1";
    assert SpecIndexName(pair) == "a_1_b_1";
    var specs := [single, pair];
    assert specs[..1] == [single] && [single][..0] == [];
    var t1 := EnsureIndex(IdOnlyTable(), single, true, validField);
    assert EnsureIndexes(IdOnlyTable(), specs[..1], true, validField) == t1;
    assert t1.Keys == {IdIndexName, "a_1_b_1"};
  }

  /** `ensure_index` for one spec: an index that cannot be built adds nothing,
      and an index whose name is already present is left untouched. */
  function EnsureIndex(t: IndexTable, spec: IndexEntry, unique: bool, validField: string -> bool): (r: IndexTable)
    ensures forall k :: k in t ==> k in r && r[k] == t[k]
    ensures r.Keys == if Creatable(spec, validField) then t.Keys + {SpecIndexName(spec)} else t.Keys
    ensures Creatable(spec, validField) && SpecIndexName(spec) !in t ==>
              r[SpecIndexName(spec)] == IndexFor(spec, unique)
  {
    if Creatable(spec, validField) && SpecIndexName(spec) !in t
    then t[SpecIndexName(spec) := IndexFor(spec, unique)]
    else t
  }

  /** Every spec of a list attempted in order. Existing indexes survive, and
      each buildable spec ends up with an index under its name. */
  function EnsureIndexes(t: IndexTable, specs: seq<IndexEntry>, unique: bool, validField: string -> bool): (r: IndexTable)
    ensures forall k :: k in t ==> k in r && r[k] == t[k]
    ensures forall i :: 0 <= i < |specs| && Creatable(specs[i], validField) ==> SpecIndexName(specs[i]) in r
    decreases |specs|
  {
    if specs == [] then t
    else
      var prefix := specs[..|specs| - 1];
      assert forall i :: 0 <= i < |prefix| ==> prefix[i] == specs[i];
      var before := EnsureIndexes(t, prefix, unique, validField);
      assert forall i :: 0 <= i < |prefix| && Creatable(specs[i], validField) ==> SpecIndexName(specs[i]) in before;
      EnsureIndex(before, specs[|specs| - 1], unique, validField)
  }

  /** The specs the store refuses, in order; the call fails when this is not empty. */
  function Rejected(specs: seq<IndexEntry>, validField: string -> bool): (r: seq<IndexEntry>)
    ensures r == [] <==> forall i :: 0 <= i < |specs| ==> Creatable(specs[i], validField)
    ensures forall x :: x in r ==> x in specs && !Creatable(x, validField)
    decreases |specs|
  {
    if specs == [] then []
    else
      var prefix := specs[..|specs| - 1];
      assert forall i :: 0 <= i < |prefix| ==> prefix[i] == specs[i];
      var rest := Rejected(prefix, validField);
      if Creatable(specs[|specs| - 1], validField) then rest else rest + [specs[|specs| - 1]]
  }

  /** Attempting one more spec extends both the index table and the
      rejection list by that spec alone. */
  lemma PrefixStep(t: IndexTable, specs: seq<IndexEntry>, i: nat, unique: bool, validField: string -> bool)
    requires i < |specs|
    ensures EnsureIndexes(t, specs[..i + 1], unique, validField)
            == EnsureIndex(EnsureIndexes(t, specs[..i], unique, validField), specs[i], unique, validField)
    ensures Rejected(specs[..i + 1], validField)
            == if Creatable(specs[i], validField) then Rejected(specs[..i], validField)
               else Rejected(specs[..i], validField) + [specs[i]]
  {
    var done := specs[..i + 1];
    assert done[..|done| - 1] == specs[..i];
  }

  /** The names of a list are those of its prefix and the last spec's name. */
  lemma SpecNamesSnoc(specs: seq<IndexEntry>)
    requires specs != []
    ensures SpecNames(specs) == SpecNames(specs[..|specs| - 1]) + [SpecIndexName(specs[|specs| - 1])]
  {
  }

  /** Buildable specs leave exactly the old names plus one name per spec. */
  lemma {:induction false} EnsureIndexesKeys(t: IndexTable, specs: seq<IndexEntry>, unique: bool, validField: string -> bool)
    requires forall i :: 0 <= i < |specs| ==> Creatable(specs[i], validField)
    ensures forall k :: k in EnsureIndexes(t, specs, unique, validField) <==> k in t || k in SpecNames(specs)
    decreases |specs|
  {
    if specs != [] {
      var n := |specs| - 1;
      var prefix := specs[..n];
      assert forall i :: 0 <= i < |prefix| ==> prefix[i] == specs[i];
      EnsureIndexesKeys(t, prefix, unique, validField);
      var before := EnsureIndexes(t, prefix, unique, validField);
      var r := EnsureIndexes(t, specs, unique, validField);
      var last := SpecIndexName(specs[n]);
      assert r == EnsureIndex(before, specs[n], unique, validField);
      assert r.Keys == before.Keys + {last};
      SpecNamesSnoc(specs);
      assert forall k :: k in SpecNames(specs) <==> k in SpecNames(prefix) || k == last;
    }
  }

  /** Buildable specs with pairwise distinct new names add exactly one index
      each, keyed by the spec's fields in order, all ascending, with the
      requested uniqueness. */
  lemma {:induction false} EnsureFreshIndexes(t: IndexTable, specs: seq<IndexEntry>, unique: bool, validField: string -> bool)
    requires forall i :: 0 <= i < |specs| ==> Creatable(specs[i], validField)
    requires Distinct(SpecNames(specs))
    requires forall i :: 0 <= i < |specs| ==> SpecIndexName(specs[i]) !in t
    ensures |EnsureIndexes(t, specs, unique, validField)| == |t| + |specs|
    ensures forall i :: 0 <= i < |specs| ==>
              EnsureIndexes(t, specs, unique, validField)[SpecIndexName(specs[i])] == IndexFor(specs[i], unique)
    decreases |specs|
  {
    if specs != [] {
      var n := |specs| - 1;
      var prefix := specs[..n];
      assert forall i :: 0 <= i < |prefix| ==> prefix[i] == specs[i];
      var names := SpecNames(specs);
      assert SpecNames(prefix) == names[..n];
      EnsureFreshIndexes(t, prefix, unique, validField);
      EnsureIndexesKeys(t, prefix, unique, validField);
      var before := EnsureIndexes(t, prefix, unique, validField);
      var last := names[n];
      assert last == SpecIndexName(specs[n]);
      assert last !in names[..n];
      assert last !in before;
      var r := EnsureIndexes(t, specs, unique, validField);
      assert r == before[last := IndexFor(specs[n], unique)];
      forall i | 0 <= i < |specs|
        ensures r[SpecIndexName(specs[i])] == IndexFor(specs[i], unique)
      {
        if i < n {
          assert names[i] in names[..n];
          assert SpecIndexName(specs[i]) != last;
          assert before[SpecIndexName(prefix[i])] == IndexFor(prefix[i], unique);
        } else {
          assert i == n;
        }
      }
    }
  }

  /** A list whose buildable specs are all present already changes nothing. */
  lemma {:induction false} EnsurePresentIndexes(t: IndexTable, specs: seq<IndexEntry>, unique: bool, validField: string -> bool)
    requires forall i :: 0 <= i < |specs| && Creatable(specs[i], validField) ==> SpecIndexName(specs[i]) in t
    ensures EnsureIndexes(t, specs, unique, validField) == t
    decreases |specs|
  {
    if specs != [] {
      var prefix := specs[..|specs| - 1];
      assert forall i :: 0 <= i < |prefix| ==> prefix[i] == specs[i];
      EnsurePresentIndexes(t, prefix, unique, validField);
    }
  }

  /** Re-applying the same specs performs no further writes. */
  lemma EnsureIndexesIdempotent(t: IndexTable, specs: seq<IndexEntry>, unique: bool, validField: string -> bool)
    ensures EnsureIndexes(EnsureIndexes(t, specs, unique, validField), specs, unique, validField)
            == EnsureIndexes(t, specs, unique, validField)
  {
    EnsurePresentIndexes(EnsureIndexes(t, specs, unique, validField), specs, unique, validField);
  }
}
