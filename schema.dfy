/**
 * Schema composition, the shard-index check and document validation.
 *
 * A document definition declares its own structure, indexes and required
 * fields; composition canonicalises them and merges in each base's values in
 * declared base order (dict update, list extend, set union), then derives the
 * shard index from the composed indexes.
 */
module Schema {
  import opened Wrappers
  import opened Dicts
  import opened Documents

  /** An index declaration: its key specification and its `unique` and `shard_key` flags (absent is false). */
  datatype Index = Index(keys: seq<(string, int)>, unique: bool, shardKey: bool)

  datatype SchemaError =
    | MultipleShardKeys
    | MultipleUniqueIndexes
    | UniqueNotShardKey

  datatype Flag = Unique | ShardKey

  predicate Has(index: Index, flag: Flag) {
    match flag
    case Unique => index.unique
    case ShardKey => index.shardKey
  }

  /** `[index for index in indexes if index.get(flag)]`. */
  function Filter(indexes: seq<Index>, flag: Flag): (filtered: seq<Index>) {
    if |indexes| == 0 then []
    else (if Has(indexes[0], flag) then [indexes[0]] else []) + Filter(indexes[1..], flag)
  }

  /** The flag is set at position `p` and nowhere else. */
  predicate OnlyAt(indexes: seq<Index>, flag: Flag, p: int) {
    0 <= p < |indexes| && Has(indexes[p], flag) &&
    forall i :: 0 <= i < |indexes| && Has(indexes[i], flag) ==> i == p
  }

  /** The flag is set at two positions or more. */
  predicate SetTwice(indexes: seq<Index>, flag: Flag) {
    exists i, j :: 0 <= i < j < |indexes| && Has(indexes[i], flag) && Has(indexes[j], flag)
  }

  lemma {:induction false} FilterEmpty(indexes: seq<Index>, flag: Flag)
    ensures Filter(indexes, flag) == [] <==> forall i :: 0 <= i < |indexes| ==> !Has(indexes[i], flag)
  {
    if |indexes| > 0 {
      FilterEmpty(indexes[1..], flag);
      if !Has(indexes[0], flag) && Filter(indexes[1..], flag) != [] {
        var i :| 0 <= i < |indexes| - 1 && Has(indexes[1..][i], flag);
        assert Has(indexes[i + 1], flag);
      }
      if Filter(indexes[1..], flag) == [] {
        assert forall i :: 1 <= i < |indexes| ==> indexes[i] == indexes[1..][i - 1];
      }
    }
  }

  lemma {:induction false} FilterOne(indexes: seq<Index>, flag: Flag, p: int)
    requires OnlyAt(indexes, flag, p)
    ensures Filter(indexes, flag) == [indexes[p]]
  {
    var rest := indexes[1..];
    if p == 0 {
      assert forall i :: 0 <= i < |rest| ==> !Has(rest[i], flag) by {
        forall i | 0 <= i < |rest| ensures !Has(rest[i], flag) {
          assert rest[i] == indexes[i + 1];
        }
      }
      FilterEmpty(rest, flag);
    } else {
      assert OnlyAt(rest, flag, p - 1) by {
        forall i | 0 <= i < |rest| && Has(rest[i], flag) ensures i == p - 1 {
          assert rest[i] == indexes[i + 1];
        }
      }
      FilterOne(rest, flag, p - 1);
    }
  }

  lemma {:induction false} FilterMany(indexes: seq<Index>, flag: Flag)
    ensures |Filter(indexes, flag)| > 1 <==> SetTwice(indexes, flag)
  {
    if |indexes| > 0 {
      var rest := indexes[1..];
      FilterMany(rest, flag);
      FilterEmpty(rest, flag);
      if SetTwice(rest, flag) {
        var i, j :| 0 <= i < j < |rest| && Has(rest[i], flag) && Has(rest[j], flag);
        assert Has(indexes[i + 1], flag) && Has(indexes[j + 1], flag);
      }
      if Has(indexes[0], flag) && Filter(rest, flag) != [] {
        var j :| 0 <= j < |rest| && Has(rest[j], flag);
        assert Has(indexes[j + 1], flag);
      }
      if SetTwice(indexes, flag) {
        var i, j :| 0 <= i < j < |indexes| && Has(indexes[i], flag) && Has(indexes[j], flag);
        assert Has(rest[j - 1], flag);
        if i > 0 {
          assert Has(rest[i - 1], flag);
        }
      }
    }
  }

  /** When the flag is set somewhere but not twice, it is set at exactly one position. */
  lemma {:induction false} OnlyOnce(indexes: seq<Index>, flag: Flag, p: int)
    requires 0 <= p < |indexes| && Has(indexes[p], flag) && !SetTwice(indexes, flag)
    ensures OnlyAt(indexes, flag, p)
  {
  }

  /** `find_shard_index`: the shard-key index, if any, after checking the shard and unique constraints. */
  function FindShardIndex(indexes: seq<Index>): (result: Result<Option<Index>, SchemaError>) {
    var shardKeyIndexes := Filter(indexes, ShardKey);
    if shardKeyIndexes == [] then Ok(None)
    else if |shardKeyIndexes| > 1 then Err(MultipleShardKeys)
    else
      var shardIndex := shardKeyIndexes[0];
      var uniqueIndexes := Filter(indexes, Unique);
      if |uniqueIndexes| > 1 then Err(MultipleUniqueIndexes)
      else if uniqueIndexes != [] && uniqueIndexes != shardKeyIndexes then Err(UniqueNotShardKey)
      else Ok(Some(shardIndex))
  }

  /** There is no shard index exactly when no index is a shard key. */
  lemma {:induction false} FindShardIndexUnsharded(indexes: seq<Index>)
    ensures FindShardIndex(indexes) == Ok(None) <==> forall i :: 0 <= i < |indexes| ==> !indexes[i].shardKey
  {
    FilterEmpty(indexes, ShardKey);
    FilterMany(indexes, ShardKey);
  }

  /** Two shard keys are refused, and nothing else is refused for that reason. */
  lemma {:induction false} FindShardIndexMultipleShardKeys(indexes: seq<Index>)
    ensures FindShardIndex(indexes) == Err(MultipleShardKeys) <==> SetTwice(indexes, ShardKey)
  {
    FilterEmpty(indexes, ShardKey);
    FilterMany(indexes, ShardKey);
  }

  /**
   * With a single shard-key index at `p`: two unique indexes are refused, one
   * unique index other than the shard key is refused, and otherwise the shard
   * key is the shard index.
   */
  lemma {:induction false} FindShardIndexSharded(indexes: seq<Index>, p: int)
    requires OnlyAt(indexes, ShardKey, p)
    ensures FindShardIndex(indexes) == Err(MultipleUniqueIndexes) <==> SetTwice(indexes, Unique)
    ensures FindShardIndex(indexes) == Err(UniqueNotShardKey) <==>
      exists q :: q != p && OnlyAt(indexes, Unique, q)
    ensures FindShardIndex(indexes) == Ok(Some(indexes[p])) <==>
      forall q :: 0 <= q < |indexes| && indexes[q].unique ==> q == p
  {
    FilterOne(indexes, ShardKey, p);
    FilterMany(indexes, Unique);
    FilterEmpty(indexes, Unique);
    var uniques := Filter(indexes, Unique);
    if !SetTwice(indexes, Unique) && uniques != [] {
      var q :| 0 <= q < |indexes| && Has(indexes[q], Unique);
      OnlyOnce(indexes, Unique, q);
      FilterOne(indexes, Unique, q);
      if q != p {
        assert indexes[q] != indexes[p] by {
          assert !Has(indexes[q], ShardKey);
        }
      }
    }
  }

  /**
   * A shard index that is found satisfies the invariants of a sharded
   * schema: it is the one shard-key index, and no other index is unique.
   */
  lemma {:induction false} ShardIndexInvariants(indexes: seq<Index>, shard: Index)
    requires FindShardIndex(indexes) == Ok(Some(shard))
    ensures exists p ::
      && OnlyAt(indexes, ShardKey, p)
      && indexes[p] == shard
      && forall q :: 0 <= q < |indexes| && indexes[q].unique ==> q == p
  {
    FilterEmpty(indexes, ShardKey);
    FilterMany(indexes, ShardKey);
    var p :| 0 <= p < |indexes| && Has(indexes[p], ShardKey);
    OnlyOnce(indexes, ShardKey, p);
    FindShardIndexSharded(indexes, p);
    FilterOne(indexes, ShardKey, p);
  }

  // ---------------------------------------------------------------------------
  // Composition

  /** What a definition declares itself; None where it does not declare the attribute. */
  datatype Declared = Declared(
    structure: Option<Dict<Key, Spec>>,
    indexes: Option<seq<Index>>,
    requiredFields: Option<seq<string>>)

  /** The mergeable attributes a base exposes; None where the base has no such attribute. */
  datatype Base = Base(
    structure: Option<Dict<Key, Spec>>,
    indexes: Option<seq<Index>>,
    requiredFields: Option<set<string>>)

  /** A composed schema, as attached to a definition. */
  datatype Composed = Composed(
    structure: Dict<Key, Spec>,
    indexes: seq<Index>,
    requiredFields: set<string>,
    shardIndex: Option<Index>)

  /** `UpdatingList.update`: `list.extend`. */
  function Extend(list: seq<Index>, more: seq<Index>): (r: seq<Index>)
    ensures |r| == |list| + |more|
    ensures r[..|list|] == list && r[|list|..] == more
  {
    list + more
  }

  /** `dict(structure)`, or `dict()` when the definition declares none. */
  function OwnStructure(own: Declared): (structure: Dict<Key, Spec>) {
    Update([], own.structure.GetOr([]))
  }

  /** `set(required_fields)`, or `set()`. */
  function OwnRequired(own: Declared): (required: set<string>) {
    set f | f in own.requiredFields.GetOr([])
  }

  /** The bases' structures, one after the other, in declared base order. */
  function BaseStructures(bases: seq<Base>): (structure: Dict<Key, Spec>) {
    if |bases| == 0 then []
    else BaseStructures(bases[..|bases| - 1]) + bases[|bases| - 1].structure.GetOr([])
  }

  /** The bases' index lists, one after the other, in declared base order. */
  function BaseIndexes(bases: seq<Base>): (indexes: seq<Index>) {
    if |bases| == 0 then []
    else BaseIndexes(bases[..|bases| - 1]) + bases[|bases| - 1].indexes.GetOr([])
  }

  /** Every required field of every base. */
  function BaseRequired(bases: seq<Base>): (required: set<string>) {
    if |bases| == 0 then {}
    else BaseRequired(bases[..|bases| - 1]) + bases[|bases| - 1].requiredFields.GetOr({})
  }

  /** The composed structure: the definition's own, updated with each base's in turn. */
  function ComposedStructure(own: Declared, bases: seq<Base>): (structure: Dict<Key, Spec>) {
    Update(OwnStructure(own), BaseStructures(bases))
  }

  /** The composed indexes: the definition's own, then each base's. */
  function ComposedIndexes(own: Declared, bases: seq<Base>): (indexes: seq<Index>) {
    own.indexes.GetOr([]) + BaseIndexes(bases)
  }

  /** What `SchemaMetaclass.__new__` attaches to a definition, or the error it raises. */
  function Compose(own: Declared, bases: seq<Base>): (result: Result<Composed, SchemaError>) {
    var indexes := ComposedIndexes(own, bases);
    match FindShardIndex(indexes)
    case Err(e) => Err(e)
    case Ok(shard) =>
      Ok(Composed(ComposedStructure(own, bases), indexes, OwnRequired(own) + BaseRequired(bases), shard))
  }

  /**
   * `SchemaMetaclass.__new__`: canonicalise the definition's own attributes,
   * merge each base's into them in declared order, then find the shard index.
   */
  method ComposeSchema(own: Declared, bases: seq<Base>) returns (r: Result<Composed, SchemaError>)
    ensures r == Compose(own, bases)
  {
    var structure, indexes, requiredFields := MergeBases(own, bases);
    MergedStructureClosed(own, bases, |bases|);
    assert bases[..|bases|] == bases;
    var shardIndex := FindShardIndex(indexes);
    if shardIndex.Err? {
      r := Err(shardIndex.error);
    } else {
      r := Ok(Composed(structure, indexes, requiredFields, shardIndex.value));
    }
  }

  /** The two loops of the composition: canonicalise the own attributes, then merge the bases in order. */
  method MergeBases(own: Declared, bases: seq<Base>)
    returns (structure: Dict<Key, Spec>, indexes: seq<Index>, requiredFields: set<string>)
    ensures structure == MergedStructure(own, bases, |bases|)
    ensures indexes == ComposedIndexes(own, bases)
    ensures requiredFields == OwnRequired(own) + BaseRequired(bases)
  {
    structure := Update([], own.structure.GetOr([]));
    indexes := Extend([], own.indexes.GetOr([]));
    requiredFields := set f | f in own.requiredFields.GetOr([]);
    MergeStart(own, bases);
    var i := 0;
    while i < |bases|
      invariant 0 <= i <= |bases|
      invariant structure == MergedStructure(own, bases, i)
      invariant indexes == own.indexes.GetOr([]) + BaseIndexes(bases[..i])
      invariant requiredFields == OwnRequired(own) + BaseRequired(bases[..i])
    {
      MergeStep(own, bases, i);
      structure, indexes, requiredFields := MergeBase(bases[i], structure, indexes, requiredFields);
      i := i + 1;
    }
    assert bases[..i] == bases;
  }

  /** Before any base is merged, the canonicalised own attributes are the merged ones. */
  lemma {:induction false} MergeStart(own: Declared, bases: seq<Base>)
    ensures Update([], own.structure.GetOr([])) == MergedStructure(own, bases, 0)
    ensures Extend([], own.indexes.GetOr([])) == own.indexes.GetOr([]) + BaseIndexes(bases[..0])
    ensures (set f | f in own.requiredFields.GetOr([])) == OwnRequired(own) + BaseRequired(bases[..0])
  {
    assert bases[..0] == [];
  }

  /** Merging base `i` takes the attributes merged from the first `i` bases to those merged from `i + 1`. */
  lemma {:induction false} MergeStep(own: Declared, bases: seq<Base>, i: nat)
    requires i < |bases|
    ensures MergedStructure(own, bases, i + 1) ==
      if bases[i].structure.Some? then Update(MergedStructure(own, bases, i), bases[i].structure.value)
      else MergedStructure(own, bases, i)
    ensures own.indexes.GetOr([]) + BaseIndexes(bases[..i + 1]) ==
      own.indexes.GetOr([]) + BaseIndexes(bases[..i]) + bases[i].indexes.GetOr([])
    ensures OwnRequired(own) + BaseRequired(bases[..i + 1]) ==
      OwnRequired(own) + BaseRequired(bases[..i]) + bases[i].requiredFields.GetOr({})
  {
    BasesStep(bases, i);
  }

  /** The inner loop of the composition: update each attribute the base has. */
  method MergeBase(base: Base, structure: Dict<Key, Spec>, indexes: seq<Index>, requiredFields: set<string>)
    returns (structure': Dict<Key, Spec>, indexes': seq<Index>, requiredFields': set<string>)
    ensures structure' == if base.structure.Some? then Update(structure, base.structure.value) else structure
    ensures indexes' == indexes + base.indexes.GetOr([])
    ensures requiredFields' == requiredFields + base.requiredFields.GetOr({})
  {
    structure', indexes', requiredFields' := structure, indexes, requiredFields;
    if base.structure.Some? {
      structure' := Update(structure', base.structure.value);
    }
    if base.indexes.Some? {
      indexes' := Extend(indexes', base.indexes.value);
    }
    if base.requiredFields.Some? {
      requiredFields' := requiredFields' + base.requiredFields.value;
    }
  }

  /** The structure the composition holds after merging the first `n` bases, step by step. */
  function MergedStructure(own: Declared, bases: seq<Base>, n: nat): (structure: Dict<Key, Spec>)
    requires n <= |bases|
  {
    if n == 0 then OwnStructure(own)
    else
      var merged := MergedStructure(own, bases, n - 1);
      var base := bases[n - 1];
      if base.structure.Some? then Update(merged, base.structure.value) else merged
  }

  /** Step-by-step merging is one update with all the bases' entries in order. */
  lemma {:induction false} MergedStructureClosed(own: Declared, bases: seq<Base>, n: nat)
    requires n <= |bases|
    ensures MergedStructure(own, bases, n) == Update(OwnStructure(own), BaseStructures(bases[..n]))
  {
    if n > 0 {
      MergedStructureClosed(own, bases, n - 1);
      StructureStep(OwnStructure(own), bases, n - 1);
    } else {
      assert bases[..n] == [];
    }
  }

  /** Taking one more base appends its attributes to the merged ones. */
  lemma {:induction false} BasesStep(bases: seq<Base>, i: int)
    requires 0 <= i < |bases|
    ensures BaseStructures(bases[..i + 1]) == BaseStructures(bases[..i]) + bases[i].structure.GetOr([])
    ensures BaseIndexes(bases[..i + 1]) == BaseIndexes(bases[..i]) + bases[i].indexes.GetOr([])
    ensures BaseRequired(bases[..i + 1]) == BaseRequired(bases[..i]) + bases[i].requiredFields.GetOr({})
  {
    assert bases[..i + 1][..i] == bases[..i];
  }

  /** Merging one more base's structure is one more dict update. */
  lemma {:induction false} StructureStep(own: Dict<Key, Spec>, bases: seq<Base>, i: int)
    requires 0 <= i < |bases|
    ensures Update(own, BaseStructures(bases[..i + 1])) ==
      if bases[i].structure.Some? then Update(Update(own, BaseStructures(bases[..i])), bases[i].structure.value)
      else Update(own, BaseStructures(bases[..i]))
  {
    BasesStep(bases, i);
    if bases[i].structure.Some? {
      UpdateConcat(own, BaseStructures(bases[..i]), bases[i].structure.value);
    } else {
      assert BaseStructures(bases[..i + 1]) == BaseStructures(bases[..i]);
    }
  }

  /**
   * Where a composed structure key's value comes from: the last base that
   * declares the key, else the definition itself.
   */
  function DeclaredValue(own: Declared, bases: seq<Base>, k: Key): (declared: Option<Spec>) {
    if |bases| == 0 then LastValue(own.structure.GetOr([]), k)
    else
      var last := bases[|bases| - 1].structure.GetOr([]);
      if LastValue(last, k).Some? then LastValue(last, k) else DeclaredValue(own, bases[..|bases| - 1], k)
  }

  lemma {:induction false} LastValueOfBaseStructures(own: Declared, bases: seq<Base>, k: Key)
    ensures (if LastValue(BaseStructures(bases), k).Some? then LastValue(BaseStructures(bases), k)
             else LastValue(own.structure.GetOr([]), k)) == DeclaredValue(own, bases, k)
  {
    if |bases| > 0 {
      var init := bases[..|bases| - 1];
      LastValueConcat(BaseStructures(init), bases[|bases| - 1].structure.GetOr([]), k);
      LastValueOfBaseStructures(own, init, k);
    }
  }

  /** The composed structure maps each key to the value its last declarer gives it. */
  lemma {:induction false} ComposedStructureLookup(own: Declared, bases: seq<Base>, k: Key)
    ensures Get(ComposedStructure(own, bases), k) == DeclaredValue(own, bases, k)
  {
    UpdateGet(OwnStructure(own), BaseStructures(bases), k);
    UpdateGet([], own.structure.GetOr([]), k);
    LastValueOfBaseStructures(own, bases, k);
  }

  /**
   * A base's structure entry overwrites the definition's own entry for the
   * same key, unless a later base declares the key again.
   */
  lemma {:induction false} BaseOverridesOwn(own: Declared, bases: seq<Base>, i: int, k: Key, v: Spec)
    requires 0 <= i < |bases| && bases[i].structure.Some? && LastValue(bases[i].structure.value, k) == Some(v)
    requires forall j :: i < j < |bases| ==> LastValue(bases[j].structure.GetOr([]), k).None?
    ensures Get(ComposedStructure(own, bases), k) == Some(v)
  {
    ComposedStructureLookup(own, bases, k);
    DeclaredFromBase(own, bases, i, k, v);
  }

  lemma {:induction false} DeclaredFromBase(own: Declared, bases: seq<Base>, i: int, k: Key, v: Spec)
    requires 0 <= i < |bases| && bases[i].structure.Some? && LastValue(bases[i].structure.value, k) == Some(v)
    requires forall j :: i < j < |bases| ==> LastValue(bases[j].structure.GetOr([]), k).None?
    ensures DeclaredValue(own, bases, k) == Some(v)
    decreases |bases|
  {
    if i < |bases| - 1 {
      var init := bases[..|bases| - 1];
      assert init[i] == bases[i];
      assert forall j :: i < j < |init| ==> init[j] == bases[j];
      DeclaredFromBase(own, init, i, k, v);
    }
  }

  /** Indexes are appended in declared order: base `i`'s list sits whole between the earlier and the later bases'. */
  lemma {:induction false} BaseIndexesInOrder(bases: seq<Base>, i: int)
    requires 0 <= i < |bases|
    ensures BaseIndexes(bases) == BaseIndexes(bases[..i]) + bases[i].indexes.GetOr([]) + BaseIndexes(bases[i + 1..])
    decreases |bases|
  {
    if i == |bases| - 1 {
      assert bases[..|bases| - 1] == bases[..i];
      assert bases[i + 1..] == [];
    } else {
      var init := bases[..|bases| - 1];
      BaseIndexesInOrder(init, i);
      assert init[..i] == bases[..i];
      assert init[i + 1..] == bases[i + 1..|bases| - 1];
      var later := bases[i + 1..];
      assert later[..|later| - 1] == bases[i + 1..|bases| - 1];
      assert later[|later| - 1] == bases[|bases| - 1];
    }
  }

  /** A field is required after composition exactly when the definition or some base requires it. */
  lemma {:induction false} BaseRequiredUnion(bases: seq<Base>, f: string)
    ensures f in BaseRequired(bases) <==>
      exists i :: 0 <= i < |bases| && bases[i].requiredFields.Some? && f in bases[i].requiredFields.value
  {
    if |bases| > 0 {
      var init := bases[..|bases| - 1];
      BaseRequiredUnion(init, f);
      if exists i :: 0 <= i < |init| && init[i].requiredFields.Some? && f in init[i].requiredFields.value {
        var i :| 0 <= i < |init| && init[i].requiredFields.Some? && f in init[i].requiredFields.value;
        assert bases[i] == init[i];
      }
      if exists i :: 0 <= i < |bases| && bases[i].requiredFields.Some? && f in bases[i].requiredFields.value {
        var i :| 0 <= i < |bases| && bases[i].requiredFields.Some? && f in bases[i].requiredFields.value;
        if i < |init| { assert init[i] == bases[i]; }
      }
    }
  }

  /**
   * Composition fails exactly when the shard-index check of the composed
   * indexes fails; a composed schema keeps the definition's indexes first,
   * then each base's whole list in base order, and its shard index is the
   * one shard-key index with no other index unique.
   */
  lemma {:induction false} ComposeResult(own: Declared, bases: seq<Base>)
    ensures Compose(own, bases).Err? <==> FindShardIndex(ComposedIndexes(own, bases)).Err?
    ensures Compose(own, bases).Ok? ==>
      var c := Compose(own, bases).value;
      && c.indexes[..|own.indexes.GetOr([])|] == own.indexes.GetOr([])
      && (forall i :: 0 <= i < |bases| ==>
            c.indexes == own.indexes.GetOr([]) + BaseIndexes(bases[..i]) + bases[i].indexes.GetOr([]) + BaseIndexes(bases[i + 1..]))
      && (c.shardIndex.None? <==> forall i :: 0 <= i < |c.indexes| ==> !c.indexes[i].shardKey)
  {
    var ix := ComposedIndexes(own, bases);
    FindShardIndexUnsharded(ix);
    forall i | 0 <= i < |bases|
      ensures ix == own.indexes.GetOr([]) + BaseIndexes(bases[..i]) + bases[i].indexes.GetOr([]) + BaseIndexes(bases[i + 1..])
    {
      BaseIndexesInOrder(bases, i);
    }
  }

  /** A field is required by the composed schema exactly when the definition or some base requires it. */
  lemma {:induction false} ComposedRequired(own: Declared, bases: seq<Base>, f: string)
    requires Compose(own, bases).Ok?
    ensures f in Compose(own, bases).value.requiredFields <==>
      || f in own.requiredFields.GetOr([])
      || exists i :: 0 <= i < |bases| && bases[i].requiredFields.Some? && f in bases[i].requiredFields.value
  {
    BaseRequiredUnion(bases, f);
  }

  // ---------------------------------------------------------------------------
  // Validation

  datatype ValidationError =
    /** A body field absent from the structure's literal keys. */
    | UnknownField(field: string)
    /** A value that is not an instance of its field's type. */
    | WrongType(field: string, expected: Ty)
    /** A field whose expected entry is a list, which `isinstance` cannot take. */
    | NotAType(field: string)
    /** A value checked against a dict structure that is not itself a dict. */
    | NotAMapping
    /** The required fields the document lacks, all of them. */
    | MissingFields(missing: set<string>)

  /** `validate_structure(fields, structure)`, for the dict structure `s`. */
  function ValidateStructure(isInstance: InstanceOf, fields: Value, s: Spec): (outcome: Outcome<ValidationError>)
    requires s.Nested?
    decreases s, 1, 0
  {
    if !fields.Mapping? then Fail(NotAMapping) else EntriesOutcome(isInstance, fields.entries, s, 0)
  }

  /** The loop of `validate_structure` over the body's entries, from entry `j` on. */
  function EntriesOutcome(isInstance: InstanceOf, entries: Dict<string, Value>, s: Spec, j: nat): (outcome: Outcome<ValidationError>)
    requires s.Nested? && j <= |entries|
    decreases s, 0, |entries| - j
  {
    if j == |entries| then Pass
    else
      var r := EntryOutcome(isInstance, entries[j], s);
      if r.Fail? then r else EntriesOutcome(isInstance, entries, s, j + 1)
  }

  /** One iteration: an unknown field, a recursive check, or an instance check. */
  function EntryOutcome(isInstance: InstanceOf, entry: (string, Value), s: Spec): (outcome: Outcome<ValidationError>)
    requires s.Nested?
    decreases s, 0, 0
  {
    var (field, value) := entry;
    var expected := Get(s.fields, Lit(field));
    if expected.None? then Fail(UnknownField(field))
    else
      match expected.value
      case Nested(_) => ValidateStructure(isInstance, value, expected.value)
      case Leaf(t) => if isInstance(value, t) then Pass else Fail(WrongType(field, t))
      case ListOf(_) => Fail(NotAType(field))
  }

  /** A value conforms to a dict structure: a dict whose every entry is declared and conforms. */
  predicate StructureConforms(isInstance: InstanceOf, fields: Value, s: Spec)
    requires s.Nested?
    decreases s, 1
  {
    fields.Mapping? &&
    forall j :: 0 <= j < |fields.entries| ==> EntryConforms(isInstance, fields.entries[j], s)
  }

  predicate EntryConforms(isInstance: InstanceOf, entry: (string, Value), s: Spec)
    requires s.Nested?
    decreases s, 0
  {
    var expected := Get(s.fields, Lit(entry.0));
    expected.Some? &&
    match expected.value
    case Nested(_) => StructureConforms(isInstance, entry.1, expected.value)
    case Leaf(t) => isInstance(entry.1, t)
    case ListOf(_) => false
  }

  /** `validate_structure` succeeds exactly when the value conforms. */
  lemma {:induction false} ValidateStructureCorrect(isInstance: InstanceOf, fields: Value, s: Spec)
    requires s.Nested?
    ensures ValidateStructure(isInstance, fields, s).Pass? <==> StructureConforms(isInstance, fields, s)
    decreases s, 1, 0
  {
    if fields.Mapping? {
      EntriesOutcomeCorrect(isInstance, fields.entries, s, 0);
      if EntriesOutcome(isInstance, fields.entries, s, 0).Pass? {
        assert StructureConforms(isInstance, fields, s);
      } else {
        assert !StructureConforms(isInstance, fields, s);
      }
    }
  }

  lemma {:induction false} EntriesOutcomeCorrect(isInstance: InstanceOf, entries: Dict<string, Value>, s: Spec, j: nat)
    requires s.Nested? && j <= |entries|
    ensures EntriesOutcome(isInstance, entries, s, j).Pass? <==>
      forall m :: j <= m < |entries| ==> EntryConforms(isInstance, entries[m], s)
    decreases s, 0, |entries| - j
  {
    if j < |entries| {
      EntryOutcomeCorrect(isInstance, entries[j], s);
      EntriesOutcomeCorrect(isInstance, entries, s, j + 1);
      if EntryOutcome(isInstance, entries[j], s).Fail? {
        assert !EntryConforms(isInstance, entries[j], s);
      } else {
        assert EntriesOutcome(isInstance, entries, s, j) == EntriesOutcome(isInstance, entries, s, j + 1);
      }
    }
  }

  lemma {:induction false} EntryOutcomeCorrect(isInstance: InstanceOf, entry: (string, Value), s: Spec)
    requires s.Nested?
    ensures EntryOutcome(isInstance, entry, s).Pass? <==> EntryConforms(isInstance, entry, s)
    decreases s, 0, 0
  {
    var expected := Get(s.fields, Lit(entry.0));
    if expected.Some? && expected.value.Nested? {
      ValidateStructureCorrect(isInstance, entry.1, expected.value);
    }
  }

  /** `validate_required_fields`: fails, naming every missing field, when a required field is absent. */
  function ValidateRequiredFields(fields: Dict<string, Value>, required: set<string>): (r: Outcome<ValidationError>)
    ensures r.Pass? <==> required <= Keys(fields)
    ensures r.Fail? ==>
      && r.error.MissingFields?
      && forall name :: name in r.error.missing <==> name in required && name !in Keys(fields)
  {
    var missing := required - Keys(fields);
    if missing != {} then Fail(MissingFields(missing)) else Pass
  }

  /** `SchemaDocument.validate`: the structure first, then the required fields. */
  function Validate(isInstance: InstanceOf, document: Dict<string, Value>, schema: Composed): (outcome: Outcome<ValidationError>) {
    var structural := ValidateStructure(isInstance, Mapping(document), Nested(schema.structure));
    if structural.Fail? then structural else ValidateRequiredFields(document, schema.requiredFields)
  }

  /**
   * A document validates exactly when it conforms to the structure and has
   * every required field; a structure failure is the one reported.
   */
  lemma {:induction false} ValidateCorrect(isInstance: InstanceOf, document: Dict<string, Value>, schema: Composed)
    ensures Validate(isInstance, document, schema).Pass? <==>
      StructureConforms(isInstance, Mapping(document), Nested(schema.structure)) &&
      schema.requiredFields <= Keys(document)
    ensures !StructureConforms(isInstance, Mapping(document), Nested(schema.structure)) ==>
      Validate(isInstance, document, schema) == ValidateStructure(isInstance, Mapping(document), Nested(schema.structure))
  {
    ValidateStructureCorrect(isInstance, Mapping(document), Nested(schema.structure));
  }
}
