# scalymongo core in Dafny

scalymongo is a small schema layer for MongoDB documents. Its core does two jobs:

- The **structure walker** (`scalymongo/structure_walker.py`) checks a document body against a
  structure tree. Dotted body keys are first expanded into nested dicts. Keys the structure does
  not know are reported. Then each structure field, whether a literal key or a type-pattern key,
  is dispatched to its sub-structure. A sub-structure is a one-element list (check every
  element), a nested dict (recurse), or a leaf type (call the pluggable field validator).
- **Schema composition** (`scalymongo/schema.py`) first canonicalises a definition's own
  `structure`, `indexes` and `required_fields`. It then merges in each base's values in
  declared base order, derives the shard index, and validates documents against the composed
  schema.

The model has six modules:

- `Wrappers` (`wrappers.dfy`): `Option`, `Result`, and `Outcome` (`Pass` or the first `Fail`).
- `Dicts` (`dicts.dfy`): Python dicts as association lists in iteration order. `Put` is
  `d[k] = v`: it replaces the value of a present key in place, or appends a new key. `Update`
  is `d.update(e)`.
- `Documents` (`documents.dfy`): body values, the
  structure tree `Spec = Leaf(Ty) | ListOf(Spec) | Nested(Dict<Key, Spec>)`, and
  `Key = Lit(string) | TypePat(Ty)`. `isinstance` is a parameter of type `InstanceOf`. A body
  value is a `Mapping` (a dict, in iteration order), a `Sequence` (any other iterable: a list, a
  tuple or a set, as its items in iteration order), a `Text` (a string) or a `Scalar` (a value
  that cannot be iterated, such as a number or `None`).
- `DottedKeys` (`dotted_keys.dfy`): `_handle_dots_in_key`, `_split_keys_on_dots` (a loop
  method proved against the function `SplitBody`) and `_join`.
- `StructureWalker` (`structure_walker.dfy`): the walker in three layers:
  - fail-fast outcome functions that follow the source's iteration order and return the first
    failure;
  - conformance predicates, which quantify over the structure's fields and the split body's
    entries and so do not depend on their order;
  - loop methods (`WalkDict`, `WalkField`, `RecurseOrValidateField`) proved equal to the
    outcome functions.
  Lemmas prove that an outcome passes exactly when the body conforms.
- `Schema` (`schema.dfy`): `find_shard_index`, and composition as a closed-form function
  `Compose` plus the loop method `ComposeSchema` proved equal to it. Also `validate_structure`,
  `validate_required_fields` and `SchemaDocument.validate`.

Where the code and its prose documentation differ, the model follows the code:

- A value under a list sub-structure is only passed to `enumerate`. A dict therefore yields its
  keys, a string its one-character strings, and a tuple or a set its items. Only a `Scalar`, a
  value that cannot be iterated, fails (`NotIterable`, the `TypeError`).
- Dotted body keys that share a first segment are not merged. `_split_keys_on_dots` assigns each
  rewritten entry in turn, so the last one replaces the earlier ones, and the values it replaces
  are never validated. With the structure `{a: {b: t}}`, the body `{"a.b": v, "a.c": u}` fails
  because `c` is unknown under `a` (`SharedSegmentLastUnknown`). The same entries in the other
  order are judged by `v` alone (`SharedSegmentFirstDropped`).
- A non-dict where a dict structure is expected fails with `NotAMapping`. This is the
  `AttributeError` raised by `iteritems`.
- `validate_structure` does not expand dotted keys. A list as the expected type makes
  `isinstance` raise, which the model reports as `NotAType`.

## Model

| member | source | states |
|---|---|---|
| DottedKeys.HandleDotsInKey | scalymongo/structure_walker.py:99-115 | the entry's key is the part of the key before its first dot |
| DottedKeys.HandleDotsNoDot | scalymongo/structure_walker.py:108-109 | a key without a dot is returned unchanged with its value |
| DottedKeys.HandleDotsExample | scalymongo/structure_walker.py:104-105 | `"a.b.c"` with value v becomes `{"a": {"b": {"c": v}}}` |
| DottedKeys.HandleDotsNests | scalymongo/structure_walker.py:108-115 | the result nests the value once per dot-separated segment of the key, outermost segment first |
| DottedKeys.SegmentsPartitionKey | scalymongo/structure_walker.py:111-115 | a key with n dots has n + 1 dot-free segments, and joining them with dots gives the key back |
| DottedKeys.SegmentsOfJoinDots | scalymongo/structure_walker.py:111-115 | splitting dot-free segments joined with dots gives the same segments back |
| DottedKeys.FirstDotSpec | scalymongo/structure_walker.py:111 | `split('.', 1)` cuts at a dot, and no dot comes before it |
| DottedKeys.JoinSegments | scalymongo/structure_walker.py:124-126 | joining to None gives the tail; otherwise the joined path's segments are the head's followed by the tail's |
| DottedKeys.SegmentsOfDotted | scalymongo/structure_walker.py:126 | the segments of `h.t` are the segments of h followed by those of t |
| DottedKeys.Join | scalymongo/structure_walker.py:118-126 | no contract; characterised by `JoinSegments` |
| DottedKeys.Decimal | scalymongo/structure_walker.py:126 | no contract; characterised by `DecimalDigits` and `DecimalRoundTrip` (`format` of the index that `_join(path, i)` receives) |
| DottedKeys.DecimalDigits | scalymongo/structure_walker.py:126 | an index formats as a nonempty run of decimal digits with no leading zero, so it adds exactly one dot-free path segment |
| DottedKeys.DecimalRoundTrip | scalymongo/structure_walker.py:126 | reading the formatted index back as a decimal numeral gives the index |
| DottedKeys.SplitBody | scalymongo/structure_walker.py:129-144 | no contract; characterised by `SplitBodyKeys`, `SplitBodyGet`, `SplitBodyIdempotent` and `SplitBodySharedSegment`, and computed by `SplitKeysOnDots` |
| DottedKeys.SplitKeysOnDots | scalymongo/structure_walker.py:129-144 | the loop builds exactly `SplitBody`: each rewritten entry assigned in body order, starting from an empty dict |
| DottedKeys.SplitBodyKeys | scalymongo/structure_walker.py:139-144 | the split body has distinct, dot-free keys, and they are exactly the first segments of the body's keys |
| DottedKeys.SplitBodyGet | scalymongo/structure_walker.py:139-144 | a split key holds the value of the last body entry with that first segment; later entries overwrite earlier ones and are not merged |
| DottedKeys.SplitBodySharedSegment | scalymongo/structure_walker.py:139-143 | `{"a.b": v, "a.c": u}` splits to `{"a": {"c": u}}`: entries sharing a first segment are not merged and the earlier value is dropped |
| DottedKeys.SplitBodyIdempotent | scalymongo/structure_walker.py:129-144 | splitting an already split body changes nothing |
| DottedKeys.SplitOfDottedKey | scalymongo/structure_walker.py:135-136 | `{"a.b": v}` and `{"a": {"b": v}}` split into the same body |
| DottedKeys.HandleDotsOfDotted | scalymongo/structure_walker.py:111-115 | a key `a.b` with dot-free parts nests its value as `{a: {b: value}}` |
| StructureWalker.Prefix | scalymongo/structure_walker.py:88-93 | the reported subdocument prefix is absent exactly when the path is None or empty |
| StructureWalker.Elements | scalymongo/structure_walker.py:58 | only a value that cannot be iterated has no elements; a string yields one element per character and a dict one per key |
| StructureWalker.CheckForUnknownFields | scalymongo/structure_walker.py:70-96 | passes exactly when every split key is a literal structure key or an instance of a type key; otherwise the error lists exactly the unknown keys, with the prefix of the path |
| StructureWalker.UnknownFieldsReportedFirst | scalymongo/structure_walker.py:33-36 | one unknown key makes `walk_dict` fail with the unknown-fields error before any field is checked |
| StructureWalker.DictOutcome | scalymongo/structure_walker.py:25-51 | no contract; characterised by `DictOutcomeCorrect`, and computed by `WalkDict` |
| StructureWalker.DictOutcomeCorrect | scalymongo/structure_walker.py:25-51 | `walk_dict` passes exactly when the body is a dict whose split form has no unknown key and every structure field accepts what it matches |
| StructureWalker.FieldsOutcomeCorrect | scalymongo/structure_walker.py:38-51 | the loop over structure fields passes exactly when each remaining field accepts the split body |
| StructureWalker.FieldOutcomeAtCorrect | scalymongo/structure_walker.py:39-51 | a type key checks every entry whose key is an instance, at path joined with that key; a literal key checks its entry, if present, at path joined with the key |
| StructureWalker.FieldOutcome | scalymongo/structure_walker.py:53-67 | no contract; characterised by `FieldOutcomeCorrect`, and computed by `RecurseOrValidateField` |
| StructureWalker.PatternOutcomeCorrect | scalymongo/structure_walker.py:44-47 | the scan of body entries for a type key passes exactly when every matching remaining entry conforms |
| StructureWalker.FieldOutcomeCorrect | scalymongo/structure_walker.py:53-67 | `_recurse_or_validate_field` passes exactly when the value conforms: list → every element at `path.i`, dict → `walk_dict` at the same path, leaf → the field validator accepts |
| StructureWalker.ElementsOutcomeCorrect | scalymongo/structure_walker.py:58-60 | the element loop passes exactly when every remaining element conforms at the path joined with its decimal index |
| StructureWalker.EmptyListPasses | scalymongo/structure_walker.py:54-61 | an empty list passes under any list sub-structure |
| StructureWalker.DictOutcomeOfSplitBody | scalymongo/structure_walker.py:33 | walking a body or its split form gives the same outcome |
| StructureWalker.DottedKeyAsNested | scalymongo/structure_walker.py:32-33 | `{"a.b": v}` and `{"a": {"b": v}}` get the same outcome from `walk_dict` |
| StructureWalker.SharedSegmentLastUnknown | scalymongo/structure_walker.py:32-36 | with structure `{a: {b: t}}`, the body `{"a.b": v, "a.c": u}` fails with `c` unknown under `a` |
| StructureWalker.SharedSegmentFirstDropped | scalymongo/structure_walker.py:32-51 | with the same structure, `{"a.c": u, "a.b": v}` is judged by the field validator on `v` alone; `u` is never checked |
| StructureWalker.WalkDict | scalymongo/structure_walker.py:25-51 | the method's result is the fail-fast outcome `DictOutcome` |
| StructureWalker.WalkField | scalymongo/structure_walker.py:38-51 | one iteration of the field loop, including the inner scan for a type key, returns `FieldOutcomeAt` |
| StructureWalker.RecurseOrValidateField | scalymongo/structure_walker.py:53-67 | the method's result is `FieldOutcome`, including the element loop |
| Schema.Extend | scalymongo/schema.py:14 | `update` on an index list keeps the old list as a prefix and appends the new list whole |
| Schema.FindShardIndex | scalymongo/schema.py:44-68 | no contract; characterised by `FindShardIndexUnsharded`, `FindShardIndexMultipleShardKeys`, `FindShardIndexSharded` and `ShardIndexInvariants` |
| Schema.FindShardIndexUnsharded | scalymongo/schema.py:47-50 | the result is None exactly when no index is a shard key |
| Schema.FindShardIndexMultipleShardKeys | scalymongo/schema.py:52-53 | the multiple-shard-keys error is raised exactly when two indexes are shard keys |
| Schema.FindShardIndexSharded | scalymongo/schema.py:55-68 | with exactly one shard-key index: two unique indexes raise; exactly one unique index other than the shard key raises; otherwise the shard-key index is returned, exactly when no other index is unique |
| Schema.ShardIndexInvariants | scalymongo/schema.py:44-68 | a returned shard index is the only shard-key index, and no other index is unique |
| Schema.Compose | scalymongo/schema.py:27-41 | no contract; characterised by `ComposeResult`, `ComposedStructureLookup`, `BaseIndexesInOrder` and `ComposedRequired`, and computed by `ComposeSchema` |
| Schema.ComposeSchema | scalymongo/schema.py:27-41 | canonicalising the own attributes, merging each base in order and finding the shard index gives `Compose` |
| Schema.MergeBases | scalymongo/schema.py:28-37 | canonicalising the own attributes and merging each base in order gives the step-wise merged structure, the own index list followed by every base's list, and the union of all required fields |
| Schema.MergeBase | scalymongo/schema.py:34-37 | merging one base updates the structure with its dict, extends the indexes with its list and unions its required fields; an attribute the base lacks is left as it was |
| Schema.MergedStructureClosed | scalymongo/schema.py:34-37 | updating with each base's structure in turn is the same as one update with all their entries in base order |
| Schema.MergeStart | scalymongo/schema.py:28-32 | the canonicalised own attributes are what is merged before any base |
| Schema.MergeStep | scalymongo/schema.py:34-37 | merging base i takes the attributes merged from the first i bases to those merged from i + 1 |
| Schema.ComposedStructureLookup | scalymongo/schema.py:28-37 | a composed structure key holds the value from the last base declaring it, else the definition's own |
| Schema.BaseOverridesOwn | scalymongo/schema.py:37 | a base's structure entry overwrites the definition's own entry for the key unless a later base declares it again |
| Schema.BaseIndexesInOrder | scalymongo/schema.py:34-37 | the base index lists appear in base order, each whole and none dropped |
| Schema.ComposeResult | scalymongo/schema.py:28-39 | composition fails exactly when the shard check of the composed indexes fails; the own indexes come first, then each base's list whole; no shard index exactly when no index is a shard key |
| Schema.ComposedRequired | scalymongo/schema.py:28-37 | a field is required exactly when the definition or some base requires it |
| Schema.BaseRequiredUnion | scalymongo/schema.py:35-37 | the bases' required fields are the union over every base that has them |
| Schema.ValidateStructure | scalymongo/schema.py:81-96 | no contract; characterised by `ValidateStructureCorrect` |
| Schema.ValidateStructureCorrect | scalymongo/schema.py:81-96 | `validate_structure` passes exactly when the value is a dict whose every field is declared, recursively conforms where a dict is expected, and is an instance of its type otherwise |
| Schema.EntriesOutcomeCorrect | scalymongo/schema.py:83-96 | the loop over body fields passes exactly when every remaining field conforms |
| Schema.EntryOutcomeCorrect | scalymongo/schema.py:84-96 | one field passes exactly when it is declared and its value conforms to the expected entry |
| Schema.ValidateRequiredFields | scalymongo/schema.py:99-106 | passes exactly when every required field is present; the error lists exactly the missing fields |
| Schema.Validate | scalymongo/schema.py:76-78 | no contract; characterised by `ValidateCorrect` |
| Schema.ValidateCorrect | scalymongo/schema.py:76-78 | a document validates exactly when it conforms to the structure and has every required field; a structure failure is the one reported |
| Dicts.Get | scalymongo/structure_walker.py:49-51 | a lookup finds a value exactly when the key is present, and the value is that key's entry |
| Dicts.Put | scalymongo/structure_walker.py:142 | assignment adds the key and makes it map to the assigned value |
| Dicts.PutOther | scalymongo/structure_walker.py:142 | assignment leaves every other key's value unchanged |
| Dicts.PutShape | scalymongo/structure_walker.py:142 | a new key is appended, and keys stay distinct |
| Dicts.UpdateGet | scalymongo/schema.py:37 | after `d.update(e)`, a key holds its last value in e if e has it, else its value in d |
| Dicts.UpdateConcat | scalymongo/schema.py:34-37 | updating with `e1 + e2` is updating with e1, then with e2 |
| Dicts.Update | scalymongo/schema.py:37 | no contract; characterised by `UpdateKeys`, `UpdateGet`, `UpdateConcat` and `UpdateUnique` |
| Dicts.UpdateKeys | scalymongo/schema.py:37 | the keys after `d.update(e)` are the keys of d and those of e |
| Dicts.UpdateUnique | scalymongo/schema.py:37 | updating keeps keys distinct |

## Left out

- `scalymongo/connection.py` and its tests are not part of this model. They are plumbing around
  the external MongoDB driver and a class registry.
- The metaclass hook is modelled as the explicit `Compose` / `ComposeSchema` over a
  definition's own attributes and its bases. The class object, `type.__new__` and inheritance
  of other attributes are not modelled. A base lacking an attribute (`hasattr` false) is
  `None` in `Base`.
- `isclass` and `isinstance` are replaced by the `Key` variant and the `InstanceOf` parameter.
- Error messages, `repr` formatting and the `SchemaError` / `ValidationError` classes are not
  modelled. Errors are datatypes that carry the path, the unknown or missing field names, or
  the offending value.
- Dict and set iteration order: Python 2 leaves it unspecified. The model iterates in insertion
  order. The verdict does not depend on the order of the structure's fields or of the split
  body's entries: the pass/fail outcomes are proved equal to conformance predicates that quantify
  over them. It does depend on the body's order when two body keys share a first segment,
  because `SplitBody` keeps only the last of them. Which failure is reported first also depends
  on the order.
- `assert len(sub_structure) == 1`: a `ListOf` holds exactly one element structure by
  construction, so there is no runtime check.
- The field validator is a predicate. `false` stands for the validator raising; its return value
  is otherwise ignored by the source.
- Body keys are strings; non-string keys and the `str`/`unicode` distinction are not modelled.
  Characters are Dafny `char`s with no encoding.
- `StructureWalker.__init__` is the `Walker` datatype's constructor; there is no mutable walker
  object.
- Index key specifications are kept as data (`Index.keys`); only the `unique` and `shard_key`
  flags (absent means false) take part in the checks.
- ValidateStructure: it looks up only literal keys (`field not in structure`), as the source
  does; it does not expand dotted keys and does not match type-pattern keys.
