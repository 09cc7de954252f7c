/**
 * The structure walker: validates a document body against a structure
 * specification, expanding dotted keys at every level, rejecting fields the
 * structure does not know, dispatching type-pattern keys and literal keys
 * separately, and handing leaves to a pluggable field validator.
 *
 * Three layers: fail-fast outcome functions that fix which failure comes
 * first (structure fields in declaration order, body entries in iteration
 * order); conformance predicates over the split body, which do not depend
 * on the order of the structure's fields or of the split entries, with the
 * lemma that the outcome is Pass exactly when the body conforms; and the
 * methods `WalkDict` and `RecurseOrValidateField`, whose loops are proved to
 * compute the outcome. Splitting itself keeps only the last of several body
 * keys with the same first segment, so the verdict can depend on body order.
 */
module StructureWalker {
  import opened Wrappers
  import opened Dicts
  import opened Documents
  import opened DottedKeys

  /** `field_validator(path, value, type)`: true when it accepts the value. */
  type FieldValidator = (string, Value, Ty) -> bool

  /** A `StructureWalker`: its field validator, and `isinstance` for type-pattern keys. */
  datatype Walker = Walker(fieldValidator: FieldValidator, isInstance: InstanceOf)

  datatype WalkError =
    /** Body fields the structure does not know; `at` is None when the message has no subdocument prefix. */
    | UnknownFields(at: Option<string>, fields: set<string>)
    /** The field validator refused a leaf value. */
    | FieldRejected(path: string, value: Value, expected: Ty)
    /** A dict structure met a value that is not a dict (it has no `iteritems`), at path `at`. */
    | NotAMapping(at: Option<string>)
    /** A list structure met a value that cannot be enumerated. */
    | NotIterable(path: string)

  /** What `if path:` sees: the prefix names the path unless it is None or empty. */
  function Prefix(path: Option<string>): (at: Option<string>)
    ensures at.None? <==> path.None? || path.value == ""
    ensures at.Some? ==> at == path
  {
    if path.Some? && path.value != "" then path else None
  }

  /** A body key is known when it is a literal key of the structure or an instance of one of its type keys. */
  predicate IsKnown(w: Walker, key: string, fields: Dict<Key, Spec>) {
    Lit(key) in Keys(fields) ||
    exists i :: 0 <= i < |fields| && fields[i].0.TypePat? && w.isInstance(Text(key), fields[i].0.ty)
  }

  /** `_check_for_unknown_fields`. */
  function CheckForUnknownFields(w: Walker, split: Dict<string, Value>, fields: Dict<Key, Spec>, path: Option<string>)
    : (r: Outcome<WalkError>)
    ensures r.Pass? <==> forall k :: k in Keys(split) ==> IsKnown(w, k, fields)
    ensures r.Fail? ==>
      && r.error.UnknownFields? && r.error.at == Prefix(path)
      && forall k :: k in r.error.fields <==> k in Keys(split) && !IsKnown(w, k, fields)
  {
    var unknown := set k | k in Keys(split) && !IsKnown(w, k, fields);
    NoUnknownFields(w, split, fields);
    if unknown == {} then Pass else Fail(UnknownFields(Prefix(path), unknown))
  }

  lemma {:induction false} NoUnknownFields(w: Walker, split: Dict<string, Value>, fields: Dict<Key, Spec>)
    ensures (set k | k in Keys(split) && !IsKnown(w, k, fields)) == {} <==>
      forall k :: k in Keys(split) ==> IsKnown(w, k, fields)
  {
    var unknown := set k | k in Keys(split) && !IsKnown(w, k, fields);
    if unknown == {} {
      forall k | k in Keys(split) ensures IsKnown(w, k, fields) {
        assert k !in unknown;
      }
    } else {
      var k :| k in unknown;
      assert k in Keys(split) && !IsKnown(w, k, fields);
    }
  }

  /**
   * The values `enumerate(value)` yields: an iterable's items, a string's
   * characters, a dict's keys; None for a value that cannot be iterated.
   */
  function Elements(v: Value): (els: Option<seq<Value>>)
    ensures els.None? <==> v.Scalar?
    ensures v.Text? ==> |els.value| == |v.chars|
    ensures v.Mapping? ==> |els.value| == |v.entries|
  {
    match v
    case Sequence(items) => Some(items)
    case Text(chars) => Some(seq(|chars|, i requires 0 <= i < |chars| => Text([chars[i]])))
    case Mapping(entries) => Some(seq(|entries|, i requires 0 <= i < |entries| => Text(entries[i].0)))
    case Scalar(_, _) => None
  }

  // ---------------------------------------------------------------------------
  // Fail-fast outcome

  /** `walk_dict(body, structure, path)`. */
  function DictOutcome(w: Walker, body: Value, s: Spec, path: Option<string>): (outcome: Outcome<WalkError>)
    requires s.Nested?
    decreases s, 2, 0
  {
    if !body.Mapping? then Fail(NotAMapping(path))
    else
      var split := SplitBody(body.entries);
      var check := CheckForUnknownFields(w, split, s.fields, path);
      if check.Fail? then check else FieldsOutcome(w, split, s, 0, path)
  }

  /** The loop of `walk_dict` over the structure's fields, from field `i` on. */
  function FieldsOutcome(w: Walker, split: Dict<string, Value>, s: Spec, i: nat, path: Option<string>)
    : (outcome: Outcome<WalkError>)
    requires s.Nested? && i <= |s.fields|
    decreases s, 1, |s.fields| - i
  {
    if i == |s.fields| then Pass
    else
      var r := FieldOutcomeAt(w, split, s, i, path);
      if r.Fail? then r else FieldsOutcome(w, split, s, i + 1, path)
  }

  /** One iteration of that loop: a type key scans the body, a literal key looks itself up. */
  function FieldOutcomeAt(w: Walker, split: Dict<string, Value>, s: Spec, i: nat, path: Option<string>)
    : (outcome: Outcome<WalkError>)
    requires s.Nested? && i < |s.fields|
    decreases s, 1, 0
  {
    match s.fields[i].0
    case TypePat(_) => PatternOutcome(w, split, s, i, 0, path)
    case Lit(name) =>
      var v := Get(split, name);
      if v.Some? then FieldOutcome(w, v.value, s.fields[i].1, Join(path, name)) else Pass
  }

  /** The inner loop for a type key: every body entry whose key is an instance, from entry `j` on. */
  function PatternOutcome(w: Walker, split: Dict<string, Value>, s: Spec, i: nat, j: nat, path: Option<string>)
    : (outcome: Outcome<WalkError>)
    requires s.Nested? && i < |s.fields| && s.fields[i].0.TypePat? && j <= |split|
    decreases s, 0, |split| - j
  {
    if j == |split| then Pass
    else
      var r :=
        if w.isInstance(Text(split[j].0), s.fields[i].0.ty)
        then FieldOutcome(w, split[j].1, s.fields[i].1, Join(path, split[j].0))
        else Pass;
      if r.Fail? then r else PatternOutcome(w, split, s, i, j + 1, path)
  }

  /** `_recurse_or_validate_field(value, sub_structure, path)`. */
  function FieldOutcome(w: Walker, v: Value, s: Spec, path: string): (outcome: Outcome<WalkError>)
    decreases s, 3, 0
  {
    match s
    case ListOf(_) =>
      var els := Elements(v);
      if els.None? then Fail(NotIterable(path)) else ElementsOutcome(w, els.value, s, 0, path)
    case Nested(_) => DictOutcome(w, v, s, Some(path))
    case Leaf(t) => if w.fieldValidator(path, v, t) then Pass else Fail(FieldRejected(path, v, t))
  }

  /** The loop over a list value's elements, from element `j` on. */
  function ElementsOutcome(w: Walker, els: seq<Value>, s: Spec, j: nat, path: string): (outcome: Outcome<WalkError>)
    requires s.ListOf? && j <= |els|
    decreases s, 0, |els| - j
  {
    if j == |els| then Pass
    else
      var r := FieldOutcome(w, els[j], s.elem, Join(Some(path), Decimal(j)));
      if r.Fail? then r else ElementsOutcome(w, els, s, j + 1, path)
  }

  // ---------------------------------------------------------------------------
  // Conformance, independent of iteration order

  /** A value conforms to a sub-structure. */
  predicate FieldConforms(w: Walker, v: Value, s: Spec, path: string)
    decreases s, 3
  {
    match s
    case Leaf(t) => w.fieldValidator(path, v, t)
    case ListOf(e) =>
      Elements(v).Some? &&
      forall j :: 0 <= j < |Elements(v).value| ==>
        FieldConforms(w, Elements(v).value[j], e, Join(Some(path), Decimal(j)))
    case Nested(_) => DictConforms(w, v, s, Some(path))
  }

  /** A body conforms to a dict structure: it is a dict and its split form conforms. */
  predicate DictConforms(w: Walker, body: Value, s: Spec, path: Option<string>)
    requires s.Nested?
    decreases s, 2
  {
    body.Mapping? && SplitConforms(w, SplitBody(body.entries), s, path)
  }

  /** Every key of the split body is known, and every field of the structure accepts what it matches. */
  predicate SplitConforms(w: Walker, split: Dict<string, Value>, s: Spec, path: Option<string>)
    requires s.Nested?
    decreases s, 1
  {
    (forall k :: k in Keys(split) ==> IsKnown(w, k, s.fields)) &&
    (forall i :: 0 <= i < |s.fields| ==> FieldDeclConforms(w, split, s, i, path))
  }

  /**
   * The `i`-th field of the structure accepts the split body: for a type key,
   * every entry whose key is an instance; for a literal key, its entry if present.
   */
  predicate FieldDeclConforms(w: Walker, split: Dict<string, Value>, s: Spec, i: nat, path: Option<string>)
    requires s.Nested? && i < |s.fields|
    decreases s, 0
  {
    match s.fields[i].0
    case TypePat(t) =>
      forall j :: 0 <= j < |split| && w.isInstance(Text(split[j].0), t) ==>
        FieldConforms(w, split[j].1, s.fields[i].1, Join(path, split[j].0))
    case Lit(name) =>
      Get(split, name).Some? ==> FieldConforms(w, Get(split, name).value, s.fields[i].1, Join(path, name))
  }

  // ---------------------------------------------------------------------------
  // The outcome passes exactly when the body conforms

  lemma {:induction false} FieldOutcomeCorrect(w: Walker, v: Value, s: Spec, path: string)
    ensures FieldOutcome(w, v, s, path).Pass? <==> FieldConforms(w, v, s, path)
    decreases s, 3, 0
  {
    match s
    case Leaf(_) =>
    case ListOf(e) =>
      if Elements(v).Some? {
        ElementsOutcomeCorrect(w, Elements(v).value, s, 0, path);
      }
    case Nested(_) => DictOutcomeCorrect(w, v, s, Some(path));
  }

  lemma {:induction false} ElementsOutcomeCorrect(w: Walker, els: seq<Value>, s: Spec, j: nat, path: string)
    requires s.ListOf? && j <= |els|
    ensures ElementsOutcome(w, els, s, j, path).Pass? <==>
      forall m :: j <= m < |els| ==> FieldConforms(w, els[m], s.elem, Join(Some(path), Decimal(m)))
    decreases s, 0, |els| - j
  {
    if j < |els| {
      var here := Join(Some(path), Decimal(j));
      FieldOutcomeCorrect(w, els[j], s.elem, here);
      ElementsOutcomeCorrect(w, els, s, j + 1, path);
      if FieldOutcome(w, els[j], s.elem, here).Pass? {
        assert ElementsOutcome(w, els, s, j, path) == ElementsOutcome(w, els, s, j + 1, path);
        if ElementsOutcome(w, els, s, j + 1, path).Pass? {
          forall m | j <= m < |els| ensures FieldConforms(w, els[m], s.elem, Join(Some(path), Decimal(m))) {
            if m == j {
              assert FieldConforms(w, els[j], s.elem, here);
            }
          }
        }
      }
    }
  }

  /** `walk_dict` succeeds exactly when the body conforms to the structure. */
  lemma {:induction false} DictOutcomeCorrect(w: Walker, body: Value, s: Spec, path: Option<string>)
    requires s.Nested?
    ensures DictOutcome(w, body, s, path).Pass? <==> DictConforms(w, body, s, path)
    decreases s, 2, 0
  {
    if body.Mapping? {
      var split := SplitBody(body.entries);
      var check := CheckForUnknownFields(w, split, s.fields, path);
      if check.Fail? {
        assert !SplitConforms(w, split, s, path);
      } else {
        FieldsOutcomeCorrect(w, split, s, 0, path);
        assert DictOutcome(w, body, s, path) == FieldsOutcome(w, split, s, 0, path);
        if FieldsOutcome(w, split, s, 0, path).Pass? {
          assert SplitConforms(w, split, s, path);
        } else {
          assert !SplitConforms(w, split, s, path);
        }
      }
    }
  }

  lemma {:induction false} FieldsOutcomeCorrect(w: Walker, split: Dict<string, Value>, s: Spec, i: nat, path: Option<string>)
    requires s.Nested? && i <= |s.fields|
    ensures FieldsOutcome(w, split, s, i, path).Pass? <==>
      forall m :: i <= m < |s.fields| ==> FieldDeclConforms(w, split, s, m, path)
    decreases s, 1, |s.fields| - i
  {
    if i < |s.fields| {
      FieldOutcomeAtCorrect(w, split, s, i, path);
      FieldsOutcomeCorrect(w, split, s, i + 1, path);
    }
  }

  lemma {:induction false} FieldOutcomeAtCorrect(w: Walker, split: Dict<string, Value>, s: Spec, i: nat, path: Option<string>)
    requires s.Nested? && i < |s.fields|
    ensures FieldOutcomeAt(w, split, s, i, path).Pass? <==> FieldDeclConforms(w, split, s, i, path)
    decreases s, 1, 0
  {
    match s.fields[i].0
    case TypePat(_) => PatternOutcomeCorrect(w, split, s, i, 0, path);
    case Lit(name) =>
      var v := Get(split, name);
      if v.Some? {
        FieldOutcomeCorrect(w, v.value, s.fields[i].1, Join(path, name));
      }
  }

  lemma {:induction false} PatternOutcomeCorrect(w: Walker, split: Dict<string, Value>, s: Spec, i: nat, j: nat, path: Option<string>)
    requires s.Nested? && i < |s.fields| && s.fields[i].0.TypePat? && j <= |split|
    ensures PatternOutcome(w, split, s, i, j, path).Pass? <==>
      forall m :: j <= m < |split| && w.isInstance(Text(split[m].0), s.fields[i].0.ty) ==>
        FieldConforms(w, split[m].1, s.fields[i].1, Join(path, split[m].0))
    decreases s, 0, |split| - j
  {
    if j < |split| {
      FieldOutcomeCorrect(w, split[j].1, s.fields[i].1, Join(path, split[j].0));
      PatternOutcomeCorrect(w, split, s, i, j + 1, path);
    }
  }

  // ---------------------------------------------------------------------------
  // Properties of the walk

  /** Unknown fields are reported before anything is validated, all of them, under the path's prefix. */
  lemma {:induction false} UnknownFieldsReportedFirst(w: Walker, entries: Dict<string, Value>, s: Spec, path: Option<string>, k: string)
    requires s.Nested?
    requires k in Keys(SplitBody(entries)) && !IsKnown(w, k, s.fields)
    ensures DictOutcome(w, Mapping(entries), s, path) ==
      Fail(UnknownFields(Prefix(path), set k' | k' in Keys(SplitBody(entries)) && !IsKnown(w, k', s.fields)))
  {
  }

  /** Walking a body or its split form gives the same outcome. */
  lemma {:induction false} DictOutcomeOfSplitBody(w: Walker, entries: Dict<string, Value>, s: Spec, path: Option<string>)
    requires s.Nested?
    ensures DictOutcome(w, Mapping(SplitBody(entries)), s, path) == DictOutcome(w, Mapping(entries), s, path)
  {
    SplitBodyIdempotent(entries);
  }

  /** `{"a.b": v}` and `{"a": {"b": v}}` are walked alike. */
  lemma {:induction false} DottedKeyAsNested(w: Walker, a: string, b: string, v: Value, s: Spec, path: Option<string>)
    requires s.Nested?
    requires '.' !in a && '.' !in b
    ensures DictOutcome(w, Mapping([(a + "." + b, v)]), s, path) ==
            DictOutcome(w, Mapping([(a, Mapping([(b, v)]))]), s, path)
  {
    SplitOfDottedKey(a, b, v);
  }

  /**
   * Dotted keys that share a first segment are not merged, so the verdict
   * depends on the body's order. With the structure `{a: {b: t}}`, the body
   * `{"a.b": v, "a.c": u}` fails because `c` is unknown under `a` ...
   */
  lemma {:induction false} SharedSegmentLastUnknown(w: Walker, a: string, b: string, c: string, v: Value, u: Value, t: Ty)
    requires '.' !in a && '.' !in b && '.' !in c && b != c
    ensures DictOutcome(w, Mapping([(a + "." + b, v), (a + "." + c, u)]), Nested([(Lit(a), Nested([(Lit(b), Leaf(t))]))]), None)
      == Fail(UnknownFields(Prefix(Some(a)), {c}))
  {
    var inner := Nested([(Lit(b), Leaf(t))]);
    var s := Nested([(Lit(a), inner)]);
    SplitBodySharedSegment(a, b, c, v, u);
    var split := [(a, Mapping([(c, u)]))];
    SingleEntry(a, Mapping([(c, u)]));
    SingleKey(Lit(a), inner);
    assert CheckForUnknownFields(w, split, s.fields, None) == Pass;
    SingleEntry(c, u);
    SingleKey(Lit(b), Leaf(t));
    assert !IsKnown(w, c, inner.fields);
    var check := CheckForUnknownFields(w, [(c, u)], inner.fields, Some(a));
    assert check.error.fields == {c};
    assert DictOutcome(w, Mapping([(c, u)]), inner, Some(a)) == check;
    assert FieldOutcomeAt(w, split, s, 0, None) == check;
  }

  /**
   * ... while `{"a.c": u, "a.b": v}` is judged by `v` alone: the entry for
   * `"a.c"` is overwritten and never checked.
   */
  lemma {:induction false} SharedSegmentFirstDropped(w: Walker, a: string, b: string, c: string, v: Value, u: Value, t: Ty)
    requires '.' !in a && '.' !in b && '.' !in c
    ensures DictOutcome(w, Mapping([(a + "." + c, u), (a + "." + b, v)]), Nested([(Lit(a), Nested([(Lit(b), Leaf(t))]))]), None)
      == if w.fieldValidator(a + "." + b, v, t) then Pass else Fail(FieldRejected(a + "." + b, v, t))
  {
    var inner := Nested([(Lit(b), Leaf(t))]);
    var s := Nested([(Lit(a), inner)]);
    SplitBodySharedSegment(a, c, b, u, v);
    var split := [(a, Mapping([(b, v)]))];
    SingleEntry(a, Mapping([(b, v)]));
    SingleEntry(b, v);
    SingleKey(Lit(a), inner);
    SingleKey(Lit(b), Leaf(t));
    assert CheckForUnknownFields(w, split, s.fields, None) == Pass;
    assert CheckForUnknownFields(w, [(b, v)], inner.fields, Some(a)) == Pass;
    var leaf := FieldOutcome(w, v, Leaf(t), a + "." + b);
    assert FieldOutcomeAt(w, [(b, v)], inner, 0, Some(a)) == leaf;
    assert FieldsOutcome(w, [(b, v)], inner, 0, Some(a)) == leaf;
    assert DictOutcome(w, Mapping([(b, v)]), inner, Some(a)) == leaf;
    assert FieldOutcome(w, Mapping([(b, v)]), inner, a) == leaf;
    assert FieldOutcomeAt(w, split, s, 0, None) == leaf;
    assert FieldsOutcome(w, split, s, 0, None) == leaf;
  }

  /** A one-entry body with a dot-free key is its own split form. */
  lemma {:induction false} SingleEntry(k: string, x: Value)
    requires '.' !in k
    ensures SplitBody([(k, x)]) == [(k, x)] && Keys([(k, x)]) == {k}
  {
    HandleDotsNoDot(k, x);
    assert Handled([(k, x)]) == [(k, x)];
    UpdateFromEmpty([(k, x)]);
    SingleKey(k, x);
  }

  lemma {:induction false} SingleKey<K(!new), V>(k: K, x: V)
    ensures Keys([(k, x)]) == {k}
  {
    assert [(k, x)][1..] == [];
  }

  /** A list structure accepts an empty list whatever its element structure. */
  lemma {:induction false} EmptyListPasses(w: Walker, e: Spec, path: string)
    ensures FieldOutcome(w, Sequence([]), ListOf(e), path) == Pass
  {
  }

  // ---------------------------------------------------------------------------
  // The walker's methods

  /** `StructureWalker.walk_dict`. */
  method WalkDict(w: Walker, body: Value, structure: Spec, path: Option<string>) returns (r: Outcome<WalkError>)
    requires structure.Nested?
    ensures r == DictOutcome(w, body, structure, path)
    decreases structure, 1
  {
    if !body.Mapping? {
      return Fail(NotAMapping(path));
    }
    var split := SplitKeysOnDots(body.entries);
    r := CheckForUnknownFields(w, split, structure.fields, path);
    if r.Fail? {
      return;
    }
    var i := 0;
    while i < |structure.fields|
      invariant 0 <= i <= |structure.fields|
      invariant FieldsOutcome(w, split, structure, 0, path) == FieldsOutcome(w, split, structure, i, path)
    {
      r := WalkField(w, split, structure, i, path);
      if r.Fail? {
        return;
      }
      i := i + 1;
    }
    r := Pass;
  }

  /**
   * One iteration of `walk_dict`'s loop over the structure: a type key
   * validates every body entry whose key is an instance of it, a literal key
   * validates its own entry when the body has it.
   */
  method WalkField(w: Walker, split: Dict<string, Value>, structure: Spec, i: nat, path: Option<string>)
    returns (r: Outcome<WalkError>)
    requires structure.Nested? && i < |structure.fields|
    ensures r == FieldOutcomeAt(w, split, structure, i, path)
    decreases structure, 0
  {
    var sub := structure.fields[i].1;
    match structure.fields[i].0 {
      case TypePat(fieldType) =>
        var j := 0;
        while j < |split|
          invariant 0 <= j <= |split|
          invariant PatternOutcome(w, split, structure, i, 0, path) == PatternOutcome(w, split, structure, i, j, path)
        {
          var (key, value) := split[j];
          if w.isInstance(Text(key), fieldType) {
            r := RecurseOrValidateField(w, value, sub, Join(path, key));
            if r.Fail? {
              return;
            }
          }
          j := j + 1;
        }
        r := Pass;
      case Lit(name) =>
        var value := Get(split, name);
        r := Pass;
        if value.Some? {
          r := RecurseOrValidateField(w, value.value, sub, Join(path, name));
        }
    }
  }

  /** `StructureWalker._recurse_or_validate_field`. */
  method RecurseOrValidateField(w: Walker, value: Value, sub: Spec, path: string) returns (r: Outcome<WalkError>)
    ensures r == FieldOutcome(w, value, sub, path)
    decreases sub, 2
  {
    match sub {
      case ListOf(content) =>
        var els := Elements(value);
        if els.None? {
          return Fail(NotIterable(path));
        }
        var j := 0;
        while j < |els.value|
          invariant 0 <= j <= |els.value|
          invariant ElementsOutcome(w, els.value, sub, 0, path) == ElementsOutcome(w, els.value, sub, j, path)
        {
          r := RecurseOrValidateField(w, els.value[j], content, Join(Some(path), Decimal(j)));
          if r.Fail? {
            return;
          }
          j := j + 1;
        }
        r := Pass;
      case Nested(_) =>
        r := WalkDict(w, value, sub, Some(path));
      case Leaf(t) =>
        r := if w.fieldValidator(path, value, t) then Pass else Fail(FieldRejected(path, value, t));
    }
  }
}
