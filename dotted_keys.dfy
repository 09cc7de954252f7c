/**
 * Dotted keys and dotted paths of the structure walker
 * (`_handle_dots_in_key`, `_split_keys_on_dots` and `_join`).
 */
module DottedKeys {
  import opened Wrappers
  import opened Dicts
  import opened Documents

  /** The position of the first '.' in `key`, or `|key|` when it has none. */
  function FirstDot(key: string): (i: nat)
    ensures i <= |key|
  {
    if |key| == 0 || key[0] == '.' then 0 else 1 + FirstDot(key[1..])
  }

  /** No dot comes before the first dot, and the first dot is a dot. */
  lemma {:induction false} FirstDotSpec(key: string)
    ensures forall j :: 0 <= j < FirstDot(key) ==> key[j] != '.'
    ensures FirstDot(key) < |key| ==> key[FirstDot(key)] == '.'
  {
    if |key| > 0 && key[0] != '.' {
      FirstDotSpec(key[1..]);
      assert forall j :: 1 <= j < FirstDot(key) ==> key[j] == key[1..][j - 1];
    }
  }

  /** The part before the first dot is dot-free, and the key has no dot exactly when it is all of it. */
  lemma {:induction false} NoDotBefore(key: string)
    ensures '.' !in key[..FirstDot(key)]
    ensures FirstDot(key) == |key| <==> '.' !in key
  {
    FirstDotSpec(key);
    var i := FirstDot(key);
    assert forall j :: 0 <= j < i ==> key[..i][j] != '.';
    if i < |key| {
      assert key[i] == '.';
    } else {
      assert key[..i] == key;
    }
  }

  /**
   * `_handle_dots_in_key`: the one entry of the dict that a key-value pair
   * stands for, one nesting level per dot, splitting at the first dot.
   */
  function HandleDotsInKey(key: string, value: Value): (r: (string, Value))
    ensures r.0 == key[..FirstDot(key)]
    decreases |key|
  {
    var i := FirstDot(key);
    if i == |key| then (key, value)
    else (key[..i], Mapping([HandleDotsInKey(key[i + 1..], value)]))
  }

  /** A key without a dot is kept as it is, with its value. */
  lemma {:induction false} HandleDotsNoDot(key: string, value: Value)
    requires '.' !in key
    ensures HandleDotsInKey(key, value) == (key, value)
  {
    NoDotBefore(key);
  }

  /** One nesting level per segment: `"a.b.c"` stands for `{"a": {"b": {"c": value}}}`. */
  lemma {:induction false} HandleDotsExample(value: Value)
    ensures HandleDotsInKey("a.b.c", value) == ("a", Mapping([("b", Mapping([("c", value)]))]))
  {
    DotAfterDotFree("a", "b.c");
    DotAfterDotFree("b", "c");
    HandleDotsNoDot("c", value);
    assert "a" + "." + "b.c" == "a.b.c";
    assert "b" + "." + "c" == "b.c";
    assert "a.b.c"[2..] == "b.c";
    assert "b.c"[2..] == "c";
  }

  /** `key.split('.')`: the dot-separated segments of a key. */
  function Segments(key: string): (segs: seq<string>)
    ensures |segs| > 0
    decreases |key|
  {
    var i := FirstDot(key);
    if i == |key| then [key]
    else [key[..i]] + Segments(key[i + 1..])
  }

  /** `'.'.join(segs)`. */
  function JoinDots(segs: seq<string>): (joined: string)
    requires |segs| > 0
  {
    if |segs| == 1 then segs[0] else segs[0] + "." + JoinDots(segs[1..])
  }

  /** The entry `{s0: {s1: ... {sn: value}}}` for the segments `s0 ... sn`. */
  function Nest(segs: seq<string>, value: Value): (string, Value)
    requires |segs| > 0
  {
    if |segs| == 1 then (segs[0], value) else (segs[0], Mapping([Nest(segs[1..], value)]))
  }

  /** Splitting cuts a key at its dots, no more and no less: n dots give n + 1 dot-free segments. */
  lemma {:induction false} SegmentsPartitionKey(key: string)
    ensures JoinDots(Segments(key)) == key
    ensures |Segments(key)| == multiset(key)['.'] + 1
    ensures forall j :: 0 <= j < |Segments(key)| ==> '.' !in Segments(key)[j]
  {
    SegmentsJoin(key);
    SegmentsCount(key);
    SegmentsDotFree(key);
  }

  lemma {:induction false} SegmentsJoin(key: string)
    ensures JoinDots(Segments(key)) == key
    decreases |key|
  {
    FirstDotSpec(key);
    var i := FirstDot(key);
    if i < |key| {
      var rest := key[i + 1..];
      SegmentsJoin(rest);
      SegmentsAt(key, i);
      assert Segments(key)[1..] == Segments(rest);
      assert key == key[..i] + "." + rest;
    } else {
      assert key[..i] == key;
    }
  }

  lemma {:induction false} SegmentsCount(key: string)
    ensures |Segments(key)| == multiset(key)['.'] + 1
    decreases |key|
  {
    NoDotBefore(key);
    FirstDotSpec(key);
    var i := FirstDot(key);
    if i < |key| {
      var head, rest := key[..i], key[i + 1..];
      SegmentsCount(rest);
      SegmentsAt(key, i);
      assert key == head + "." + rest;
      assert multiset(key) == multiset(head) + multiset(".") + multiset(rest);
      assert multiset(head)['.'] == 0;
    } else {
      assert multiset(key)['.'] == 0;
    }
  }

  lemma {:induction false} SegmentsDotFree(key: string)
    ensures forall j :: 0 <= j < |Segments(key)| ==> '.' !in Segments(key)[j]
    decreases |key|
  {
    NoDotBefore(key);
    var i := FirstDot(key);
    if i < |key| {
      var rest := key[i + 1..];
      SegmentsDotFree(rest);
      SegmentsAt(key, i);
      var segs := Segments(key);
      forall j | 0 <= j < |segs| ensures '.' !in segs[j] {
        if j > 0 {
          assert segs[j] == Segments(rest)[j - 1];
        }
      }
    }
  }

  /** Joining dot-free segments and splitting again gives the segments back. */
  lemma {:induction false} SegmentsOfJoinDots(segs: seq<string>)
    requires |segs| > 0
    requires forall j :: 0 <= j < |segs| ==> '.' !in segs[j]
    ensures Segments(JoinDots(segs)) == segs
  {
    if |segs| == 1 {
      NoDotBefore(segs[0]);
    } else {
      var key := JoinDots(segs);
      var tail := JoinDots(segs[1..]);
      assert key == segs[0] + "." + tail;
      DotAfterDotFree(segs[0], tail);
      assert key[FirstDot(key) + 1..] == tail;
      SegmentsOfJoinDots(segs[1..]);
    }
  }

  /** The first dot is the one with no dot before it. */
  lemma {:induction false} FirstDotAt(key: string, i: nat)
    requires i <= |key| && forall j :: 0 <= j < i ==> key[j] != '.'
    requires i < |key| ==> key[i] == '.'
    ensures FirstDot(key) == i
  {
    if i > 0 {
      assert key[0] != '.';
      assert forall j :: 0 <= j < i - 1 ==> key[1..][j] == key[j + 1];
      FirstDotAt(key[1..], i - 1);
    }
  }

  /** In `h + "." + t` with `h` dot-free, the first dot is the one after `h`. */
  lemma {:induction false} DotAfterDotFree(h: string, t: string)
    requires '.' !in h
    ensures FirstDot(h + "." + t) == |h|
    ensures (h + "." + t)[..|h|] == h
    ensures (h + "." + t)[|h| + 1..] == t
  {
    var key := h + "." + t;
    assert key[..|h|] == h;
    forall j | 0 <= j < |h| ensures key[j] != '.' {
      assert key[j] == h[j];
    }
    FirstDotAt(key, |h|);
  }

  /** `_handle_dots_in_key` nests once per segment of the key. */
  lemma {:induction false} HandleDotsNests(key: string, value: Value)
    ensures HandleDotsInKey(key, value) == Nest(Segments(key), value)
    decreases |key|
  {
    var i := FirstDot(key);
    if i < |key| {
      HandleDotsNests(key[i + 1..], value);
      assert Segments(key)[1..] == Segments(key[i + 1..]);
    }
  }

  /** `_join`: a path extended by one component; the root path is None. */
  function Join(head: Option<string>, tail: string): (joined: string) {
    match head
    case None => tail
    case Some(h) => h + "." + tail
  }

  /** A joined path splits into the head's segments followed by the tail's; the root adds none. */
  lemma {:induction false} JoinSegments(head: Option<string>, tail: string)
    ensures head.None? ==> Join(head, tail) == tail
    ensures head.Some? ==> Segments(Join(head, tail)) == Segments(head.value) + Segments(tail)
  {
    if head.Some? {
      SegmentsOfDotted(head.value, tail);
    }
  }

  /** The segments of `h + "." + t` are those of `h` followed by those of `t`. */
  lemma {:induction false} SegmentsOfDotted(h: string, t: string)
    ensures Segments(h + "." + t) == Segments(h) + Segments(t)
    decreases |h|
  {
    var key := h + "." + t;
    FirstDotSpec(h);
    var i := FirstDot(h);
    if i == |h| {
      NoDotBefore(h);
      DotAfterDotFree(h, t);
    } else {
      var rest := h[i + 1..];
      assert FirstDot(key) == i && key[..i] == h[..i] && key[i + 1..] == rest + "." + t by {
        assert key[..i] == h[..i];
        assert key[i] == '.';
        forall j | 0 <= j < i ensures key[j] != '.' {
          assert key[j] == h[j];
        }
        FirstDotAt(key, i);
      }
      SegmentsOfDotted(rest, t);
      SegmentsAt(key, i);
      SegmentsAt(h, i);
    }
  }

  /** Splitting at the first dot gives the head segment, then the segments after it. */
  lemma {:induction false} SegmentsAt(key: string, i: nat)
    requires i < |key| && FirstDot(key) == i
    ensures Segments(key) == [key[..i]] + Segments(key[i + 1..])
  {
  }

  /** `str(n)` for a list index. */
  function Decimal(n: nat): (digits: string) {
    var digit := "0123456789"[n % 10];
    if n < 10 then [digit] else Decimal(n / 10) + [digit]
  }


  /** The number a string of decimal digits denotes, most significant digit first. */
  function DigitsValue(digits: string): (n: int) {
    if |digits| == 0 then 0
    else DigitsValue(digits[..|digits| - 1]) * 10 + (digits[|digits| - 1] as int - '0' as int)
  }

  /** `str(n)` is a nonempty run of decimal digits, with no leading zero. */
  lemma {:induction false} DecimalDigits(n: nat)
    ensures |Decimal(n)| > 0
    ensures forall i :: 0 <= i < |Decimal(n)| ==> '0' <= Decimal(n)[i] <= '9'
    ensures n >= 10 ==> Decimal(n)[0] != '0'
  {
    if n >= 10 {
      DecimalDigits(n / 10);
      var d := Decimal(n / 10);
      assert Decimal(n) == d + ["0123456789"[n % 10]];
      assert forall i :: 0 <= i < |d| ==> Decimal(n)[i] == d[i];
    }
  }

  /** Reading `str(n)` back as a decimal numeral gives `n`. */
  lemma {:induction false} DecimalRoundTrip(n: nat)
    ensures DigitsValue(Decimal(n)) == n
  {
    var digit := "0123456789"[n % 10];
    assert digit as int - '0' as int == n % 10;
    if n >= 10 {
      DecimalRoundTrip(n / 10);
      var d := Decimal(n / 10);
      assert (d + [digit])[..|d|] == d;
    }
  }

  /** Every entry of `body` rewritten by `_handle_dots_in_key`, in order. */
  function Handled(body: Dict<string, Value>): (r: Dict<string, Value>)
    ensures |r| == |body|
    ensures forall i :: 0 <= i < |body| ==> r[i] == HandleDotsInKey(body[i].0, body[i].1)
  {
    if |body| == 0 then []
    else
      var last := body[|body| - 1];
      Handled(body[..|body| - 1]) + [HandleDotsInKey(last.0, last.1)]
  }

  /** The dict `_split_keys_on_dots` builds: each rewritten entry assigned in turn. */
  function SplitBody(body: Dict<string, Value>): (split: Dict<string, Value>) {
    Update([], Handled(body))
  }

  /**
   * `_split_keys_on_dots` builds `split_body` entry by entry, assigning each
   * key's first segment.
   */
  method SplitKeysOnDots(body: Dict<string, Value>) returns (split: Dict<string, Value>)
    ensures split == SplitBody(body)
  {
    split := [];
    var i := 0;
    while i < |body|
      invariant 0 <= i <= |body|
      invariant split == Update([], Handled(body[..i]))
    {
      var (fixedKey, fixedValue) := HandleDotsInKey(body[i].0, body[i].1);
      assert body[..i + 1][..i] == body[..i];
      split := Put(split, fixedKey, fixedValue);
      i := i + 1;
    }
    assert body[..i] == body;
  }

  /** The split body has distinct, dot-free keys: the first segments of the body's keys. */
  lemma {:induction false} SplitBodyKeys(body: Dict<string, Value>)
    ensures UniqueKeys(SplitBody(body))
    ensures forall k :: k in Keys(SplitBody(body)) <==>
      exists i :: 0 <= i < |body| && k == body[i].0[..FirstDot(body[i].0)]
    ensures forall k :: k in Keys(SplitBody(body)) ==> '.' !in k
  {
    UpdateUnique([], Handled(body));
    UpdateKeys([], Handled(body));
    forall i | 0 <= i < |body| ensures '.' !in body[i].0[..FirstDot(body[i].0)] {
      NoDotBefore(body[i].0);
    }
    forall k ensures k in Keys(SplitBody(body)) <==> exists i :: 0 <= i < |body| && k == body[i].0[..FirstDot(body[i].0)] {
      KeysIndex(Handled(body), k);
    }
  }

  /**
   * A key of the split body holds the value of the LAST body entry with that
   * first segment: a later entry replaces an earlier one, it is not merged.
   */
  lemma {:induction false} SplitBodyGet(body: Dict<string, Value>, k: string, v: Value)
    ensures Get(SplitBody(body), k) == Some(v) <==>
      exists i :: 0 <= i < |body| && HandleDotsInKey(body[i].0, body[i].1) == (k, v) &&
        forall j :: i < j < |body| ==> body[j].0[..FirstDot(body[j].0)] != k
  {
    UpdateGet([], Handled(body), k);
    LastValueIndex(Handled(body), k, v);
  }

  /** Splitting a body that is already split changes nothing. */
  lemma {:induction false} SplitBodyIdempotent(body: Dict<string, Value>)
    ensures SplitBody(SplitBody(body)) == SplitBody(body)
  {
    var u := SplitBody(body);
    SplitBodyKeys(body);
    forall i | 0 <= i < |u| ensures HandleDotsInKey(u[i].0, u[i].1) == u[i] {
      KeysIndex(u, u[i].0);
      NoDotBefore(u[i].0);
    }
    assert Handled(u) == u;
    UpdateFromEmpty(u);
  }

  /** `{"a.b": v}` splits into the same body as `{"a": {"b": v}}`. */
  lemma {:induction false} SplitOfDottedKey(a: string, b: string, v: Value)
    requires '.' !in a && '.' !in b
    ensures SplitBody([(a + "." + b, v)]) == SplitBody([(a, Mapping([(b, v)]))])
  {
    HandleDotsOfDotted(a, b, v);
    NoDotBefore(a);
    assert Handled([(a + "." + b, v)]) == [(a, Mapping([(b, v)]))];
    assert Handled([(a, Mapping([(b, v)]))]) == [(a, Mapping([(b, v)]))];
  }

  /** A key with one dot becomes a one-entry dict under its first segment. */
  lemma {:induction false} HandleDotsOfDotted(a: string, b: string, v: Value)
    requires '.' !in a && '.' !in b
    ensures HandleDotsInKey(a + "." + b, v) == (a, Mapping([(b, v)]))
  {
    DotAfterDotFree(a, b);
    HandleDotsNoDot(b, v);
    var key := a + "." + b;
    assert key[|a|] == '.';
  }

  /**
   * Two body keys with the same first segment are not merged: the later one
   * replaces the earlier, whose value is dropped unchecked.
   * `{"a.b": v, "a.c": u}` splits to `{"a": {"c": u}}`.
   */
  lemma {:induction false} SplitBodySharedSegment(a: string, b: string, c: string, v: Value, u: Value)
    requires '.' !in a && '.' !in b && '.' !in c
    ensures SplitBody([(a + "." + b, v), (a + "." + c, u)]) == [(a, Mapping([(c, u)]))]
  {
    HandleDotsOfDotted(a, b, v);
    HandleDotsOfDotted(a, c, u);
    var handled := Handled([(a + "." + b, v), (a + "." + c, u)]);
    assert handled == [(a, Mapping([(b, v)])), (a, Mapping([(c, u)]))];
    assert handled[..1] == [(a, Mapping([(b, v)]))];
    assert Update([], handled[..1]) == [(a, Mapping([(b, v)]))];
  }
}
