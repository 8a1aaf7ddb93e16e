/**
 * YAML path insertion and flattening of `zutils/src/yaml.rs`, over an
 * in-memory tree. A mapping is an ordered list of (key, value) entries with
 * distinct keys, as serde_yaml's `Mapping`: inserting an existing key
 * replaces its value where it stands, a new key is appended. The source edits
 * the document in place through `&mut Value`; the model returns the new
 * document instead.
 */
module Yaml {
  import opened Wrappers

  datatype Value =
    | Null
    | Bool(b: bool)
    | Number(n: int)
    | Str(s: string)
    | Sequence(items: seq<Value>)
    | Mapping(entries: seq<(Value, Value)>)

  // ---------------------------------------------------------------------
  // Ordered mappings
  // ---------------------------------------------------------------------

  /** The keys of the entries. */
  function Keys(es: seq<(Value, Value)>): set<Value> {
    if |es| == 0 then {} else {es[0].0} + Keys(es[1..])
  }

  /** No key occurs in two entries. */
  predicate KeysUnique(es: seq<(Value, Value)>) {
    |es| == 0 || (es[0].0 !in Keys(es[1..]) && KeysUnique(es[1..]))
  }

  /** `Mapping::get`: the value stored under `k`. */
  function MapGet(es: seq<(Value, Value)>, k: Value): (r: Option<Value>)
    ensures r.Some? <==> k in Keys(es)
  {
    if |es| == 0 then None
    else if es[0].0 == k then Some(es[0].1)
    else
      MapGet(es[1..], k)
  }

  /** `Mapping::insert`: replace the value of `k` in place, or append `(k, v)`. */
  function MapInsert(es: seq<(Value, Value)>, k: Value, v: Value): (r: seq<(Value, Value)>)
    ensures Keys(r) == Keys(es) + {k}
    ensures KeysUnique(es) ==> KeysUnique(r)
    ensures k in Keys(es) ==> |r| == |es|
  {
    if |es| == 0 then [(k, v)]
    else
      KeysCons(es[0], es[1..]);
      assert es == [es[0]] + es[1..];
      if es[0].0 == k then
        KeysCons((k, v), es[1..]);
        [(k, v)] + es[1..]
      else
        var rest := MapInsert(es[1..], k, v);
        KeysCons(es[0], rest);
        [es[0]] + rest
  }

  lemma {:induction false} KeysCons(x: (Value, Value), es: seq<(Value, Value)>)
    ensures Keys([x] + es) == {x.0} + Keys(es)
    ensures KeysUnique([x] + es) <==> x.0 !in Keys(es) && KeysUnique(es)
  {
    assert ([x] + es)[1..] == es;
  }

  /** After an insert, `k` holds `v` and every other key holds what it held. */
  lemma {:induction false} MapInsertGet(es: seq<(Value, Value)>, k: Value, v: Value, k': Value)
    ensures MapGet(MapInsert(es, k, v), k') == if k' == k then Some(v) else MapGet(es, k')
  {
    if |es| > 0 && es[0].0 != k {
      MapInsertGet(es[1..], k, v, k');
      assert MapInsert(es, k, v)[1..] == MapInsert(es[1..], k, v);
    }
  }

  /** A key not yet present is appended after the existing entries. */
  lemma {:induction false} MapInsertAppends(es: seq<(Value, Value)>, k: Value, v: Value)
    requires k !in Keys(es)
    ensures MapInsert(es, k, v) == es + [(k, v)]
  {
    if |es| > 0 {
      MapInsertAppends(es[1..], k, v);
      assert es == [es[0]] + es[1..];
    }
  }

  // ---------------------------------------------------------------------
  // Walking a key path: get_mut_mapped_value / get_mut_mapped_partial_value
  // ---------------------------------------------------------------------

  datatype LookupError = KeyNotFound(key: string) | NotAMap(key: string)

  /** The node reached by following `keys` from `v` through mapping nodes. */
  function Walk(v: Value, keys: seq<string>): Result<Value, LookupError>
    decreases |keys|
  {
    if |keys| == 0 then Ok(v)
    else if !v.Mapping? then Err(NotAMap(keys[0]))
    else match MapGet(v.entries, Str(keys[0]))
      case None => Err(KeyNotFound(keys[0]))
      case Some(child) => Walk(child, keys[1..])
  }

  /** The i-th key is found in the mapping node reached by the first i keys. */
  ghost predicate StepFound(v: Value, keys: seq<string>, i: nat)
    requires i < |keys|
  {
    && Walk(v, keys[..i]).Ok?
    && Walk(v, keys[..i]).value.Mapping?
    && MapGet(Walk(v, keys[..i]).value.entries, Str(keys[i])).Some?
  }

  /** Walking one more key extends the walk by one lookup. */
  lemma {:induction false} WalkSnoc(v: Value, keys: seq<string>, k: string)
    ensures Walk(v, keys + [k]) ==
      match Walk(v, keys)
      case Err(e) => Err(e)
      case Ok(n) =>
        if !n.Mapping? then Err(NotAMap(k))
        else match MapGet(n.entries, Str(k))
          case None => Err(KeyNotFound(k))
          case Some(child) => Ok(child)
    decreases |keys|
  {
    if |keys| > 0 {
      assert (keys + [k])[1..] == keys[1..] + [k];
      if v.Mapping? && MapGet(v.entries, Str(keys[0])).Some? {
        WalkSnoc(MapGet(v.entries, Str(keys[0])).value, keys[1..], k);
      }
    } else {
      assert keys + [k] == [k];
    }
  }

  /** A walk succeeds exactly when every key is found in a mapping node along the path. */
  lemma {:induction false} WalkOkIff(v: Value, keys: seq<string>)
    ensures Walk(v, keys).Ok? <==> forall i :: 0 <= i < |keys| ==> StepFound(v, keys, i)
    decreases |keys|
  {
    if |keys| > 0 {
      var init := keys[..|keys| - 1];
      var last := keys[|keys| - 1];
      assert keys == init + [last];
      WalkSnoc(v, init, last);
      WalkOkIff(v, init);
      forall i | 0 <= i < |init| ensures StepFound(v, keys, i) == StepFound(v, init, i) {
        assert keys[..i] == init[..i];
      }
      assert keys[..|keys| - 1] == init;
      assert StepFound(v, keys, |keys| - 1) <==> Walk(v, keys).Ok?;
    }
  }

  /** The first key that fails decides the error: missing key, or a non-mapping node. */
  lemma {:induction false} WalkErrorAt(v: Value, keys: seq<string>, i: nat)
    requires i < |keys| && !StepFound(v, keys, i)
    requires forall j :: 0 <= j < i ==> StepFound(v, keys, j)
    ensures Walk(v, keys[..i]).Ok?
    ensures Walk(v, keys) == if Walk(v, keys[..i]).value.Mapping?
                             then Err(KeyNotFound(keys[i])) else Err(NotAMap(keys[i]))
  {
    WalkOkIff(v, keys[..i]);
    forall j | 0 <= j < i ensures StepFound(v, keys[..i], j) {
      assert StepFound(v, keys, j);
      assert keys[..i][..j] == keys[..j];
    }
    WalkSnoc(v, keys[..i], keys[i]);
    assert keys[..i] + [keys[i]] == keys[..i + 1];
    WalkPastError(v, keys[..i + 1], keys[i + 1..]);
    assert keys[..i + 1] + keys[i + 1..] == keys;
  }

  /** Once a walk fails, walking further keys fails with the same error. */
  lemma {:induction false} WalkPastError(v: Value, keys: seq<string>, more: seq<string>)
    requires Walk(v, keys).Err?
    ensures Walk(v, keys + more) == Walk(v, keys)
    decreases |keys|
  {
    if |keys| > 0 {
      assert (keys + more)[1..] == keys[1..] + more;
      if v.Mapping? && MapGet(v.entries, Str(keys[0])).Some? {
        WalkPastError(MapGet(v.entries, Str(keys[0])).value, keys[1..], more);
      }
    }
  }

  /** `get_mut_mapped_value`: follow `keys` one lookup at a time. */
  method GetMutMappedValue(val: Value, keys: seq<string>) returns (r: Result<Value, LookupError>)
    ensures r == Walk(val, keys)
  {
    var here := val;
    for i := 0 to |keys|
      invariant Walk(val, keys) == Walk(here, keys[i..])
    {
      assert keys[i..][1..] == keys[i + 1..];
      if here.Mapping? {
        var found := MapGet(here.entries, Str(keys[i]));
        if found.None? {
          return Err(KeyNotFound(keys[i]));
        }
        here := found.value;
      } else {
        return Err(NotAMap(keys[i]));
      }
    }
    return Ok(here);
  }

  /** `get_mut_mapped_partial_value`: as above, also counting the lookups made. */
  method GetMutMappedPartialValue(val: Value, keys: seq<string>) returns (r: Result<(nat, Value), LookupError>)
    ensures r.Ok? <==> Walk(val, keys).Ok?
    ensures r.Ok? ==> r.value == (|keys|, Walk(val, keys).value)
    ensures r.Err? ==> r.error == Walk(val, keys).error
  {
    var here := val;
    var idx := 0;
    for i := 0 to |keys|
      invariant idx == i
      invariant Walk(val, keys) == Walk(here, keys[i..])
    {
      assert keys[i..][1..] == keys[i + 1..];
      if here.Mapping? {
        var found := MapGet(here.entries, Str(keys[i]));
        if found.None? {
          return Err(KeyNotFound(keys[i]));
        }
        here := found.value;
      } else {
        return Err(NotAMap(keys[i]));
      }
      idx := idx + 1;
    }
    return Ok((idx, here));
  }

  // ---------------------------------------------------------------------
  // insert_value
  // ---------------------------------------------------------------------

  datatype InsertError = Lookup(cause: LookupError) | TipNotMapping

  /** `v` with the node at the end of `keys` replaced by `n`. */
  function SetAt(v: Value, keys: seq<string>, n: Value): Value
    requires Walk(v, keys).Ok?
    decreases |keys|
  {
    if |keys| == 0 then n
    else
      var child := MapGet(v.entries, Str(keys[0])).value;
      Mapping(MapInsert(v.entries, Str(keys[0]), SetAt(child, keys[1..], n)))
  }

  /** The chain of single-entry mappings that holds `pair` under the keys `ks`. */
  function Nest(ks: seq<string>, pair: (Value, Value)): (Value, Value) {
    if |ks| == 0 then pair
    else (Str(ks[0]), Mapping([Nest(ks[1..], pair)]))
  }

  /**
   * The rebuild loop of `insert_value`: wrap `pair` in one single-entry mapping
   * per key of `keys` after index `idx`, innermost last.
   */
  method Rebuild(keys: seq<string>, idx: nat, pair: (Value, Value)) returns (r: (Value, Value))
    requires |keys| > 0 && idx <= |keys|
    ensures idx < |keys| ==> r == Nest(keys[idx + 1..], pair)
    ensures idx >= |keys| - 1 ==> r == pair
  {
    r := pair;
    var revIdx: int := |keys| - 1;
    while revIdx > idx
      invariant 0 <= revIdx < |keys|
      invariant idx < |keys| ==> idx <= revIdx
      invariant idx <= revIdx + 1
      invariant r == Nest(keys[revIdx + 1..], pair)
    {
      assert keys[revIdx..][1..] == keys[revIdx + 1..];
      r := (Str(keys[revIdx]), Mapping([r]));
      revIdx := revIdx - 1;
    }
    if idx >= |keys| - 1 {
      assert keys[revIdx + 1..] == [];
    }
  }

  /**
   * `insert_value`: store `insKey: insValue` (both strings) in the mapping
   * reached by `keys`. Returns the new document and the outcome; on every
   * error the document is returned unchanged.
   */
  method InsertValue(doc: Value, keys: seq<string>, insKey: string, insValue: string)
    returns (doc': Value, r: Result<(), InsertError>)
    requires |keys| > 0
    ensures r.Ok? <==> Walk(doc, keys).Ok? && Walk(doc, keys).value.Mapping?
    ensures r.Ok? ==> doc' == SetAt(doc, keys, Mapping(MapInsert(Walk(doc, keys).value.entries, Str(insKey), Str(insValue))))
    ensures Walk(doc, keys).Err? ==> r == Err(Lookup(Walk(doc, keys).error))
    ensures Walk(doc, keys).Ok? && !Walk(doc, keys).value.Mapping? ==> r == Err(TipNotMapping)
    ensures r.Err? ==> doc' == doc
  {
    var partial := GetMutMappedPartialValue(doc, keys);
    if partial.Err? {
      return doc, Err(Lookup(partial.error));
    }
    var (idx, tip) := partial.value;
    var toInsert := Rebuild(keys, idx, (Str(insKey), Str(insValue)));
    if tip.Mapping? {
      return SetAt(doc, keys, Mapping(MapInsert(tip.entries, toInsert.0, toInsert.1))), Ok(());
    } else {
      return doc, Err(TipNotMapping);
    }
  }

  /** Walking into a replaced node reaches the new node and then walks inside it. */
  lemma {:induction false} WalkSetAtOnPath(v: Value, keys: seq<string>, n: Value, more: seq<string>)
    requires Walk(v, keys).Ok?
    ensures Walk(SetAt(v, keys, n), keys + more) == Walk(n, more)
    decreases |keys|
  {
    if |keys| > 0 {
      assert (keys + more)[0] == keys[0];
      var child := MapGet(v.entries, Str(keys[0])).value;
      MapInsertGet(v.entries, Str(keys[0]), SetAt(child, keys[1..], n), Str(keys[0]));
      assert (keys + more)[1..] == keys[1..] + more;
      WalkSetAtOnPath(child, keys[1..], n, more);
    } else {
      assert keys + more == more;
    }
  }

  /** Paths that are neither a prefix of `keys` nor an extension of it walk as before. */
  lemma {:induction false} WalkSetAtOffPath(v: Value, keys: seq<string>, n: Value, p: seq<string>)
    requires Walk(v, keys).Ok?
    requires !(|p| <= |keys| && p == keys[..|p|])
    requires !(|keys| <= |p| && keys == p[..|keys|])
    ensures Walk(SetAt(v, keys, n), p) == Walk(v, p)
    decreases |keys|
  {
    var child := MapGet(v.entries, Str(keys[0])).value;
    var newChild := SetAt(child, keys[1..], n);
    MapInsertGet(v.entries, Str(keys[0]), newChild, Str(p[0]));
    if p[0] == keys[0] {
      var p', k' := p[1..], keys[1..];
      if |p| <= |keys| {
        assert keys[..|p|] == [keys[0]] + k'[..|p'|] && p == [p[0]] + p';
      }
      if |keys| <= |p| {
        assert p[..|keys|] == [p[0]] + p'[..|k'|] && keys == [keys[0]] + k';
      }
      WalkSetAtOffPath(child, k', n, p');
    }
  }

  /**
   * After a successful insert the target mapping holds `insKey: insValue`,
   * every other key of it holds what it held, and every path off the
   * insertion point walks as before.
   */
  lemma {:induction false} InsertValueEffect(doc: Value, keys: seq<string>, insKey: string, insValue: string, k: Value, p: seq<string>)
    requires Walk(doc, keys).Ok? && Walk(doc, keys).value.Mapping?
    ensures var tip := Walk(doc, keys).value.entries;
            var doc' := SetAt(doc, keys, Mapping(MapInsert(tip, Str(insKey), Str(insValue))));
            && Walk(doc', keys) == Ok(Mapping(MapInsert(tip, Str(insKey), Str(insValue))))
            && Walk(doc', keys + [insKey]) == Ok(Str(insValue))
            && (k != Str(insKey) ==> MapGet(MapInsert(tip, Str(insKey), Str(insValue)), k) == MapGet(tip, k))
            && (!(|p| <= |keys| && p == keys[..|p|]) && !(|keys| <= |p| && keys == p[..|keys|])
                ==> Walk(doc', p) == Walk(doc, p))
  {
    var tip := Walk(doc, keys).value.entries;
    var newTip := Mapping(MapInsert(tip, Str(insKey), Str(insValue)));
    WalkSetAtOnPath(doc, keys, newTip, [insKey]);
    WalkSetAtOnPath(doc, keys, newTip, []);
    assert keys + [] == keys;
    MapInsertGet(tip, Str(insKey), Str(insValue), Str(insKey));
    MapInsertGet(tip, Str(insKey), Str(insValue), k);
    if !(|p| <= |keys| && p == keys[..|p|]) && !(|keys| <= |p| && keys == p[..|keys|]) {
      WalkSetAtOffPath(doc, keys, newTip, p);
    }
  }

  /** A path key that is missing makes the insert fail; no node is created. */
  lemma {:induction false} InsertValueMissingKeyFails()
    ensures Walk(Mapping([]), ["a", "b"]) == Err(KeyNotFound("a"))
  {
  }

  // ---------------------------------------------------------------------
  // insert_value as its comments and rebuild loop intend: create the
  // missing part of the path
  // ---------------------------------------------------------------------

  /**
   * How many keys of `keys` are found one after the other from `v`: the walk
   * along that many keys succeeds, and the next key, if any, is not found in
   * the node it reaches.
   */
  function MappedDepth(v: Value, keys: seq<string>): (d: nat)
    ensures d <= |keys|
    decreases |keys|
  {
    if |keys| == 0 || !v.Mapping? then 0
    else match MapGet(v.entries, Str(keys[0]))
      case None => 0
      case Some(child) => 1 + MappedDepth(child, keys[1..])
  }

  /** The walk along the first `MappedDepth` keys succeeds and cannot be taken one key further. */
  lemma {:induction false} MappedDepthReaches(v: Value, keys: seq<string>)
    ensures var d := MappedDepth(v, keys);
            && Walk(v, keys[..d]).Ok?
            && (d < |keys| ==> !Walk(v, keys[..d]).value.Mapping?
                               || MapGet(Walk(v, keys[..d]).value.entries, Str(keys[d])).None?)
    decreases |keys|
  {
    if |keys| > 0 && v.Mapping? && MapGet(v.entries, Str(keys[0])).Some? {
      var child := MapGet(v.entries, Str(keys[0])).value;
      var d' := MappedDepth(child, keys[1..]);
      MappedDepthReaches(child, keys[1..]);
      assert keys[..1 + d'][0] == keys[0] && keys[..1 + d'][1..] == keys[1..][..d'];
      if 1 + d' < |keys| {
        assert keys[1..][d'] == keys[1 + d'];
      }
    }
  }

  /** One more step of `MappedDepth` from the node reached after `i` keys. */
  lemma {:induction false} MappedDepthStep(v: Value, keys: seq<string>, i: nat)
    requires i < |keys| && v.Mapping?
    ensures MapGet(v.entries, Str(keys[i])).None? ==> MappedDepth(v, keys[i..]) == 0
    ensures MapGet(v.entries, Str(keys[i])).Some? ==>
              MappedDepth(v, keys[i..]) == 1 + MappedDepth(MapGet(v.entries, Str(keys[i])).value, keys[i + 1..])
  {
    assert keys[i..][0] == keys[i] && keys[i..][1..] == keys[i + 1..];
  }

  /**
   * The partial lookup `insert_value` needs: follow `keys` while they are
   * found, stopping at the first missing one; fail only at a node that is
   * not a mapping.
   */
  method GetMappedPrefix(val: Value, keys: seq<string>) returns (r: Result<(nat, Value), LookupError>)
    ensures r.Ok? ==> && r.value.0 <= |keys|
                      && Walk(val, keys[..r.value.0]) == Ok(r.value.1)
                      && (forall j :: 0 <= j < r.value.0 ==> Walk(val, keys[..j]).Ok? && Walk(val, keys[..j]).value.Mapping?)
                      && (r.value.0 < |keys| ==> r.value.1.Mapping? && Str(keys[r.value.0]) !in Keys(r.value.1.entries))
                      && r.value.0 == MappedDepth(val, keys)
    ensures r.Err? ==> exists i :: && 0 <= i < |keys|
                                   && Walk(val, keys[..i]).Ok? && !Walk(val, keys[..i]).value.Mapping?
                                   && r.error == NotAMap(keys[i])
  {
    var here := val;
    var idx := 0;
    while idx < |keys|
      invariant idx <= |keys| && Walk(val, keys[..idx]) == Ok(here)
      invariant forall j :: 0 <= j < idx ==> Walk(val, keys[..j]).Ok? && Walk(val, keys[..j]).value.Mapping?
      invariant MappedDepth(val, keys) == idx + MappedDepth(here, keys[idx..])
    {
      if !here.Mapping? {
        return Err(NotAMap(keys[idx]));
      }
      var found := MapGet(here.entries, Str(keys[idx]));
      MappedDepthStep(here, keys, idx);
      if found.None? {
        return Ok((idx, here));
      }
      WalkSnoc(val, keys[..idx], keys[idx]);
      assert keys[..idx + 1] == keys[..idx] + [keys[idx]];
      here := found.value;
      idx := idx + 1;
    }
    return Ok((idx, here));
  }

  /** The rebuild loop run over every key from `idx` on: the chain `Nest(keys[idx..], pair)`. */
  method RebuildFrom(keys: seq<string>, idx: nat, pair: (Value, Value)) returns (r: (Value, Value))
    requires idx <= |keys|
    ensures r == Nest(keys[idx..], pair)
  {
    r := pair;
    var revIdx := |keys|;
    while revIdx > idx
      invariant idx <= revIdx <= |keys|
      invariant r == Nest(keys[revIdx..], pair)
    {
      revIdx := revIdx - 1;
      assert keys[revIdx..][1..] == keys[revIdx + 1..];
      r := (Str(keys[revIdx]), Mapping([r]));
    }
  }

  /** Inserting a chain for `ks` into a mapping makes `ks + [k]` walk to the chain's leaf. */
  lemma {:induction false} WalkIntoNest(es: seq<(Value, Value)>, ks: seq<string>, k: string, v: Value)
    ensures var top := Nest(ks, (Str(k), v));
            Walk(Mapping(MapInsert(es, top.0, top.1)), ks + [k]) == Ok(v)
    decreases |ks|
  {
    var top := Nest(ks, (Str(k), v));
    MapInsertGet(es, top.0, top.1, top.0);
    if |ks| == 0 {
      assert ks + [k] == [k];
    } else {
      assert (ks + [k])[0] == ks[0] && (ks + [k])[1..] == ks[1..] + [k];
      WalkIntoNest([], ks[1..], k, v);
    }
  }

  /** A failed step makes every longer walk fail. */
  lemma {:induction false} WalkErrFrom(v: Value, keys: seq<string>, i: nat, j: nat)
    requires i < j <= |keys| && Walk(v, keys[..i + 1]).Err?
    ensures Walk(v, keys[..j]).Err?
  {
    WalkPastError(v, keys[..i + 1], keys[i + 1..j]);
    assert keys[..i + 1] + keys[i + 1..j] == keys[..j];
  }

  /** Every node the walk along `keys` reaches is a mapping. */
  ghost predicate PathMappings(doc: Value, keys: seq<string>) {
    forall i :: 0 <= i <= |keys| && Walk(doc, keys[..i]).Ok? ==> Walk(doc, keys[..i]).value.Mapping?
  }

  /** The prefix found by `GetMappedPrefix`, ending in a mapping, leaves no non-mapping on the path. */
  lemma {:induction false} PrefixGivesPathMappings(doc: Value, keys: seq<string>, idx: nat, tip: Value)
    requires idx <= |keys| && Walk(doc, keys[..idx]) == Ok(tip) && tip.Mapping?
    requires forall j :: 0 <= j < idx ==> Walk(doc, keys[..j]).Ok? && Walk(doc, keys[..j]).value.Mapping?
    requires idx < |keys| ==> Str(keys[idx]) !in Keys(tip.entries)
    ensures PathMappings(doc, keys)
  {
    forall i | 0 <= i <= |keys| && Walk(doc, keys[..i]).Ok? ensures Walk(doc, keys[..i]).value.Mapping? {
      if i > idx {
        WalkSnoc(doc, keys[..idx], keys[idx]);
        assert keys[..idx] + [keys[idx]] == keys[..idx + 1];
        WalkErrFrom(doc, keys, idx, i);
      }
    }
  }

  /** Walking `a + b` is walking `a` and then `b` from where `a` ends. */
  lemma {:induction false} WalkConcat(v: Value, a: seq<string>, b: seq<string>)
    requires Walk(v, a).Ok?
    ensures Walk(v, a + b) == Walk(Walk(v, a).value, b)
    decreases |a|
  {
    if |a| > 0 {
      assert (a + b)[0] == a[0] && (a + b)[1..] == a[1..] + b;
      WalkConcat(MapGet(v.entries, Str(a[0])).value, a[1..], b);
    } else {
      assert a + b == b;
    }
  }

  /**
   * The document `insert_value` would produce with the missing part of the
   * path created: the mapping at the end of the found part of `keys` gets
   * the chain of single-entry mappings for the rest of `keys`, ending in
   * `insKey: insValue`.
   */
  function Created(doc: Value, keys: seq<string>, insKey: string, insValue: string): (r: Value)
    requires PathMappings(doc, keys)
    ensures Walk(r, keys + [insKey]) == Ok(Str(insValue))
  {
    var d := MappedDepth(doc, keys);
    MappedDepthReaches(doc, keys);
    var tip := Walk(doc, keys[..d]).value;
    var top := Nest(keys[d..], (Str(insKey), Str(insValue)));
    var newTip := Mapping(MapInsert(tip.entries, top.0, top.1));
    WalkSetAtOnPath(doc, keys[..d], newTip, keys[d..] + [insKey]);
    assert keys[..d] + (keys[d..] + [insKey]) == keys + [insKey];
    WalkIntoNest(tip.entries, keys[d..], insKey, Str(insValue));
    SetAt(doc, keys[..d], newTip)
  }

  /** `Created` spelled out for the depth and the node `GetMappedPrefix` finds. */
  lemma {:induction false} CreatedIs(doc: Value, keys: seq<string>, insKey: string, insValue: string, idx: nat, tip: Value)
    requires PathMappings(doc, keys) && idx == MappedDepth(doc, keys) && Walk(doc, keys[..idx]) == Ok(tip)
    ensures tip.Mapping?
    ensures var top := Nest(keys[idx..], (Str(insKey), Str(insValue)));
            Created(doc, keys, insKey, insValue) == SetAt(doc, keys[..idx], Mapping(MapInsert(tip.entries, top.0, top.1)))
  {
  }

  /**
   * Creating the path changes nothing off it: a path that neither leads to
   * the end of the found part of `keys` nor goes through it walks as before,
   * and so does every path through a sibling of the first new key.
   */
  lemma {:induction false} CreatedKeepsOthers(doc: Value, keys: seq<string>, insKey: string, insValue: string, p: seq<string>, s: string, more: seq<string>)
    requires PathMappings(doc, keys)
    ensures var d := MappedDepth(doc, keys);
            var q := keys[..d];
            && (!(|p| <= |q| && p == q[..|p|]) && !(|q| <= |p| && q == p[..|q|])
                ==> Walk(Created(doc, keys, insKey, insValue), p) == Walk(doc, p))
            && (s != (if d < |keys| then keys[d] else insKey)
                ==> Walk(Created(doc, keys, insKey, insValue), q + ([s] + more)) == Walk(doc, q + ([s] + more)))
  {
    var d := MappedDepth(doc, keys);
    MappedDepthReaches(doc, keys);
    var q := keys[..d];
    var tip := Walk(doc, q).value;
    var top := Nest(keys[d..], (Str(insKey), Str(insValue)));
    var newTip := Mapping(MapInsert(tip.entries, top.0, top.1));
    if !(|p| <= |q| && p == q[..|p|]) && !(|q| <= |p| && q == p[..|q|]) {
      WalkSetAtOffPath(doc, q, newTip, p);
    }
    if s != (if d < |keys| then keys[d] else insKey) {
      if d < |keys| {
        assert keys[d..][0] == keys[d];
      }
      assert top.0 != Str(s);
      WalkSetAtOnPath(doc, q, newTip, [s] + more);
      WalkConcat(doc, q, [s] + more);
      assert ([s] + more)[0] == s && ([s] + more)[1..] == more;
      MapInsertGet(tip.entries, top.0, top.1, Str(s));
    }
  }

  /** Into an empty document, keys `[a, b]` and `k: v` give `{a: {b: {k: v}}}`. */
  lemma {:induction false} CreatedExample()
    ensures PathMappings(Mapping([]), ["a", "b"])
    ensures Created(Mapping([]), ["a", "b"], "k", "v")
            == Mapping([(Str("a"), Mapping([(Str("b"), Mapping([(Str("k"), Str("v"))]))]))])
  {
    var keys := ["a", "b"];
    assert keys[..0] == [] && keys[..1] == ["a"] && keys[..2] == keys;
    assert MappedDepth(Mapping([]), keys) == 0;
    assert keys[0..] == keys && keys[1..] == ["b"] && keys[1..][1..] == [];
  }

  /**
   * `insert_value` with the missing part of the path created as single-entry
   * mappings. It succeeds exactly when every node the path reaches is a
   * mapping, and then `keys + [insKey]` leads to `insValue`; on failure the
   * document is unchanged.
   */
  method InsertValueCreating(doc: Value, keys: seq<string>, insKey: string, insValue: string)
    returns (doc': Value, r: Result<(), InsertError>)
    ensures r.Ok? <==> PathMappings(doc, keys)
    ensures r.Ok? ==> doc' == Created(doc, keys, insKey, insValue)
    ensures r.Ok? ==> Walk(doc', keys + [insKey]) == Ok(Str(insValue))
    ensures r.Err? ==> doc' == doc
  {
    var partial := GetMappedPrefix(doc, keys);
    if partial.Err? {
      var i :| && 0 <= i < |keys|
               && Walk(doc, keys[..i]).Ok? && !Walk(doc, keys[..i]).value.Mapping?
               && partial.error == NotAMap(keys[i]);
      return doc, Err(Lookup(partial.error));
    }
    var (idx, tip) := partial.value;
    var toInsert := RebuildFrom(keys, idx, (Str(insKey), Str(insValue)));
    if !tip.Mapping? {
      assert idx == |keys| && keys[..idx] == keys[..|keys|];
      return doc, Err(TipNotMapping);
    }
    PrefixGivesPathMappings(doc, keys, idx, tip);
    doc' := SetAt(doc, keys[..idx], Mapping(MapInsert(tip.entries, toInsert.0, toInsert.1)));
    CreatedIs(doc, keys, insKey, insValue, idx, tip);
    return doc', Ok(());
  }

  // ---------------------------------------------------------------------
  // flatten_yaml
  // ---------------------------------------------------------------------

  /**
   * Insert the entries of a flattened child mapping under `key`, each as
   * `"key.innerKey"`, in order. `None` is the panic of `as_str().unwrap()` on
   * a key that is not a string.
   */
  function InsertPrefixed(acc: seq<(Value, Value)>, key: Value, inner: seq<(Value, Value)>): Option<seq<(Value, Value)>> {
    if |inner| == 0 then Some(acc)
    else match InsertPrefixed(acc, key, inner[..|inner| - 1])
      case None => None
      case Some(a) =>
        var (ik, iv) := inner[|inner| - 1];
        if key.Str? && ik.Str? then Some(MapInsert(a, Str(key.s + "." + ik.s), iv)) else None
  }

  /** The result mapping of `flatten_yaml` after its first `n` entries; `None` for a panic. */
  function FlattenPrefix(v: Value, n: nat): Option<seq<(Value, Value)>>
    requires v.Mapping? && n <= |v.entries|
    decreases v, n
  {
    if n == 0 then Some([])
    else match FlattenPrefix(v, n - 1)
      case None => None
      case Some(acc) =>
        var (key, value) := v.entries[n - 1];
        if value.Mapping? then
          match Flatten(value)
          case None => None
          case Some(f) => InsertPrefixed(acc, key, f.entries)
        else Some(MapInsert(acc, key, value))
  }

  /** `flatten_yaml`; `None` when it panics on a non-string key. */
  function Flatten(v: Value): (r: Option<Value>)
    ensures !v.Mapping? ==> r == Some(v)
    ensures v.Mapping? && r.Some? ==> r.value.Mapping?
    decreases v, if v.Mapping? then |v.entries| + 1 else 0
  {
    if v.Mapping? then
      match FlattenPrefix(v, |v.entries|)
      case None => None
      case Some(es) => Some(Mapping(es))
    else Some(v)
  }

  lemma {:induction false} InsertPrefixedNoneStays(acc: seq<(Value, Value)>, key: Value, inner: seq<(Value, Value)>, j: nat)
    requires j <= |inner| && InsertPrefixed(acc, key, inner[..j]).None?
    ensures InsertPrefixed(acc, key, inner).None?
    decreases |inner| - j
  {
    if j < |inner| {
      assert inner[..j + 1][..j] == inner[..j];
      InsertPrefixedNoneStays(acc, key, inner, j + 1);
    } else {
      assert inner[..j] == inner;
    }
  }

  lemma {:induction false} FlattenPrefixNoneStays(v: Value, n: nat)
    requires v.Mapping? && n <= |v.entries| && FlattenPrefix(v, n).None?
    ensures Flatten(v).None?
    decreases |v.entries| - n
  {
    if n < |v.entries| {
      FlattenPrefixNoneStays(v, n + 1);
    }
  }

  /**
   * The inner loop of `flatten_yaml`: insert every entry of a flattened child
   * under `key.innerKey`; `None` for the `unwrap` panic on a non-string key.
   */
  method InsertFlattenedChild(acc: seq<(Value, Value)>, key: Value, inner: seq<(Value, Value)>)
    returns (r: Option<seq<(Value, Value)>>)
    ensures r == InsertPrefixed(acc, key, inner)
  {
    var result := acc;
    for j := 0 to |inner|
      invariant InsertPrefixed(acc, key, inner[..j]) == Some(result)
    {
      assert inner[..j + 1][..j] == inner[..j];
      if !key.Str? || !inner[j].0.Str? {
        InsertPrefixedNoneStays(acc, key, inner, j + 1);
        return None;
      }
      result := MapInsert(result, Str(key.s + "." + inner[j].0.s), inner[j].1);
    }
    assert inner[..|inner|] == inner;
    return Some(result);
  }

  /** `flatten_yaml` with its loops: the outer one over the entries, the inner one over a flattened child. */
  method FlattenYaml(v: Value) returns (r: Option<Value>)
    ensures r == Flatten(v)
    decreases v
  {
    if !v.Mapping? {
      return Some(v);
    }
    var result: seq<(Value, Value)> := [];
    for n := 0 to |v.entries|
      invariant FlattenPrefix(v, n) == Some(result)
    {
      var (key, value) := v.entries[n];
      if value.Mapping? {
        var inner := FlattenYaml(value);
        if inner.None? {
          FlattenPrefixNoneStays(v, n + 1);
          return None;
        }
        var inserted := InsertFlattenedChild(result, key, inner.value.entries);
        if inserted.None? {
          FlattenPrefixNoneStays(v, n + 1);
          return None;
        }
        result := inserted.value;
      } else {
        result := MapInsert(result, key, value);
      }
    }
    return Some(Mapping(result));
  }

  /** No entry holds a mapping, and no key occurs twice. */
  ghost predicate FlatEntries(es: seq<(Value, Value)>) {
    KeysUnique(es) && forall i :: 0 <= i < |es| ==> !es[i].1.Mapping?
  }

  lemma {:induction false} MapInsertFlat(es: seq<(Value, Value)>, k: Value, v: Value)
    requires FlatEntries(es) && !v.Mapping?
    ensures FlatEntries(MapInsert(es, k, v))
    decreases |es|
  {
    if |es| > 0 && es[0].0 != k {
      MapInsertFlat(es[1..], k, v);
      var r := MapInsert(es, k, v);
      assert r == [es[0]] + MapInsert(es[1..], k, v);
      assert forall i :: 1 <= i < |r| ==> r[i] == MapInsert(es[1..], k, v)[i - 1];
    }
  }

  lemma {:induction false} InsertPrefixedFlat(acc: seq<(Value, Value)>, key: Value, inner: seq<(Value, Value)>)
    requires FlatEntries(acc) && FlatEntries(inner) && InsertPrefixed(acc, key, inner).Some?
    ensures FlatEntries(InsertPrefixed(acc, key, inner).value)
  {
    if |inner| > 0 {
      var init := inner[..|inner| - 1];
      assert forall i :: 0 <= i < |init| ==> init[i] == inner[i];
      InitUnique(inner);
      InsertPrefixedFlat(acc, key, init);
      MapInsertFlat(InsertPrefixed(acc, key, init).value, Str(key.s + "." + inner[|inner| - 1].0.s), inner[|inner| - 1].1);
    }
  }

  lemma {:induction false} InitUnique(es: seq<(Value, Value)>)
    requires |es| > 0 && KeysUnique(es)
    ensures KeysUnique(es[..|es| - 1])
  {
    if |es| > 1 {
      assert es[1..][..|es| - 2] == es[..|es| - 1][1..];
      InitUnique(es[1..]);
      InitKeys(es[1..]);
    }
  }

  lemma {:induction false} InitKeys(es: seq<(Value, Value)>)
    requires |es| > 0
    ensures Keys(es[..|es| - 1]) <= Keys(es)
  {
    if |es| > 1 {
      assert es[1..][..|es| - 2] == es[..|es| - 1][1..];
      InitKeys(es[1..]);
    }
  }

  /** A flattened mapping holds no mapping values and has distinct keys. */
  lemma {:induction false} FlattenIsFlat(v: Value)
    requires v.Mapping? && Flatten(v).Some?
    ensures FlatEntries(Flatten(v).value.entries)
    decreases v, |v.entries| + 1
  {
    FlattenPrefixFlat(v, |v.entries|);
  }

  lemma {:induction false} FlattenPrefixFlat(v: Value, n: nat)
    requires v.Mapping? && n <= |v.entries| && FlattenPrefix(v, n).Some?
    ensures FlatEntries(FlattenPrefix(v, n).value)
    decreases v, n
  {
    if n > 0 {
      FlattenPrefixFlat(v, n - 1);
      var acc := FlattenPrefix(v, n - 1).value;
      var (key, value) := v.entries[n - 1];
      if value.Mapping? {
        FlattenIsFlat(value);
        InsertPrefixedFlat(acc, key, Flatten(value).value.entries);
      } else {
        MapInsertFlat(acc, key, value);
      }
    }
  }

  /** Every key at every depth is a string. */
  ghost predicate StringKeys(v: Value)
    decreases v
  {
    v.Mapping? ==> forall i :: 0 <= i < |v.entries| ==> v.entries[i].0.Str? && StringKeys(v.entries[i].1)
  }

  lemma {:induction false} InsertPrefixedStrings(acc: seq<(Value, Value)>, key: Value, inner: seq<(Value, Value)>)
    requires key.Str? && forall i :: 0 <= i < |inner| ==> inner[i].0.Str?
    ensures InsertPrefixed(acc, key, inner).Some?
  {
    if |inner| > 0 {
      InsertPrefixedStrings(acc, key, inner[..|inner| - 1]);
    }
  }

  lemma {:induction false} MapInsertStrings(es: seq<(Value, Value)>, k: Value, v: Value)
    requires k.Str? && forall i :: 0 <= i < |es| ==> es[i].0.Str?
    ensures forall i :: 0 <= i < |MapInsert(es, k, v)| ==> MapInsert(es, k, v)[i].0.Str?
  {
    var r := MapInsert(es, k, v);
    forall i | 0 <= i < |r| ensures r[i].0.Str? {
      assert r[i].0 in Keys(r) by { KeyAt(r, i); }
      if r[i].0 != k {
        KeysStr(es, r[i].0);
      }
    }
  }

  lemma {:induction false} KeyAt(es: seq<(Value, Value)>, i: nat)
    requires i < |es|
    ensures es[i].0 in Keys(es)
  {
    if i > 0 {
      KeyAt(es[1..], i - 1);
    }
  }

  lemma {:induction false} KeysStr(es: seq<(Value, Value)>, k: Value)
    requires k in Keys(es) && forall i :: 0 <= i < |es| ==> es[i].0.Str?
    ensures k.Str?
  {
    if es[0].0 != k {
      KeysStr(es[1..], k);
    }
  }

  /** With string keys everywhere `flatten_yaml` cannot panic, and its keys are strings. */
  lemma {:induction false} FlattenTotal(v: Value)
    requires StringKeys(v)
    ensures Flatten(v).Some?
    ensures v.Mapping? ==> forall i :: 0 <= i < |Flatten(v).value.entries| ==> Flatten(v).value.entries[i].0.Str?
    decreases v, if v.Mapping? then |v.entries| + 1 else 0
  {
    if v.Mapping? {
      FlattenPrefixTotal(v, |v.entries|);
    }
  }

  lemma {:induction false} FlattenPrefixTotal(v: Value, n: nat)
    requires v.Mapping? && n <= |v.entries| && StringKeys(v)
    ensures FlattenPrefix(v, n).Some?
    ensures forall i :: 0 <= i < |FlattenPrefix(v, n).value| ==> FlattenPrefix(v, n).value[i].0.Str?
    decreases v, n
  {
    if n > 0 {
      FlattenPrefixTotal(v, n - 1);
      var acc := FlattenPrefix(v, n - 1).value;
      var (key, value) := v.entries[n - 1];
      if value.Mapping? {
        FlattenTotal(value);
        var f := Flatten(value).value.entries;
        InsertPrefixedStrings(acc, key, f);
        InsertPrefixedKeepsStrings(acc, key, f);
      } else {
        MapInsertStrings(acc, key, value);
      }
    }
  }

  lemma {:induction false} InsertPrefixedKeepsStrings(acc: seq<(Value, Value)>, key: Value, inner: seq<(Value, Value)>)
    requires InsertPrefixed(acc, key, inner).Some? && forall i :: 0 <= i < |acc| ==> acc[i].0.Str?
    ensures forall i :: 0 <= i < |InsertPrefixed(acc, key, inner).value| ==> InsertPrefixed(acc, key, inner).value[i].0.Str?
  {
    if |inner| > 0 {
      InsertPrefixedKeepsStrings(acc, key, inner[..|inner| - 1]);
      var a := InsertPrefixed(acc, key, inner[..|inner| - 1]).value;
      MapInsertStrings(a, Str(key.s + "." + inner[|inner| - 1].0.s), inner[|inner| - 1].1);
    }
  }

  /** The first `n` entries of a mapping with distinct keys are followed by a new key. */
  lemma {:induction false} UniqueNextKey(es: seq<(Value, Value)>, n: nat)
    requires KeysUnique(es) && n < |es|
    ensures es[n].0 !in Keys(es[..n])
  {
    if n > 0 {
      assert es[1..][..n - 1] == es[..n][1..];
      UniqueNextKey(es[1..], n - 1);
      assert es[n].0 != es[0].0 by { KeyAt(es[1..], n - 1); }
    }
  }

  /** Flattening a flat mapping with distinct keys changes nothing. */
  lemma {:induction false} FlattenFlatIdentity(v: Value)
    requires v.Mapping? && FlatEntries(v.entries)
    ensures Flatten(v) == Some(v)
  {
    forall n | 0 <= n <= |v.entries| ensures FlattenPrefix(v, n) == Some(v.entries[..n]) {
      FlattenPrefixFlatIdentity(v, n);
    }
    assert v.entries[..|v.entries|] == v.entries;
  }

  lemma {:induction false} FlattenPrefixFlatIdentity(v: Value, n: nat)
    requires v.Mapping? && FlatEntries(v.entries) && n <= |v.entries|
    ensures FlattenPrefix(v, n) == Some(v.entries[..n])
  {
    if n > 0 {
      var (key, value) := v.entries[n - 1];
      FlattenPrefixFlatIdentity(v, n - 1);
      assert !value.Mapping?;
      assert FlattenPrefix(v, n) == Some(MapInsert(v.entries[..n - 1], key, value));
      UniqueNextKey(v.entries, n - 1);
      MapInsertAppends(v.entries[..n - 1], key, value);
      assert v.entries[..n - 1] + [(key, value)] == v.entries[..n];
    }
  }

  /** `flatten_yaml` is idempotent. */
  lemma {:induction false} FlattenIdempotent(v: Value)
    requires Flatten(v).Some?
    ensures Flatten(Flatten(v).value) == Flatten(v)
  {
    if v.Mapping? {
      FlattenIsFlat(v);
      FlattenFlatIdentity(Flatten(v).value);
    }
  }

  /** A nested document flattens to dotted keys, in the order they are met. */
  lemma {:induction false} FlattenExample()
    ensures var doc := Mapping([(Str("a"), Mapping([(Str("b"), Mapping([(Str("c"), Number(1))])),
                                                    (Str("d"), Number(2))]))]);
            Flatten(doc) == Some(Mapping([(Str("a.b.c"), Number(1)), (Str("a.d"), Number(2))]))
  {
    var b := Mapping([(Str("b"), Mapping([(Str("c"), Number(1))])), (Str("d"), Number(2))]);
    var doc := Mapping([(Str("a"), b)]);
    FlattenExampleInner();
    FlattenExampleOuter();
    assert FlattenPrefix(doc, 1) == Some([(Str("a.b.c"), Number(1)), (Str("a.d"), Number(2))]);
  }

  /** The outer key of `FlattenExample` is put in front of each inner dotted key. */
  lemma {:induction false} FlattenExampleOuter()
    ensures InsertPrefixed([], Str("a"), [(Str("b.c"), Number(1)), (Str("d"), Number(2))])
         == Some([(Str("a.b.c"), Number(1)), (Str("a.d"), Number(2))])
  {
    var fb: seq<(Value, Value)> := [(Str("b.c"), Number(1)), (Str("d"), Number(2))];
    assert fb[..1] == [(Str("b.c"), Number(1))] && fb[..1][..0] == [];
    assert "a" + "." + "b.c" == "a.b.c" && "a" + "." + "d" == "a.d";
    assert InsertPrefixed([], Str("a"), fb[..1]) == Some([(Str("a.b.c"), Number(1))]);
    assert |"a.b.c"| != |"a.d"|;
    MapInsertAppends([(Str("a.b.c"), Number(1))], Str("a.d"), Number(2));
    assert [(Str("a.b.c"), Number(1))] + [(Str("a.d"), Number(2))] == [(Str("a.b.c"), Number(1)), (Str("a.d"), Number(2))];
    assert fb[|fb| - 1] == (Str("d"), Number(2));
    assert InsertPrefixed([], Str("a"), fb) == Some([(Str("a.b.c"), Number(1)), (Str("a.d"), Number(2))]);
  }

  /** The inner mapping of `FlattenExample` flattens with one level of dotted keys. */
  lemma {:induction false} FlattenExampleInner()
    ensures Flatten(Mapping([(Str("b"), Mapping([(Str("c"), Number(1))])), (Str("d"), Number(2))]))
         == Some(Mapping([(Str("b.c"), Number(1)), (Str("d"), Number(2))]))
  {
    var c := Mapping([(Str("c"), Number(1))]);
    var b := Mapping([(Str("b"), c), (Str("d"), Number(2))]);
    assert FlattenPrefix(c, 1) == Some([(Str("c"), Number(1))]);
    assert Flatten(c) == Some(c);
    var bc: seq<(Value, Value)> := [(Str("c"), Number(1))];
    assert bc[..0] == [];
    assert "b" + "." + "c" == "b.c";
    assert InsertPrefixed([], Str("b"), bc) == Some([(Str("b.c"), Number(1))]);
    assert FlattenPrefix(b, 1) == Some([(Str("b.c"), Number(1))]);
    assert |"b.c"| != |"d"|;
    MapInsertAppends([(Str("b.c"), Number(1))], Str("d"), Number(2));
    assert [(Str("b.c"), Number(1))] + [(Str("d"), Number(2))] == [(Str("b.c"), Number(1)), (Str("d"), Number(2))];
    assert b.entries[1] == (Str("d"), Number(2));
    assert FlattenPrefix(b, 2) == Some([(Str("b.c"), Number(1)), (Str("d"), Number(2))]);
  }

  /**
   * An entry whose value is an empty mapping contributes nothing, wherever it
   * stands and whatever its key: the inner loop over its flattening never runs.
   */
  lemma {:induction false} FlattenDropsEmptyChild(es: seq<(Value, Value)>, i: nat, k: Value)
    requires i <= |es|
    ensures Flatten(Mapping(es[..i] + [(k, Mapping([]))] + es[i..])) == Flatten(Mapping(es))
  {
    var w := Mapping(es[..i] + [(k, Mapping([]))] + es[i..]);
    assert WithEmptyAt(w.entries, es, i);
    FlattenPrefixAfterEmpty(es, i, w, |es|);
  }

  /** `ws` is `es` with one entry holding an empty mapping inserted at position `i`. */
  ghost predicate WithEmptyAt(ws: seq<(Value, Value)>, es: seq<(Value, Value)>, i: nat) {
    && i <= |es| && |ws| == |es| + 1 && ws[i].1 == Mapping([])
    && (forall j :: 0 <= j < i ==> ws[j] == es[j])
    && (forall j :: i < j <= |es| ==> ws[j] == es[j - 1])
  }

  /** Before the inserted entry the two mappings are flattened alike. */
  lemma {:induction false} FlattenPrefixBeforeEmpty(es: seq<(Value, Value)>, i: nat, w: Value, n: nat)
    requires w.Mapping? && WithEmptyAt(w.entries, es, i) && n <= i
    ensures FlattenPrefix(w, n) == FlattenPrefix(Mapping(es), n)
    decreases n
  {
    if n > 0 {
      FlattenPrefixBeforeEmpty(es, i, w, n - 1);
      FlattenPrefixStepAlike(w, n, Mapping(es), n);
    }
  }

  /** From the inserted entry on, `w` is one entry ahead of `es`. */
  lemma {:induction false} FlattenPrefixAfterEmpty(es: seq<(Value, Value)>, i: nat, w: Value, n: nat)
    requires w.Mapping? && WithEmptyAt(w.entries, es, i) && i <= n <= |es|
    ensures FlattenPrefix(w, n + 1) == FlattenPrefix(Mapping(es), n)
    decreases n
  {
    if n == i {
      FlattenPrefixBeforeEmpty(es, i, w, i);
      FlattenPrefixEmptyStep(w, i);
    } else {
      FlattenPrefixAfterEmpty(es, i, w, n - 1);
      FlattenPrefixStepAlike(w, n + 1, Mapping(es), n);
    }
  }

  /** Equal results so far and equal next entries give equal results after one more entry. */
  lemma {:induction false} FlattenPrefixStepAlike(v: Value, n: nat, w: Value, m: nat)
    requires v.Mapping? && w.Mapping? && 0 < n <= |v.entries| && 0 < m <= |w.entries|
    requires FlattenPrefix(v, n - 1) == FlattenPrefix(w, m - 1) && v.entries[n - 1] == w.entries[m - 1]
    ensures FlattenPrefix(v, n) == FlattenPrefix(w, m)
  {
  }

  /** An entry holding an empty mapping leaves the result as it was. */
  lemma {:induction false} FlattenPrefixEmptyStep(v: Value, n: nat)
    requires v.Mapping? && n < |v.entries| && v.entries[n].1 == Mapping([])
    ensures FlattenPrefix(v, n + 1) == FlattenPrefix(v, n)
  {
    assert Flatten(Mapping([])) == Some(Mapping([]));
  }

  /** A non-string key above a non-empty child is the `unwrap` panic. */
  lemma {:induction false} FlattenPanicsOnNumberKey()
    ensures Flatten(Mapping([(Number(1), Mapping([(Str("x"), Null)]))])).None?
  {
  }
}
