/** The highlight filter of the choropleth layer: the selected features are
    deduplicated on their vector property (first occurrence wins), cut to
    the maximum selection count and turned into an `any` filter; the fill
    opacity is halved while a selection exists. */
module Selection {
  import opened JsValue

  /** A filter expression as JSON: a literal or an array. */
  datatype Expr = Lit(v: Value) | List(items: seq<Expr>)

  /** `["==", property, id]`. */
  function EqClause(property: string, id: Value): Expr {
    List([Lit(Str("==")), Lit(Str(property)), Lit(id)])
  }

  /** `feature.properties[property]` for every feature. */
  function PropertyValues(features: seq<Row>, property: string): (r: seq<Value>)
    ensures |r| == |features|
  {
    seq(|features|, k requires 0 <= k < |features| => Get(features[k], property))
  }

  function KeySet(vals: seq<Value>): set<string> {
    set k | 0 <= k < |vals| :: ToStr(vals[k])
  }

  predicate DistinctKeys(vals: seq<Value>) {
    forall i, j :: 0 <= i < j < |vals| ==> ToStr(vals[i]) != ToStr(vals[j])
  }

  /** The values the deduplicating `filter` keeps when `featureNameMap`
      starts out answering truthy for `inherited`: a value is dropped when
      its key is inherited or was met before. */
  function Deduplicated(vals: seq<Value>, inherited: set<string>): seq<Value>
    decreases |vals|
  {
    if vals == [] then []
    else
      var n := |vals| - 1;
      var key := ToStr(vals[n]);
      Deduplicated(vals[..n], inherited) +
        (if key in inherited || key in KeySet(vals[..n]) then [] else [vals[n]])
  }

  /** `j` is the first position of its key. */
  predicate IsFirstOccurrence(vals: seq<Value>, j: nat)
    requires j < |vals|
  {
    forall i :: 0 <= i < j ==> ToStr(vals[i]) != ToStr(vals[j])
  }

  /** The positions of the first occurrences, in order. */
  function FirstIndices(vals: seq<Value>): (r: seq<nat>)
    ensures forall k :: 0 <= k < |r| ==> r[k] < |vals|
    ensures forall k, m :: 0 <= k < m < |r| ==> r[k] < r[m]
    decreases |vals|
  {
    if vals == [] then []
    else
      var n := |vals| - 1;
      FirstIndices(vals[..n]) + (if ToStr(vals[n]) in KeySet(vals[..n]) then [] else [n])
  }

  /** `.slice(0, count)`: the first `count` elements, or all of them. */
  function Take<T>(s: seq<T>, count: nat): (r: seq<T>)
    ensures |r| == if |s| <= count then |s| else count
    ensures r == s[..|r|]
  {
    if |s| <= count then s else s[..count]
  }

  /** The fill opacity: the setting as a fraction, halved while a selection exists. */
  function SelectionOpacity(opacity: real, hasSelection: bool): (r: real)
    ensures r * 100.0 == (if hasSelection then opacity / 2.0 else opacity)
    ensures 0.0 <= opacity <= 100.0 ==> 0.0 <= r <= 1.0
    ensures hasSelection && opacity > 0.0 ==> r < opacity / 100.0
  {
    var fraction := opacity / 100.0;
    if hasSelection then 0.5 * fraction else fraction
  }

  /** The deduplicating `filter` of `updateSelection`: a feature is kept when
      its property key is not yet in `featureNameMap`. */
  method DeduplicateFeatures(features: seq<Row>, vectorProperty: string) returns (kept: seq<Value>)
    ensures kept == Deduplicated(PropertyValues(features, vectorProperty), {})
  {
    ghost var vals := PropertyValues(features, vectorProperty);
    var featureNameMap: set<string> := {};
    kept := [];
    var i := 0;
    while i < |features|
      invariant 0 <= i <= |features|
      invariant featureNameMap == KeySet(vals[..i])
      invariant kept == Deduplicated(vals[..i], {})
    {
      var id := Get(features[i], vectorProperty);
      DeduplicateStep(vals, i);
      if ToStr(id) !in featureNameMap {
        featureNameMap := featureNameMap + {ToStr(id)};
        kept := kept + [id];
      }
      i := i + 1;
    }
    assert vals[..i] == vals;
  }

  /** One more feature through the deduplicating filter. */
  lemma DeduplicateStep(vals: seq<Value>, i: nat)
    requires i < |vals|
    ensures KeySet(vals[..i + 1]) == KeySet(vals[..i]) + {ToStr(vals[i])}
    ensures Deduplicated(vals[..i + 1], {}) ==
      Deduplicated(vals[..i], {}) + (if ToStr(vals[i]) in KeySet(vals[..i]) then [] else [vals[i]])
  {
    assert vals[..i + 1][..i] == vals[..i];
    KeySetSnoc(vals[..i + 1]);
  }

  /** The `map` of `updateSelection`: one `["==", property, id]` clause per
      id, pushed after `"any"`, and the ids themselves. */
  method SelectionFilter(ids: seq<Value>, vectorProperty: string)
    returns (selectionIds: seq<Value>, locationFilter: seq<Expr>)
    ensures selectionIds == ids
    ensures |locationFilter| == |ids| + 1 && locationFilter[0] == Lit(Str("any"))
    ensures forall k :: 0 <= k < |ids| ==> locationFilter[k + 1] == EqClause(vectorProperty, ids[k])
  {
    locationFilter := [Lit(Str("any"))];
    selectionIds := [];
    var j := 0;
    while j < |ids|
      invariant 0 <= j <= |ids|
      invariant selectionIds == ids[..j]
      invariant |locationFilter| == j + 1 && locationFilter[0] == Lit(Str("any"))
      invariant forall k :: 0 <= k < j ==> locationFilter[k + 1] == EqClause(vectorProperty, ids[k])
    {
      locationFilter := locationFilter + [EqClause(vectorProperty, ids[j])];
      selectionIds := selectionIds + [ids[j]];
      j := j + 1;
    }
    assert ids[..j] == ids;
  }

  /** The deduplication, the cut to `maxSelectionCount`, the `any` filter and
      the opacity of `updateSelection`; `hasSelection` is what the selection
      manager answers once the ids are added. */
  method UpdateSelection(features: seq<Row>, vectorProperty: string, maxSelectionCount: nat,
                         opacitySetting: real, hasSelection: bool)
    returns (selectionIds: seq<Value>, locationFilter: seq<Expr>, opacity: real)
    ensures selectionIds == Take(Deduplicated(PropertyValues(features, vectorProperty), {}), maxSelectionCount)
    ensures |selectionIds| <= maxSelectionCount
    ensures DistinctKeys(selectionIds)
    ensures |locationFilter| == |selectionIds| + 1 && locationFilter[0] == Lit(Str("any"))
    ensures forall k :: 0 <= k < |selectionIds| ==> locationFilter[k + 1] == EqClause(vectorProperty, selectionIds[k])
    ensures opacity == SelectionOpacity(opacitySetting, hasSelection)
  {
    var kept := DeduplicateFeatures(features, vectorProperty);
    DeduplicatedDistinct(PropertyValues(features, vectorProperty));
    var sliced := Take(kept, maxSelectionCount);
    selectionIds, locationFilter := SelectionFilter(sliced, vectorProperty);
    opacity := opacitySetting / 100.0;
    if hasSelection {
      opacity := 0.5 * opacity;
    }
  }

  lemma KeySetSnoc(vals: seq<Value>)
    requires vals != []
    ensures KeySet(vals) == KeySet(vals[..|vals| - 1]) + {ToStr(vals[|vals| - 1])}
  {
    var n := |vals| - 1;
    forall x | x in KeySet(vals)
      ensures x in KeySet(vals[..n]) + {ToStr(vals[n])}
    {
      var k :| 0 <= k < |vals| && ToStr(vals[k]) == x;
      if k < n {
        assert vals[..n][k] == vals[k];
      }
    }
    forall x | x in KeySet(vals[..n])
      ensures x in KeySet(vals)
    {
      var k :| 0 <= k < n && ToStr(vals[..n][k]) == x;
      assert vals[k] == vals[..n][k];
    }
  }

  /** Every key of the kept values is a key of the input. */
  lemma {:induction false} DeduplicatedKeys(vals: seq<Value>, inherited: set<string>)
    ensures KeySet(Deduplicated(vals, inherited)) <= KeySet(vals)
    decreases |vals|
  {
    if vals != [] {
      var n := |vals| - 1;
      DeduplicatedKeys(vals[..n], inherited);
      KeySetSnoc(vals);
      var pre := Deduplicated(vals[..n], inherited);
      var r := Deduplicated(vals, inherited);
      forall x | x in KeySet(r)
        ensures x in KeySet(vals)
      {
        var k :| 0 <= k < |r| && ToStr(r[k]) == x;
        if k < |pre| {
          assert r[k] == pre[k];
          assert x in KeySet(pre);
        }
      }
    }
  }

  /** The kept values have pairwise different keys. */
  lemma {:induction false} DeduplicatedDistinct(vals: seq<Value>)
    ensures DistinctKeys(Deduplicated(vals, {}))
    decreases |vals|
  {
    if vals != [] {
      var n := |vals| - 1;
      DeduplicatedDistinct(vals[..n]);
      DeduplicatedKeys(vals[..n], {});
      var pre := Deduplicated(vals[..n], {});
      var r := Deduplicated(vals, {});
      if ToStr(vals[n]) !in KeySet(vals[..n]) {
        assert r == pre + [vals[n]];
        forall i | 0 <= i < |pre|
          ensures ToStr(r[i]) != ToStr(r[|pre|])
        {
          assert ToStr(pre[i]) in KeySet(pre);
        }
      }
    }
  }

  /** No key of the input is lost. */
  lemma {:induction false} DeduplicatedCovers(vals: seq<Value>)
    ensures KeySet(Deduplicated(vals, {})) == KeySet(vals)
    decreases |vals|
  {
    if vals != [] {
      var n := |vals| - 1;
      DeduplicatedCovers(vals[..n]);
      DeduplicatedKeys(vals, {});
      KeySetSnoc(vals);
      var pre := Deduplicated(vals[..n], {});
      var r := Deduplicated(vals, {});
      forall x | x in KeySet(pre)
        ensures x in KeySet(r)
      {
        var k :| 0 <= k < |pre| && ToStr(pre[k]) == x;
        assert r[k] == pre[k];
      }
      if ToStr(vals[n]) !in KeySet(vals[..n]) {
        assert r[|pre|] == vals[n];
      }
    }
  }

  /** Extending the input by one value: earlier positions keep their
      status, and the new one is a first occurrence when its key is new. */
  lemma FirstOccurrenceStep(vals: seq<Value>)
    requires vals != []
    ensures var n := |vals| - 1;
      forall j :: 0 <= j < n ==> IsFirstOccurrence(vals, j) == IsFirstOccurrence(vals[..n], j)
    ensures var n := |vals| - 1;
      IsFirstOccurrence(vals, n) <==> ToStr(vals[n]) !in KeySet(vals[..n])
  {
    var n := |vals| - 1;
    var init := vals[..n];
    assert forall i :: 0 <= i < n ==> vals[i] == init[i];
    if ToStr(vals[n]) in KeySet(init) {
      var k :| 0 <= k < n && ToStr(init[k]) == ToStr(vals[n]);
      assert !IsFirstOccurrence(vals, n);
    }
  }

  /** The positions `FirstIndices` lists are exactly the first occurrences. */
  lemma {:induction false} FirstIndicesExact(vals: seq<Value>)
    ensures forall j :: 0 <= j < |vals| ==> (j in FirstIndices(vals) <==> IsFirstOccurrence(vals, j))
    decreases |vals|
  {
    if vals != [] {
      var n := |vals| - 1;
      FirstIndicesExact(vals[..n]);
      FirstOccurrenceStep(vals);
      assert n !in FirstIndices(vals[..n]);
    }
  }

  /** The kept values are the values at the first occurrences of their
      keys, in input order. */
  lemma {:induction false} DeduplicatedKeepsFirst(vals: seq<Value>)
    ensures |Deduplicated(vals, {})| == |FirstIndices(vals)|
    ensures forall k :: 0 <= k < |FirstIndices(vals)| ==> Deduplicated(vals, {})[k] == vals[FirstIndices(vals)[k]]
    ensures forall j :: 0 <= j < |vals| ==> (j in FirstIndices(vals) <==> IsFirstOccurrence(vals, j))
    decreases |vals|
  {
    FirstIndicesExact(vals);
    if vals != [] {
      var n := |vals| - 1;
      var init := vals[..n];
      DeduplicatedKeepsFirst(init);
      var pre := FirstIndices(init);
      var fi := FirstIndices(vals);
      var d := Deduplicated(vals, {});
      assert forall k :: 0 <= k < |pre| ==> fi[k] == pre[k] && d[k] == Deduplicated(init, {})[k];
      assert forall k :: 0 <= k < |pre| ==> vals[pre[k]] == init[pre[k]];
    }
  }

  /** As written, `featureNameMap` is a plain object: the kept values are
      the corrected ones without those whose key an object inherits. */
  lemma {:induction false} DeduplicatedAsWritten(vals: seq<Value>)
    ensures Deduplicated(vals, ObjectPrototypeKeys) == WithoutKeys(Deduplicated(vals, {}), ObjectPrototypeKeys)
    decreases |vals|
  {
    if vals != [] {
      var n := |vals| - 1;
      DeduplicatedAsWritten(vals[..n]);
      var last := if ToStr(vals[n]) in KeySet(vals[..n]) then [] else [vals[n]];
      WithoutKeysAppend(Deduplicated(vals[..n], {}), last, ObjectPrototypeKeys);
    }
  }

  /** The values whose key is not in `drop`. */
  function WithoutKeys(vals: seq<Value>, drop: set<string>): (r: seq<Value>)
    ensures forall k :: 0 <= k < |r| ==> ToStr(r[k]) !in drop
    decreases |vals|
  {
    if vals == [] then []
    else
      var n := |vals| - 1;
      WithoutKeys(vals[..n], drop) + (if ToStr(vals[n]) in drop then [] else [vals[n]])
  }

  lemma {:induction false} WithoutKeysAppend(a: seq<Value>, b: seq<Value>, drop: set<string>)
    ensures WithoutKeys(a + b, drop) == WithoutKeys(a, drop) + WithoutKeys(b, drop)
    decreases |b|
  {
    if b != [] {
      var n := |b| - 1;
      assert (a + b)[..|a| + n] == a + b[..n];
      WithoutKeysAppend(a, b[..n], drop);
    } else {
      assert a + b == a;
    }
  }

  /** A feature whose vector property is "constructor" is never selected as
      written, though the corrected deduplication keeps it. */
  lemma ConstructorFeatureNeverSelected()
    ensures var features := [[Field("NAME", Str("constructor"))]];
      var vals := PropertyValues(features, "NAME");
      Deduplicated(vals, {}) == [Str("constructor")] &&
      Deduplicated(vals, ObjectPrototypeKeys) == []
  {
    var features := [[Field("NAME", Str("constructor"))]];
    var vals := PropertyValues(features, "NAME");
    assert vals == [Str("constructor")];
    assert vals[..0] == [];
  }
}
