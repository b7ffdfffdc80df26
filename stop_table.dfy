/** The stop tables of the choropleth layer: the three categorical property
    functions (fill colour, extrusion height, outline colour) and the `in`
    filter built from the joined data rows, with the duplicate-key gate and
    the all-or-nothing application that follows it. */
module StopTable {
  import opened JsValue

  /** The default of both colour property functions. */
  const TransparentColor := "rgba(0,0,0,0)"
  /** The default of the height property function. */
  const DefaultHeight: real := 100.0
  /** The one fill colour set when the stops are rejected. */
  const FlatColor := "rgb(0, 0, 0)"

  /** A categorical property function `{type: "categorical", property, default, stops}`. */
  datatype Categorical<V> = Categorical(property: string, default: V, stops: seq<(string, V)>)

  /** What one build of the stops reads: the vector property the features are
      joined on, the row columns holding the location and the colour value,
      the colour function (`None` where it gives `undefined`), the colour's
      `toString()`, and the extrusion height of the row at a position. */
  datatype Binding<!C> = Binding(
    property: string,
    locationColumn: string,
    colorColumn: string,
    colorOf: Value -> Option<C>,
    show: C -> string,
    heightOf: nat -> real)

  /** The three property functions, the layer filter and the `validStops` flag. */
  datatype StopTables = StopTables(
    colors: Categorical<string>,
    heights: Categorical<real>,
    outlineColors: Categorical<string>,
    filter: seq<string>,
    valid: bool)

  /** A row that passed both exclusion tests: its position in the data, its
      stringified location, its colour text and its height. */
  datatype Entry = Entry(index: nat, key: string, color: string, height: real)

  /** A row is skipped when its location is falsy or its colour is undefined. */
  predicate Excluded<C>(row: Row, b: Binding<C>)
    ensures (forall k :: 0 <= k < |row| ==> row[k].key != b.locationColumn) ==> Excluded(row, b)
    ensures !Excluded(row, b) ==> ToStr(Get(row, b.locationColumn)) != ""
  {
    !Truthy(Get(row, b.locationColumn)) || b.colorOf(Get(row, b.colorColumn)).None?
  }

  /** The entry row `i` contributes, or nothing if it is excluded. */
  function EntryAt<C>(rows: seq<Row>, i: nat, b: Binding<C>): seq<Entry>
    requires i < |rows|
  {
    if Excluded(rows[i], b) then []
    else
      var location := Get(rows[i], b.locationColumn);
      [Entry(i, ToStr(location), b.show(b.colorOf(Get(rows[i], b.colorColumn)).value), b.heightOf(i))]
  }

  /** The entries of all rows that are not excluded, in row order. */
  function Accepted<C>(rows: seq<Row>, b: Binding<C>): seq<Entry>
    decreases |rows|
  {
    if rows == [] then [] else Accepted(rows[..|rows| - 1], b) + EntryAt(rows, |rows| - 1, b)
  }

  function Keys(es: seq<Entry>): (r: seq<string>)
    ensures |r| == |es|
  {
    seq(|es|, k requires 0 <= k < |es| => es[k].key)
  }

  function ColorStops(es: seq<Entry>): (r: seq<(string, string)>)
    ensures |r| == |es|
  {
    seq(|es|, k requires 0 <= k < |es| => (es[k].key, es[k].color))
  }

  function HeightStops(es: seq<Entry>): (r: seq<(string, real)>)
    ensures |r| == |es|
  {
    seq(|es|, k requires 0 <= k < |es| => (es[k].key, es[k].height))
  }

  function SetOf(s: seq<string>): set<string> {
    set x | x in s
  }

  predicate Distinct(s: seq<string>) {
    forall i, j :: 0 <= i < j < |s| ==> s[i] != s[j]
  }

  /** Key `j` is refused: the dictionary of seen keys, which starts out
      holding `inherited`, already answers truthy for it. */
  predicate Clashes(keys: seq<string>, inherited: set<string>, j: nat)
    requires j < |keys|
  {
    keys[j] in inherited || keys[j] in keys[..j]
  }

  /** The position of the first refused key, or `|keys|` if none is. */
  function FirstClash(keys: seq<string>, inherited: set<string>): (n: nat)
    ensures n <= |keys|
    ensures forall j :: 0 <= j < n ==> !Clashes(keys, inherited, j)
    ensures n < |keys| ==> Clashes(keys, inherited, n)
    decreases |keys|
  {
    if keys == [] then 0
    else
      var init := keys[..|keys| - 1];
      var m := FirstClash(init, inherited);
      ClashesAgree(init, keys, inherited);
      if m < |init| then m
      else if Clashes(keys, inherited, |init|) then |init|
      else |keys|
  }

  /** On the positions of a prefix, the prefix and the whole sequence refuse the same keys. */
  lemma ClashesAgree(keys: seq<string>, ext: seq<string>, inherited: set<string>)
    requires |keys| <= |ext| && ext[..|keys|] == keys
    ensures forall j :: 0 <= j < |keys| ==> Clashes(ext, inherited, j) == Clashes(keys, inherited, j)
  {
    forall j | 0 <= j < |keys|
      ensures Clashes(ext, inherited, j) == Clashes(keys, inherited, j)
    {
      assert ext[..j] == keys[..j];
    }
  }

  /** The stop tables for `kept`, the entries before the first refused key. */
  function Tables(property: string, kept: seq<Entry>, valid: bool): StopTables {
    StopTables(
      Categorical(property, TransparentColor, ColorStops(kept)),
      Categorical(property, DefaultHeight, HeightStops(kept)),
      Categorical(property, TransparentColor, ColorStops(kept)),
      ["in", property] + Keys(kept),
      valid)
  }

  /** The stop tables a build produces when the seen-keys dictionary starts
      out holding `inherited`: the accepted entries up to the first refused
      key, valid exactly when no key is refused. */
  function StopsOf<C>(rows: seq<Row>, b: Binding<C>, inherited: set<string>): StopTables {
    var es := Accepted(rows, b);
    var n := FirstClash(Keys(es), inherited);
    Tables(b.property, es[..n], n == |es|)
  }

  /** The build as the source writes it: the seen-keys dictionary is a plain
      object `{}`, which answers truthy for every name it inherits. */
  function StopsAsWritten<C>(rows: seq<Row>, b: Binding<C>): (r: StopTables)
    ensures r.valid ==> StopsOf(rows, b, {}).valid
    ensures |r.filter| <= |StopsOf(rows, b, {}).filter|
    ensures r.filter == StopsOf(rows, b, {}).filter[..|r.filter|]
    ensures |r.colors.stops| <= |StopsOf(rows, b, {}).colors.stops|
    ensures r.colors.stops == StopsOf(rows, b, {}).colors.stops[..|r.colors.stops|]
  {
    var es := Accepted(rows, b);
    FirstClashInherited(Keys(es), ObjectPrototypeKeys);
    TablesPrefix(b.property, es, FirstClash(Keys(es), ObjectPrototypeKeys), FirstClash(Keys(es), {}));
    StopsOf(rows, b, ObjectPrototypeKeys)
  }

  /** Starting from more inherited names can only make the first refusal come earlier. */
  lemma FirstClashInherited(keys: seq<string>, inherited: set<string>)
    ensures FirstClash(keys, inherited) <= FirstClash(keys, {})
  {
    var n, n0 := FirstClash(keys, inherited), FirstClash(keys, {});
    if n > n0 {
      assert Clashes(keys, {}, n0);
    }
  }

  /** The tables of a shorter prefix of the entries are prefixes of the tables of a longer one. */
  lemma TablesPrefix(property: string, es: seq<Entry>, n: nat, m: nat)
    requires n <= m <= |es|
    ensures Tables(property, es[..n], false).filter == Tables(property, es[..m], false).filter[..n + 2]
    ensures ColorStops(es[..n]) == ColorStops(es[..m])[..n]
  {
    assert Keys(es[..n]) == Keys(es[..m])[..n];
    assert (["in", property] + Keys(es[..m]))[..n + 2] == ["in", property] + Keys(es[..m])[..n];
  }

  // ---------------------------------------------------------------------
  // The loop of applySettings

  /** Walks the rows in order, skips excluded ones, appends a stop to each
      table and the key to the filter, and stops at the first repeated key
      with `valid == false`. The seen keys are a set here (see `StopsAsWritten`). */
  method BuildStops<C>(rows: seq<Row>, b: Binding<C>) returns (t: StopTables)
    ensures t == StopsOf(rows, b, {})
  {
    var colors: seq<(string, string)> := [];
    var heights: seq<(string, real)> := [];
    var outlineColors: seq<(string, string)> := [];
    var filter := ["in", b.property];
    var existingStops: set<string> := {};
    var validStops := true;
    ghost var accepted: seq<Entry> := [];
    var i := 0;
    while i < |rows|
      invariant 0 <= i <= |rows|
      invariant accepted == Accepted(rows[..i], b)
      invariant FirstClash(Keys(accepted), {}) == |accepted|
      invariant existingStops == SetOf(Keys(accepted))
      invariant colors == ColorStops(accepted) && outlineColors == ColorStops(accepted)
      invariant heights == HeightStops(accepted)
      invariant filter == ["in", b.property] + Keys(accepted)
    {
      var location := Get(rows[i], b.locationColumn);
      var color := b.colorOf(Get(rows[i], b.colorColumn));
      var outlineColor := b.colorOf(Get(rows[i], b.colorColumn));
      if Truthy(location) && color.Some? && outlineColor.Some? {
        var locationStr := ToStr(location);
        var e := Entry(i, locationStr, b.show(color.value), b.heightOf(i));
        AcceptedSnoc(rows, i, b);
        assert EntryAt(rows, i, b) == [e];
        if locationStr in existingStops {
          validStops := false;
          AbortPoint(rows, b, i, accepted, e);
          break;
        }
        var height := b.heightOf(i);
        existingStops := existingStops + {locationStr};
        colors := colors + [(locationStr, b.show(color.value))];
        heights := heights + [(locationStr, height)];
        filter := filter + [locationStr];
        outlineColors := outlineColors + [(locationStr, b.show(outlineColor.value))];
        StepKeep(accepted, e, b.property);
        accepted := accepted + [e];
      } else {
        AcceptedSnoc(rows, i, b);
        assert EntryAt(rows, i, b) == [];
      }
      i := i + 1;
    }
    if validStops {
      assert rows[..i] == rows;
      CompleteRun(rows, b);
    }
    t := StopTables(
      Categorical(b.property, TransparentColor, colors),
      Categorical(b.property, DefaultHeight, heights),
      Categorical(b.property, TransparentColor, outlineColors),
      filter,
      validStops);
  }

  lemma AcceptedSnoc<C>(rows: seq<Row>, i: nat, b: Binding<C>)
    requires i < |rows|
    ensures Accepted(rows[..i + 1], b) == Accepted(rows[..i], b) + EntryAt(rows, i, b)
  {
    assert rows[..i + 1][..i] == rows[..i];
    assert EntryAt(rows[..i + 1], i, b) == EntryAt(rows, i, b);
  }

  lemma KeysSnoc(es: seq<Entry>, e: Entry)
    ensures Keys(es + [e]) == Keys(es) + [e.key]
    ensures Keys(es + [e])[..|es|] == Keys(es)
    ensures SetOf(Keys(es)) + {e.key} == SetOf(Keys(es + [e]))
  {
    assert Keys(es + [e]) == Keys(es) + [e.key];
  }

  /** Appending an entry with a new key keeps the entries clash-free and
      extends every table by one stop. */
  lemma StepKeep(es: seq<Entry>, e: Entry, property: string)
    requires FirstClash(Keys(es), {}) == |es|
    requires e.key !in SetOf(Keys(es))
    ensures FirstClash(Keys(es + [e]), {}) == |es| + 1
    ensures SetOf(Keys(es + [e])) == SetOf(Keys(es)) + {e.key}
    ensures Keys(es + [e]) == Keys(es) + [e.key]
    ensures ColorStops(es + [e]) == ColorStops(es) + [(e.key, e.color)]
    ensures HeightStops(es + [e]) == HeightStops(es) + [(e.key, e.height)]
    ensures ["in", property] + Keys(es + [e]) == ["in", property] + Keys(es) + [e.key]
  {
    KeysSnoc(es, e);
    ClashesAgree(Keys(es), Keys(es + [e]), {});
    FirstClashUnique(Keys(es + [e]), {}, |es| + 1);
    assert ColorStops(es + [e]) == ColorStops(es) + [(e.key, e.color)];
    assert HeightStops(es + [e]) == HeightStops(es) + [(e.key, e.height)];
  }

  /** A run that never met a repeated key yields all entries, valid. */
  lemma CompleteRun<C>(rows: seq<Row>, b: Binding<C>)
    requires FirstClash(Keys(Accepted(rows, b)), {}) == |Accepted(rows, b)|
    ensures StopsOf(rows, b, {}) == Tables(b.property, Accepted(rows, b), true)
  {
    var es := Accepted(rows, b);
    assert es[..|es|] == es;
  }

  /** When the row at `i` repeats a key, the whole build is the tables of
      the entries accepted before it, marked invalid. */
  lemma AbortPoint<C>(rows: seq<Row>, b: Binding<C>, i: nat, accepted: seq<Entry>, e: Entry)
    requires i < |rows|
    requires Accepted(rows[..i + 1], b) == accepted + [e]
    requires FirstClash(Keys(accepted), {}) == |accepted|
    requires e.key in SetOf(Keys(accepted))
    ensures StopsOf(rows, b, {}) == Tables(b.property, accepted, false)
  {
    StepClash(accepted, e);
    AcceptedPrefix(rows, i + 1, b);
    ClashInPrefix(Accepted(rows, b), accepted + [e], |accepted|);
    assert (accepted + [e])[..|accepted|] == accepted;
  }

  /** Appending an entry whose key was seen makes it the first clash. */
  lemma StepClash(es: seq<Entry>, e: Entry)
    requires FirstClash(Keys(es), {}) == |es|
    requires e.key in SetOf(Keys(es))
    ensures FirstClash(Keys(es + [e]), {}) == |es|
  {
    KeysSnoc(es, e);
    var ks := Keys(es + [e]);
    assert ks[|es|] == e.key;
    ClashesAgree(Keys(es), ks, {});
    FirstClashUnique(ks, {}, |es|);
  }

  /** A clash inside a prefix of the entries is the clash of them all. */
  lemma ClashInPrefix(es: seq<Entry>, pre: seq<Entry>, n: nat)
    requires |pre| <= |es| && es[..|pre|] == pre
    requires n == FirstClash(Keys(pre), {}) && n < |pre|
    ensures FirstClash(Keys(es), {}) == n
    ensures es[..n] == pre[..n]
  {
    assert Keys(es)[..|pre|] == Keys(pre);
    FirstClashExtend(Keys(pre), Keys(es), {});
  }

  /** `FirstClash` is the only position with its two properties. */
  lemma FirstClashUnique(keys: seq<string>, inherited: set<string>, m: nat)
    requires m <= |keys|
    requires forall j :: 0 <= j < m ==> !Clashes(keys, inherited, j)
    requires m < |keys| ==> Clashes(keys, inherited, m)
    ensures FirstClash(keys, inherited) == m
  {
  }

  /** Extending a key sequence does not move a clash that already happened. */
  lemma FirstClashExtend(keys: seq<string>, ext: seq<string>, inherited: set<string>)
    requires |keys| <= |ext| && ext[..|keys|] == keys
    requires FirstClash(keys, inherited) < |keys|
    ensures FirstClash(ext, inherited) == FirstClash(keys, inherited)
  {
    ClashesAgree(keys, ext, inherited);
    FirstClashUnique(ext, inherited, FirstClash(keys, inherited));
  }

  /** The entries of a prefix of the rows are a prefix of the entries. */
  lemma {:induction false} AcceptedPrefix<C>(rows: seq<Row>, i: nat, b: Binding<C>)
    requires i <= |rows|
    ensures |Accepted(rows[..i], b)| <= |Accepted(rows, b)|
    ensures Accepted(rows, b)[..|Accepted(rows[..i], b)|] == Accepted(rows[..i], b)
    decreases |rows|
  {
    if i < |rows| {
      var init := rows[..|rows| - 1];
      assert init[..i] == rows[..i];
      AcceptedPrefix(init, i, b);
    } else {
      assert rows[..i] == rows;
    }
  }
}

module StopTableProperties {
  import opened JsValue
  import opened StopTable

  /** The entries kept by a build: the accepted ones before the first repeated key. */
  function Kept<C>(rows: seq<Row>, b: Binding<C>): seq<Entry> {
    var es := Accepted(rows, b);
    es[..FirstClash(Keys(es), {})]
  }

  /** Entry `e` is what row `e.index` of `rows` contributes. */
  predicate FromRow<C>(rows: seq<Row>, b: Binding<C>, e: Entry) {
    e.index < |rows| && !Excluded(rows[e.index], b) &&
    e.key == ToStr(Get(rows[e.index], b.locationColumn)) &&
    e.color == b.show(b.colorOf(Get(rows[e.index], b.colorColumn)).value) &&
    e.height == b.heightOf(e.index)
  }

  /** Each accepted entry comes from a row that is not excluded and carries
      that row's key, colour text and height. */
  lemma {:induction false} AcceptedSound<C>(rows: seq<Row>, b: Binding<C>)
    ensures forall e :: e in Accepted(rows, b) ==> FromRow(rows, b, e)
    decreases |rows|
  {
    if rows != [] {
      var n := |rows| - 1;
      var init := rows[..n];
      AcceptedSound(init, b);
      forall e | e in Accepted(init, b)
        ensures FromRow(rows, b, e)
      {
        assert FromRow(init, b, e);
        assert rows[e.index] == init[e.index];
      }
    }
  }

  /** Entries in strictly increasing row order, all before `bound`. */
  predicate InRowOrder(es: seq<Entry>, bound: nat) {
    (forall k :: 0 <= k < |es| ==> es[k].index < bound) &&
    (forall k, m :: 0 <= k < m < |es| ==> es[k].index < es[m].index)
  }

  /** The accepted entries are in row order. */
  lemma {:induction false} AcceptedOrdered<C>(rows: seq<Row>, b: Binding<C>)
    ensures InRowOrder(Accepted(rows, b), |rows|)
    decreases |rows|
  {
    if rows != [] {
      var n := |rows| - 1;
      AcceptedOrdered(rows[..n], b);
      var pre := Accepted(rows[..n], b);
      var es := Accepted(rows, b);
      assert es == pre + EntryAt(rows, n, b);
      assert InRowOrder(pre, n);
      assert forall k :: |pre| <= k < |es| ==> es[k].index == n;
      assert forall k :: 0 <= k < |pre| ==> es[k] == pre[k];
    }
  }

  /** Every row that is not excluded has an accepted entry. */
  lemma {:induction false} AcceptedComplete<C>(rows: seq<Row>, b: Binding<C>, i: nat)
    requires i < |rows| && !Excluded(rows[i], b)
    ensures exists k :: 0 <= k < |Accepted(rows, b)| && Accepted(rows, b)[k].index == i
    decreases |rows|
  {
    var n := |rows| - 1;
    var init := rows[..n];
    var pre := Accepted(init, b);
    if i < n {
      assert init[i] == rows[i];
      AcceptedComplete(init, b, i);
      var k :| 0 <= k < |pre| && pre[k].index == i;
      assert Accepted(rows, b)[k] == pre[k];
    } else {
      assert Accepted(rows, b)[|pre|].index == n;
    }
  }

  /** No two refused-free keys are equal, and back. */
  lemma NoClashDistinct(keys: seq<string>, n: nat)
    requires n <= |keys|
    ensures (forall j :: 0 <= j < n ==> !Clashes(keys, {}, j)) <==> Distinct(keys[..n])
  {
    if forall j :: 0 <= j < n ==> !Clashes(keys, {}, j) {
      forall i, j | 0 <= i < j < n
        ensures keys[..n][i] != keys[..n][j]
      {
        assert !Clashes(keys, {}, j);
        assert keys[i] in keys[..j];
      }
    }
    if Distinct(keys[..n]) {
      forall j | 0 <= j < n
        ensures !Clashes(keys, {}, j)
      {
        forall i | 0 <= i < j
          ensures keys[..j][i] != keys[j]
        {
          assert keys[..n][i] != keys[..n][j];
        }
      }
    }
  }

  /** The kept stops never repeat a key, whether or not the build is valid,
      and the build is valid exactly when no accepted key repeats. */
  lemma ValidIffDistinct<C>(rows: seq<Row>, b: Binding<C>)
    ensures Distinct(Keys(Kept(rows, b)))
    ensures StopsOf(rows, b, {}).valid <==> Distinct(Keys(Accepted(rows, b)))
  {
    var es := Accepted(rows, b);
    var n := FirstClash(Keys(es), {});
    NoClashDistinct(Keys(es), n);
    assert Keys(es)[..n] == Keys(es[..n]);
    NoClashDistinct(Keys(es), |es|);
    assert Keys(es)[..|es|] == Keys(es);
    if n < |es| {
      assert Clashes(Keys(es), {}, n);
    }
  }

  /** The three stop lists and the tail of the filter are parallel: the same
      keys in the same order, one per kept entry; both colour lists carry the
      same colours; the filter starts with `"in"` and the vector property. */
  lemma TablesAreParallel<C>(rows: seq<Row>, b: Binding<C>)
    ensures var t := StopsOf(rows, b, {}); var kept := Kept(rows, b);
      |t.colors.stops| == |kept| && |t.heights.stops| == |kept| &&
      |t.outlineColors.stops| == |kept| && |t.filter| == |kept| + 2 &&
      t.filter[..2] == ["in", b.property] &&
      t.colors.property == b.property && t.heights.property == b.property &&
      t.outlineColors.property == b.property &&
      t.colors.default == TransparentColor && t.outlineColors.default == TransparentColor &&
      t.heights.default == DefaultHeight &&
      forall k :: 0 <= k < |kept| ==>
        t.colors.stops[k] == (kept[k].key, kept[k].color) &&
        t.outlineColors.stops[k] == t.colors.stops[k] &&
        t.heights.stops[k] == (kept[k].key, kept[k].height) &&
        t.filter[k + 2] == kept[k].key
  {
  }

  /** A row with a falsy location or an undefined colour contributes to no
      stop list and not to the filter. */
  lemma ExcludedRowAbsent<C>(rows: seq<Row>, b: Binding<C>, i: nat)
    requires i < |rows| && Excluded(rows[i], b)
    ensures forall k :: 0 <= k < |Kept(rows, b)| ==> Kept(rows, b)[k].index != i
  {
    AcceptedSound(rows, b);
    var es := Accepted(rows, b);
    forall k | 0 <= k < |Kept(rows, b)|
      ensures Kept(rows, b)[k].index != i
    {
      assert Kept(rows, b)[k] == es[k];
      assert FromRow(rows, b, es[k]);
    }
  }

  /** On an invalid build there is a first accepted row whose key an earlier
      accepted row already has; the kept entries are exactly the accepted
      rows before it, so nothing of that row or any later row is in a list. */
  lemma AbortKeepsPrefix<C>(rows: seq<Row>, b: Binding<C>)
    requires !StopsOf(rows, b, {}).valid
    ensures var es := Accepted(rows, b); var kept := Kept(rows, b);
      |kept| < |es| && kept == es[..|kept|] &&
      es[|kept|].key in Keys(kept) && es[|kept|].index < |rows| &&
      !Excluded(rows[es[|kept|].index], b) &&
      (forall k :: 0 <= k < |kept| ==> kept[k].index < es[|kept|].index) &&
      (forall k :: |kept| <= k < |es| ==> es[k].index >= es[|kept|].index)
  {
    AcceptedSound(rows, b);
    AcceptedOrdered(rows, b);
    var es := Accepted(rows, b);
    var n := FirstClash(Keys(es), {});
    assert FromRow(rows, b, es[n]);
    assert Clashes(Keys(es), {}, n);
    assert Keys(es)[..n] == Keys(es[..n]);
  }

  /** Without accepted rows the build is valid and every list is empty. */
  lemma NoAcceptedRows<C>(rows: seq<Row>, b: Binding<C>)
    requires forall i :: 0 <= i < |rows| ==> Excluded(rows[i], b)
    ensures StopsOf(rows, b, {}) == Tables(b.property, [], true)
    ensures StopsOf(rows, b, {}).filter == ["in", b.property]
  {
    AcceptedSound(rows, b);
    var es := Accepted(rows, b);
    if es != [] {
      assert es[0] in es;
    }
  }

  // ---------------------------------------------------------------------
  // Application of the stops (applySettings after the loop)

  /** How the fill colour of the extrusion layer is set. */
  datatype FillColor = ByStops(paint: Categorical<string>) | Flat(color: string)

  /** What is handed to the renderer: the fill colour, the fill height and
      the filters of the extrusion and the outline layer (`None`: not set). */
  datatype Applied = Applied(
    fillColor: FillColor,
    fillHeight: Option<Categorical<real>>,
    layerFilter: Option<seq<string>>,
    outlineFilter: Option<seq<string>>)

  /** Valid stops are applied together; invalid ones are replaced by one flat colour. */
  function Apply(t: StopTables): (a: Applied)
    ensures a.fillColor.ByStops? <==> t.valid
    ensures a.fillHeight.Some? <==> t.valid
    ensures a.layerFilter.Some? <==> t.valid
    ensures a.outlineFilter.Some? <==> t.valid
    ensures a.fillColor.ByStops? ==> a.fillColor.paint == t.colors
    ensures a.fillColor.Flat? ==> a.fillColor.color == FlatColor
    ensures a.fillHeight.Some? ==> a.fillHeight.value == t.heights
    ensures a.layerFilter.Some? ==> a.layerFilter == a.outlineFilter == Some(t.filter)
  {
    if t.valid then Applied(ByStops(t.colors), Some(t.heights), Some(t.filter), Some(t.filter))
    else Applied(Flat(FlatColor), None, None, None)
  }

  /** For a whole build: the stops reach the renderer exactly when no
      accepted location repeats, and then with every accepted row. */
  lemma ApplyAllOrNothing<C>(rows: seq<Row>, b: Binding<C>)
    ensures var a := Apply(StopsOf(rows, b, {}));
      (a.fillColor.ByStops? <==> Distinct(Keys(Accepted(rows, b)))) &&
      (a.fillColor.ByStops? ==>
         a.fillColor.paint.stops == ColorStops(Accepted(rows, b)) &&
         a.layerFilter == Some(["in", b.property] + Keys(Accepted(rows, b)))) &&
      (a.fillColor.Flat? ==> a.fillColor.color == FlatColor && a.layerFilter.None? && a.fillHeight.None?)
  {
    ValidIffDistinct(rows, b);
    var es := Accepted(rows, b);
    assert es[..|es|] == es;
  }

  // ---------------------------------------------------------------------
  // The seen-keys dictionary as written

  /** The as-written build differs from the corrected one exactly when an
      accepted location is the name of an `Object.prototype` member: then it
      is rejected even without a repeated key. */
  lemma AsWrittenDiffers<C>(rows: seq<Row>, b: Binding<C>)
    ensures (forall k :: 0 <= k < |Accepted(rows, b)| ==> Accepted(rows, b)[k].key !in ObjectPrototypeKeys)
      ==> StopsAsWritten(rows, b) == StopsOf(rows, b, {})
    ensures (exists k :: 0 <= k < |Accepted(rows, b)| && Accepted(rows, b)[k].key in ObjectPrototypeKeys)
      ==> !StopsAsWritten(rows, b).valid
  {
    var keys := Keys(Accepted(rows, b));
    var n := FirstClash(keys, ObjectPrototypeKeys);
    assert forall k :: 0 <= k < |keys| ==> keys[k] == Accepted(rows, b)[k].key;
    if forall k :: 0 <= k < |keys| ==> keys[k] !in ObjectPrototypeKeys {
      assert forall j :: 0 <= j < |keys| ==> Clashes(keys, {}, j) == Clashes(keys, ObjectPrototypeKeys, j);
      FirstClashUnique(keys, {}, n);
    }
    if exists k :: 0 <= k < |keys| && keys[k] in ObjectPrototypeKeys {
      var k :| 0 <= k < |keys| && keys[k] in ObjectPrototypeKeys;
      assert Clashes(keys, ObjectPrototypeKeys, k);
      assert n <= k;
      assert StopsAsWritten(rows, b) == Tables(b.property, Accepted(rows, b)[..n], n == |keys|);
    }
  }

  /** One row whose location is "constructor": no key repeats, the corrected
      build is valid, the as-written one is rejected. */
  lemma ConstructorLocationRejected()
    ensures var rows := [[Field("name", Str("constructor")), Field("value", Num(1))]];
      var b := Binding("NAME", "name", "value", (v: Value) => Some(v), ToStr, (i: nat) => 50.0);
      Distinct(Keys(Accepted(rows, b))) &&
      StopsOf(rows, b, {}).valid && StopsOf(rows, b, {}).filter == ["in", "NAME", "constructor"] &&
      !StopsAsWritten(rows, b).valid && StopsAsWritten(rows, b).filter == ["in", "NAME"]
  {
    var rows := [[Field("name", Str("constructor")), Field("value", Num(1))]];
    var b := Binding("NAME", "name", "value", (v: Value) => Some(v), ToStr, (i: nat) => 50.0);
    assert rows[..0] == [];
    var e := Entry(0, "constructor", "1", 50.0);
    assert Accepted(rows, b) == [e];
    assert Keys([e]) == ["constructor"];
    assert Clashes(["constructor"], ObjectPrototypeKeys, 0);
    assert !Clashes(["constructor"], {}, 0);
  }

  /** Three rows located at "A", "B" and "A" again. */
  function RepeatedRows(): seq<Row> {
    [[Field("loc", Str("A")), Field("c", Str("red"))],
     [Field("loc", Str("B")), Field("c", Str("blue"))],
     [Field("loc", Str("A")), Field("c", Str("green"))]]
  }

  function RepeatedBinding(): Binding<Value> {
    Binding("NAME", "loc", "c", (v: Value) => Some(v), ToStr, (i: nat) => 1.0)
  }

  /** Each of the three rows passes both exclusion tests. */
  lemma RepeatedEntries()
    ensures EntryAt(RepeatedRows(), 0, RepeatedBinding()) == [Entry(0, "A", "red", 1.0)]
    ensures EntryAt(RepeatedRows(), 1, RepeatedBinding()) == [Entry(1, "B", "blue", 1.0)]
    ensures EntryAt(RepeatedRows(), 2, RepeatedBinding()) == [Entry(2, "A", "green", 1.0)]
  {
  }

  /** All three rows are accepted. */
  lemma RepeatedRowsAccepted()
    ensures Accepted(RepeatedRows(), RepeatedBinding()) ==
      [Entry(0, "A", "red", 1.0), Entry(1, "B", "blue", 1.0), Entry(2, "A", "green", 1.0)]
  {
    var rows, b := RepeatedRows(), RepeatedBinding();
    RepeatedEntries();
    assert rows[..0] == [];
    AcceptedSnoc(rows, 0, b);
    AcceptedSnoc(rows, 1, b);
    AcceptedSnoc(rows, 2, b);
    assert rows[..3] == rows;
  }

  /** The third key is the first repeated one. */
  lemma RepeatedKeysClash()
    ensures FirstClash(["A", "B", "A"], {}) == 2
  {
    var ks := ["A", "B", "A"];
    assert ks[..2] == ["A", "B"];
    FirstClashUnique(ks, {}, 2);
  }

  /** Rows "A", "B", "A": the build stops at the third row and keeps the
      stops of the first two. */
  lemma RepeatedLocationExample()
    ensures var t := StopsOf(RepeatedRows(), RepeatedBinding(), {});
      !t.valid && t.colors.stops == [("A", "red"), ("B", "blue")] &&
      t.filter == ["in", "NAME", "A", "B"]
  {
    RepeatedRowsAccepted();
    RepeatedKeysClash();
    var es := [Entry(0, "A", "red", 1.0), Entry(1, "B", "blue", 1.0), Entry(2, "A", "green", 1.0)];
    assert Keys(es) == ["A", "B", "A"];
    assert es[..2] == [Entry(0, "A", "red", 1.0), Entry(1, "B", "blue", 1.0)];
  }
}
