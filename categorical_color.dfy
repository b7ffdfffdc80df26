/** The categorical colour function of the choropleth layer: a dictionary
    from each of the limit values to the palette colour of that value and
    its index, and the lookup of a row's colour value in it. */
module CategoricalColor {
  import opened JsValue

  /** The dictionary after `values` have been assigned in order: each value's
      property key maps to the palette colour of that value and its index, a
      later index overwriting an earlier one with the same key. */
  function PaletteMap<C>(values: seq<Value>, palette: (Value, nat) -> C): map<string, C>
    decreases |values|
  {
    if values == [] then map[]
    else
      var n := |values| - 1;
      PaletteMap(values[..n], palette)[ToStr(values[n]) := palette(values[n], n)]
  }

  /** Fills `colorStops` from the limit values, one assignment per index. */
  method BuildColorStops<C>(values: seq<Value>, palette: (Value, nat) -> C) returns (colorStops: map<string, C>)
    ensures colorStops == PaletteMap(values, palette)
  {
    colorStops := map[];
    var idx := 0;
    while idx < |values|
      invariant 0 <= idx <= |values|
      invariant colorStops == PaletteMap(values[..idx], palette)
    {
      assert values[..idx + 1][..idx] == values[..idx];
      colorStops := colorStops[ToStr(values[idx]) := palette(values[idx], idx)];
      idx := idx + 1;
    }
    assert values[..idx] == values;
  }

  /** `colorStops[value]`: the colour stored under the value's property key,
      `None` (undefined) when there is none. */
  function ColorStop<C>(colorStops: map<string, C>, value: Value): (r: Option<C>)
    ensures r.None? <==> ToStr(value) !in colorStops
    ensures value.Str? ==> (r.Some? <==> value.s in colorStops)
  {
    var key := ToStr(value);
    if key in colorStops then Some(colorStops[key]) else None
  }

  /** `j` is the last index of `values` whose property key is `key`. */
  predicate LastWithKey(values: seq<Value>, key: string, j: nat) {
    j < |values| && ToStr(values[j]) == key &&
    forall i :: j < i < |values| ==> ToStr(values[i]) != key
  }

  /** The dictionary holds exactly the keys of the limit values. */
  lemma {:induction false} PaletteMapKeys<C>(values: seq<Value>, palette: (Value, nat) -> C, key: string)
    ensures key in PaletteMap(values, palette) <==> exists j :: 0 <= j < |values| && ToStr(values[j]) == key
    decreases |values|
  {
    if values != [] {
      var n := |values| - 1;
      var init := values[..n];
      PaletteMapKeys(init, palette, key);
      assert PaletteMap(values, palette) == PaletteMap(init, palette)[ToStr(values[n]) := palette(values[n], n)];
      if key in PaletteMap(values, palette) {
        if key != ToStr(values[n]) {
          var j :| 0 <= j < n && ToStr(init[j]) == key;
          assert values[j] == init[j];
        }
      }
      if exists j :: 0 <= j < |values| && ToStr(values[j]) == key {
        var j :| 0 <= j < |values| && ToStr(values[j]) == key;
        if j < n {
          assert init[j] == values[j];
        }
      }
    }
  }

  /** The colour under a key is the palette colour of the last value with that key. */
  lemma {:induction false} PaletteMapLastWins<C>(values: seq<Value>, palette: (Value, nat) -> C, key: string, j: nat)
    requires LastWithKey(values, key, j)
    ensures key in PaletteMap(values, palette)
    ensures PaletteMap(values, palette)[key] == palette(values[j], j)
    decreases |values|
  {
    var n := |values| - 1;
    if j < n {
      assert ToStr(values[n]) != key;
      assert LastWithKey(values[..n], key, j);
      PaletteMapLastWins(values[..n], palette, key, j);
    }
  }

  /** The categorical colour of a row value: the palette colour assigned to
      the last limit value with the same property key, and undefined when
      no limit value has that key. */
  lemma ColorStopOfLimits<C>(values: seq<Value>, palette: (Value, nat) -> C, value: Value)
    ensures ColorStop(PaletteMap(values, palette), value).None? <==>
      forall j :: 0 <= j < |values| ==> ToStr(values[j]) != ToStr(value)
    ensures forall j: nat :: LastWithKey(values, ToStr(value), j) ==>
      ColorStop(PaletteMap(values, palette), value) == Some(palette(values[j], j))
  {
    PaletteMapKeys(values, palette, ToStr(value));
    forall j: nat | LastWithKey(values, ToStr(value), j)
      ensures ColorStop(PaletteMap(values, palette), value) == Some(palette(values[j], j))
    {
      PaletteMapLastWins(values, palette, ToStr(value), j);
    }
  }

  /** A value that occurs once among the limits gets the colour of its own index. */
  lemma ColorStopOfUniqueValue<C>(values: seq<Value>, palette: (Value, nat) -> C, j: nat)
    requires j < |values|
    requires forall i :: 0 <= i < |values| && i != j ==> ToStr(values[i]) != ToStr(values[j])
    ensures ColorStop(PaletteMap(values, palette), values[j]) == Some(palette(values[j], j))
  {
    PaletteMapLastWins(values, palette, ToStr(values[j]), j);
  }
}
