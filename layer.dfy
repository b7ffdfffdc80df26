/** The layer identifiers of the choropleth layer and the joint of the
    categorical colour function with the stop builder. */
module ChoroplethLayer {
  import opened JsValue
  import StopTable
  import CategoricalColor

  const ChoroplethId := "choropleth"
  const OutlineId := "choropleth-outline"
  const HighlightId := "choropleth-highlight"
  const HighlightOutlineId := "choropleth-highlight-outline"

  /** `getLayerIDs`: the extrusion layer and its outline, in that order; the
      two highlight layers are not reported. */
  function LayerIds(): (r: seq<string>)
    ensures |r| == 2 && r[0] == ChoroplethId && r[1] == OutlineId
    ensures HighlightId !in r && HighlightOutlineId !in r
  {
    [ChoroplethId, OutlineId]
  }

  /** In categorical mode a row whose colour value has the key of no limit
      value gets no colour and is skipped by the stop builder; a row with a
      truthy location whose colour value is a limit value is accepted. */
  lemma CategoricalExclusion<C>(row: Row, b: StopTable.Binding<C>, values: seq<Value>, palette: (Value, nat) -> C)
    requires forall v :: b.colorOf(v) == CategoricalColor.ColorStop(CategoricalColor.PaletteMap(values, palette), v)
    ensures (forall j :: 0 <= j < |values| ==> ToStr(values[j]) != ToStr(Get(row, b.colorColumn)))
      ==> StopTable.Excluded(row, b)
    ensures Truthy(Get(row, b.locationColumn)) &&
      (exists j :: 0 <= j < |values| && ToStr(values[j]) == ToStr(Get(row, b.colorColumn)))
      ==> !StopTable.Excluded(row, b)
  {
    CategoricalColor.ColorStopOfLimits(values, palette, Get(row, b.colorColumn));
  }
}
