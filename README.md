# Choropleth layer: stop tables, selection filter and tooltip

This project models the data logic of the choropleth (region-fill) layer of a
Mapbox visual for Power BI, in Dafny, and proves what that logic promises.

The layer joins data rows to the regions of a vector tile set. For each row
it turns the row's location into a key and looks up a colour. It then builds
three categorical property functions (fill colour, extrusion height, outline
colour) and an `['in', property, ...keys]` filter. The first repeated key
stops the build and marks the stops invalid. Valid stops are applied together.
Invalid stops are replaced by one flat colour.

Beside the stop builder the model covers:
- the categorical colour dictionary built from the limit values and a palette;
- the highlight filter of a selection: deduplicate, cut to the maximum count, emit an `any` filter;
- the fill opacity rule;
- the tooltip lookup, which finds the data row of the hovered region and shows its properties;
- the layer identifiers.

Modules:
- `JsValue` (`js_value.dfy`): primitive JavaScript values, truthiness, `String(x)`, property lookup on a plain object, and the loose equality `==`.
- `StopTable` (`stop_table.dfy`): the stop-building loop `BuildStops`, proved equal to the reference function `StopsOf`.
- `StopTableProperties` (`stop_table.dfy`): what the stop tables satisfy, and how they are applied.
- `CategoricalColor` (`categorical_color.dfy`): the categorical colour dictionary and its lookup.
- `Selection` (`selection.dfy`): `updateSelection`'s deduplication, cut, filter and opacity.
- `Tooltip` (`tooltip.dfy`): `handleTooltip`'s two lookups and its row-to-tooltip conversion.
- `ChoroplethLayer` (`layer.dfy`): `getLayerIDs`, and the lemma that joins the colour lookup to the stop builder.

Inputs the source gets from elsewhere are parameters:
- The colour function is a `Value -> Option<C>` over an abstract colour type `C`. `None` is `undefined`. A second function `show: C -> string` is the colour's `toString()`.
- The palette is `(Value, nat) -> C`.
- The per-row extrusion height (`Math.random() * 100` in the source) is a caller-supplied `heightOf: nat -> real`, keyed by the row's position.
- Whether a selection exists after `addSelection` is a boolean.
- The choropleth data source, which may be missing, is an `Option<seq<Row>>`.

The model follows the code where it departs from how the layer is usually described:
- A row is skipped when its location is falsy (`!location`): `undefined`, `null`, `false`, `0` and `""`, not only null.
- `updateSelection` deduplicates the features itself.
- An empty selection gives the filter `["any"]`, not an `==` sentinel.
- The outline-colour stops are built but never applied. `StopTableProperties.Apply` has no outline field.
- `applySettings` computes the selection opacity (lines 322-325) but never uses it.

## Model

| member | source | states |
|---|---|---|
| `JsValue.ToStr` | src/ts/layers/choropleth.ts:275 | the key of a truthy location is never empty, and a string location is its own key |
| `JsValue.Get` | src/ts/layers/choropleth.ts:265-267 | reading a column a row does not have gives `undefined` |
| `JsValue.GetFirstField` | src/ts/layers/choropleth.ts:265 | reading a column gives the value of the row's field with that name |
| `JsValue.Truthy` | src/ts/layers/choropleth.ts:270 | a location is falsy exactly when it is one of `undefined`, `null`, `false`, `0`, `""` |
| `JsValue.LooseEquals` | src/ts/layers/choropleth.ts:382 | the location match `==` holds for equal values; `null` and `undefined` equal each other and nothing else; two strings are equal only when identical |
| `JsValue.LooseEqualsLaws` | src/ts/layers/choropleth.ts:382 | the location match `==` is symmetric; two numbers or two booleans match only when equal; only `null` and `undefined` match either of them |
| `JsValue.LooseEqualsNumberText` | src/ts/layers/choropleth.ts:382 | a numeric location matches the tooltip text of the same number |
| `StopTable.Excluded` | src/ts/layers/choropleth.ts:270 | a row without the location column is skipped, and a row that is not skipped has a non-empty location key |
| `StopTable.StopsAsWritten` | src/ts/layers/choropleth.ts:261-284 | the build with the source's `{}` seen-keys dictionary: its filter and colour stops are prefixes of the corrected build's, and it is valid only when the corrected build is |
| `StopTable.FirstClashInherited` | src/ts/layers/choropleth.ts:278 | a dictionary that starts out answering for more names refuses a key no later than an empty one |
| `StopTable.FirstClash` | src/ts/layers/choropleth.ts:278-284 | the result is the first key already in the seen set (or `|keys|`): no key before it clashes, and the key at it does |
| `StopTable.BuildStops` | src/ts/layers/choropleth.ts:253-293 | the loop with its skip, its duplicate check and its `break` produces exactly `StopsOf(rows, b, {})`: the accepted rows up to the first repeated key, valid exactly when no key repeats |
| `StopTable.FirstClashExtend` | src/ts/layers/choropleth.ts:282-283 | once a repeated key is met, later rows cannot change where the build stopped |
| `StopTable.AcceptedPrefix` | src/ts/layers/choropleth.ts:264 | the entries of the first rows are a prefix of the entries of all rows |
| `StopTableProperties.AcceptedSound` | src/ts/layers/choropleth.ts:264-275 | every entry comes from a row with a truthy location and a defined colour, and carries that row's key, colour text and height |
| `StopTableProperties.AcceptedOrdered` | src/ts/layers/choropleth.ts:264 | the entries are in strictly increasing row order |
| `StopTableProperties.AcceptedComplete` | src/ts/layers/choropleth.ts:264-275 | every row that is not skipped has an entry |
| `StopTableProperties.ValidIffDistinct` | src/ts/layers/choropleth.ts:278-284 | the kept stop keys are pairwise distinct, after an abort too; the build is valid if and only if no accepted location key repeats |
| `StopTableProperties.TablesAreParallel` | src/ts/layers/choropleth.ts:253-292 | colour, height and outline stops and the filter after `"in", property` have equal length and the same keys in the same order; both colour lists carry the same colours; defaults are `rgba(0,0,0,0)` and 100 |
| `StopTableProperties.ExcludedRowAbsent` | src/ts/layers/choropleth.ts:270-273 | a row with a falsy location or an undefined colour contributes to no stop list and not to the filter |
| `StopTableProperties.AbortKeepsPrefix` | src/ts/layers/choropleth.ts:278-284 | on an invalid build, the first accepted row whose key was already seen is where the build stopped; the lists hold exactly the accepted rows before it, and nothing of it or of any later row |
| `StopTableProperties.NoAcceptedRows` | src/ts/layers/choropleth.ts:253-262 | with no accepted row the build is valid, all stop lists are empty and the filter is `['in', property]` |
| `StopTableProperties.Apply` | src/ts/layers/choropleth.ts:303-318 | colour stops, height stops and both filters are applied together exactly when the stops are valid; otherwise only the flat colour `rgb(0, 0, 0)` is set |
| `StopTableProperties.ApplyAllOrNothing` | src/ts/layers/choropleth.ts:303-318 | for a whole build, the stops reach the renderer if and only if no accepted location repeats, and then they hold every accepted row |
| `StopTableProperties.AsWrittenDiffers` | src/ts/layers/choropleth.ts:261-284 | the source's `{}` dictionary gives the same tables as a set unless some accepted key names an `Object.prototype` member; if one does, the build is rejected |
| `StopTableProperties.ConstructorLocationRejected` | src/ts/layers/choropleth.ts:278 | one row located at "constructor": no key repeats and the corrected build is valid, but the build as written is rejected |
| `StopTableProperties.RepeatedLocationExample` | src/ts/layers/choropleth.ts:278-292 | rows A, B, A give an invalid build whose colour stops are those of A and B only |
| `CategoricalColor.BuildColorStops` | src/ts/layers/choropleth.ts:238-241 | the loop over the limit values fills the dictionary `PaletteMap(values, palette)` |
| `CategoricalColor.PaletteMapKeys` | src/ts/layers/choropleth.ts:239-241 | the dictionary has a key exactly when some limit value has that key |
| `CategoricalColor.PaletteMapLastWins` | src/ts/layers/choropleth.ts:239-241 | under a repeated key the colour of the last index wins |
| `CategoricalColor.ColorStop` | src/ts/layers/choropleth.ts:242-244 | `getColorStop` is undefined exactly when the value's key is not in the dictionary; a string value is its own key |
| `CategoricalColor.ColorStopOfLimits` | src/ts/layers/choropleth.ts:242-244 | the colour of a value is the palette colour of the last limit value with its key, and undefined if and only if no limit value has its key |
| `CategoricalColor.ColorStopOfUniqueValue` | src/ts/layers/choropleth.ts:239-243 | a value that occurs once among the limits gets `palette(value, its index)` |
| `ChoroplethLayer.CategoricalExclusion` | src/ts/layers/choropleth.ts:267-273 | in categorical mode a row whose colour value is not a limit value is skipped; a row with a truthy location whose colour value is one is accepted |
| `ChoroplethLayer.LayerIds` | src/ts/layers/choropleth.ts:19-21 | the ids are the extrusion layer then its outline; the highlight layers are not among them |
| `Selection.UpdateSelection` | src/ts/layers/choropleth.ts:121-145 | the selected ids are the first-occurrence deduplication of the features' vector property values, cut to the maximum count, with distinct keys; the filter is `"any"` followed by one `["==", property, id]` per id in order; the opacity is the selection opacity |
| `Selection.DeduplicateFeatures` | src/ts/layers/choropleth.ts:123-133 | the `filter` over the features with its seen-keys dictionary keeps exactly the first-occurrence deduplication of their property values |
| `Selection.SelectionFilter` | src/ts/layers/choropleth.ts:135-138 | the `map` returns the ids unchanged and pushes one `["==", property, id]` clause per id, in order, after `"any"` |
| `Selection.SelectionOpacity` | src/ts/layers/choropleth.ts:142-145 | opacity is the setting divided by 100, halved when a selection exists; a setting in 0..100 gives an opacity in 0..1 (the same rule stands at lines 322-325) |
| `Selection.Take` | src/ts/layers/choropleth.ts:134 | the cut is the prefix of the deduplicated features of length `min(count, length)` |
| `Selection.FirstIndices` | src/ts/layers/choropleth.ts:124-133 | the positions of first occurrences are strictly increasing and within the input |
| `Selection.DeduplicatedDistinct` | src/ts/layers/choropleth.ts:124-133 | the kept values have pairwise distinct keys |
| `Selection.DeduplicatedCovers` | src/ts/layers/choropleth.ts:124-133 | every key of the features occurs among the kept values |
| `Selection.DeduplicatedKeepsFirst` | src/ts/layers/choropleth.ts:124-133 | the kept values are the values at the first occurrence of each key, in input order |
| `Selection.DeduplicatedAsWritten` | src/ts/layers/choropleth.ts:123-133 | with the source's `{}` dictionary, the kept values are the corrected ones minus those whose key names an `Object.prototype` member |
| `Selection.ConstructorFeatureNeverSelected` | src/ts/layers/choropleth.ts:127 | a feature whose property is "constructor" is kept by the corrected deduplication and dropped as written |
| `Tooltip.FindVectorEntry` | src/ts/layers/choropleth.ts:353-362 | finds the first tooltip entry whose display name is the vector property, and nothing if and only if there is none |
| `Tooltip.FindRowAt` | src/ts/layers/choropleth.ts:376-385 | finds the first data row whose location is loosely equal to the entry's value, and nothing if and only if there is none |
| `Tooltip.Display` | src/ts/layers/choropleth.ts:392-395 | null and undefined show `'null'`, a string shows itself, and a truthy value never shows as empty text |
| `Tooltip.RowToTooltip` | src/ts/layers/choropleth.ts:391-400 | one tooltip line per property of the row, named after that property, in the row's key order |
| `Tooltip.DisplayNull` | src/ts/layers/choropleth.ts:392-395 | a line shows `'null'` exactly for null, undefined and the text "null"; every other value shows its `toString()` |
| `Tooltip.TooltipShowsRow` | src/ts/layers/choropleth.ts:391-400 | every property of the row has a line; the first line named after a property shows that property's displayed value; a property the row lacks has no line |
| `Tooltip.HandleTooltip` | src/ts/layers/choropleth.ts:351-400 | returns the base tooltip unchanged when there is no vector entry, no data source or no matching row; otherwise the lines of the first matching row |

## Left out

- All calls into the Mapbox map: `addLayer`, `removeLayer`, `setPaintProperty`, `setFilter`, `setLayoutProperty`, `setLayerZoomRange`, `fitBounds`, `getSource`, and the `sourcedata` event in `getBounds`. These are foreign I/O. `StopTableProperties.Apply` records what `applySettings` would set.
- `hoverHighLight`, `removeHighlight`, `addLayer` and `removeLayer` only build Mapbox calls and are not part of this model.
- All `console.log` diagnostics.
- Gradient mode: the chroma.js scale over natural breaks is floating-point interpolation in a library. In gradient mode the colour function is the caller's `colorOf`.
- `mapboxUtils.getLimits`, `getClassCount`, `getNaturalBreaks` and `shouldUseGradient` are not part of this model. The limit values and the choice of colour function are inputs. Natural breaks, their count and their order are not modelled.
- `Math.random()` height: it is the parameter `heightOf`.
- Settings plumbing: `ChoroplethSettings.fillPredefinedProperties`, `hasChanged`, and the re-layering in `getSource`. In `handleTooltip`, `getSource` is the optional `rows` parameter.
- `super.handleTooltip` and the parent's `addSelection` / `hasSelection` bookkeeping. They are the `tooltipData` parameter and the `hasSelection` boolean.
- `MAX_SELECTION_COUNT` is defined outside these files. It is the `maxSelectionCount` parameter.
- `src/ts/datasources/choropleth.ts`: it only wraps `map.addSource` / `map.removeSource` and stores fields.
- Numbers are integers. NaN, fractions, `-0` and exponent formatting are not modelled.
- `JsValue.StringToNumber`: reads only optionally signed decimal integers and `""`. Whitespace trimming, decimals, hexadecimal and `Infinity` give NaN here.
- `Selection.SelectionOpacity`: uses exact real arithmetic, not IEEE doubles, so rounding of `/ 100` and `* 0.5` is not modelled.
- `JsValue.Get`: a row is a list of own properties. A column the row lacks reads as `undefined` even when it is named like an `Object.prototype` member (`"constructor"`, `"toString"`, ...), where JavaScript reads the inherited function.
- Rows with repeated field names: nothing excludes two fields with the same name, which no JavaScript object has. `JsValue.Get` reads the first of them, and `Tooltip.RowToTooltip` gives each its own line. The properties are stated for every row, including these.
- Object values in rows are left out. `Object.keys` order is taken to be the order of a row's fields. Integer-like keys listed first are not modelled.
- `CategoricalColor.ColorStop`: the dictionary is a map of own keys. As written, `colorStops[value]` for a value named like an `Object.prototype` member returns that member, a function, instead of `undefined`. The model gives `undefined`; see the findings for the same effect in the two other dictionaries.

## Findings

| source | as written | input that shows it | evidently intended | confidence | as-written member | corrected member |
|---|---|---|---|---|---|---|
| src/ts/layers/choropleth.ts:261-284 | the seen-keys dictionary is `{}`, so `existingStops["constructor"]` (also `toString`, `valueOf`, `__proto__`, ...) is truthy before any row is seen | one row whose location is `"constructor"` with a defined colour | only a location already met in the loop is a duplicate | high, not executed | `StopTableProperties.ConstructorLocationRejected` (on `StopTable.StopsAsWritten`) | `StopTable.BuildStops` |
| src/ts/layers/choropleth.ts:123-133 | `featureNameMap` is `{}`, so a feature whose vector property is `"constructor"` is filtered out as if already seen | one selected feature with property value `"constructor"` | only a feature whose value was met before is dropped | high, not executed | `Selection.ConstructorFeatureNeverSelected` (with `Selection.DeduplicatedAsWritten`) | `Selection.UpdateSelection` |
