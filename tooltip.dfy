/** The tooltip of the choropleth layer: find the tooltip entry of the
    vector property, find the first data row whose location equals that
    entry's value, and show every property of that row. */
module Tooltip {
  import opened JsValue

  /** One line of a tooltip. */
  datatype TooltipItem = TooltipItem(displayName: string, value: Value)

  /** `k` is the first entry named `name`. */
  predicate FirstNamed(items: seq<TooltipItem>, name: string, k: nat) {
    k < |items| && items[k].displayName == name &&
    forall i :: 0 <= i < k ==> items[i].displayName != name
  }

  /** `j` is the first row whose `location` property is loosely equal to `value`. */
  predicate FirstLocated(rows: seq<Row>, location: string, value: Value, j: nat) {
    j < |rows| && LooseEquals(Get(rows[j], location), value) &&
    forall i :: 0 <= i < j ==> !LooseEquals(Get(rows[i], location), value)
  }

  /** The first entry whose display name is the vector property (`===`). */
  method FindVectorEntry(tooltipData: seq<TooltipItem>, vectorProperty: string) returns (found: Option<nat>)
    ensures found.None? <==> forall i :: 0 <= i < |tooltipData| ==> tooltipData[i].displayName != vectorProperty
    ensures found.Some? ==> FirstNamed(tooltipData, vectorProperty, found.value)
  {
    found := None;
    var i := 0;
    while i < |tooltipData|
      invariant 0 <= i <= |tooltipData|
      invariant found.None? <==> forall k :: 0 <= k < i ==> tooltipData[k].displayName != vectorProperty
      invariant found.Some? ==> FirstNamed(tooltipData, vectorProperty, found.value) && found.value < i
    {
      if found.None? && tooltipData[i].displayName == vectorProperty {
        found := Some(i);
      }
      i := i + 1;
    }
  }

  /** The first row whose location property is loosely equal (`==`) to `value`. */
  method FindRowAt(rows: seq<Row>, locationProperty: string, value: Value) returns (found: Option<nat>)
    ensures found.None? <==> forall i :: 0 <= i < |rows| ==> !LooseEquals(Get(rows[i], locationProperty), value)
    ensures found.Some? ==> FirstLocated(rows, locationProperty, value, found.value)
  {
    found := None;
    var i := 0;
    while i < |rows|
      invariant 0 <= i <= |rows|
      invariant found.None? <==> forall k :: 0 <= k < i ==> !LooseEquals(Get(rows[k], locationProperty), value)
      invariant found.Some? ==> FirstLocated(rows, locationProperty, value, found.value) && found.value < i
    {
      if found.None? && LooseEquals(Get(rows[i], locationProperty), value) {
        found := Some(i);
      }
      i := i + 1;
    }
  }

  /** The text a tooltip shows for a value: `'null'` for null and undefined. */
  function Display(v: Value): (r: string)
    ensures v.Null? || v.Undefined? ==> r == "null"
    ensures v.Str? ==> r == v.s
    ensures Truthy(v) ==> r != ""
  {
    if v.Null? || v.Undefined? then "null" else ToStr(v)
  }

  /** One tooltip line per property of the row, in key order. */
  function RowToTooltip(row: Row): (r: seq<TooltipItem>)
    ensures |r| == |row|
    ensures forall k :: 0 <= k < |r| ==> r[k].displayName == row[k].key
  {
    seq(|row|, k requires 0 <= k < |row| => TooltipItem(row[k].key, Str(Display(row[k].value))))
  }

  /** `'null'` stands for null, undefined, and the text "null" itself. */
  lemma DisplayNull(v: Value)
    ensures Display(v) == "null" <==> v.Null? || v.Undefined? || v == Str("null")
    ensures !v.Null? && !v.Undefined? ==> Display(v) == ToStr(v)
  {
  }

  /** Reading a property back from the tooltip: a key of the row has a line,
      the first line named `key` shows the displayed value of `row[key]`,
      and a key the row lacks has no line. */
  lemma {:induction false} TooltipShowsRow(row: Row, key: string)
    ensures (forall k :: 0 <= k < |row| ==> row[k].key != key) ==>
      forall k :: 0 <= k < |RowToTooltip(row)| ==> RowToTooltip(row)[k].displayName != key
    ensures (exists k :: 0 <= k < |row| && row[k].key == key) ==>
      exists m: nat :: FirstNamed(RowToTooltip(row), key, m)
    ensures forall k: nat :: FirstNamed(RowToTooltip(row), key, k) ==>
      RowToTooltip(row)[k].value == Str(Display(Get(row, key)))
  {
    var t := RowToTooltip(row);
    if exists k :: 0 <= k < |row| && row[k].key == key {
      var k :| 0 <= k < |row| && row[k].key == key;
      FirstNamedExists(t, key, k);
    }
    forall k: nat | FirstNamed(t, key, k)
      ensures t[k].value == Str(Display(Get(row, key)))
    {
      assert forall i :: 0 <= i < k ==> row[i].key == t[i].displayName;
      GetFirstField(row, key, k);
    }
  }

  /** `handleTooltip`: the base tooltip when the vector property has no
      entry, when no data source exists (`rows` is `None`) or when no row
      has that location; otherwise the properties of the first such row. */
  method HandleTooltip(tooltipData: seq<TooltipItem>, vectorProperty: string,
                       rows: Option<seq<Row>>, locationProperty: string)
    returns (r: seq<TooltipItem>)
    ensures (forall i :: 0 <= i < |tooltipData| ==> tooltipData[i].displayName != vectorProperty) ==> r == tooltipData
    ensures rows.None? ==> r == tooltipData
    ensures forall k: nat ::
      (FirstNamed(tooltipData, vectorProperty, k) && rows.Some? &&
       forall j :: 0 <= j < |rows.value| ==> !LooseEquals(Get(rows.value[j], locationProperty), tooltipData[k].value))
      ==> r == tooltipData
    ensures forall k: nat, j: nat ::
      (FirstNamed(tooltipData, vectorProperty, k) && rows.Some? &&
       FirstLocated(rows.value, locationProperty, tooltipData[k].value, j))
      ==> r == RowToTooltip(rows.value[j])
  {
    var entry := FindVectorEntry(tooltipData, vectorProperty);
    if entry.None? {
      return tooltipData;
    }
    if rows.None? {
      return tooltipData;
    }
    var data := rows.value;
    var row := FindRowAt(data, locationProperty, tooltipData[entry.value].value);
    if row.None? {
      FirstNamedUnique(tooltipData, vectorProperty, entry.value);
      return tooltipData;
    }
    FirstNamedUnique(tooltipData, vectorProperty, entry.value);
    FirstLocatedUnique(data, locationProperty, tooltipData[entry.value].value, row.value);
    r := RowToTooltip(data[row.value]);
  }

  /** A named entry has a first one at or before it. */
  lemma {:induction false} FirstNamedExists(items: seq<TooltipItem>, name: string, k: nat)
    requires k < |items| && items[k].displayName == name
    ensures exists m: nat :: m <= k && FirstNamed(items, name, m)
    decreases k
  {
    if forall i :: 0 <= i < k ==> items[i].displayName != name {
      assert FirstNamed(items, name, k);
    } else {
      var i :| 0 <= i < k && items[i].displayName == name;
      FirstNamedExists(items, name, i);
    }
  }

  lemma FirstNamedUnique(items: seq<TooltipItem>, name: string, k: nat)
    requires FirstNamed(items, name, k)
    ensures forall m: nat :: FirstNamed(items, name, m) ==> m == k
  {
  }

  lemma FirstLocatedUnique(rows: seq<Row>, location: string, value: Value, j: nat)
    requires FirstLocated(rows, location, value, j)
    ensures forall m: nat :: FirstLocated(rows, location, value, m) ==> m == j
  {
  }
}
