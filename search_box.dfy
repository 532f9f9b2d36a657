/**
 * `formatRow`: the rows of one filter of the torrent search box, an "all"
 * row followed by one row per option.
 */
module SearchBox {

  /** Label of the row that selects every option. */
  const ALL_LABEL: string := "全部"

  /** One option of a filter, such as a category or a codec. */
  datatype FilterOption = FilterOption(id: int, name: string)

  /**
   * One row of the filter: what is shown (the `label` key; `label` is a Dafny
   * keyword, hence `caption`), the value sent, the parameter name, and whether
   * it is selected.
   */
  datatype FilterRow = FilterRow(caption: string, value: int, name: string, active: int)

  /** A filter: its header and its rows. */
  datatype FilterGroup = FilterGroup(header: string, rows: seq<FilterRow>)

  /**
   * The filter for parameter `name`: first the selected "all" row with value
   * 0, then each option, unselected, in the order given.
   */
  method FormatRow(header: string, items: seq<FilterOption>, name: string) returns (result: FilterGroup)
    ensures result.header == header
    ensures |result.rows| == |items| + 1
    ensures result.rows[0] == FilterRow(ALL_LABEL, 0, name, 1)
    ensures forall i :: 0 <= i < |items| ==>
              result.rows[i + 1] == FilterRow(items[i].name, items[i].id, name, 0)
  {
    var rows := [FilterRow(ALL_LABEL, 0, name, 1)];
    for i := 0 to |items|
      invariant |rows| == i + 1
      invariant rows[0] == FilterRow(ALL_LABEL, 0, name, 1)
      invariant forall j :: 0 <= j < i ==> rows[j + 1] == FilterRow(items[j].name, items[j].id, name, 0)
    {
      var item := FilterRow(items[i].name, items[i].id, name, 0);
      rows := rows + [item];
    }
    result := FilterGroup(header, rows);
  }
}
