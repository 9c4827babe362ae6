/** The earlier copy of the browser client (public/app.js): the same month
    label, cell states, Excel test and download name as the current client,
    with the routes at the site root and no badge. */
module LegacyClient {
  import opened Text
  import opened Client
  import Server

  /** The count decides the state: 0 fails, 1 is ok, anything else warns.
      An ok cell links to `/file` with the `_readonly` name for an Excel
      file and to `/view` otherwise, and shows the final component's
      extension; it never shows a badge. */
  function RenderCell(cell: ClientCell): (r: CellDisplay)
    requires Renderable(cell)
    ensures r.FailCell? <==> cell.count == 0
    ensures r.OkCell? <==> cell.count == 1
    ensures r.WarnCell? <==> cell.count > 1
    ensures r.OkCell? ==>
      var path := cell.paths[0];
      var name := FinalComponent(path);
      && r.title == path
      && r.link.file == path
      && (r.link.Download? <==> IsExcel(path))
      && (r.link.Download? ==> r.link.route == "/file" && r.link.downloadName == DownloadName(name))
      && (r.link.Viewer? ==> r.link.route == "/view")
      && r.extension == SplitExtension(name).1
      && r.badge.None?
    ensures r.WarnCell? ==> r.title == Join(cell.paths, "\n")
  {
    if cell.count == 0 then FailCell
    else if cell.count == 1 then
      var path := cell.paths[0];
      var name := FinalComponent(path);
      var link := if IsExcel(path) then Download("/file", path, DownloadName(name))
                  else Viewer("/view", path);
      OkCell(path, link, SplitExtension(name).1, None)
    else WarnCell(Join(cell.paths, "\n"))
  }

  /** The cell without its badge. */
  function WithoutBadge(d: CellDisplay): CellDisplay
  {
    if d.OkCell? then d.(badge := None) else d
  }

  /** The two copies decide every cell alike: the earlier one is the current
      one served from the site root, with the badge left out. */
  lemma {:induction false} AgreesWithCurrent(cell: ClientCell)
    requires Renderable(cell)
    ensures RenderCell(cell) == WithoutBadge(Client.RenderCell("", cell))
  {
    if cell.count == 1 {
      assert "" + "/file" == "/file" && "" + "/view" == "/view";
    }
  }

  /** A row: its month label, then one cell per column, in column order. */
  function RenderRow(columns: seq<Server.Column>, row: ClientRow): (r: RenderedRow)
    requires RowReady(columns, row)
    ensures r.monthText == FormatMonth(row.month)
    ensures |r.cells| == |columns|
    ensures forall k :: 0 <= k < |columns| ==> r.cells[k] == RenderCell(row.cells[columns[k].key])
  {
    RenderedRow(FormatMonth(row.month),
      seq(|columns|, k requires 0 <= k < |columns| => RenderCell(row.cells[columns[k].key])))
  }

  /** `renderGrid` of the earlier client: with no months the notice;
      otherwise a header cell `Month` and one per column label, then the
      rows from the last grid row up to the first. */
  method RenderGrid(months: seq<string>, columns: seq<Server.Column>, grid: seq<ClientRow>)
    returns (out: Rendered)
    requires months != [] ==> forall i :: 0 <= i < |grid| ==> RowReady(columns, grid[i])
    ensures out.NoFiles? <==> months == []
    ensures out.Table? ==>
      && |out.headers| == |columns| + 1 && out.headers[0] == "Month"
      && (forall k :: 0 <= k < |columns| ==> out.headers[k + 1] == columns[k].labelText)
      && |out.rows| == |grid|
      && forall j :: 0 <= j < |grid| ==> out.rows[j] == RenderRow(columns, Reversed(grid)[j])
  {
    if |months| == 0 {
      return NoFiles;
    }
    var headers := ["Month"];
    for k := 0 to |columns|
      invariant |headers| == k + 1 && headers[0] == "Month"
      invariant forall h :: 0 <= h < k ==> headers[h + 1] == columns[h].labelText
    {
      headers := headers + [columns[k].labelText];
    }
    var rows: seq<RenderedRow> := [];
    var i := |grid| - 1;
    while i >= 0
      invariant -1 <= i < |grid|
      invariant |rows| == |grid| - 1 - i
      invariant forall j :: 0 <= j < |rows| ==> rows[j] == RenderRow(columns, grid[|grid| - 1 - j])
    {
      var row := grid[i];
      var cells: seq<CellDisplay> := [];
      for k := 0 to |columns|
        invariant |cells| == k
        invariant forall h :: 0 <= h < k ==> cells[h] == RenderCell(row.cells[columns[h].key])
      {
        cells := cells + [RenderCell(row.cells[columns[k].key])];
      }
      rows := rows + [RenderedRow(FormatMonth(row.month), cells)];
      i := i - 1;
    }
    return Table(headers, rows);
  }
}
