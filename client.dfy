/** The decision logic of the browser client (app/public/app.js): the base
    path of the API routes, the month label, the three-way cell state, the
    Excel-or-viewer link, the `_readonly` download name, the badge, and the
    newest-first row order of the status table. */
module Client {
  import opened Text
  import opened Badge
  import Server

  // ---------------------------------------------------------------------------
  // Base path
  // ---------------------------------------------------------------------------

  const DocsPrefix: string := "/conta_check_docs"

  /** `basePath`: the prefix the page is served under, used in front of
      every route. It is a prefix of the page path, and it is the docs
      prefix exactly when the page path starts with it; otherwise empty. */
  function BasePath(pathname: string): (b: string)
    ensures b <= pathname
    ensures b == DocsPrefix <==> DocsPrefix <= pathname
    ensures b != DocsPrefix ==> b == ""
  {
    if DocsPrefix <= pathname then DocsPrefix else ""
  }

  // ---------------------------------------------------------------------------
  // Month label
  // ---------------------------------------------------------------------------

  /** The month shown in a row's first cell: a six-character month gets a
      `/` after its fourth character (removing it gives the month back);
      anything else is shown as it is. */
  function FormatMonth(month: string): (r: string)
    ensures |month| == 6 ==> |r| == 7 && r[4] == '/' && r[..4] + r[5..] == month
    ensures |month| != 6 ==> r == month
  {
    if |month| == 6 then
      var r := month[..4] + "/" + month[4..];
      assert r[..4] == month[..4] && r[5..] == month[4..];
      assert month == month[..4] + month[4..];
      r
    else month
  }

  /** Two six-character months get the same label only when they are the
      same month. */
  lemma FormatMonthInjective(a: string, b: string)
    requires |a| == 6 && |b| == 6 && FormatMonth(a) == FormatMonth(b)
    ensures a == b
  {
    var r := FormatMonth(a);
    assert a == r[..4] + r[5..] == b;
  }

  // ---------------------------------------------------------------------------
  // File names
  // ---------------------------------------------------------------------------

  predicate IsSeparator(c: char) { c == '/' || c == '\\' }

  /** The index of the last `/` or `\` in the path, or -1 without one. */
  function LastSeparator(path: string): (r: int)
    ensures -1 <= r < |path|
    ensures r >= 0 ==> IsSeparator(path[r])
    ensures forall k :: r < k < |path| ==> !IsSeparator(path[k])
  {
    if path == [] then -1
    else if IsSeparator(path[|path| - 1]) then |path| - 1
    else LastSeparator(path[..|path| - 1])
  }

  /** The last element of `path.split(/[\\/]/)`: the longest suffix of the
      path without a `/` or `\`. */
  function FinalComponent(path: string): (name: string)
    ensures |name| <= |path| && path[|path| - |name|..] == name
    ensures forall k :: 0 <= k < |name| ==> !IsSeparator(name[k])
    ensures |name| < |path| ==> IsSeparator(path[|path| - |name| - 1])
  {
    path[LastSeparator(path) + 1..]
  }

  /** The name split at its last `.`: the part before it, and the rest
      starting with the dot (empty when there is no dot). Joined back they
      give the name; the extension holds no further dot. */
  function SplitExtension(name: string): (r: (string, string))
    ensures r.0 + r.1 == name
    ensures r.1 == [] <==> '.' !in name
    ensures r.1 != [] ==> r.1[0] == '.' && '.' !in r.1[1..]
  {
    var dotIdx := LastIndexOf(name, '.');
    if dotIdx == -1 then (name, [])
    else
      assert name == name[..dotIdx] + name[dotIdx..];
      assert name[dotIdx..][1..] == name[dotIdx + 1..];
      (name[..dotIdx], name[dotIdx..])
  }

  /** The `download` attribute of an Excel link. */
  function DownloadName(name: string): (r: string)
    ensures r == SplitExtension(name).0 + "_readonly" + SplitExtension(name).1
  {
    var (base, extension) := SplitExtension(name);
    base + "_readonly" + extension
  }

  /** `lastIndexOf` is the only index holding `c` with no `c` after it. */
  lemma LastIndexOfUnique(s: string, c: char, r: nat)
    requires r < |s| && s[r] == c && c !in s[r + 1..]
    ensures LastIndexOf(s, c) == r
  {
    var l := LastIndexOf(s, c);
    forall k | r < k < |s| ensures s[k] != c {
      assert s[k] == s[r + 1..][k - r - 1];
    }
    forall k | l < k < |s| ensures s[k] != c {
      assert s[k] == s[l + 1..][k - l - 1];
    }
  }

  /** The download name keeps the file's extension: split again, it gives
      the original base followed by `_readonly`, and the same extension. */
  lemma DownloadNameKeepsExtension(name: string)
    ensures SplitExtension(DownloadName(name)) == (SplitExtension(name).0 + "_readonly", SplitExtension(name).1)
  {
    var (base, extension) := SplitExtension(name);
    var d := DownloadName(name);
    if extension == [] {
      assert '.' !in base;
      assert forall k :: 0 <= k < |d| ==> d[k] != '.' by {
        forall k | 0 <= k < |d| ensures d[k] != '.' {
          if k < |base| { assert d[k] == base[k]; }
        }
      }
      assert d == base + "_readonly";
    } else {
      var at := |base| + 9;
      assert d[at..] == extension;
      LastIndexOfUnique(d, '.', at);
      assert d[..at] == base + "_readonly";
    }
  }

  /** The text `cell.paths[0].split('.').pop().toLowerCase()`: everything
      after the path's last `.`, or the whole path when it has none; a
      dot-free suffix of the path, lower-cased. */
  function ExcelExtension(path: string): (ext: string)
    ensures |ext| <= |path|
    ensures ext == ToLower(path[|path| - |ext|..]) && '.' !in path[|path| - |ext|..]
    ensures |ext| < |path| ==> path[|path| - |ext| - 1] == '.'
    ensures '.' !in path ==> ext == ToLower(path)
  {
    ToLower(path[LastIndexOf(path, '.') + 1..])
  }

  predicate IsExcelExtension(ext: string) { ext == "xls" || ext == "xlsx" }

  /** `path` ends in `ext` in any case, and that suffix holds no dot and
      starts the path or follows a dot. */
  predicate EndsInExtension(path: string, ext: string)
  {
    && |ext| <= |path|
    && ToLower(path[|path| - |ext|..]) == ext
    && '.' !in path[|path| - |ext|..]
    && (|ext| == |path| || path[|path| - |ext| - 1] == '.')
  }

  /** The ok cell links to a download (rather than the viewer) exactly when
      this holds: the path ends, right after its last dot or with no dot at
      all, in `xls` or `xlsx` in any case. */
  predicate IsExcel(path: string): (b: bool)
    ensures b <==> EndsInExtension(path, "xls") || EndsInExtension(path, "xlsx")
  {
    ExtensionIs(path, "xls");
    ExtensionIs(path, "xlsx");
    IsExcelExtension(ExcelExtension(path))
  }

  /** The Excel test's extension is `ext` exactly when the path ends in it
      after its last dot. */
  lemma ExtensionIs(path: string, ext: string)
    ensures ExcelExtension(path) == ext <==> EndsInExtension(path, ext)
  {
    ExtensionAfterLastDot(path, |ext|);
  }

  /** A dot-free suffix that starts the path or follows a dot is what the
      Excel test lower-cases. */
  lemma ExtensionAfterLastDot(path: string, n: nat)
    ensures n <= |path| && '.' !in path[|path| - n..] && (n == |path| || path[|path| - n - 1] == '.')
      ==> ExcelExtension(path) == ToLower(path[|path| - n..])
  {
    if n <= |path| && '.' !in path[|path| - n..] && n < |path| && path[|path| - n - 1] == '.' {
      assert path[|path| - n - 1 + 1..] == path[|path| - n..];
      LastIndexOfAt(path, '.', |path| - n - 1);
    } else if n == |path| && '.' !in path[|path| - n..] {
      assert path[|path| - n..] == path;
    }
  }

  /** The Excel test reads the whole path, while the extension shown and
      the download name read the final component. They agree whenever the
      final component has a dot: the link is a download exactly when the
      final component's extension, lower-cased and without its dot, is `xls`
      or `xlsx`. */
  lemma ExcelByFinalExtension(path: string)
    requires '.' in FinalComponent(path)
    ensures IsExcel(path) <==> IsExcelExtension(ToLower(SplitExtension(FinalComponent(path)).1[1..]))
  {
    var name := FinalComponent(path);
    var pre := path[..|path| - |name|];
    assert pre + name == path;
    ExcelExtensionOfSuffix(pre, name, path);
  }

  /** For a path ending in a name with a dot, the Excel test reads the
      name's extension. */
  lemma ExcelExtensionOfSuffix(pre: string, name: string, path: string)
    requires pre + name == path && '.' in name
    ensures ExcelExtension(path) == ToLower(SplitExtension(name).1[1..])
  {
    AfterLastInSuffix(pre, name, path, '.');
    assert SplitExtension(name).1[1..] == name[LastIndexOf(name, '.') + 1..];
  }

  /** When the final component has no dot, the path is taken for an Excel
      file only if it has no dot at all and is itself `xls` or `xlsx` in
      some case: with a dot in a directory name, the text after it runs
      across a separator. */
  lemma ExcelWithoutFinalDot(path: string)
    requires '.' !in FinalComponent(path)
    ensures IsExcel(path) <==> '.' !in path && IsExcelExtension(ToLower(path))
  {
    if '.' in path {
      DirectoryDot(path);
    }
  }

  /** A dot only in the directory part: the path is not taken for an Excel
      file. */
  lemma DirectoryDot(path: string)
    requires '.' !in FinalComponent(path) && '.' in path
    ensures !IsExcel(path)
  {
    DotBeforeName(FinalComponent(path), path);
  }

  /** The same for any dot-free `name` that ends the path right after a
      separator. */
  lemma DotBeforeName(name: string, path: string)
    requires |name| <= |path| && path[|path| - |name|..] == name
    requires |name| < |path| ==> IsSeparator(path[|path| - |name| - 1])
    requires '.' !in name && '.' in path
    ensures !IsExcel(path)
  {
    var pre := path[..|path| - |name|];
    assert pre + name == path;
    LastIndexOfConcat(pre, name, '.');
    var l := LastIndexOf(path, '.');
    assert l == LastIndexOf(pre, '.') && 0 <= l < |pre|;
    assert path[l] == '.';
    var j := |pre| - 1;
    assert IsSeparator(path[j]);
    SeparatorAfterDot(path, j);
  }

  /** A separator after the last dot ends up in the text the Excel test
      reads, so the path is not taken for an Excel file. */
  lemma SeparatorAfterDot(path: string, j: nat)
    requires LastIndexOf(path, '.') < j < |path| && IsSeparator(path[j])
    ensures !IsExcel(path)
  {
    var l := LastIndexOf(path, '.');
    var k := j - (l + 1);
    var ext := ExcelExtension(path);
    assert path[l + 1..][k] == path[j];
    assert ext[k] == LowerChar(path[j]);
    SeparatorNotExcel(ext, k);
  }

  /** No Excel extension holds a separator. */
  lemma SeparatorNotExcel(ext: string, k: nat)
    requires k < |ext| && IsSeparator(ext[k])
    ensures !IsExcelExtension(ext)
  {
    assert forall i :: 0 <= i < 3 ==> !IsSeparator("xls"[i]);
    assert forall i :: 0 <= i < 4 ==> !IsSeparator("xlsx"[i]);
  }

  // ---------------------------------------------------------------------------
  // Cells
  // ---------------------------------------------------------------------------

  /** A grid cell as the client reads it: how many files were found and
      their paths. */
  datatype ClientCell = ClientCell(count: nat, paths: seq<string>)

  /** The link of an ok cell: a download of the file with a suggested name,
      or the viewer route opened in a new tab. The file is the path as
      given; its URL encoding is not modelled. */
  datatype Link = Download(route: string, file: string, downloadName: string) | Viewer(route: string, file: string)

  /** What a cell shows: a cross, a tick with its link, extension and
      optional badge, or a warning with all paths in its tooltip. */
  datatype CellDisplay =
    | FailCell
    | OkCell(title: string, link: Link, extension: string, badge: Option<string>)
    | WarnCell(title: string)

  /** A cell the client can render: an ok cell names its file. */
  predicate Renderable(cell: ClientCell) { cell.count == 1 ==> cell.paths != [] }

  /** The count decides the state: 0 fails, 1 is ok, anything else warns.
      An ok cell links to its first path, as a download with the
      `_readonly` name for an Excel file and to the viewer otherwise, and
      shows the final component's extension and badge. */
  function RenderCell(basePath: string, cell: ClientCell): (r: CellDisplay)
    requires Renderable(cell)
    ensures r.FailCell? <==> cell.count == 0
    ensures r.OkCell? <==> cell.count == 1
    ensures r.WarnCell? <==> cell.count > 1
    ensures r.OkCell? ==>
      var path := cell.paths[0];
      var name := FinalComponent(path);
      && r.title == path
      && r.link.file == path
      && (r.link.Download? <==> IsExcel(path))
      && (r.link.Download? ==> r.link.route == basePath + "/file" && r.link.downloadName == DownloadName(name))
      && (r.link.Viewer? ==> r.link.route == basePath + "/view")
      && r.extension == SplitExtension(name).1
      && r.badge == ExtractBadgeNumber(name)
    ensures r.WarnCell? ==> r.title == Join(cell.paths, "\n")
  {
    if cell.count == 0 then FailCell
    else if cell.count == 1 then
      var path := cell.paths[0];
      var name := FinalComponent(path);
      var link := if IsExcel(path) then Download(basePath + "/file", path, DownloadName(name))
                  else Viewer(basePath + "/view", path);
      OkCell(path, link, SplitExtension(name).1, ExtractBadgeNumber(name))
    else WarnCell(Join(cell.paths, "\n"))
  }

  /** The badge is read from the end of the name's base: the base is
      everything up to the last `_`, then the badge segment. */
  lemma BadgeSegmentEndsBase(name: string)
    requires BadgeSegment(name).Some?
    ensures SplitExtension(name).0 == name[..LastIndexOf(name, '_') + 1] + BadgeSegment(name).value
  {
  }

  // ---------------------------------------------------------------------------
  // Rows and the table
  // ---------------------------------------------------------------------------

  /** A grid row as the client reads it. */
  datatype ClientRow = ClientRow(month: string, cells: map<string, ClientCell>)

  /** Every column has a cell the client can render. */
  predicate RowReady(columns: seq<Server.Column>, row: ClientRow)
  {
    forall c :: c in columns ==> c.key in row.cells && Renderable(row.cells[c.key])
  }

  datatype RenderedRow = RenderedRow(monthText: string, cells: seq<CellDisplay>)

  /** A row: its month label, then one cell per column, in column order. */
  function RenderRow(basePath: string, columns: seq<Server.Column>, row: ClientRow): (r: RenderedRow)
    requires RowReady(columns, row)
    ensures r.monthText == FormatMonth(row.month)
    ensures |r.cells| == |columns|
    ensures forall k :: 0 <= k < |columns| ==> r.cells[k] == RenderCell(basePath, row.cells[columns[k].key])
  {
    RenderedRow(FormatMonth(row.month),
      seq(|columns|, k requires 0 <= k < |columns| => RenderCell(basePath, row.cells[columns[k].key])))
  }

  /** The table, or the notice shown when no month was found. */
  datatype Rendered = NoFiles | Table(headers: seq<string>, rows: seq<RenderedRow>)

  /** The grid in reverse: newest first. */
  function Reversed(grid: seq<ClientRow>): (r: seq<ClientRow>)
    ensures |r| == |grid|
    ensures forall j :: 0 <= j < |grid| ==> r[j] == grid[|grid| - 1 - j]
  {
    if grid == [] then [] else Reversed(grid[1..]) + [grid[0]]
  }

  /** Reversing emits each row exactly once. */
  lemma {:induction false} ReversedIsPermutation(grid: seq<ClientRow>)
    ensures multiset(Reversed(grid)) == multiset(grid)
  {
    if grid != [] {
      ReversedIsPermutation(grid[1..]);
      assert grid == [grid[0]] + grid[1..];
    }
  }

  /** Reversing twice gives the grid back. */
  lemma ReversedTwice(grid: seq<ClientRow>)
    ensures Reversed(Reversed(grid)) == grid
  {
  }

  /** When the grid's months ascend, as the server's axis does, the table's
      rows descend: each row is for a later month than every row below it. */
  lemma NewestFirst(grid: seq<ClientRow>)
    requires forall i, j :: 0 <= i < j < |grid| ==> LexLess(grid[i].month, grid[j].month)
    ensures forall i, j :: 0 <= i < j < |grid| ==> LexLess(Reversed(grid)[j].month, Reversed(grid)[i].month)
  {
  }

  /** `renderGrid`: with no months the notice; otherwise a header cell
      `Month` and one per column label, then the rows from the last grid
      row up to the first. The rows are only read when there are months. */
  method RenderGrid(basePath: string, months: seq<string>, columns: seq<Server.Column>, grid: seq<ClientRow>)
    returns (out: Rendered)
    requires months != [] ==> forall i :: 0 <= i < |grid| ==> RowReady(columns, grid[i])
    ensures out.NoFiles? <==> months == []
    ensures out.Table? ==>
      && |out.headers| == |columns| + 1 && out.headers[0] == "Month"
      && (forall k :: 0 <= k < |columns| ==> out.headers[k + 1] == columns[k].labelText)
      && |out.rows| == |grid|
      && forall j :: 0 <= j < |grid| ==> out.rows[j] == RenderRow(basePath, columns, Reversed(grid)[j])
  {
    if |months| == 0 {
      return NoFiles;
    }
    var headers := ["Month"];
    for k := 0 to |columns|
      invariant |headers| == k + 1 && headers[0] == "Month"
      invariant forall h :: 0 <= h < k ==> headers[h + 1] == columns[h].labelText
    {
      headers := headers + [columns[k].labelText];
    }
    var rows: seq<RenderedRow> := [];
    var i := |grid| - 1;
    while i >= 0
      invariant -1 <= i < |grid|
      invariant |rows| == |grid| - 1 - i
      invariant forall j :: 0 <= j < |rows| ==> rows[j] == RenderRow(basePath, columns, grid[|grid| - 1 - j])
    {
      var row := grid[i];
      var cells: seq<CellDisplay> := [];
      for k := 0 to |columns|
        invariant |cells| == k
        invariant forall h :: 0 <= h < k ==> cells[h] == RenderCell(basePath, row.cells[columns[h].key])
      {
        cells := cells + [RenderCell(basePath, row.cells[columns[k].key])];
      }
      rows := rows + [RenderedRow(FormatMonth(row.month), cells)];
      i := i - 1;
    }
    return Table(headers, rows);
  }
}
