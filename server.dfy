/** The status endpoint of server.js: keep the files whose base name starts
    with a period token, collect the observed periods, expand them into a
    gap-free month axis and build the month x category grid from a fixed
    key -> label dictionary. */
module Server {
  import opened Text
  import opened Periods
  import opened Ordering

  /** One kept file: its base name and its period token. */
  datatype FileData = FileData(file: string, ym: string)

  /** A grid column: a dictionary key and its label (the JSON field `label`). */
  datatype Column = Column(key: string, labelText: string)

  /** The configuration the server loads once at start-up, passed in here.
      The dictionary lists its entries in enumeration order. */
  datatype Config = Config(folderPath: string, dictionary: seq<(string, string)>)

  /** A value stored in a grid row object: the `month` string, or a cell's
      boolean. */
  datatype CellValue = MonthText(text: string) | Flag(found: bool)

  /** A grid row: a JavaScript object from property names to values. */
  type Row = map<string, CellValue>

  /** The JSON body of a successful response. */
  datatype Report = Report(months: seq<string>, columns: seq<Column>, grid: seq<Row>)

  // ---------------------------------------------------------------------------
  // Keeping the files that carry a period
  // ---------------------------------------------------------------------------

  /** The path without its trailing separators: a prefix of it, followed
      in it only by `/` characters, and not itself ending in `/`. */
  function StripTrailingSlashes(path: string): (p: string)
    ensures |p| <= |path| && path[..|p|] == p
    ensures forall k :: |p| <= k < |path| ==> path[k] == '/'
    ensures p == [] || p[|p| - 1] != '/'
  {
    if path != [] && path[|path| - 1] == '/' then StripTrailingSlashes(path[..|path| - 1]) else path
  }

  /** `path.basename` with POSIX separators: the last component, trailing
      separators ignored. The name ends the stripped path, holds no `/`,
      and is preceded by a `/` unless it is the whole stripped path. */
  function BaseName(path: string): (name: string)
    ensures var p := StripTrailingSlashes(path);
      && |name| <= |p| && p[|p| - |name|..] == name
      && '/' !in name
      && (|name| < |p| ==> p[|p| - |name| - 1] == '/')
  {
    var p := StripTrailingSlashes(path);
    p[LastIndexOf(p, '/') + 1..]
  }

  /** What one iteration of the forEach loop pushes for `fullPath`: the
      base name with its period when the name starts with one, and nothing
      otherwise. */
  function Keep(fullPath: string): (pushed: seq<FileData>)
    ensures |pushed| <= 1
    ensures pushed == [] <==> ExtractYearMonth(BaseName(fullPath)).None?
    ensures pushed != [] ==> pushed[0].file == BaseName(fullPath) && ExtractYearMonth(pushed[0].file) == Some(pushed[0].ym)
  {
    var file := BaseName(fullPath);
    var ym := ExtractYearMonth(file);
    if ym.None? then [] else [FileData(file, ym.value)]
  }

  /** An entry pushed for `fullPath` is its base name with the period that
      name starts with. */
  lemma KeepEntry(fullPath: string, f: FileData)
    requires f in Keep(fullPath)
    ensures f.file == BaseName(fullPath) && ExtractYearMonth(f.file) == Some(f.ym) && IsPeriod(f.ym)
  {
    assert f == Keep(fullPath)[0];
  }

  /** The list a loop builds by appending `push(x)` for each element in
      turn. */
  function FlatMap<T, U>(push: T -> seq<U>, xs: seq<T>): seq<U>
  {
    if xs == [] then [] else push(xs[0]) + FlatMap(push, xs[1..])
  }

  /** Building over a concatenation builds over each part in turn: the
      entries keep the order of the elements they come from. */
  lemma {:induction false} FlatMapAppend<T, U>(push: T -> seq<U>, a: seq<T>, b: seq<T>)
    ensures FlatMap(push, a + b) == FlatMap(push, a) + FlatMap(push, b)
  {
    if a == [] {
      assert a + b == b;
    } else {
      assert (a + b)[0] == a[0];
      assert (a + b)[1..] == a[1..] + b;
      FlatMapAppend(push, a[1..], b);
    }
  }

  /** One more step of the loop appends what the next element pushes. */
  lemma FlatMapSnoc<T, U>(push: T -> seq<U>, xs: seq<T>, i: nat)
    requires i < |xs|
    ensures FlatMap(push, xs[..i + 1]) == FlatMap(push, xs[..i]) + push(xs[i])
  {
    assert xs[..i + 1] == xs[..i] + [xs[i]];
    FlatMapAppend(push, xs[..i], [xs[i]]);
    assert FlatMap(push, [xs[i]]) == push(xs[i]) + FlatMap(push, []);
  }

  /** Every entry was pushed for some element. */
  lemma {:induction false} FlatMapSound<T, U>(push: T -> seq<U>, xs: seq<T>)
    ensures forall u :: u in FlatMap(push, xs) ==> exists x :: x in xs && u in push(x)
  {
    if xs != [] {
      var rest := xs[1..];
      FlatMapSound(push, rest);
      var h, t := push(xs[0]), FlatMap(push, rest);
      assert FlatMap(push, xs) == h + t;
      forall u | u in h + t ensures exists x :: x in xs && u in push(x) {
        if u in h {
          assert xs[0] in xs;
        } else {
          var x :| x in rest && u in push(x);
          assert x in xs;
        }
      }
    }
  }

  /** Whatever the element at index `i` pushes is in the result. */
  lemma FlatMapAt<T, U>(push: T -> seq<U>, xs: seq<T>, i: nat, u: U)
    requires i < |xs| && u in push(xs[i])
    ensures u in FlatMap(push, xs)
  {
    assert xs == xs[..i + 1] + xs[i + 1..];
    FlatMapAppend(push, xs[..i + 1], xs[i + 1..]);
    FlatMapSnoc(push, xs, i);
  }

  /** When each element pushes at most one entry, the result is no longer
      than the input. */
  lemma {:induction false} FlatMapLength<T, U>(push: T -> seq<U>, xs: seq<T>)
    requires forall x :: |push(x)| <= 1
    ensures |FlatMap(push, xs)| <= |xs|
  {
    if xs != [] {
      FlatMapLength(push, xs[1..]);
    }
  }

  /** The `fileData` list that the forEach loop builds from the listing.
      Each listed path pushes at most one entry, so the kept list is no
      longer than the listing. */
  function KeptFiles(files: seq<string>): (kept: seq<FileData>)
    ensures |kept| <= |files|
  {
    FlatMapLength(Keep, files);
    FlatMap(Keep, files)
  }

  /** Each kept entry pairs the base name of a listed path with the period
      that name starts with. */
  lemma KeptFilesSound(files: seq<string>)
    ensures forall f :: f in KeptFiles(files) ==>
      ExtractYearMonth(f.file) == Some(f.ym) && exists p :: p in files && BaseName(p) == f.file
  {
    FlatMapSound(Keep, files);
    forall f | f in KeptFiles(files)
      ensures ExtractYearMonth(f.file) == Some(f.ym) && exists p :: p in files && BaseName(p) == f.file
    {
      var p :| p in files && f in Keep(p);
      KeepEntry(p, f);
    }
  }

  /** Every listed path whose base name starts with a period is kept. */
  lemma KeptFilesComplete(files: seq<string>)
    ensures forall p :: p in files && ExtractYearMonth(BaseName(p)).Some? ==>
      FileData(BaseName(p), ExtractYearMonth(BaseName(p)).value) in KeptFiles(files)
  {
    forall p | p in files && ExtractYearMonth(BaseName(p)).Some?
      ensures FileData(BaseName(p), ExtractYearMonth(BaseName(p)).value) in KeptFiles(files)
    {
      var i :| 0 <= i < |files| && files[i] == p;
      FlatMapAt(Keep, files, i, FileData(BaseName(p), ExtractYearMonth(BaseName(p)).value));
    }
  }

  /** The forEach loop of the status handler: push `{file, ym}` for every
      path whose base name yields a period. */
  method FilterPeriodFiles(files: seq<string>) returns (fileData: seq<FileData>)
    ensures fileData == KeptFiles(files)
  {
    fileData := [];
    for i := 0 to |files|
      invariant fileData == KeptFiles(files[..i])
    {
      var file := BaseName(files[i]);
      var ym := ExtractYearMonth(file);
      if ym.Some? {
        fileData := fileData + [FileData(file, ym.value)];
      }
      FlatMapSnoc(Keep, files, i);
    }
    assert files[..|files|] == files;
  }

  // ---------------------------------------------------------------------------
  // Observed months
  // ---------------------------------------------------------------------------

  /** `fileData.map(f => f.ym)`. */
  function YearMonths(fileData: seq<FileData>): (yms: seq<string>)
    ensures |yms| == |fileData|
    ensures forall k :: 0 <= k < |fileData| ==> yms[k] == fileData[k].ym
  {
    if fileData == [] then [] else [fileData[0].ym] + YearMonths(fileData[1..])
  }

  /** `Array.from(new Set(fileData.map(f => f.ym))).sort()`: strictly
      ascending, holding exactly the mapped periods. */
  function ObservedMonths(fileData: seq<FileData>): (months: seq<string>)
    ensures StrictlyAscending(months)
    ensures forall m :: m in months <==> m in YearMonths(fileData)
  {
    SortedDistinct(YearMonths(fileData))
  }

  /** Every kept file's period is a six-digit token. */
  lemma KeptFilesPeriods(files: seq<string>)
    ensures forall k :: 0 <= k < |KeptFiles(files)| ==> IsPeriod(KeptFiles(files)[k].ym)
  {
    var kept := KeptFiles(files);
    FlatMapSound(Keep, files);
    forall k | 0 <= k < |kept| ensures IsPeriod(kept[k].ym) {
      assert kept[k] in kept;
      var p :| p in files && kept[k] in Keep(p);
      KeepEntry(p, kept[k]);
    }
  }

  /** The observed months are strictly ascending (so free of duplicates) and
      are exactly the periods of the kept files. */
  lemma ObservedMonthsSpec(fileData: seq<FileData>)
    ensures var r := ObservedMonths(fileData);
      && StrictlyAscending(r)
      && (forall m :: m in r <==> exists k :: 0 <= k < |fileData| && fileData[k].ym == m)
      && ((forall k :: 0 <= k < |fileData| ==> IsPeriod(fileData[k].ym)) ==>
            forall i :: 0 <= i < |r| ==> IsPeriod(r[i]))
  {
    var yms := YearMonths(fileData);
    var r := ObservedMonths(fileData);
    forall m ensures m in yms <==> exists k :: 0 <= k < |fileData| && fileData[k].ym == m {
      if m in yms {
        var k :| 0 <= k < |yms| && yms[k] == m;
        assert fileData[k].ym == m;
      }
    }
    if forall k :: 0 <= k < |fileData| ==> IsPeriod(fileData[k].ym) {
      forall i | 0 <= i < |r| ensures IsPeriod(r[i]) {
        assert r[i] in yms;
      }
    }
  }

  // ---------------------------------------------------------------------------
  // Columns and grid
  // ---------------------------------------------------------------------------

  /** `Object.entries(dictionary).map(([key, value]) => ({ key, label: value }))`. */
  function Columns(dictionary: seq<(string, string)>): (columns: seq<Column>)
    ensures |columns| == |dictionary|
    ensures forall i :: 0 <= i < |columns| ==>
      columns[i].key == dictionary[i].0 && columns[i].labelText == dictionary[i].1
  {
    if dictionary == [] then []
    else [Column(dictionary[0].0, dictionary[0].1)] + Columns(dictionary[1..])
  }

  function KeySet(columns: seq<Column>): set<string>
  {
    set c | c in columns :: c.key
  }

  /** `fileData.some(f => f.ym === month && f.file.includes(key))`. */
  function AnyFileMatches(fileData: seq<FileData>, month: string, key: string): (found: bool)
    ensures found <==> exists k :: 0 <= k < |fileData| && fileData[k].ym == month && Contains(fileData[k].file, key)
  {
    if fileData == [] then false
    else if fileData[0].ym == month && Contains(fileData[0].file, key) then true
    else
      var found := AnyFileMatches(fileData[1..], month, key);
      assert found ==> exists k :: 0 <= k < |fileData| && fileData[k].ym == month && Contains(fileData[k].file, key) by {
        if found {
          var k :| 0 <= k < |fileData[1..]| && fileData[1..][k].ym == month && Contains(fileData[1..][k].file, key);
          assert fileData[k + 1] == fileData[1..][k];
        }
      }
      assert (exists k :: 0 <= k < |fileData| && fileData[k].ym == month && Contains(fileData[k].file, key)) ==> found by {
        if exists k :: 0 <= k < |fileData| && fileData[k].ym == month && Contains(fileData[k].file, key) {
          var k :| 0 <= k < |fileData| && fileData[k].ym == month && Contains(fileData[k].file, key);
          assert k > 0;
          assert fileData[1..][k - 1] == fileData[k];
        }
      }
      found
  }

  /** The `columns.forEach` loop: set `row[col.key] = found` for each column in
      turn. A later assignment to the same property replaces an earlier one,
      and a key "month" replaces the month string. */
  function FillRow(row: Row, columns: seq<Column>, month: string, fileData: seq<FileData>): (r: Row)
    decreases columns
    ensures r.Keys == row.Keys + KeySet(columns)
    ensures forall c :: c in columns ==> r[c.key] == Flag(AnyFileMatches(fileData, month, c.key))
    ensures forall k :: k in row && k !in KeySet(columns) ==> r[k] == row[k]
  {
    if columns == [] then row
    else
      var c := columns[0];
      var r := FillRow(row[c.key := Flag(AnyFileMatches(fileData, month, c.key))], columns[1..], month, fileData);
      assert KeySet(columns) == {c.key} + KeySet(columns[1..]) by {
        assert columns == [c] + columns[1..];
      }
      r
  }

  /** One element of `months.map(...)`: `{ month }` and then one boolean per
      column, so the row has the property `month` and one per key; each key
      holds whether a kept file of the month contains it, and the month
      string survives unless a key is literally "month". */
  function BuildRow(month: string, columns: seq<Column>, fileData: seq<FileData>): (row: Row)
    ensures row.Keys == {"month"} + KeySet(columns)
    ensures forall c :: c in columns ==> row[c.key] == Flag(AnyFileMatches(fileData, month, c.key))
    ensures "month" !in KeySet(columns) ==> row["month"] == MonthText(month)
  {
    FillRow(map["month" := MonthText(month)], columns, month, fileData)
  }

  /** `months.map(month => row)`: one row per month, in the same order. */
  function BuildGrid(months: seq<string>, columns: seq<Column>, fileData: seq<FileData>): (grid: seq<Row>)
    ensures |grid| == |months|
    ensures forall i :: 0 <= i < |grid| ==> grid[i] == BuildRow(months[i], columns, fileData)
  {
    if months == [] then []
    else [BuildRow(months[0], columns, fileData)] + BuildGrid(months[1..], columns, fileData)
  }

  /** The grid is dense: each row has the property `month` and one property
      per dictionary key and no other. Its month is the axis month at the
      same index unless a dictionary key is literally "month", and each cell
      is true exactly when some kept file has that month and its base name
      contains the key; so one file can set several cells of its row. */
  lemma GridCells(months: seq<string>, columns: seq<Column>, fileData: seq<FileData>, i: nat, c: Column)
    requires i < |months| && c in columns
    ensures var grid := BuildGrid(months, columns, fileData);
      && |grid| == |months|
      && grid[i].Keys == {"month"} + KeySet(columns)
      && ("month" !in KeySet(columns) ==> grid[i]["month"] == MonthText(months[i]))
      && (grid[i][c.key] == Flag(true) <==>
            exists k, j :: 0 <= k < |fileData| && fileData[k].ym == months[i] && OccursAt(fileData[k].file, c.key, j))
      && (grid[i][c.key] == Flag(false) <==> !grid[i][c.key].found)
  {
    var grid := BuildGrid(months, columns, fileData);
    forall k | 0 <= k < |fileData| ensures Contains(fileData[k].file, c.key) <==> exists j :: OccursAt(fileData[k].file, c.key, j) {
      ContainsIffOccurs(fileData[k].file, c.key);
    }
  }

  // ---------------------------------------------------------------------------
  // The whole handler
  // ---------------------------------------------------------------------------

  /** The first and last observed month: `months[0]` and
      `months[months.length - 1]`. */
  function AxisOf(observed: seq<string>): (axis: seq<string>)
    requires forall i :: 0 <= i < |observed| ==> IsPeriod(observed[i])
    ensures axis == [] <==> observed == [] || LexLess(observed[|observed| - 1], observed[0])
    ensures axis != [] ==> axis[0] == observed[0]
  {
    if |observed| > 0 then MonthRange(observed[0], observed[|observed| - 1]) else observed
  }

  /** The response of `GET /api/status` for a listing that could be read:
      one column per dictionary entry and one grid row per axis month. */
  function StatusReport(files: seq<string>, config: Config): (r: Report)
    ensures |r.columns| == |config.dictionary|
    ensures |r.grid| == |r.months|
  {
    var fileData := KeptFiles(files);
    KeptFilesPeriods(files);
    ObservedMonthsSpec(fileData);
    var months := AxisOf(ObservedMonths(fileData));
    var columns := Columns(config.dictionary);
    Report(months, columns, BuildGrid(months, columns, fileData))
  }

  /** The handler body after the listing: filter, collect months, expand the
      axis, then build columns and grid. */
  method Status(files: seq<string>, config: Config) returns (report: Report)
    ensures report == StatusReport(files, config)
  {
    var fileData := FilterPeriodFiles(files);
    KeptFilesPeriods(files);
    ObservedMonthsSpec(fileData);
    var months := ObservedMonths(fileData);
    if |months| > 0 {
      var allMonths := GetAllMonths(months[0], months[|months| - 1]);
      months := allMonths;
    }
    var columns := Columns(config.dictionary);
    var grid := BuildGrid(months, columns, fileData);
    report := Report(months, columns, grid);
  }

  /** The first and last elements of a strictly ascending list bound all
      of its elements. */
  lemma AscendingBounds(xs: seq<string>, i: nat)
    requires StrictlyAscending(xs) && i < |xs|
    ensures !LexLess(xs[i], xs[0]) && !LexLess(xs[|xs| - 1], xs[i])
  {
    if i > 0 { LexAsymmetric(xs[0], xs[i]); } else { LexIrreflexive(xs[0]); }
    if i < |xs| - 1 { LexAsymmetric(xs[i], xs[|xs| - 1]); } else { LexIrreflexive(xs[i]); }
  }

  /** The axis built from strictly ascending period tokens is empty exactly
      when there are none; it is strictly ascending and steps by the calendar
      successor. */
  lemma AxisOfSpec(observed: seq<string>)
    requires StrictlyAscending(observed)
    requires forall i :: 0 <= i < |observed| ==> IsPeriod(observed[i])
    ensures var a := AxisOf(observed);
      && (a == [] <==> observed == [])
      && (forall i, j :: 0 <= i < j < |a| ==> LexLess(a[i], a[j]))
      && (forall i :: 0 <= i < |a| - 1 ==> IsPeriod(a[i]) && a[i + 1] == NextPeriod(a[i]))
  {
    if |observed| > 0 {
      AscendingBounds(observed, 0);
      MonthRangeSteps(observed[0], observed[|observed| - 1]);
    }
  }

  /** The month axis of a response is empty exactly when no file was kept;
      otherwise it starts at the earliest observed month, is strictly
      ascending and steps by the calendar successor. */
  lemma StatusAxis(files: seq<string>, config: Config)
    ensures var r, fileData := StatusReport(files, config), KeptFiles(files);
      && (r.months == [] <==> fileData == [])
      && (r.months != [] ==> r.months[0] == ObservedMonths(fileData)[0])
      && (forall i, j :: 0 <= i < j < |r.months| ==> LexLess(r.months[i], r.months[j]))
      && (forall i :: 0 <= i < |r.months| - 1 ==> IsPeriod(r.months[i]) && r.months[i + 1] == NextPeriod(r.months[i]))
  {
    var fileData := KeptFiles(files);
    KeptFilesPeriods(files);
    ObservedMonthsSpec(fileData);
    var observed := ObservedMonths(fileData);
    AxisOfSpec(observed);
    if fileData != [] {
      assert fileData[0].ym in observed;
    }
    assert StatusReport(files, config).months == AxisOf(observed);
  }

  /** Every kept file whose period has a month in 01..12 has its period on the
      month axis of the response. */
  lemma StatusAxisCoversKept(files: seq<string>, config: Config, f: FileData)
    requires f in KeptFiles(files)
    requires HasValidMonth(f.ym)
    ensures f.ym in StatusReport(files, config).months
  {
    var fileData := KeptFiles(files);
    KeptFilesPeriods(files);
    ObservedMonthsSpec(fileData);
    var observed := ObservedMonths(fileData);
    var k :| 0 <= k < |fileData| && fileData[k] == f;
    assert f.ym in observed;
    var i :| 0 <= i < |observed| && observed[i] == f.ym;
    AscendingBounds(observed, i);
    MonthRangeCovers(observed[0], observed[|observed| - 1], f.ym);
  }

  /** When the earliest and latest observed months are in 01..12, the axis
      ends at the latest one. */
  lemma StatusAxisLast(files: seq<string>, config: Config)
    requires var observed := ObservedMonths(KeptFiles(files));
      observed != [] && HasValidMonth(observed[0]) && HasValidMonth(observed[|observed| - 1])
    ensures var r, observed := StatusReport(files, config), ObservedMonths(KeptFiles(files));
      r.months != [] && r.months[|r.months| - 1] == observed[|observed| - 1]
  {
    var fileData := KeptFiles(files);
    KeptFilesPeriods(files);
    ObservedMonthsSpec(fileData);
    var observed := ObservedMonths(fileData);
    AscendingBounds(observed, 0);
    MonthRangeLength(observed[0], observed[|observed| - 1]);
    assert StatusReport(files, config).months == MonthRange(observed[0], observed[|observed| - 1]);
  }
}
