# conta_check_status — a Dafny model of the status grid

conta_check_status audits a folder of accounting documents. The server
(`server.js`) lists every file under the configured folder. It keeps the files
whose base name starts with a six-digit `YYYYMM` period, and collects the
distinct periods in sorted order. It then expands them into a gap-free month
axis from the earliest to the latest. The response is a grid with one row per
axis month and one column per dictionary key; a cell says whether some kept
file of that month has the key in its name. The browser client
(`app/public/app.js`, with an older copy in `public/app.js`) renders the grid
newest month first. It shows each cell in one of three states:

- a cross when no file was found;
- a tick when exactly one file was found; it links to that file (a download
  under a `_readonly` name for Excel files, the viewer otherwise) and shows its
  extension and a "badge" number taken from its name;
- a warning when several files were found.

The model is split into seven modules.

- `Text` (text.dfy) holds the JavaScript string behaviour the code relies on:
  `\d`, `includes`, `lastIndexOf`, ASCII `toLowerCase`, `replace` of a single
  character, `toString`/`padStart`/`parseInt` on decimal numbers, and the
  code-unit order of the default `sort`.
- `Periods` (periods.dfy) covers `extractYearMonth` and `getAllMonths`.
  `getAllMonths` is a method with the source's while loop, proved against the
  pure `MonthRange`. Lemmas about `MonthRange` give its shape, its order, its
  length and which months it covers.
- `Ordering` (ordering.dfy) covers `Array.from(new Set(...)).sort()` as
  first-occurrence distinct followed by an insertion sort.
- `Server` (server.dfy) covers the filter loop (a method proved against
  `KeptFiles`), the observed months, the columns, the grid rows (JavaScript
  objects as maps, so a key `month` overwrites the month) and the whole
  handler after the directory walk.
- `Badge` (badge.dfy) covers `extractBadgeNumber`. The global
  `matchAll(/\d+-\d+/g)` is modelled as a leftmost, greedy, non-overlapping
  scan. Lemmas show that every match it yields is found at its start, that
  the matches do not overlap, and that every index where the expression
  matches lies inside one of them. They also show that any list with these
  three properties is the scan itself, so the last match, and with it the
  badge, is determined.
- `Client` (client.dfy) covers `basePath`, the month label, the final path
  component, the extension split, the download name, the Excel test, the
  three-way cell state and `renderGrid` (a method with the source's descending
  loop, proved against `Reversed`).
- `LegacyClient` (legacy_client.dfy) covers the older `renderGrid`, proved to
  agree with the current client up to routes at the site root and the badge.

Two behaviours of the code are worth knowing and are stated as lemmas.

- The Excel test reads the text after the last `.` of the whole path. The
  extension and download name read the final path component. The two agree
  when the final component has a dot (`Client.ExcelByFinalExtension`). Without
  one, the path counts as Excel only when it has no dot at all and is itself
  `xls`/`xlsx` (`Client.ExcelWithoutFinalDot`).
- `getAllMonths` does not validate months. A period such as `202413` is
  reached only if it is the first month: the rollover jumps past it
  (`Periods.MonthRangeSkipsInvalidMonth`).

The server shown here stores one boolean per cell. The client reads a cell's
`count` and `paths`. The model keeps both as written: the server's `Row` holds
`Flag(found)` values, and the client takes a `ClientCell(count, paths)` as
input.

## Model

| member | source | states |
|---|---|---|
| Text.LeadingDigits | server.js:15 | the greedy digit run at the start: all digits, and followed by a non-digit or the end |
| Text.LeadingDigitsAtLeast | server.js:15 | a prefix of `k` digits makes the greedy run at least `k` long |
| Text.LeadingDigitsExact | app/public/app.js:16 | a digit prefix followed by a non-digit is exactly the greedy run |
| Text.ContainsIffOccurs | server.js:94 | `includes` holds exactly when the key occurs at some index of the name |
| Text.Contains | server.js:94 | `includes`: the empty key is in every name, and a key longer than the name never is |
| Text.LastIndexOf | app/public/app.js:12-13 | -1 exactly when the character is absent; otherwise an index holding it with no occurrence after it |
| Text.LastIndexOfConcat | app/public/app.js:12 | the last occurrence in `a + b` lies in `b` (shifted by `\|a\|`) when `b` has one, else it is the last one in `a` |
| Text.LastIndexOfAt | app/public/app.js:62 | an occurrence with no later occurrence is what `lastIndexOf` returns |
| Text.AfterLastInSuffix | app/public/app.js:62 | when a string ends with `b` and `b` holds `c`, the text after the last `c` is the same in both |
| Text.ToLower | app/public/app.js:62 | same length, each character lower-cased |
| Text.ReplaceFirst | app/public/app.js:18 | same length as the input |
| Text.Join | app/public/app.js:92 | no parts give the empty string; otherwise the result starts with the first part and is as long as the parts plus one separator between each two |
| Text.LexLess | server.js:54 | the comparison of the default `sort`: never between equal strings, and a proper prefix comes first |
| Text.LexIrreflexive | server.js:54 | the default string order is irreflexive |
| Text.LexTransitive | server.js:54 | the default string order is transitive |
| Text.LexTotal | server.js:54 | any two distinct strings are ordered one way or the other |
| Text.LexAsymmetric | server.js:54 | no two strings are each below the other |
| Text.Pow10 | server.js:65-66 | a power of ten is positive |
| Text.Digit | server.js:65-66 | the digit character of a value below ten, which reads back as that value |
| Text.FixedWidth | server.js:65-66 | exactly `k` digit characters |
| Text.ToDecimal | server.js:65-66 | `toString` of a non-negative integer is a non-empty digit string |
| Text.Zeros | server.js:65-66 | `k` characters of padding |
| Text.PadStart | server.js:65-66 | `padStart` never truncates: the longer of the input length and `k` |
| Text.FixedWidthZero | server.js:65-66 | the fixed-width form of 0 is all zeros |
| Text.PadStartSnoc | server.js:65-66 | padding commutes with appending a last character |
| Text.PadDecimal | server.js:65-66 | padding the decimal of a number that fits in `k` digits gives its `k`-digit fixed-width form |
| Text.ValueOfFixedWidth | server.js:59-62 | `parseInt` of the fixed-width form gives the number back |
| Text.FixedWidthOfValue | server.js:59-62 | a digit string is the fixed-width form of its value |
| Text.Value | server.js:59-62 | `parseInt` of an n-digit string is below 10^n |
| Text.ValueInjective | server.js:59-62 | equal-length digit strings with equal values are equal |
| Text.LexSnoc | server.js:54 | equal-length strings compare on all but the last character, then on the last |
| Text.ValueAppendTwo | server.js:59-62 | the value of a digit string followed by two digits is 100 × the first + the second |
| Text.LexIsNumeric | server.js:54 | for digit strings of equal length, string order is numeric order |
| Periods.ExtractYearMonth | server.js:14-17 | the first six characters exactly when the name begins with six digits, null otherwise |
| Periods.LeadingSixDigits | server.js:15 | the greedy digit run is at least six long exactly when the name begins with six digits |
| Periods.ParsePeriod | server.js:59-62 | the year fits in four digits and the month in two |
| Periods.FormatPeriod | server.js:64-67 | at least six characters; with `ParseOfFormat` and `FormatOfParse` it is the inverse of `ParsePeriod` on tokens |
| Periods.FormatFixed | server.js:64-67 | for a pair that fits in four and two digits, the two padded fields are its fixed-width forms |
| Periods.FormatOfFields | server.js:64-67 | a pair whose fixed-width fields are the halves of a token formats as that token |
| Periods.ParseOfFormat | server.js:59-67 | formatting a pair that fits gives a six-digit token that parses back to the pair |
| Periods.FormatOfParse | server.js:59-67 | parsing a token and formatting the pair gives the token back |
| Periods.PeriodValue | server.js:59-62 | a token's numeric value is 100 × year + month |
| Periods.PeriodOrder | server.js:54 | string order of tokens is calendar order of their pairs |
| Periods.Next | server.js:68-72 | the successor has a month in 1..12 and is strictly later; from a month in 1..12 it is the next month |
| Periods.Axis | server.js:63-73 | empty exactly when the loop guard fails at once; otherwise starts at the start pair |
| Periods.MonthRange | server.js:57-75 | empty exactly when `end` sorts before `start`; otherwise begins with `start` |
| Periods.Render | server.js:64-67 | one formatted token per pair, index by index |
| Periods.PushStep | server.js:63-72 | one loop iteration keeps "collected + rest of the axis" unchanged |
| Periods.StopStep | server.js:63 | once the guard fails nothing more is collected |
| Periods.GetAllMonths | server.js:57-75 | the while loop returns exactly `MonthRange(start, end)` |
| Periods.AxisShape | server.js:63-73 | every element is not after the end and fits in four and two digits, every element after the first has a month in 1..12, and each is followed by its successor |
| Periods.AxisAboveStart | server.js:68-72 | every later axis element is above the start |
| Periods.AxisAscending | server.js:63-73 | the axis is strictly ascending in calendar order |
| Periods.AxisLength | server.js:57-75 | with valid months and start ≤ end, the axis ends at end and has 12·Δyear + Δmonth + 1 elements |
| Periods.AxisCovers | server.js:57-75 | every valid month between start and end is on the axis |
| Periods.MonthRangeSteps | server.js:57-75 | the result holds tokens, steps by the calendar successor and is strictly ascending |
| Periods.MonthRangeLength | server.js:57-75 | with valid months and start ≤ end, ends with end and has the inclusive month count |
| Periods.RenderedAxisEnds | server.js:57-75 | the formatted axis between pairs with months in 1..12 ends with the end token and has the inclusive month count |
| Periods.MonthRangeCovers | server.js:57-75 | every valid-month token between start and end appears |
| Periods.MonthRangeSkipsInvalidMonth | server.js:68-72 | a token with month above 12 that is not the start never appears |
| Periods.MonthRangeTokenValid | server.js:68-72 | every token after the first has a month in 01..12 |
| Periods.NextPeriod | server.js:68-72 | below year 9999, a token that parses to the calendar successor and sorts after the input |
| Ordering.Distinct | server.js:53 | no duplicates, and the same members as the input |
| Ordering.Insert | server.js:54 | the result is the list plus the new element, as multisets |
| Ordering.InsertMembers | server.js:54 | inserting adds only the new element |
| Ordering.InsertSorted | server.js:54 | inserting into an ascending list keeps it ascending |
| Ordering.InsertStrict | server.js:54 | inserting a new string into a strictly ascending list keeps it strictly ascending |
| Ordering.Sort | server.js:54 | a permutation of the input, ascending, and strictly ascending when the input has no duplicates |
| Ordering.NoDuplicatesTail | server.js:53-54 | without duplicates, the head is not in the tail and the tail has no duplicates |
| Ordering.SortedDistinct | server.js:53-54 | strictly ascending and holding exactly the input's strings |
| Server.StripTrailingSlashes | server.js:45 | a prefix of the path, followed in it only by `/`, and not itself ending in `/` |
| Server.BaseName | server.js:45 | the name ends the stripped path, holds no `/`, and is preceded by `/` unless it is the whole stripped path |
| Server.Keep | server.js:45-49 | at most one entry; none exactly when the base name does not start with a period; the entry is the base name with its period |
| Server.KeepEntry | server.js:45-48 | a pushed entry is the base name with the six-digit period it starts with |
| Server.FlatMapAppend | server.js:44-50 | building over a concatenation builds over each part in turn |
| Server.FlatMapSnoc | server.js:44-50 | one more iteration appends what the next element pushes |
| Server.FlatMapSound | server.js:44-50 | every entry was pushed for some listed element |
| Server.FlatMapAt | server.js:44-50 | whatever a listed element pushes is in the result |
| Server.FlatMapLength | server.js:44-50 | at most one push per element gives a result no longer than the input |
| Server.FilterPeriodFiles | server.js:43-50 | the forEach loop builds exactly `KeptFiles(files)`, in listing order |
| Server.KeptFiles | server.js:43-50 | no more kept entries than listed paths |
| Server.KeptFilesSound | server.js:44-50 | each kept entry is the base name of a listed path paired with the period that name starts with |
| Server.KeptFilesComplete | server.js:44-50 | every listed path whose base name starts with a period is kept |
| Server.KeptFilesPeriods | server.js:46-48 | every kept period is a six-digit token |
| Server.YearMonths | server.js:53 | the periods of the kept files, index by index |
| Server.ObservedMonths | server.js:53-54 | strictly ascending and holding exactly the kept periods |
| Server.ObservedMonthsSpec | server.js:53-54 | the observed months are strictly ascending, exactly the kept periods, and tokens when those are |
| Server.Columns | server.js:83-86 | one column per dictionary entry, in entry order, with its key and label |
| Server.AnyFileMatches | server.js:93-95 | true exactly when some kept file has the month and contains the key |
| Server.FillRow | server.js:91-97 | the row gains one property per column key holding that column's flag; other properties are untouched |
| Server.BuildRow | server.js:89-98 | the row's properties are `month` and one per key; each key holds its flag; the month survives unless a key is `month` |
| Server.BuildGrid | server.js:89-99 | one row per month, in month order |
| Server.GridCells | server.js:89-99 | each row holds `month` plus one property per key; the month is the axis month unless a key is `month`; a cell is true exactly when a file of that month contains the key |
| Server.Status | server.js:43-105 | the handler, step by step, returns `StatusReport(files, config)` |
| Server.AscendingBounds | server.js:78 | the first and last elements of a strictly ascending list bound the others |
| Server.AxisOf | server.js:77-80 | empty exactly when nothing was observed or the last observed month sorts before the first; otherwise starts at the first |
| Server.StatusReport | server.js:77-99 | one column per dictionary entry and one grid row per axis month |
| Server.AxisOfSpec | server.js:77-80 | the axis is empty exactly when nothing was observed; strictly ascending; steps by the successor |
| Server.StatusAxis | server.js:77-80 | the response's axis is empty exactly when no file was kept; otherwise starts at the earliest observed month; strictly ascending; successor steps |
| Server.StatusAxisCoversKept | server.js:53-80 | every kept file with a valid month has its period on the response's axis |
| Server.StatusAxisLast | server.js:77-80 | with months in 01..12 at both ends, the axis ends at the latest observed month |
| Badge.DigitsEnd | app/public/app.js:16 | a greedy `\d+` from `i`: digits up to the result, which is the end or a non-digit |
| Badge.DigitsEndExact | app/public/app.js:16 | a digit run followed by a non-digit is exactly the greedy run |
| Badge.MatchAt | app/public/app.js:16 | a match at `i` is well formed, starts at `i` and is maximal |
| Badge.MatchAtComplete | app/public/app.js:16 | whenever digits, a dash and digits start at `i`, `MatchAt` finds a match there |
| Badge.Scan | app/public/app.js:16 | every match lies at or after the start index and within the string, and is non-empty |
| Badge.ScanMatches | app/public/app.js:16 | every match of the scan is what the expression finds at its start |
| Badge.ScanDisjoint | app/public/app.js:16 | each match ends at or before the start of every later one |
| Badge.ScanCovers | app/public/app.js:16 | every index from the start at which the expression matches lies inside one of the scan's matches |
| Badge.ScanLeftmost | app/public/app.js:16 | the scan is a global search: found matches, without overlap, covering every matching index |
| Badge.LeftmostUnique | app/public/app.js:16 | any list of found, non-overlapping, covering matches is the scan |
| Badge.LeftmostGap | app/public/app.js:16 | nothing matches between the start of a global search and its first match |
| Badge.LeftmostTail | app/public/app.js:16 | after its first match, a global search is a global search from that match's end |
| Badge.ScanSkip | app/public/app.js:16 | the scan passes over indices where nothing matches |
| Badge.NoMatchFromAll | app/public/app.js:16-17 | `NoMatchFrom` means no match starts at any later index |
| Badge.ScanEmpty | app/public/app.js:16-17 | the scan is empty exactly when no match starts at or after the index |
| Badge.ScanLast | app/public/app.js:16-18 | no match starts at or after the end of the last match |
| Badge.BadgeSegment | app/public/app.js:12-15 | present exactly when there is a `.` and a `_`, with the `.` at least two after the `_`; then the non-empty text between them, without `_` |
| Badge.DigitsSlice | app/public/app.js:16 | the digit parts of a match are digit strings |
| Badge.Commaed | app/public/app.js:18 | the match with its dash replaced by a comma is a badge |
| Badge.ReplaceAfterDigits | app/public/app.js:18 | after digits, the first non-digit character is the one replaced (the dash going in, the comma coming back) |
| Badge.ExtractBadgeNumber | app/public/app.js:11-19 | null when the guard fails; otherwise present exactly when some match exists; always digits, one comma, digits |
| Badge.LastBadge | app/public/app.js:16-18 | present exactly when the expression matches somewhere in the segment; always digits, one comma, digits |
| Badge.BadgeIsLastMatch | app/public/app.js:15-18 | the badge is the last match of the scan with its comma for the dash; no match starts at or after its end; turning the comma back gives text in the segment |
| Badge.SearchBadge | app/public/app.js:16-18 | for any global search of the segment: null when it is empty, otherwise its last match with the comma |
| Badge.BadgeOfSearch | app/public/app.js:11-18 | the same for `extractBadgeNumber` of a name whose guard passes |
| Badge.OverlappingMatches | app/public/app.js:16-18 | in `1-2-3` the expression matches at 0 and at 2, yet the search yields only `1-2`, so the badge is `1,2` |
| Badge.LastMatch | app/public/app.js:16-18 | the last match of the scan is found at its start and nothing follows it |
| Badge.MatchText | app/public/app.js:18 | turning the comma back gives the matched text, which occurs in the segment |
| Client.BasePath | app/public/app.js:1-3 | the docs prefix exactly when the page path starts with it, the empty string otherwise |
| Client.FormatMonth | app/public/app.js:47-49 | a six-character month gets `/` after four characters and removing it gives the month; anything else unchanged |
| Client.FormatMonthInjective | app/public/app.js:47-49 | different six-character months get different labels |
| Client.LastSeparator | app/public/app.js:65 | the last `/` or `\`, or -1, with no separator after it |
| Client.FinalComponent | app/public/app.js:65-66 | the longest separator-free suffix of the path, preceded by a separator when shorter |
| Client.SplitExtension | app/public/app.js:67-69 | base + extension is the name; the extension is empty exactly without a dot, else a dot followed by no other dot |
| Client.DownloadName | app/public/app.js:70 | base, then `_readonly`, then the extension |
| Client.LastIndexOfUnique | app/public/app.js:67 | an index holding the character with none after it is `lastIndexOf` |
| Client.DownloadNameKeepsExtension | app/public/app.js:67-70 | split again, the download name gives the old base + `_readonly` and the same extension |
| Client.ExcelExtension | app/public/app.js:62 | a dot-free suffix of the path, lower-cased, that starts the path or follows a dot; the whole path when it has no dot |
| Client.IsExcel | app/public/app.js:62-63 | exactly when the path ends, right after its last dot or with no dot at all, in `xls` or `xlsx` in any case |
| Client.ExtensionIs | app/public/app.js:62 | the lower-cased text after the last dot is `ext` exactly when the path ends in `ext` after its last dot |
| Client.ExcelByFinalExtension | app/public/app.js:62-69 | with a dot in the final component, the Excel test reads that component's extension |
| Client.ExcelExtensionOfSuffix | app/public/app.js:62 | for a path ending in a name with a dot, the Excel test reads the name's extension |
| Client.ExcelWithoutFinalDot | app/public/app.js:62-63 | without a dot in the final component, Excel only when the path has no dot and is `xls`/`xlsx` |
| Client.DirectoryDot | app/public/app.js:62-63 | a dot only in a directory name: never Excel |
| Client.DotBeforeName | app/public/app.js:62-63 | the same, for any dot-free name ending the path after a separator |
| Client.SeparatorAfterDot | app/public/app.js:62-63 | a separator after the last dot rules out Excel |
| Client.SeparatorNotExcel | app/public/app.js:63 | `xls` and `xlsx` hold no separator |
| Client.RenderCell | app/public/app.js:52-93 | exactly one of fail (0), ok (1), warn (other); ok links the first path (download with the `_readonly` name iff Excel, viewer otherwise, under the base path) with extension and badge; warn titles all paths joined by newlines |
| Client.BadgeSegmentEndsBase | app/public/app.js:67-73 | the badge segment ends the name's base |
| Client.RenderRow | app/public/app.js:47-95 | the month label, then one cell per column, in column order |
| Client.Reversed | app/public/app.js:44-45 | same length; position `j` holds grid row `n-1-j` |
| Client.ReversedIsPermutation | app/public/app.js:44-45 | every grid row is emitted exactly once |
| Client.ReversedTwice | app/public/app.js:44 | reversing twice gives the grid back |
| Client.NewestFirst | app/public/app.js:43-45 | ascending grid months come out descending |
| Client.RenderGrid | app/public/app.js:31-101 | the notice exactly when there are no months; otherwise `Month` then the labels, and the rendered rows of the reversed grid |
| LegacyClient.RenderCell | public/app.js:32-65 | the same three-way partition; routes at the site root; never a badge |
| LegacyClient.AgreesWithCurrent | public/app.js:34-65 | every cell equals the current client's at an empty base path, badge removed |
| LegacyClient.RenderRow | public/app.js:27-67 | the month label, then one cell per column |
| LegacyClient.RenderGrid | public/app.js:11-73 | the notice exactly when there are no months; otherwise headers and the reversed grid's rows |

## Left out

- The recursive directory walk `getAllFiles` and its 500 response (server.js:22-40) are filesystem I/O; the model takes the listing as a sequence of paths.
- Loading `config.json`, express routing, static serving and `app.listen` (server.js:1-11, 20, 101-113) are process and network plumbing; the configuration is a parameter.
- `fetchStatus`, `renderUnprocessedFiles`, `TAB_LABELS`, `currentType`, the DOM and the event handlers in both clients are browser I/O and UI.
- The HTML strings, icons, CSS classes and inline styles are presentational. The model returns the decisions behind them (`CellDisplay`, `Rendered`).
- `encodeURIComponent` of the file parameter and the quoting of the `title` attribute (app/public/app.js:94) are presentational. A link carries the path as given.
- Server.BaseName: `path.basename` is modelled with POSIX separators only; the Windows behaviour (`\` as a separator) is not modelled.
- Server.Columns: the dictionary is an ordered list of entries; JavaScript's enumeration order, which puts integer-like keys first, is not modelled.
- Text.ToLower: it lower-cases the ASCII letters only. No other character lower-cases to a letter of `xls`, so the Excel test is unaffected.
- Text.LexLess compares Dafny characters. That is the UTF-16 code-unit order of `sort` only for characters of the Basic Multilingual Plane.
- Client.RenderCell: a cell is a `count` (a non-negative integer) and its `paths`. A negative or fractional count and a missing cell are not modelled. An ok cell with no path is excluded by `Renderable`; the code would throw there.
- The server shown emits a boolean per cell while the client reads `count` and `paths`. The model keeps the two sides as written and does not connect them.
- Server.GridCells: a dictionary key `__proto__` is not modelled. In JavaScript, assigning a boolean to that property of a plain object changes nothing, so the row would lack it. `FillRow`, `BuildRow` and `GridCells` give every key its own property.
- Client.FormatMonth: the length test and `slice` count UTF-16 code units in JavaScript and Dafny characters here. The two agree on the period tokens the server emits, which are ASCII digits.
- Periods.GetAllMonths: it requires six-digit tokens, which is what its only caller passes. `parseInt` of other strings is not modelled.
