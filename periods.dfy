/** Reporting periods: the six-digit YYYYMM token at the start of a file name
    (`extractYearMonth`, server.js) and the gap-free month axis between two
    tokens (`getAllMonths`, server.js). */
module Periods {
  import opened Text

  /** A six-character all-digit token such as "202401". */
  predicate IsPeriod(s: string) { |s| == 6 && AllDigits(s) }

  /** `extractYearMonth`: the match of `^(\d{6})`, or null. Never fails. */
  function ExtractYearMonth(filename: string): (r: Option<string>)
    ensures r.Some? <==> |filename| >= 6 && AllDigits(filename[..6])
    ensures r.Some? ==> r.value == filename[..6] && IsPeriod(r.value)
  {
    LeadingSixDigits(filename);
    if LeadingDigits(filename) >= 6 then Some(filename[..6]) else None
  }

  lemma LeadingSixDigits(s: string)
    ensures LeadingDigits(s) >= 6 <==> |s| >= 6 && AllDigits(s[..6])
  {
    var n := LeadingDigits(s);
    if |s| >= 6 && AllDigits(s[..6]) {
      LeadingDigitsAtLeast(s, 6);
    }
    if n >= 6 {
      assert s[..n][..6] == s[..6];
    }
  }

  // ---------------------------------------------------------------------------
  // Year/month pairs
  // ---------------------------------------------------------------------------

  /** The integers `year` and `month` that `getAllMonths` steps through. */
  datatype YearMonth = YearMonth(year: nat, month: nat)

  predicate ValidMonth(p: YearMonth) { 1 <= p.month <= 12 }

  /** A period token whose last two digits are 01..12. */
  predicate HasValidMonth(s: string) { IsPeriod(s) && ValidMonth(ParsePeriod(s)) }

  /** `p` comes strictly before `q`. */
  predicate Before(p: YearMonth, q: YearMonth)
  {
    p.year < q.year || (p.year == q.year && p.month < q.month)
  }

  /** The loop guard of `getAllMonths`: `p` is not later than `e`. */
  predicate NotAfter(p: YearMonth, e: YearMonth)
  {
    p.year < e.year || (p.year == e.year && p.month <= e.month)
  }

  /** `parseInt(s.slice(0, 4), 10)` and `parseInt(s.slice(4, 6), 10)`. */
  function ParsePeriod(s: string): (p: YearMonth)
    requires IsPeriod(s)
    ensures p.year <= 9999 && p.month <= 99
  {
    FixedWidthOfValue(s[..4]);
    FixedWidthOfValue(s[4..6]);
    assert Pow10(4) == 10000 && Pow10(2) == 100;
    YearMonth(Value(s[..4]), Value(s[4..6]))
  }

  /** `year.toString().padStart(4, '0') + month.toString().padStart(2, '0')`:
      at least six characters (`ParseOfFormat` reads them back). */
  function FormatPeriod(p: YearMonth): (s: string)
    ensures |s| >= 6
  {
    PadStart(ToDecimal(p.year), 4) + PadStart(ToDecimal(p.month), 2)
  }

  /** A pair that fits in four and two digits formats as the two fixed-width
      decimal fields. */
  lemma FormatFixed(p: YearMonth)
    requires p.year <= 9999 && p.month <= 99
    ensures FormatPeriod(p) == FixedWidth(p.year, 4) + FixedWidth(p.month, 2)
  {
    assert Pow10(4) == 10000 && Pow10(2) == 100;
    PadDecimal(p.year, 4);
    PadDecimal(p.month, 2);
  }

  /** Formatting a pair that fits in four and two digits gives a period token
      that parses back to the same pair. */
  lemma ParseOfFormat(p: YearMonth)
    requires p.year <= 9999 && p.month <= 99
    ensures IsPeriod(FormatPeriod(p))
    ensures ParsePeriod(FormatPeriod(p)) == p
  {
    FormatFixed(p);
    var s, y, m := FormatPeriod(p), FixedWidth(p.year, 4), FixedWidth(p.month, 2);
    assert s[..4] == y && s[4..6] == m;
    assert Pow10(4) == 10000 && Pow10(2) == 100;
    ValueOfFixedWidth(p.year, 4);
    ValueOfFixedWidth(p.month, 2);
  }

  /** Parsing a period token and formatting the pair gives the token back. */
  lemma FormatOfParse(s: string)
    requires IsPeriod(s)
    ensures FormatPeriod(ParsePeriod(s)) == s
  {
    var p := ParsePeriod(s);
    FixedWidthOfValue(s[..4]);
    FixedWidthOfValue(s[4..6]);
    FormatOfFields(s, p);
  }

  /** A pair whose fixed-width fields are the two halves of `s` formats
      as `s`. */
  lemma FormatOfFields(s: string, p: YearMonth)
    requires |s| == 6 && p.year <= 9999 && p.month <= 99
    requires FixedWidth(p.year, 4) == s[..4] && FixedWidth(p.month, 2) == s[4..6]
    ensures FormatPeriod(p) == s
  {
    FormatFixed(p);
    assert s == s[..4] + s[4..6];
  }

  /** The numeric value of a token is 100 * year + month. */
  lemma PeriodValue(s: string)
    requires IsPeriod(s)
    ensures Value(s) == 100 * ParsePeriod(s).year + ParsePeriod(s).month
  {
    ValueAppendTwo(s[..4], s[4..6]);
    assert s == s[..4] + s[4..6];
  }

  /** String order of period tokens (the default sort) is calendar order of
      their year/month pairs. */
  lemma PeriodOrder(a: string, b: string)
    requires IsPeriod(a) && IsPeriod(b)
    ensures LexLess(a, b) <==> Before(ParsePeriod(a), ParsePeriod(b))
  {
    LexIsNumeric(a, b);
    PeriodValue(a);
    PeriodValue(b);
  }

  // ---------------------------------------------------------------------------
  // The month axis
  // ---------------------------------------------------------------------------

  /** One step of the loop: the month goes up by one and rolls over from
      beyond 12 to 1 of the next year. */
  function Next(p: YearMonth): (q: YearMonth)
    ensures ValidMonth(q) && Before(p, q)
    ensures ValidMonth(p) ==> Index(q) == Index(p) + 1
  {
    if p.month + 1 > 12 then YearMonth(p.year + 1, 1) else YearMonth(p.year, p.month + 1)
  }

  /** The pairs `getAllMonths` visits, from `p` while it is not after `e`. */
  function Axis(p: YearMonth, e: YearMonth): (a: seq<YearMonth>)
    requires p.month <= 99
    decreases e.year + 1 - p.year, 100 - p.month
    ensures a == [] <==> !NotAfter(p, e)
    ensures a != [] ==> a[0] == p
  {
    if NotAfter(p, e) then [p] + Axis(Next(p), e) else []
  }

  function Render(ps: seq<YearMonth>): (r: seq<string>)
    ensures |r| == |ps|
    ensures forall i :: 0 <= i < |ps| ==> r[i] == FormatPeriod(ps[i])
  {
    if ps == [] then [] else [FormatPeriod(ps[0])] + Render(ps[1..])
  }

  /** While the guard holds, pushing the formatted current pair onto what
      has been collected and continuing from its successor yields the same
      list as continuing from the current pair. */
  lemma PushStep(acc: seq<string>, p: YearMonth, e: YearMonth)
    requires p.month <= 99 && NotAfter(p, e)
    ensures (acc + [FormatPeriod(p)]) + Render(Axis(Next(p), e)) == acc + Render(Axis(p, e))
  {
    var rest := Axis(Next(p), e);
    assert Axis(p, e) == [p] + rest;
    assert Axis(p, e)[1..] == rest;
    assert Render(Axis(p, e)) == [FormatPeriod(p)] + Render(rest);
  }

  /** Once the guard fails nothing more is collected. */
  lemma StopStep(acc: seq<string>, p: YearMonth, e: YearMonth)
    requires p.month <= 99 && !NotAfter(p, e)
    ensures acc + Render(Axis(p, e)) == acc
  {
    assert Axis(p, e) == [];
    assert acc + [] == acc;
  }

  /** The result of `getAllMonths(start, end)`: empty exactly when `start`
      is later than `end` (the loop guard fails at once), and otherwise
      beginning with `start`. */
  function MonthRange(start: string, end: string): (r: seq<string>)
    requires IsPeriod(start) && IsPeriod(end)
    ensures r == [] <==> LexLess(end, start)
    ensures r != [] ==> r[0] == start
  {
    PeriodOrder(end, start);
    FormatOfParse(start);
    Render(Axis(ParsePeriod(start), ParsePeriod(end)))
  }

  /** `getAllMonths` (server.js): the while loop that pushes each formatted
      month and steps with rollover. */
  method GetAllMonths(start: string, end: string) returns (result: seq<string>)
    requires IsPeriod(start) && IsPeriod(end)
    ensures result == MonthRange(start, end)
  {
    result := [];
    var year := Value(start[..4]);
    var month := Value(start[4..6]);
    var endYear := Value(end[..4]);
    var endMonth := Value(end[4..6]);
    ghost var e := ParsePeriod(end);
    assert YearMonth(year, month) == ParsePeriod(start);
    assert e == YearMonth(endYear, endMonth);
    while year < endYear || (year == endYear && month <= endMonth)
      invariant month <= 99
      invariant result + Render(Axis(YearMonth(year, month), e)) == MonthRange(start, end)
      decreases endYear as int + 1 - year, 100 - month
    {
      ghost var p := YearMonth(year, month);
      PushStep(result, p, e);
      result := result + [PadStart(ToDecimal(year), 4) + PadStart(ToDecimal(month), 2)];
      month := month + 1;
      if month > 12 {
        month := 1;
        year := year + 1;
      }
      assert YearMonth(year, month) == Next(p);
    }
    StopStep(result, YearMonth(year, month), e);
  }

  // ---------------------------------------------------------------------------
  // Properties of the axis, on pairs
  // ---------------------------------------------------------------------------

  /** Every element of the axis is within the end and fits in four
      and two digits, every element after the first has a month in 1..12, and
      each element is followed by its calendar successor. */
  lemma {:induction false} AxisShape(p: YearMonth, e: YearMonth)
    requires p.month <= 99
    ensures forall i :: 0 <= i < |Axis(p, e)| ==>
      var m := Axis(p, e)[i];
      NotAfter(m, e) && m.year <= e.year && m.month <= 99 && (i > 0 ==> ValidMonth(m))
    ensures forall i :: 0 <= i < |Axis(p, e)| - 1 ==> Axis(p, e)[i + 1] == Next(Axis(p, e)[i])
    decreases e.year + 1 - p.year, 100 - p.month
  {
    if NotAfter(p, e) {
      var q := Next(p);
      AxisShape(q, e);
      var a, t := Axis(p, e), Axis(q, e);
      assert a == [p] + t;
      forall i | 1 <= i < |a| ensures a[i] == t[i - 1] && ValidMonth(a[i]) {
        assert a[i] == t[i - 1];
      }
    }
  }

  /** An ordinal for pairs with at most two-digit months: 100 * year + month,
      which is the token's numeric value. */
  function Ordinal(p: YearMonth): nat { 100 * p.year + p.month }

  lemma {:induction false} AxisAboveStart(p: YearMonth, e: YearMonth)
    requires p.month <= 99
    ensures forall i :: 0 < i < |Axis(p, e)| ==> Ordinal(p) < Ordinal(Axis(p, e)[i])
    decreases e.year + 1 - p.year, 100 - p.month
  {
    if NotAfter(p, e) {
      var q := Next(p);
      AxisAboveStart(q, e);
      AxisShape(q, e);
      assert forall i :: 0 <= i < |Axis(q, e)| ==> NotAfter(Axis(q, e)[i], e);
      var a, t := Axis(p, e), Axis(q, e);
      assert a == [p] + t;
      forall i | 0 < i < |a| ensures Ordinal(p) < Ordinal(a[i]) {
        assert a[i] == t[i - 1];
      }
    }
  }

  /** The axis is strictly ascending in calendar order. */
  lemma {:induction false} AxisAscending(p: YearMonth, e: YearMonth)
    requires p.month <= 99
    ensures forall i, j :: 0 <= i < j < |Axis(p, e)| ==> Before(Axis(p, e)[i], Axis(p, e)[j])
    decreases e.year + 1 - p.year, 100 - p.month
  {
    if NotAfter(p, e) {
      var q := Next(p);
      AxisAscending(q, e);
      AxisAboveStart(p, e);
      AxisShape(p, e);
      var a, t := Axis(p, e), Axis(q, e);
      assert a == [p] + t;
      forall i, j | 0 <= i < j < |a| ensures Before(a[i], a[j]) {
        if i > 0 {
          assert a[i] == t[i - 1] && a[j] == t[j - 1];
        }
      }
    }
  }

  /** The month index of a pair with a month in 1..12. */
  function Index(p: YearMonth): int { 12 * p.year + p.month - 1 }

  /** Between two pairs with months in 1..12 and the start not after the
      end, the axis ends at the end and holds exactly
      12 * (endYear - startYear) + (endMonth - startMonth) + 1 months. */
  lemma {:induction false} AxisLength(p: YearMonth, e: YearMonth)
    requires ValidMonth(p) && ValidMonth(e) && NotAfter(p, e)
    ensures |Axis(p, e)| == 12 * (e.year - p.year) + (e.month - p.month) + 1
    ensures Axis(p, e)[|Axis(p, e)| - 1] == e
    decreases Index(e) - Index(p)
  {
    var q := Next(p);
    assert Index(q) == Index(p) + 1;
    var a, t := Axis(p, e), Axis(q, e);
    assert a == [p] + t;
    if NotAfter(q, e) {
      AxisLength(q, e);
    } else {
      assert p.year == e.year && p.month == e.month;
    }
  }

  /** Every pair with a month in 1..12 from the start to the end is on the
      axis, whatever the start's month. */
  lemma {:induction false} AxisCovers(p: YearMonth, e: YearMonth, m: YearMonth)
    requires p.month <= 99 && ValidMonth(m)
    requires NotAfter(p, m) && NotAfter(m, e)
    ensures m in Axis(p, e)
    decreases e.year + 1 - p.year, 100 - p.month
  {
    assert NotAfter(p, e);
    var a := Axis(p, e);
    assert a == [p] + Axis(Next(p), e);
    if p != m {
      AxisCovers(Next(p), e, m);
    }
  }

  // ---------------------------------------------------------------------------
  // Properties of getAllMonths, on the tokens it returns
  // ---------------------------------------------------------------------------

  /** The token that follows `s` in the calendar (12 rolls over to 01 of the
      next year). */
  function NextPeriod(s: string): (r: string)
    requires IsPeriod(s)
    ensures ParsePeriod(s).year < 9999 ==>
      IsPeriod(r) && ParsePeriod(r) == Next(ParsePeriod(s)) && LexLess(s, r)
  {
    var q := Next(ParsePeriod(s));
    if ParsePeriod(s).year < 9999 then
      ParseOfFormat(q);
      PeriodOrder(s, FormatPeriod(q));
      FormatPeriod(q)
    else
      FormatPeriod(q)
  }

  /** `getAllMonths(start, end)` is made of period tokens, steps by the
      calendar successor and is strictly ascending. */
  lemma MonthRangeSteps(start: string, end: string)
    requires IsPeriod(start) && IsPeriod(end)
    ensures var r := MonthRange(start, end);
      && (forall i :: 0 <= i < |r| ==> IsPeriod(r[i]))
      && (forall i :: 0 <= i < |r| - 1 ==> r[i + 1] == NextPeriod(r[i]))
      && (forall i, j :: 0 <= i < j < |r| ==> LexLess(r[i], r[j]))
  {
    var s, e := ParsePeriod(start), ParsePeriod(end);
    var a := Axis(s, e);
    var r := MonthRange(start, end);
    AxisShape(s, e);
    AxisAscending(s, e);
    PeriodOrder(end, start);
    FormatOfParse(start);
    forall i | 0 <= i < |r| ensures IsPeriod(r[i]) && ParsePeriod(r[i]) == a[i] {
      ParseOfFormat(a[i]);
    }
    forall i, j | 0 <= i < j < |r| ensures LexLess(r[i], r[j]) {
      PeriodOrder(r[i], r[j]);
    }
  }

  /** With months in 01..12 and `start` not later than `end`, the axis ends
      with `end` and its length is the inclusive month count. */
  lemma MonthRangeLength(start: string, end: string)
    requires IsPeriod(start) && IsPeriod(end)
    requires ValidMonth(ParsePeriod(start)) && ValidMonth(ParsePeriod(end))
    requires !LexLess(end, start)
    ensures var r, s, e := MonthRange(start, end), ParsePeriod(start), ParsePeriod(end);
      && |r| == 12 * (e.year - s.year) + (e.month - s.month) + 1
      && |r| > 0 && r[|r| - 1] == end
  {
    var s, e := ParsePeriod(start), ParsePeriod(end);
    PeriodOrder(end, start);
    RenderedAxisEnds(s, e, end);
    assert MonthRange(start, end) == Render(Axis(s, e));
  }

  /** The formatted axis between two pairs with months in 1..12 ends with
      the token of the end pair and holds the inclusive month count. */
  lemma RenderedAxisEnds(s: YearMonth, e: YearMonth, end: string)
    requires ValidMonth(s) && ValidMonth(e) && NotAfter(s, e)
    requires IsPeriod(end) && ParsePeriod(end) == e
    ensures var r := Render(Axis(s, e));
      |r| == 12 * (e.year - s.year) + (e.month - s.month) + 1 && r[|r| - 1] == end
  {
    AxisLength(s, e);
    FormatOfParse(end);
  }

  /** Every token with a month in 01..12 that lies between `start` and `end`
      in string order is on the axis. */
  lemma MonthRangeCovers(start: string, end: string, m: string)
    requires IsPeriod(start) && IsPeriod(end) && IsPeriod(m)
    requires ValidMonth(ParsePeriod(m))
    requires !LexLess(m, start) && !LexLess(end, m)
    ensures m in MonthRange(start, end)
  {
    var s, e, p := ParsePeriod(start), ParsePeriod(end), ParsePeriod(m);
    PeriodOrder(m, start);
    PeriodOrder(end, m);
    AxisCovers(s, e, p);
    var a := Axis(s, e);
    var i :| 0 <= i < |a| && a[i] == p;
    FormatOfParse(m);
    assert MonthRange(start, end)[i] == m;
  }

  /** A token whose month is beyond 12 can appear on the axis only as its
      first element: the rollover jumps from it, or from month 12, to 01 of
      the next year, so a "202413" that is not the earliest token is
      skipped. */
  lemma MonthRangeSkipsInvalidMonth(start: string, end: string, m: string)
    requires IsPeriod(start) && IsPeriod(end) && IsPeriod(m)
    requires ParsePeriod(m).month > 12 && m != start
    ensures m !in MonthRange(start, end)
  {
    var r := MonthRange(start, end);
    forall i | 0 <= i < |r| ensures r[i] != m {
      if i > 0 {
        MonthRangeTokenValid(start, end, i);
      }
    }
  }

  /** Every token of the axis after the first has a month in 01..12. */
  lemma MonthRangeTokenValid(start: string, end: string, i: nat)
    requires IsPeriod(start) && IsPeriod(end)
    requires 0 < i < |MonthRange(start, end)|
    ensures HasValidMonth(MonthRange(start, end)[i])
  {
    var s, e := ParsePeriod(start), ParsePeriod(end);
    var a := Axis(s, e);
    AxisShape(s, e);
    assert MonthRange(start, end)[i] == FormatPeriod(a[i]);
    ParseOfFormat(a[i]);
  }
}
