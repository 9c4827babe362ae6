/** `extractBadgeNumber` (app/public/app.js): the last dash-joined number pair
    of a file name's category segment, shown with a comma. The global match
    `seg.matchAll(/\d+-\d+/g)` is modelled as a left-to-right scan. */
module Badge {
  import opened Text

  /** `s[a..b]` is all digits. */
  predicate DigitsBetween(s: string, a: nat, b: nat)
    requires a <= b <= |s|
  {
    forall k :: a <= k < b ==> IsDigit(s[k])
  }

  /** Where a greedy `\d+` started at `i` stops. */
  function DigitsEnd(s: string, i: nat): (r: nat)
    requires i <= |s|
    decreases |s| - i
    ensures i <= r <= |s| && DigitsBetween(s, i, r)
    ensures r == |s| || !IsDigit(s[r])
  {
    if i < |s| && IsDigit(s[i]) then DigitsEnd(s, i + 1) else i
  }

  /** The digit run is determined by where the digits stop. */
  lemma {:induction false} DigitsEndExact(s: string, i: nat, r: nat)
    requires i <= r <= |s| && DigitsBetween(s, i, r) && (r == |s| || !IsDigit(s[r]))
    decreases r - i
    ensures DigitsEnd(s, i) == r
  {
    if i < r {
      DigitsEndExact(s, i + 1, r);
    }
  }

  /** One match of `\d+-\d+`: `s[start..dash]` digits, `s[dash]` the dash,
      `s[dash + 1..end]` digits. */
  datatype Match = Match(start: nat, dash: nat, end: nat)

  predicate WellFormed(s: string, m: Match)
  {
    && m.start < m.dash && m.dash + 1 < m.end <= |s|
    && DigitsBetween(s, m.start, m.dash) && s[m.dash] == '-' && DigitsBetween(s, m.dash + 1, m.end)
  }

  /** The regular expression tried at index `i`: greedy digits, a dash,
      greedy digits. What it finds is well formed and cannot be extended. */
  function MatchAt(s: string, i: nat): (r: Option<Match>)
    requires i <= |s|
    ensures r.Some? ==> r.value.start == i && WellFormed(s, r.value)
    ensures r.Some? ==> r.value.end == |s| || !IsDigit(s[r.value.end])
  {
    var j := DigitsEnd(s, i);
    if j > i && j + 1 < |s| && s[j] == '-' && IsDigit(s[j + 1]) then
      Some(Match(i, j, DigitsEnd(s, j + 1)))
    else
      None
  }

  /** `MatchAt` misses nothing: whenever digits, a dash and digits start at
      `i`, a match is found there. */
  lemma MatchAtComplete(s: string, i: nat, d: nat, e: nat)
    requires i <= |s| && WellFormed(s, Match(i, d, e))
    ensures MatchAt(s, i).Some?
  {
    DigitsEndExact(s, i, d);
  }

  /** The matches `matchAll` yields from index `i` on: the leftmost match,
      then the search resumes at its end. */
  function Scan(s: string, i: nat): (ms: seq<Match>)
    requires i <= |s|
    decreases |s| - i
    ensures forall t :: 0 <= t < |ms| ==> i <= ms[t].start < ms[t].end <= |s|
  {
    if i == |s| then []
    else
      match MatchAt(s, i)
      case Some(m) => [m] + Scan(s, m.end)
      case None => Scan(s, i + 1)
  }

  /** Every match the scan yields is what the regular expression finds at
      its start, at or after `i`. */
  lemma {:induction false} ScanMatches(s: string, i: nat)
    requires i <= |s|
    decreases |s| - i
    ensures Found(s, Scan(s, i))
  {
    if i < |s| {
      var found := MatchAt(s, i);
      if found.Some? {
        ScanMatches(s, found.value.end);
        FoundStep(s, i);
      } else {
        ScanMatches(s, i + 1);
        ScanUnfold(s, i);
      }
    }
  }

  /** Each of `ms` is what the regular expression finds at its start. */
  predicate Found(s: string, ms: seq<Match>)
  {
    forall t :: 0 <= t < |ms| ==> ms[t].start <= |s| && MatchAt(s, ms[t].start) == Some(ms[t])
  }

  /** A match at `i` followed by found matches from its end are all found. */
  lemma FoundStep(s: string, i: nat)
    requires i < |s| && MatchAt(s, i).Some?
    requires Found(s, Scan(s, MatchAt(s, i).value.end))
    ensures Found(s, Scan(s, i))
  {
    var m := MatchAt(s, i).value;
    ScanUnfold(s, i);
    var ms, rest := Scan(s, i), Scan(s, m.end);
    assert ms == [m] + rest;
    forall t | 0 < t < |ms| ensures ms[t] == rest[t - 1] { }
  }

  /** Each match ends at or before the start of every later one. */
  predicate Disjoint(ms: seq<Match>)
  {
    forall t, u :: 0 <= t < u < |ms| ==> ms[t].end <= ms[u].start
  }

  /** A match that ends before every match of a disjoint list can go in
      front of it. */
  lemma DisjointCons(m: Match, rest: seq<Match>)
    requires Disjoint(rest)
    requires forall u :: 0 <= u < |rest| ==> m.end <= rest[u].start
    ensures Disjoint([m] + rest)
  {
    var ms := [m] + rest;
    forall t, u | 0 <= t < u < |ms| ensures ms[t].end <= ms[u].start {
      assert ms[u] == rest[u - 1];
      if t > 0 {
        assert ms[t] == rest[t - 1];
      }
    }
  }

  /** The matches do not overlap: each starts at or after the end of every
      one before it. */
  lemma {:induction false} ScanDisjoint(s: string, i: nat)
    requires i <= |s|
    decreases |s| - i
    ensures Disjoint(Scan(s, i))
  {
    if i < |s| {
      var found := MatchAt(s, i);
      if found.Some? {
        ScanDisjoint(s, found.value.end);
        DisjointStep(s, i);
      } else {
        ScanDisjoint(s, i + 1);
        ScanUnfold(s, i);
      }
    }
  }

  /** A match at `i` followed by a disjoint scan from its end is disjoint. */
  lemma DisjointStep(s: string, i: nat)
    requires i < |s| && MatchAt(s, i).Some?
    requires Disjoint(Scan(s, MatchAt(s, i).value.end))
    ensures Disjoint(Scan(s, i))
  {
    var m := MatchAt(s, i).value;
    ScanUnfold(s, i);
    DisjointCons(m, Scan(s, m.end));
  }

  /** Every index from `i` on at which the regular expression matches lies
      inside one of the matches `ms`. */
  predicate Covers(s: string, i: nat, ms: seq<Match>)
    requires i <= |s|
  {
    forall j :: i <= j <= |s| && MatchAt(s, j).Some? ==>
      exists t :: 0 <= t < |ms| && ms[t].start <= j < ms[t].end
  }

  /** The scan skips nothing: every index from `i` on at which the regular
      expression matches lies inside one of the matches the scan yields. */
  lemma {:induction false} ScanCovers(s: string, i: nat)
    requires i <= |s|
    decreases |s| - i
    ensures Covers(s, i, Scan(s, i))
  {
    if i < |s| {
      var found := MatchAt(s, i);
      if found.Some? {
        ScanCovers(s, found.value.end);
        CoversStep(s, i);
      } else {
        ScanCovers(s, i + 1);
        CoversSkip(s, i);
      }
    }
  }

  /** A match at `i` followed by a covering scan from its end covers. */
  lemma CoversStep(s: string, i: nat)
    requires i < |s| && MatchAt(s, i).Some?
    requires Covers(s, MatchAt(s, i).value.end, Scan(s, MatchAt(s, i).value.end))
    ensures Covers(s, i, Scan(s, i))
  {
    var m := MatchAt(s, i).value;
    ScanUnfold(s, i);
    CoversCons(s, m, Scan(s, m.end));
  }

  /** Without a match at `i`, a scan covering from `i + 1` covers from `i`. */
  lemma CoversSkip(s: string, i: nat)
    requires i < |s| && MatchAt(s, i).None?
    requires Covers(s, i + 1, Scan(s, i + 1))
    ensures Covers(s, i, Scan(s, i))
  {
    ScanUnfold(s, i);
  }

  /** A match from `m.start` to `m.end`, followed by matches covering
      everything from `m.end` on, covers everything from `m.start` on. */
  lemma CoversCons(s: string, m: Match, rest: seq<Match>)
    requires m.start < m.end <= |s| && Covers(s, m.end, rest)
    ensures Covers(s, m.start, [m] + rest)
  {
    var ms := [m] + rest;
    forall j | m.start <= j <= |s| && MatchAt(s, j).Some?
      ensures exists t :: 0 <= t < |ms| && ms[t].start <= j < ms[t].end
    {
      if j < m.end {
        assert ms[0] == m;
      } else {
        var t :| 0 <= t < |rest| && rest[t].start <= j < rest[t].end;
        assert ms[t + 1] == rest[t];
      }
    }
  }

  /** `ms` is what a global search from `i` yields: matches of the regular
      expression found at their starts, at or after `i`, left to right and
      without overlap, such that every index from `i` on where the
      expression matches lies inside one of them. */
  predicate Leftmost(s: string, i: nat, ms: seq<Match>)
    requires i <= |s|
  {
    && (forall t :: 0 <= t < |ms| ==> i <= ms[t].start)
    && Found(s, ms)
    && Disjoint(ms)
    && Covers(s, i, ms)
  }

  /** The scan is a global search. */
  lemma ScanLeftmost(s: string, i: nat)
    requires i <= |s|
    ensures Leftmost(s, i, Scan(s, i))
  {
    ScanMatches(s, i);
    ScanDisjoint(s, i);
    ScanCovers(s, i);
  }

  /** ... and the only one: any list with the properties of a global search
      is the scan, so the matches `matchAll` yields are determined. */
  lemma {:induction false} LeftmostUnique(s: string, i: nat, ms: seq<Match>)
    requires i <= |s| && Leftmost(s, i, ms)
    decreases |ms|
    ensures ms == Scan(s, i)
  {
    if ms == [] {
      NoMatchFromAll(s, i);
      ScanEmpty(s, i);
    } else {
      var m := ms[0];
      LeftmostGap(s, i, ms);
      ScanSkip(s, i, m.start);
      ScanUnfold(s, m.start);
      LeftmostTail(s, i, ms);
      LeftmostUnique(s, m.end, ms[1..]);
      assert ms == [m] + ms[1..];
    }
  }

  /** Nothing matches between `i` and the first match of a global search. */
  lemma LeftmostGap(s: string, i: nat, ms: seq<Match>)
    requires i <= |s| && Leftmost(s, i, ms) && ms != []
    ensures i <= ms[0].start < |s| && MatchAt(s, ms[0].start) == Some(ms[0])
    ensures forall j :: i <= j < ms[0].start ==> MatchAt(s, j).None?
  {
    assert MatchAt(s, ms[0].start) == Some(ms[0]);
    forall t | 0 < t < |ms| ensures ms[0].start < ms[t].start {
      assert ms[0].end <= ms[t].start;
    }
  }

  /** After its first match, a global search from `i` is a global search
      from that match's end. */
  lemma LeftmostTail(s: string, i: nat, ms: seq<Match>)
    requires i <= |s| && Leftmost(s, i, ms) && ms != []
    ensures ms[0].end <= |s| && Leftmost(s, ms[0].end, ms[1..])
  {
    assert MatchAt(s, ms[0].start) == Some(ms[0]);
    TailFound(s, i, ms);
    TailDisjoint(ms);
    TailCovers(s, i, ms);
  }

  lemma TailFound(s: string, i: nat, ms: seq<Match>)
    requires ms != [] && ms[0].end <= |s| && Disjoint(ms)
    requires Found(s, ms)
    ensures forall t :: 0 <= t < |ms[1..]| ==> ms[0].end <= ms[1..][t].start
    ensures Found(s, ms[1..])
  {
    forall t | 0 <= t < |ms[1..]|
      ensures ms[0].end <= ms[1..][t].start <= |s| && MatchAt(s, ms[1..][t].start) == Some(ms[1..][t])
    {
      assert ms[1..][t] == ms[t + 1];
      assert ms[0].end <= ms[t + 1].start;
    }
  }

  lemma TailDisjoint(ms: seq<Match>)
    requires ms != [] && Disjoint(ms)
    ensures Disjoint(ms[1..])
  {
    var rest := ms[1..];
    forall t, u | 0 <= t < u < |rest| ensures rest[t].end <= rest[u].start {
      assert rest[t] == ms[t + 1] && rest[u] == ms[u + 1];
    }
  }

  lemma TailCovers(s: string, i: nat, ms: seq<Match>)
    requires i <= |s| && ms != [] && ms[0].end <= |s| && Disjoint(ms) && Covers(s, i, ms)
    requires i <= ms[0].start < ms[0].end
    ensures Covers(s, ms[0].end, ms[1..])
  {
    var rest := ms[1..];
    forall j | ms[0].end <= j <= |s| && MatchAt(s, j).Some?
      ensures exists t :: 0 <= t < |rest| && rest[t].start <= j < rest[t].end
    {
      var t :| 0 <= t < |ms| && ms[t].start <= j < ms[t].end;
      assert t != 0;
      assert rest[t - 1] == ms[t];
    }
  }

  /** Indices where nothing matches are passed over. */
  lemma {:induction false} ScanSkip(s: string, i: nat, k: nat)
    requires i <= k <= |s|
    requires forall j :: i <= j < k ==> MatchAt(s, j).None?
    decreases k - i
    ensures Scan(s, i) == Scan(s, k)
  {
    if i < k {
      ScanUnfold(s, i);
      ScanSkip(s, i + 1, k);
    }
  }

  /** No match starts at `i` or at any later index. */
  predicate NoMatchFrom(s: string, i: nat)
    requires i <= |s|
    decreases |s| - i
  {
    MatchAt(s, i).None? && (i < |s| ==> NoMatchFrom(s, i + 1))
  }

  /** `NoMatchFrom` says that `MatchAt` finds nothing at any index from `i`
      to the end. */
  lemma {:induction false} NoMatchFromAll(s: string, i: nat)
    requires i <= |s|
    decreases |s| - i
    ensures NoMatchFrom(s, i) <==> forall j :: i <= j <= |s| ==> MatchAt(s, j).None?
  {
    if i < |s| {
      NoMatchFromAll(s, i + 1);
    }
  }

  /** The scan is empty exactly when no match starts at or after `i`. */
  lemma {:induction false} ScanEmpty(s: string, i: nat)
    requires i <= |s|
    decreases |s| - i
    ensures Scan(s, i) == [] <==> NoMatchFrom(s, i)
  {
    if i < |s| {
      ScanUnfold(s, i);
      if MatchAt(s, i).None? {
        ScanEmpty(s, i + 1);
      }
    }
  }

  /** One step of the scan: a match at `i` is emitted and the search
      resumes at its end; otherwise the search moves on by one. */
  lemma ScanUnfold(s: string, i: nat)
    requires i < |s|
    ensures MatchAt(s, i).Some? ==> Scan(s, i) == [MatchAt(s, i).value] + Scan(s, MatchAt(s, i).value.end)
    ensures MatchAt(s, i).None? ==> Scan(s, i) == Scan(s, i + 1)
  {
  }

  /** No match starts at or after the end of the scan's last match. */
  lemma ScanLast(s: string, i: nat)
    requires i <= |s| && Scan(s, i) != []
    ensures var last := Scan(s, i)[|Scan(s, i)| - 1]; last.end <= |s| && NoMatchFrom(s, last.end)
  {
    var ms := Scan(s, i);
    var last := ms[|ms| - 1];
    ScanDisjoint(s, i);
    DisjointLastEnd(ms);
    ScanCovers(s, i);
    forall j | last.end <= j <= |s| ensures MatchAt(s, j).None? {
      PastEveryMatch(s, i, ms, last.end, j);
    }
    NoMatchFromAll(s, last.end);
  }

  /** In a disjoint list the last match ends last. */
  lemma DisjointLastEnd(ms: seq<Match>)
    requires Disjoint(ms) && ms != []
    requires forall t :: 0 <= t < |ms| ==> ms[t].start < ms[t].end
    ensures forall t :: 0 <= t < |ms| ==> ms[t].end <= ms[|ms| - 1].end
  {
    forall t | 0 <= t < |ms| ensures ms[t].end <= ms[|ms| - 1].end {
      if t < |ms| - 1 {
        assert ms[t].end <= ms[|ms| - 1].start;
      }
    }
  }

  /** An index past the end of every match of a covering list is not where
      the regular expression matches. */
  lemma PastEveryMatch(s: string, i: nat, ms: seq<Match>, bound: nat, j: nat)
    requires i <= j <= |s| && Covers(s, i, ms)
    requires forall t :: 0 <= t < |ms| ==> ms[t].end <= bound
    requires bound <= j
    ensures MatchAt(s, j).None?
  {
  }

  /** A badge: digits, one comma, digits. */
  predicate IsBadge(t: string)
  {
    var d := LeadingDigits(t);
    0 < d && d + 1 < |t| && t[d] == ',' && AllDigits(t[d + 1..])
  }

  /** The text between the last `_` and the last `.` of the name, or None
      when the name lacks either or the `.` is not at least two characters
      after the `_`. */
  function BadgeSegment(origName: string): (seg: Option<string>)
    ensures seg.Some? <==>
      '.' in origName && '_' in origName && LastIndexOf(origName, '.') > LastIndexOf(origName, '_') + 1
    ensures seg.Some? ==>
      seg.value == origName[LastIndexOf(origName, '_') + 1..LastIndexOf(origName, '.')] && seg.value != [] && '_' !in seg.value
  {
    var dotIdx := LastIndexOf(origName, '.');
    var usIdx := LastIndexOf(origName, '_');
    if dotIdx == -1 || usIdx == -1 || dotIdx <= usIdx + 1 then None
    else
      assert forall k :: usIdx + 1 <= k < dotIdx ==> origName[k] in origName[usIdx + 1..];
      Some(origName[usIdx + 1..dotIdx])
  }

  /** The digits of a match as a string. */
  lemma DigitsSlice(s: string, a: nat, b: nat)
    requires a <= b <= |s| && DigitsBetween(s, a, b)
    ensures AllDigits(s[a..b])
  {
    assert forall k :: 0 <= k < b - a ==> s[a..b][k] == s[a + k];
  }

  /** The matched text with its dash turned into a comma. */
  function Commaed(seg: string, m: Match): (r: string)
    requires WellFormed(seg, m)
    ensures r == seg[m.start..m.dash] + [','] + seg[m.dash + 1..m.end]
    ensures IsBadge(r)
  {
    var a, b := seg[m.start..m.dash], seg[m.dash + 1..m.end];
    DigitsSlice(seg, m.start, m.dash);
    DigitsSlice(seg, m.dash + 1, m.end);
    assert seg[m.start..m.end] == a + ['-'] + b;
    ReplaceAfterDigits(a, '-', ',', b);
    var r := ReplaceFirst(seg[m.start..m.end], '-', ',');
    assert (a + [','] + b)[..|a|] == a;
    LeadingDigitsExact(a + [','] + b, |a|);
    assert (a + [','] + b)[|a| + 1..] == b;
    r
  }

  /** Replacing the first `x` after a run of digits replaces the `x` that
      follows them: used both ways, `-` to `,` and back. */
  lemma {:induction false} ReplaceAfterDigits(a: string, x: char, y: char, b: string)
    requires AllDigits(a) && !IsDigit(x)
    ensures ReplaceFirst(a + [x] + b, x, y) == a + [y] + b
  {
    if a != [] {
      assert (a + [x] + b)[1..] == a[1..] + [x] + b;
      ReplaceAfterDigits(a[1..], x, y, b);
    }
  }

  /** What `extractBadgeNumber` returns for a segment: null when nothing
      matches, otherwise the last match with its `-` replaced by `,`. */
  function LastBadge(seg: string): (r: Option<string>)
    ensures r.Some? <==> exists j :: 0 <= j <= |seg| && MatchAt(seg, j).Some?
    ensures r.Some? ==> IsBadge(r.value)
  {
    var matches := Scan(seg, 0);
    ScanEmpty(seg, 0);
    NoMatchFromAll(seg, 0);
    ScanMatches(seg, 0);
    if |matches| == 0 then None
    else
      var m := matches[|matches| - 1];
      Some(Commaed(seg, m))
  }

  /** `extractBadgeNumber`: null when the guard fails or nothing matches,
      otherwise a badge. */
  function ExtractBadgeNumber(origName: string): (r: Option<string>)
    ensures BadgeSegment(origName).None? ==> r.None?
    ensures BadgeSegment(origName).Some? ==>
      var seg := BadgeSegment(origName).value;
      (r.Some? <==> exists j :: 0 <= j <= |seg| && MatchAt(seg, j).Some?)
    ensures r.Some? ==> IsBadge(r.value)
  {
    match BadgeSegment(origName)
    case None => None
    case Some(seg) => LastBadge(seg)
  }

  /** A badge is the last match of the segment (no match starts at or after
      its end) with its dash replaced by a comma; turning the comma back
      into a dash gives text that occurs in the segment. */
  lemma BadgeIsLastMatch(origName: string) returns (seg: string, m: Match)
    requires ExtractBadgeNumber(origName).Some?
    ensures BadgeSegment(origName) == Some(seg)
    ensures Scan(seg, 0) != [] && m == Scan(seg, 0)[|Scan(seg, 0)| - 1]
    ensures m.start <= |seg| && MatchAt(seg, m.start) == Some(m)
    ensures forall j :: m.end <= j <= |seg| ==> MatchAt(seg, j).None?
    ensures ExtractBadgeNumber(origName) == Some(Commaed(seg, m))
    ensures ReplaceFirst(Commaed(seg, m), ',', '-') == seg[m.start..m.end]
    ensures Contains(seg, seg[m.start..m.end])
  {
    seg := BadgeSegment(origName).value;
    ScanEmpty(seg, 0);
    m := LastMatch(seg);
    NoMatchFromAll(seg, m.end);
    assert ExtractBadgeNumber(origName) == Some(Commaed(seg, m));
    MatchText(seg, m);
  }

  /** The badge is fixed by the global search alone: for any list of matches
      with the properties of a global search over the segment, the badge is
      absent when the list is empty and is otherwise its last match with the
      dash turned into a comma. */
  lemma BadgeOfSearch(origName: string, ms: seq<Match>)
    requires BadgeSegment(origName).Some? && Leftmost(BadgeSegment(origName).value, 0, ms)
    ensures ms == [] ==> ExtractBadgeNumber(origName).None?
    ensures ms != [] ==> ExtractBadgeNumber(origName) == Some(Commaed(BadgeSegment(origName).value, ms[|ms| - 1]))
  {
    var seg := BadgeSegment(origName).value;
    SearchBadge(seg, ms);
    assert ExtractBadgeNumber(origName) == LastBadge(seg);
  }

  lemma SearchBadge(seg: string, ms: seq<Match>)
    requires Leftmost(seg, 0, ms)
    ensures ms == [] ==> LastBadge(seg).None?
    ensures ms != [] ==> LastBadge(seg) == Some(Commaed(seg, ms[|ms| - 1]))
  {
    LeftmostUnique(seg, 0, ms);
  }

  /** In `1-2-3` the expression matches at index 0 and at index 2; the
      search takes `1-2`, resumes after it, and so reports `1,2` and never
      `2,3`. */
  lemma OverlappingMatches()
    ensures MatchAt("1-2-3", 0) == Some(Match(0, 1, 3))
    ensures MatchAt("1-2-3", 2) == Some(Match(2, 3, 5))
    ensures Scan("1-2-3", 0) == [Match(0, 1, 3)]
    ensures LastBadge("1-2-3") == Some("1,2")
  {
    var s := "1-2-3";
    assert DigitsEnd(s, 1) == 1 && DigitsEnd(s, 0) == 1;
    assert DigitsEnd(s, 3) == 3 && DigitsEnd(s, 2) == 3;
    assert DigitsEnd(s, 5) == 5 && DigitsEnd(s, 4) == 5;
    assert MatchAt(s, 3).None? && MatchAt(s, 4).None?;
    assert Scan(s, 3) == Scan(s, 4) == Scan(s, 5) == [];
    assert Commaed(s, Match(0, 1, 3)) == "1,2";
  }

  /** The last match of a scan that found something. */
  lemma LastMatch(seg: string) returns (m: Match)
    requires Scan(seg, 0) != []
    ensures m == Scan(seg, 0)[|Scan(seg, 0)| - 1]
    ensures m.start <= |seg| && MatchAt(seg, m.start) == Some(m)
    ensures NoMatchFrom(seg, m.end)
  {
    m := Scan(seg, 0)[|Scan(seg, 0)| - 1];
    ScanMatches(seg, 0);
    ScanLast(seg, 0);
  }

  /** The comma of a match's badge turns back into its dash, and the
      resulting text occurs in the segment. */
  lemma MatchText(seg: string, m: Match)
    requires WellFormed(seg, m)
    ensures ReplaceFirst(Commaed(seg, m), ',', '-') == seg[m.start..m.end]
    ensures Contains(seg, seg[m.start..m.end])
  {
    var a, b := seg[m.start..m.dash], seg[m.dash + 1..m.end];
    DigitsSlice(seg, m.start, m.dash);
    assert seg[m.start..m.end] == a + ['-'] + b;
    ReplaceAfterDigits(a, ',', '-', b);
    assert OccursAt(seg, seg[m.start..m.end], m.start);
    ContainsIffOccurs(seg, seg[m.start..m.end]);
  }
}
