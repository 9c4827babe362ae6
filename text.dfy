/** Strings as the JavaScript code sees them: digits, substrings, last
    occurrences, padding and decimal rendering of numbers, and the default
    code-unit order used by `Array.prototype.sort`. */
module Text {

  datatype Option<T> = None | Some(value: T)

  // ---------------------------------------------------------------------------
  // Characters and digits
  // ---------------------------------------------------------------------------

  /** The regular-expression class `\d` (ASCII digits only, no `u` flag). */
  predicate IsDigit(c: char) { '0' <= c <= '9' }

  predicate AllDigits(s: string) { forall i :: 0 <= i < |s| ==> IsDigit(s[i]) }

  /** Length of the longest all-digit prefix of `s`: what a greedy `\d+` or
      `\d{n}` consumes from the start of `s`. */
  function LeadingDigits(s: string): (n: nat)
    ensures n <= |s|
    ensures AllDigits(s[..n])
    ensures n == |s| || !IsDigit(s[n])
  {
    if s == [] || !IsDigit(s[0]) then 0
    else
      var n := 1 + LeadingDigits(s[1..]);
      assert s[..n] == [s[0]] + s[1..][..n - 1];
      n
  }

  lemma LeadingDigitsAtLeast(s: string, k: nat)
    requires k <= |s| && AllDigits(s[..k])
    ensures LeadingDigits(s) >= k
  {
    var n := LeadingDigits(s);
    forall i | 0 <= i < k ensures IsDigit(s[i]) {
      assert s[..k][i] == s[i];
    }
  }

  /** The greedy digit run is determined by where the digits stop. */
  lemma {:induction false} LeadingDigitsExact(s: string, n: nat)
    requires n <= |s| && AllDigits(s[..n]) && (n == |s| || !IsDigit(s[n]))
    ensures LeadingDigits(s) == n
  {
    if n > 0 {
      assert s[..n][0] == s[0];
      assert s[1..][..n - 1] == s[..n][1..];
      assert n == |s| || s[1..][n - 1] == s[n];
      LeadingDigitsExact(s[1..], n - 1);
    }
  }

  function DigitValue(c: char): nat
    requires IsDigit(c)
  {
    c as int - '0' as int
  }

  function Digit(d: nat): (c: char)
    requires d < 10
    ensures IsDigit(c) && DigitValue(c) == d
  {
    ('0' as int + d) as char
  }

  // ---------------------------------------------------------------------------
  // Substrings and searching
  // ---------------------------------------------------------------------------

  /** `t` occurs in `s` starting at index `i`. */
  predicate OccursAt(s: string, t: string, i: nat)
  {
    i + |t| <= |s| && s[i..i + |t|] == t
  }

  /** `String.prototype.includes`: `t` is a contiguous substring of `s`;
      the empty string is in every string, and nothing longer than `s` is. */
  predicate Contains(s: string, t: string)
    ensures t == [] ==> Contains(s, t)
    ensures Contains(s, t) ==> |t| <= |s|
  {
    t <= s || (s != [] && Contains(s[1..], t))
  }

  /** `Contains` holds exactly when `t` occurs at some index of `s`. */
  lemma {:induction false} ContainsIffOccurs(s: string, t: string)
    ensures Contains(s, t) <==> exists i :: OccursAt(s, t, i)
  {
    if t <= s {
      assert OccursAt(s, t, 0);
    } else if s == [] {
      assert |t| > 0;
    } else {
      ContainsIffOccurs(s[1..], t);
      if Contains(s[1..], t) {
        var i: nat :| OccursAt(s[1..], t, i);
        assert s[i + 1..i + 1 + |t|] == s[1..][i..i + |t|];
        assert OccursAt(s, t, i + 1);
      }
      forall i: nat | OccursAt(s, t, i) ensures Contains(s[1..], t) {
        if i > 0 {
          assert s[1..][i - 1..i - 1 + |t|] == s[i..i + |t|];
          assert OccursAt(s[1..], t, i - 1);
        }
      }
    }
  }

  /** `String.prototype.lastIndexOf` for a one-character needle: -1 when
      absent, otherwise the index of the last occurrence. */
  function LastIndexOf(s: string, c: char): (r: int)
    ensures -1 <= r < |s|
    ensures r == -1 <==> c !in s
    ensures r >= 0 ==> s[r] == c && c !in s[r + 1..]
  {
    if s == [] then -1
    else if s[|s| - 1] == c then |s| - 1
    else
      var r := LastIndexOf(s[..|s| - 1], c);
      assert s == s[..|s| - 1] + [s[|s| - 1]];
      assert r >= 0 ==> s[r + 1..] == s[..|s| - 1][r + 1..] + [s[|s| - 1]];
      r
  }

  /** The last occurrence in `a + b` is in `b` when `b` has one, and
      otherwise it is the last occurrence in `a`. */
  lemma {:induction false} LastIndexOfConcat(a: string, b: string, c: char)
    ensures c in b ==> LastIndexOf(a + b, c) == |a| + LastIndexOf(b, c)
    ensures c !in b ==> LastIndexOf(a + b, c) == LastIndexOf(a, c)
  {
    if b == [] {
      assert a + b == a;
    } else {
      var b', x := b[..|b| - 1], b[|b| - 1];
      assert b == b' + [x];
      assert (a + b)[..|a + b| - 1] == a + b';
      if x != c {
        LastIndexOfConcat(a, b', c);
      }
    }
  }

  /** When `s` ends with `b` and `b` holds `c`, what follows the last `c`
      of `s` is what follows the last `c` of `b`. */
  lemma AfterLastInSuffix(a: string, b: string, s: string, c: char)
    requires a + b == s && c in b
    ensures s[LastIndexOf(s, c) + 1..] == b[LastIndexOf(b, c) + 1..]
  {
    LastIndexOfConcat(a, b, c);
    var l := LastIndexOf(b, c);
    assert (a + b)[|a| + l + 1..] == b[l + 1..];
  }

  /** An occurrence of `c` with none after it is the last one. */
  lemma {:induction false} LastIndexOfAt(s: string, c: char, k: nat)
    requires k < |s| && s[k] == c && c !in s[k + 1..]
    ensures LastIndexOf(s, c) == k
  {
    if k < |s| - 1 {
      assert s[|s| - 1] == s[k + 1..][|s| - 2 - k];
      var init := s[..|s| - 1];
      assert init[k + 1..] == s[k + 1..|s| - 1];
      LastIndexOfAt(init, c, k);
    }
  }

  /** `String.prototype.toLowerCase` on the ASCII letters. */
  function LowerChar(c: char): char
  {
    if 'A' <= c <= 'Z' then (c as int + 32) as char else c
  }

  function ToLower(s: string): (r: string)
    ensures |r| == |s|
    ensures forall i :: 0 <= i < |s| ==> r[i] == LowerChar(s[i])
  {
    if s == [] then [] else [LowerChar(s[0])] + ToLower(s[1..])
  }

  /** The total length of the parts. */
  function TotalLength(parts: seq<string>): nat
  {
    if parts == [] then 0 else |parts[0]| + TotalLength(parts[1..])
  }

  /** `Array.prototype.join`: empty for no parts; otherwise it starts with the
      first part and holds every part and one separator between each two. */
  function Join(parts: seq<string>, sep: string): (r: string)
    ensures parts == [] ==> r == []
    ensures parts != [] ==> parts[0] <= r && |r| == TotalLength(parts) + (|parts| - 1) * |sep|
  {
    if parts == [] then ""
    else if |parts| == 1 then parts[0]
    else parts[0] + sep + Join(parts[1..], sep)
  }

  /** Replace the first occurrence of `a` by `b`, as `String.prototype.replace`
      does with a string pattern. */
  function ReplaceFirst(s: string, a: char, b: char): (r: string)
    ensures |r| == |s|
  {
    if s == [] then []
    else if s[0] == a then [b] + s[1..]
    else [s[0]] + ReplaceFirst(s[1..], a, b)
  }

  // ---------------------------------------------------------------------------
  // Default sort order: code-unit lexicographic comparison
  // ---------------------------------------------------------------------------

  /** `a < b` as JavaScript compares strings: never between equal strings,
      and a proper prefix comes first. */
  predicate LexLess(a: string, b: string)
    ensures LexLess(a, b) ==> a != b
    ensures a < b ==> LexLess(a, b)
  {
    if a == [] then b != []
    else b != [] && (a[0] < b[0] || (a[0] == b[0] && LexLess(a[1..], b[1..])))
  }

  lemma {:induction false} LexIrreflexive(a: string)
    ensures !LexLess(a, a)
  {
    if a != [] { LexIrreflexive(a[1..]); }
  }

  lemma {:induction false} LexTransitive(a: string, b: string, c: string)
    requires LexLess(a, b) && LexLess(b, c)
    ensures LexLess(a, c)
  {
    if a != [] && a[0] == b[0] && b[0] == c[0] {
      LexTransitive(a[1..], b[1..], c[1..]);
    }
  }

  lemma {:induction false} LexTotal(a: string, b: string)
    requires a != b
    ensures LexLess(a, b) || LexLess(b, a)
  {
    if a != [] && b != [] && a[0] == b[0] {
      assert a == [a[0]] + a[1..] && b == [b[0]] + b[1..];
      LexTotal(a[1..], b[1..]);
    }
  }

  lemma LexAsymmetric(a: string, b: string)
    requires LexLess(a, b)
    ensures !LexLess(b, a)
  {
    if LexLess(b, a) {
      LexTransitive(a, b, a);
      LexIrreflexive(a);
    }
  }

  // ---------------------------------------------------------------------------
  // Decimal numbers: parseInt(s, 10), Number.prototype.toString, padStart
  // ---------------------------------------------------------------------------

  function Pow10(k: nat): (p: nat)
    ensures p >= 1
  {
    if k == 0 then 1 else 10 * Pow10(k - 1)
  }

  /** `parseInt(s, 10)` of a string made only of digits. */
  function Value(s: string): (n: nat)
    requires AllDigits(s)
    ensures n < Pow10(|s|)
  {
    if s == [] then 0 else 10 * Value(s[..|s| - 1]) + DigitValue(s[|s| - 1])
  }

  /** The `k` low decimal digits of `n`, with leading zeros. */
  function FixedWidth(n: nat, k: nat): (s: string)
    ensures |s| == k && AllDigits(s)
  {
    if k == 0 then [] else FixedWidth(n / 10, k - 1) + [Digit(n % 10)]
  }

  /** `n.toString()` for a non-negative integer. */
  function ToDecimal(n: nat): (s: string)
    ensures s != [] && AllDigits(s)
  {
    if n < 10 then [Digit(n)] else ToDecimal(n / 10) + [Digit(n % 10)]
  }

  function Zeros(k: nat): (s: string)
    ensures |s| == k
    ensures forall i :: 0 <= i < k ==> s[i] == '0'
  {
    if k == 0 then [] else Zeros(k - 1) + ['0']
  }

  /** `s.padStart(k, '0')`: never truncates; `s` preceded by as many `0`
      as it lacks to reach length `k`. */
  function PadStart(s: string, k: nat): (r: string)
    ensures |r| == if |s| >= k then |s| else k
    ensures r[|r| - |s|..] == s
    ensures r[..|r| - |s|] == Zeros(|r| - |s|)
  {
    if |s| >= k then s else Zeros(k - |s|) + s
  }

  lemma {:induction false} FixedWidthZero(k: nat)
    ensures FixedWidth(0, k) == Zeros(k)
  {
    if k > 0 { FixedWidthZero(k - 1); }
  }

  lemma PadStartSnoc(s: string, c: char, k: nat)
    requires k >= 1
    ensures PadStart(s + [c], k) == PadStart(s, k - 1) + [c]
  {
    if |s| + 1 < k {
      assert Zeros(k - |s| - 1) + (s + [c]) == (Zeros(k - 1 - |s|) + s) + [c];
    }
  }

  /** Padding the decimal rendering of a number that fits in `k` digits
      gives its `k`-digit form. */
  lemma {:induction false} PadDecimal(n: nat, k: nat)
    requires 1 <= k && n < Pow10(k)
    ensures PadStart(ToDecimal(n), k) == FixedWidth(n, k)
  {
    if n < 10 {
      FixedWidthZero(k - 1);
      assert n / 10 == 0 && n % 10 == n;
      PadStartSnoc([], Digit(n), k);
      assert PadStart([], k - 1) == Zeros(k - 1);
    } else {
      assert Pow10(1) == 10;
      assert k >= 2;
      assert n / 10 < Pow10(k - 1);
      PadDecimal(n / 10, k - 1);
      PadStartSnoc(ToDecimal(n / 10), Digit(n % 10), k);
    }
  }

  lemma {:induction false} ValueOfFixedWidth(n: nat, k: nat)
    requires n < Pow10(k)
    ensures Value(FixedWidth(n, k)) == n
  {
    if k > 0 {
      var s := FixedWidth(n, k);
      assert s[..|s| - 1] == FixedWidth(n / 10, k - 1);
      ValueOfFixedWidth(n / 10, k - 1);
    }
  }

  lemma {:induction false} FixedWidthOfValue(s: string)
    requires AllDigits(s)
    ensures FixedWidth(Value(s), |s|) == s
  {
    if s != [] {
      var init := s[..|s| - 1];
      FixedWidthOfValue(init);
      var d := DigitValue(s[|s| - 1]);
      assert Value(s) / 10 == Value(init) && Value(s) % 10 == d;
      assert Digit(d) == s[|s| - 1];
      assert s == init + [s[|s| - 1]];
    }
  }

  /** Equal-length digit strings with equal values are equal. */
  lemma ValueInjective(a: string, b: string)
    requires AllDigits(a) && AllDigits(b) && |a| == |b|
    requires Value(a) == Value(b)
    ensures a == b
  {
    FixedWidthOfValue(a);
    FixedWidthOfValue(b);
  }

  /** Splitting a string at its end: lexicographic comparison of equal-length
      strings decides on the first |a|-1 characters, then on the last. */
  lemma {:induction false} LexSnoc(a: string, b: string)
    requires |a| == |b| && |a| > 0
    ensures LexLess(a, b) <==>
      (LexLess(a[..|a| - 1], b[..|b| - 1]) ||
       (a[..|a| - 1] == b[..|b| - 1] && a[|a| - 1] < b[|b| - 1]))
  {
    if |a| > 1 {
      if a[0] == b[0] {
        LexSnoc(a[1..], b[1..]);
        assert a[1..][..|a| - 2] == a[..|a| - 1][1..];
        assert b[1..][..|b| - 2] == b[..|b| - 1][1..];
        if a[..|a| - 1][1..] == b[..|b| - 1][1..] {
          assert a[..|a| - 1] == [a[0]] + a[..|a| - 1][1..];
          assert b[..|b| - 1] == [b[0]] + b[..|b| - 1][1..];
        }
      }
    }
  }

  /** For digit strings of one length, string order is numeric order: this is
      why sorting six-digit period tokens as strings sorts them by date. */
  lemma {:induction false} LexIsNumeric(a: string, b: string)
    requires AllDigits(a) && AllDigits(b) && |a| == |b|
    ensures LexLess(a, b) <==> Value(a) < Value(b)
    decreases |a|
  {
    if |a| > 0 {
      var a', b' := a[..|a| - 1], b[..|b| - 1];
      LexSnoc(a, b);
      LexIsNumeric(a', b');
      LexIsNumeric(b', a');
      if a' == b' {
      } else if Value(a') == Value(b') {
        ValueInjective(a', b');
      }
    }
  }

  /** The value of a concatenation of digit strings, for a two-digit tail. */
  lemma ValueAppendTwo(a: string, b: string)
    requires AllDigits(a) && AllDigits(b) && |b| == 2
    ensures AllDigits(a + b)
    ensures Value(a + b) == 100 * Value(a) + Value(b)
  {
    var s := a + b;
    var a1 := a + [b[0]];
    assert s[..|s| - 1] == a1;
    assert a1[..|a1| - 1] == a;
    assert Value(a1) == 10 * Value(a) + DigitValue(b[0]);
    assert b[..1] == [b[0]] && b[..1][..0] == [];
    assert Value(b[..1]) == DigitValue(b[0]);
    assert Value(b) == 10 * DigitValue(b[0]) + DigitValue(b[1]);
  }
}
