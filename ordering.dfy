/** `Array.from(new Set(xs)).sort()`: the distinct strings of a list, in
    insertion order, then sorted by the default string order. */
module Ordering {
  import opened Text

  predicate NoDuplicates(xs: seq<string>)
  {
    forall i, j :: 0 <= i < j < |xs| ==> xs[i] != xs[j]
  }

  predicate LexAtMost(a: string, b: string) { a == b || LexLess(a, b) }

  /** Ascending, ties allowed. */
  predicate Sorted(xs: seq<string>)
  {
    forall i, j :: 0 <= i < j < |xs| ==> LexAtMost(xs[i], xs[j])
  }

  predicate StrictlyAscending(xs: seq<string>)
  {
    forall i, j :: 0 <= i < j < |xs| ==> LexLess(xs[i], xs[j])
  }

  /** The iteration order of `new Set(xs)`: each string at its first
      occurrence. */
  function Distinct(xs: seq<string>): (r: seq<string>)
    ensures NoDuplicates(r)
    ensures forall x :: x in r <==> x in xs
  {
    if xs == [] then []
    else
      var d := Distinct(xs[..|xs| - 1]);
      var x := xs[|xs| - 1];
      assert xs == xs[..|xs| - 1] + [x];
      if x in d then d else d + [x]
  }

  /** Inserts `x` in front of the first element that is not below it. */
  function Insert(x: string, s: seq<string>): (r: seq<string>)
    ensures multiset(r) == multiset(s) + multiset{x}
  {
    if s == [] then [x]
    else if LexLess(s[0], x) then
      assert s == [s[0]] + s[1..];
      [s[0]] + Insert(x, s[1..])
    else [x] + s
  }

  /** Every element of `Insert(x, s)` is `x` or an element of `s`. */
  lemma InsertMembers(x: string, s: seq<string>)
    ensures forall y :: y in Insert(x, s) ==> y == x || y in s
  {
    forall y | y in Insert(x, s) ensures y == x || y in s {
      assert y in multiset(Insert(x, s));
    }
  }

  /** Inserting into an ascending list keeps it ascending. */
  lemma {:induction false} InsertSorted(x: string, s: seq<string>)
    requires Sorted(s)
    ensures Sorted(Insert(x, s))
  {
    if s == [] {
    } else if LexLess(s[0], x) {
      var t := Insert(x, s[1..]);
      InsertSorted(x, s[1..]);
      InsertMembers(x, s[1..]);
      assert Insert(x, s) == [s[0]] + t;
      forall j | 0 <= j < |t| ensures LexAtMost(s[0], t[j]) {
        assert t[j] in t;
        if t[j] != x {
          var k :| 0 <= k < |s[1..]| && s[1..][k] == t[j];
          assert s[k + 1] == t[j];
        }
      }
    } else {
      assert x == s[0] || LexLess(x, s[0]) by {
        if x != s[0] { LexTotal(x, s[0]); }
      }
      forall j | 0 < j < |s| ensures LexAtMost(x, s[j]) {
        if x != s[0] && s[0] != s[j] { LexTransitive(x, s[0], s[j]); }
      }
    }
  }

  /** Inserting a new string into a strictly ascending list keeps it
      strictly ascending. */
  lemma {:induction false} InsertStrict(x: string, s: seq<string>)
    requires StrictlyAscending(s) && x !in s
    ensures StrictlyAscending(Insert(x, s))
  {
    if s == [] {
    } else if LexLess(s[0], x) {
      var t := Insert(x, s[1..]);
      InsertStrict(x, s[1..]);
      InsertMembers(x, s[1..]);
      assert Insert(x, s) == [s[0]] + t;
      forall j | 0 <= j < |t| ensures LexLess(s[0], t[j]) {
        assert t[j] in t;
        if t[j] != x {
          var k :| 0 <= k < |s[1..]| && s[1..][k] == t[j];
          assert s[k + 1] == t[j];
        }
      }
    } else {
      assert LexLess(x, s[0]) by {
        LexTotal(x, s[0]);
      }
      forall j | 0 < j < |s| ensures LexLess(x, s[j]) {
        LexTransitive(x, s[0], s[j]);
      }
    }
  }

  /** Insertion sort; the result is a permutation of the input. */
  function Sort(xs: seq<string>): (r: seq<string>)
    ensures multiset(r) == multiset(xs)
    ensures Sorted(r)
    ensures NoDuplicates(xs) ==> StrictlyAscending(r)
  {
    if xs == [] then []
    else
      var t := Sort(xs[1..]);
      assert xs == [xs[0]] + xs[1..];
      InsertSorted(xs[0], t);
      if NoDuplicates(xs) then
        NoDuplicatesTail(xs);
        InsertStrict(xs[0], t);
        Insert(xs[0], t)
      else Insert(xs[0], t)
  }

  /** Without duplicates, the head is not in the tail and the tail has no
      duplicates either. */
  lemma NoDuplicatesTail(xs: seq<string>)
    requires xs != [] && NoDuplicates(xs)
    ensures NoDuplicates(xs[1..])
    ensures xs[0] !in multiset(xs[1..])
  {
    forall i, j | 0 <= i < j < |xs| - 1 ensures xs[1..][i] != xs[1..][j] {
      assert xs[1..][i] == xs[i + 1] && xs[1..][j] == xs[j + 1];
    }
    forall k | 0 <= k < |xs| - 1 ensures xs[1..][k] != xs[0] {
      assert xs[1..][k] == xs[k + 1];
    }
    assert xs[0] !in xs[1..];
  }

  /** The distinct strings of `xs`, strictly ascending: exactly the strings of
      `xs`, each once. */
  function SortedDistinct(xs: seq<string>): (r: seq<string>)
    ensures StrictlyAscending(r)
    ensures forall x :: x in r <==> x in xs
  {
    var d := Distinct(xs);
    var r := Sort(d);
    forall x ensures x in r <==> x in d {
      assert x in r <==> x in multiset(r);
    }
    r
  }
}
