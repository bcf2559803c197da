/**
 * The candidate splits of getBalanceOptions and the order it sorts them in. The sort is
 * JavaScript's Array.prototype.sort with the comparator of the source, which is stable
 * (ECMAScript 2019, section 22.1.3.27); it is modelled as an in-place insertion sort, specified
 * by a functional insertion sort about which sortedness, permutation, stability and
 * uniqueness are proved.
 */
module Options {
  import opened Types

  /** One candidate split: the two squads, their summed role coverage and their rank gap. */
  datatype BalanceOption = BalanceOption(radiant: seq<Player>, dire: seq<Player>, totalCoverage: int, diff: int)

  /**
   * The comparator handed to `allSplits.sort`: negative when a belongs before b. Higher
   * coverage comes first; equal coverage falls back to the smaller rank gap.
   */
  function Compare(a: BalanceOption, b: BalanceOption): (r: int)
    ensures r <= 0 <==> a.totalCoverage > b.totalCoverage || (a.totalCoverage == b.totalCoverage && a.diff <= b.diff)
    ensures r == 0 <==> a.totalCoverage == b.totalCoverage && a.diff == b.diff
    ensures r < 0 <==> a.totalCoverage > b.totalCoverage || (a.totalCoverage == b.totalCoverage && a.diff < b.diff)
  {
    if b.totalCoverage != a.totalCoverage then b.totalCoverage - a.totalCoverage else a.diff - b.diff
  }

  /** Every earlier option may precede every later one under the comparator. */
  ghost predicate Sorted(s: seq<BalanceOption>) {
    forall i, j :: 0 <= i < j < |s| ==> Compare(s[i], s[j]) <= 0
  }

  /** The options of s whose (totalCoverage, diff) key is (cov, diff), in their order in s. */
  function WithKey(s: seq<BalanceOption>, cov: int, diff: int): seq<BalanceOption> {
    if s == [] then []
    else WithKey(s[..|s| - 1], cov, diff)
         + (if s[|s| - 1].totalCoverage == cov && s[|s| - 1].diff == diff then [s[|s| - 1]] else [])
  }

  /**
   * Insert x into s from the back: x moves left past exactly those trailing options that
   * the comparator puts strictly after it, so it lands behind every option of equal key.
   */
  function Insert(s: seq<BalanceOption>, x: BalanceOption): seq<BalanceOption> {
    if s == [] || Compare(s[|s| - 1], x) <= 0 then s + [x]
    else Insert(s[..|s| - 1], x) + [s[|s| - 1]]
  }

  /** The stable sort of s under Compare. */
  function InsertionSort(s: seq<BalanceOption>): seq<BalanceOption> {
    if s == [] then [] else Insert(InsertionSort(s[..|s| - 1]), s[|s| - 1])
  }

  // ----- insertion -----

  lemma {:induction false} InsertPermutes(s: seq<BalanceOption>, x: BalanceOption)
    ensures multiset(Insert(s, x)) == multiset(s) + multiset{x}
    ensures |Insert(s, x)| == |s| + 1
    decreases |s|
  {
    if s != [] && Compare(s[|s| - 1], x) > 0 {
      var s' := s[..|s| - 1];
      InsertPermutes(s', x);
      assert s == s' + [s[|s| - 1]];
    }
  }

  lemma {:induction false} InsertSorted(s: seq<BalanceOption>, x: BalanceOption)
    requires Sorted(s)
    ensures Sorted(Insert(s, x))
    decreases |s|
  {
    if s != [] && Compare(s[|s| - 1], x) > 0 {
      var s', y := s[..|s| - 1], s[|s| - 1];
      InsertSorted(s', x);
      InsertPermutes(s', x);
      var t := Insert(s', x);
      forall i | 0 <= i < |t|
        ensures Compare(t[i], y) <= 0
      {
        assert t[i] in multiset(t);
        assert t[i] in multiset(s') || t[i] == x;
        if t[i] != x {
          var k :| 0 <= k < |s'| && s'[k] == t[i];
          assert s[k] == t[i];
        }
      }
    }
  }

  lemma {:induction false} WithKeyAppend(s: seq<BalanceOption>, t: seq<BalanceOption>, cov: int, diff: int)
    ensures WithKey(s + t, cov, diff) == WithKey(s, cov, diff) + WithKey(t, cov, diff)
    decreases |t|
  {
    if t == [] {
      assert s + t == s;
    } else {
      var t' := t[..|t| - 1];
      assert (s + t)[..|s + t| - 1] == s + t';
      WithKeyAppend(s, t', cov, diff);
    }
  }

  /** Insertion puts x behind every option of its own key and keeps the rest in order. */
  lemma {:induction false} InsertWithKey(s: seq<BalanceOption>, x: BalanceOption, cov: int, diff: int)
    ensures WithKey(Insert(s, x), cov, diff)
         == WithKey(s, cov, diff) + (if x.totalCoverage == cov && x.diff == diff then [x] else [])
    decreases |s|
  {
    if s == [] || Compare(s[|s| - 1], x) <= 0 {
      WithKeyAppend(s, [x], cov, diff);
      assert WithKey([x], cov, diff) == WithKey([], cov, diff) + (if x.totalCoverage == cov && x.diff == diff then [x] else []);
    } else {
      var s', y := s[..|s| - 1], s[|s| - 1];
      InsertWithKey(s', x, cov, diff);
      WithKeyAppend(Insert(s', x), [y], cov, diff);
      assert WithKey([y], cov, diff) == WithKey([], cov, diff) + (if y.totalCoverage == cov && y.diff == diff then [y] else []);
    }
  }

  // ----- the sort -----

  /** The sorted list is a permutation of its input. */
  lemma {:induction false} SortPermutes(s: seq<BalanceOption>)
    ensures multiset(InsertionSort(s)) == multiset(s)
    ensures |InsertionSort(s)| == |s|
    decreases |s|
  {
    if s != [] {
      var s' := s[..|s| - 1];
      SortPermutes(s');
      InsertPermutes(InsertionSort(s'), s[|s| - 1]);
      assert s == s' + [s[|s| - 1]];
    }
  }

  /** The sorted list is in comparator order: coverage descending, then rank gap ascending. */
  lemma {:induction false} SortSorted(s: seq<BalanceOption>)
    ensures Sorted(InsertionSort(s))
    decreases |s|
  {
    if s != [] {
      SortSorted(s[..|s| - 1]);
      InsertSorted(InsertionSort(s[..|s| - 1]), s[|s| - 1]);
    }
  }

  /** Stability: options of equal key keep their relative input order. */
  lemma {:induction false} SortStable(s: seq<BalanceOption>, cov: int, diff: int)
    ensures WithKey(InsertionSort(s), cov, diff) == WithKey(s, cov, diff)
    decreases |s|
  {
    if s != [] {
      var s' := s[..|s| - 1];
      SortStable(s', cov, diff);
      InsertWithKey(InsertionSort(s'), s[|s| - 1], cov, diff);
    }
  }

  lemma {:induction false} WithKeyMembers(s: seq<BalanceOption>, cov: int, diff: int)
    ensures forall x :: x in WithKey(s, cov, diff) <==> x in s && x.totalCoverage == cov && x.diff == diff
    decreases |s|
  {
    if s != [] {
      var s' := s[..|s| - 1];
      WithKeyMembers(s', cov, diff);
      assert s == s' + [s[|s| - 1]];
    }
  }

  /** The last option of s closes the list of its own key. */
  lemma WithKeyLast(s: seq<BalanceOption>)
    requires s != []
    ensures WithKey(s, s[|s| - 1].totalCoverage, s[|s| - 1].diff)
         == WithKey(s[..|s| - 1], s[|s| - 1].totalCoverage, s[|s| - 1].diff) + [s[|s| - 1]]
  {
  }

  lemma NoKeysEmpty(s: seq<BalanceOption>)
    requires forall cov, diff :: WithKey(s, cov, diff) == []
    ensures s == []
  {
    if s != [] {
      var x := s[|s| - 1];
      WithKeyLast(s);
      assert WithKey(s, x.totalCoverage, x.diff) != [];
    }
  }

  /** An option that occurs in a sorted list may precede that list's last option. */
  lemma PrecedesLast(u: seq<BalanceOption>, x: BalanceOption)
    requires Sorted(u) && x in u
    ensures Compare(x, u[|u| - 1]) <= 0
  {
    var p :| 0 <= p < |u| && u[p] == x;
  }

  lemma LastAgree(t: seq<BalanceOption>, u: seq<BalanceOption>)
    requires Sorted(t) && Sorted(u) && t != [] && u != []
    requires forall cov, diff :: WithKey(t, cov, diff) == WithKey(u, cov, diff)
    ensures t[|t| - 1] == u[|u| - 1]
  {
    var x := t[|t| - 1];
    LastsShareKey(t, u);
    SameKeyLast(t, u, x.totalCoverage, x.diff);
  }

  /** The last options of two sorted lists with the same options of each key have the same key. */
  lemma LastsShareKey(t: seq<BalanceOption>, u: seq<BalanceOption>)
    requires Sorted(t) && Sorted(u) && t != [] && u != []
    requires forall cov, diff :: WithKey(t, cov, diff) == WithKey(u, cov, diff)
    ensures Compare(t[|t| - 1], u[|u| - 1]) == 0
  {
    LastInAllOfKey(t, u);
    PrecedesLast(u, t[|t| - 1]);
    LastInAllOfKey(u, t);
    PrecedesLast(t, u[|u| - 1]);
  }

  /** Lists with the same options of the key their last options share end alike. */
  lemma SameKeyLast(t: seq<BalanceOption>, u: seq<BalanceOption>, cov: int, diff: int)
    requires t != [] && u != []
    requires t[|t| - 1].totalCoverage == cov == u[|u| - 1].totalCoverage
    requires t[|t| - 1].diff == diff == u[|u| - 1].diff
    requires WithKey(t, cov, diff) == WithKey(u, cov, diff)
    ensures t[|t| - 1] == u[|u| - 1]
  {
    WithKeyLast(t);
    WithKeyLast(u);
    var w := WithKey(t, cov, diff);
    assert w[|w| - 1] == t[|t| - 1];
  }

  /** The last option of t occurs in any list that has the same options of each key as t. */
  lemma LastInAllOfKey(t: seq<BalanceOption>, u: seq<BalanceOption>)
    requires t != []
    requires forall cov, diff :: WithKey(t, cov, diff) == WithKey(u, cov, diff)
    ensures t[|t| - 1] in u
  {
    var x := t[|t| - 1];
    WithKeyLast(t);
    assert x in WithKey(u, x.totalCoverage, x.diff);
    WithKeyMembers(u, x.totalCoverage, x.diff);
  }

  lemma DropLastAgree(t: seq<BalanceOption>, u: seq<BalanceOption>, t': seq<BalanceOption>, u': seq<BalanceOption>)
    requires t != [] && u != [] && t[|t| - 1] == u[|u| - 1]
    requires t' == t[..|t| - 1] && u' == u[..|u| - 1]
    requires forall cov, diff :: WithKey(t, cov, diff) == WithKey(u, cov, diff)
    ensures forall cov, diff :: WithKey(t', cov, diff) == WithKey(u', cov, diff)
  {
    forall cov, diff
      ensures WithKey(t', cov, diff) == WithKey(u', cov, diff)
    {
      assert WithKey(t, cov, diff) == WithKey(u, cov, diff);
      var tail := if t[|t| - 1].totalCoverage == cov && t[|t| - 1].diff == diff then [t[|t| - 1]] else [];
      assert WithKey(t, cov, diff) == WithKey(t', cov, diff) + tail;
      assert WithKey(u, cov, diff) == WithKey(u', cov, diff) + tail;
      var n := |WithKey(t, cov, diff)| - |tail|;
      assert WithKey(t', cov, diff) == WithKey(t, cov, diff)[..n];
      assert WithKey(u', cov, diff) == WithKey(u, cov, diff)[..n];
    }
  }

  lemma SortedInit(s: seq<BalanceOption>)
    requires Sorted(s) && s != []
    ensures Sorted(s[..|s| - 1])
  {
    var s' := s[..|s| - 1];
    forall i, j | 0 <= i < j < |s'|
      ensures Compare(s'[i], s'[j]) <= 0
    {
      assert s'[i] == s[i] && s'[j] == s[j];
    }
  }

  /**
   * Any two sorted lists that agree on the order within every key are equal. So every
   * stable sort under this comparator, whatever its algorithm, gives InsertionSort's result.
   */
  lemma {:induction false} StableSortUnique(t: seq<BalanceOption>, u: seq<BalanceOption>)
    requires Sorted(t) && Sorted(u)
    requires forall cov, diff :: WithKey(t, cov, diff) == WithKey(u, cov, diff)
    ensures t == u
    decreases |t|
  {
    if t == [] {
      NoKeysEmpty(u);
    } else if u == [] {
      NoKeysEmpty(t);
    } else {
      var t', u' := t[..|t| - 1], u[..|u| - 1];
      LastAgree(t, u);
      DropLastAgree(t, u, t', u');
      SortedInit(t);
      SortedInit(u);
      StableSortUnique(t', u');
      assert t == t' + [t[|t| - 1]];
      assert u == u' + [u[|u| - 1]];
    }
  }

  /** A stable sort's result: the sorted permutation that keeps equal keys in input order. */
  lemma SortCharacterised(s: seq<BalanceOption>, t: seq<BalanceOption>)
    requires Sorted(t)
    requires forall cov, diff :: WithKey(t, cov, diff) == WithKey(s, cov, diff)
    ensures t == InsertionSort(s)
  {
    SortSorted(s);
    forall cov, diff
      ensures WithKey(t, cov, diff) == WithKey(InsertionSort(s), cov, diff)
    {
      SortStable(s, cov, diff);
    }
    StableSortUnique(t, InsertionSort(s));
  }

  /** The first sorted option is at least as good as every input option. */
  lemma SortFirstIsBest(s: seq<BalanceOption>)
    requires s != []
    ensures forall x :: x in s ==> Compare(InsertionSort(s)[0], x) <= 0
  {
    SortPermutes(s);
    SortSorted(s);
    var t := InsertionSort(s);
    forall x | x in s
      ensures Compare(t[0], x) <= 0
    {
      assert x in multiset(t);
      var k :| 0 <= k < |t| && t[k] == x;
    }
  }

  // ----- the in-place sort -----

  /** `allSplits.sort(...)`: sorts the array in place, stably, under Compare. */
  method SortInPlace(a: array<BalanceOption>)
    modifies a
    ensures a[..] == InsertionSort(old(a[..]))
  {
    var i := 0;
    while i < a.Length
      invariant 0 <= i <= a.Length
      invariant a[..i] == InsertionSort(old(a[..])[..i])
      invariant a[i..] == old(a[..])[i..]
    {
      ghost var before := a[..];
      assert old(a[..])[..i + 1][..i] == old(a[..])[..i];
      assert before[..i] == a[..i] && before[i] == old(a[..])[i];
      InsertAt(a, i);
      assert a[i + 1..] == before[i + 1..] == old(a[..])[i + 1..];
      i := i + 1;
    }
    assert a[..] == a[..a.Length] && old(a[..]) == old(a[..])[..a.Length];
  }

  /** One step of the sort: moves a[i] left into the sorted prefix a[..i]. */
  method InsertAt(a: array<BalanceOption>, i: nat)
    requires i < a.Length
    modifies a
    ensures a[..i + 1] == Insert(old(a[..i]), old(a[i]))
    ensures a[i + 1..] == old(a[i + 1..])
  {
    ghost var sorted := a[..i];
    var x := a[i];
    var j := i;
    while j > 0 && Compare(a[j - 1], x) > 0
      invariant 0 <= j <= i
      invariant forall k :: 0 <= k < j ==> a[k] == sorted[k]
      invariant forall k :: j < k <= i ==> a[k] == sorted[k - 1]
      invariant forall k :: i < k < a.Length ==> a[k] == old(a[k])
      invariant forall k :: j <= k < i ==> Compare(sorted[k], x) > 0
    {
      a[j] := a[j - 1];
      j := j - 1;
    }
    a[j] := x;
    InsertionPoint(sorted, x, j);
    Spliced(a[..i + 1], sorted, x, j);
  }

  /** A list that agrees with s before j, holds x at j and s shifted by one after j is s with x spliced in at j. */
  lemma Spliced(r: seq<BalanceOption>, s: seq<BalanceOption>, x: BalanceOption, j: nat)
    requires j <= |s| && |r| == |s| + 1 && r[j] == x
    requires forall k :: 0 <= k < j ==> r[k] == s[k]
    requires forall k :: j < k < |r| ==> r[k] == s[k - 1]
    ensures r == s[..j] + [x] + s[j..]
  {
  }

  /** Where Insert puts x: behind every option that may precede it, before those that may not. */
  lemma {:induction false} InsertionPoint(s: seq<BalanceOption>, x: BalanceOption, j: nat)
    requires j <= |s|
    requires j == 0 || Compare(s[j - 1], x) <= 0
    requires forall k :: j <= k < |s| ==> Compare(s[k], x) > 0
    ensures Insert(s, x) == s[..j] + [x] + s[j..]
    decreases |s|
  {
    if j < |s| {
      var s' := s[..|s| - 1];
      assert s'[..j] == s[..j];
      InsertionPoint(s', x, j);
      assert s[j..] == s'[j..] + [s[|s| - 1]];
    } else {
      assert s[..j] == s;
    }
  }
}
