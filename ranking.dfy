/** The ordering of candidate tags in `getSuggestions` (main.ts): `Array.from(tagCount.keys())`
    sorted with a comparator that looks at the counters from the highest score down. */
module Ranking {
  import opened Seqs
  import opened Histogram

  /** Scanning the counters n-1, n-2, ..., 0, the first index where `u` and `v` differ has
      the larger count in `u`. */
  predicate AboveFrom(u: seq<nat>, v: seq<nat>, n: nat)
    requires n <= |u| && n <= |v|
  {
    n > 0 && (u[n - 1] > v[n - 1] || (u[n - 1] == v[n - 1] && AboveFrom(u, v, n - 1)))
  }

  /** A tag with counters `u` ranks strictly above a tag with counters `v`. */
  predicate RanksAbove(u: seq<nat>, v: seq<nat>)
    requires IsBuckets(u) && IsBuckets(v)
  {
    AboveFrom(u, v, |u|)
  }

  lemma {:induction false} AboveFromAtHighestDifference(u: seq<nat>, v: seq<nat>, n: nat)
    requires n <= |u| && n <= |v|
    ensures AboveFrom(u, v, n) <==> exists i :: 0 <= i < n && u[i] > v[i] && forall k :: i < k < n ==> u[k] == v[k]
  {
    if n > 0 {
      AboveFromAtHighestDifference(u, v, n - 1);
      if AboveFrom(u, v, n) && u[n - 1] <= v[n - 1] {
        var i :| 0 <= i < n - 1 && u[i] > v[i] && forall k :: i < k < n - 1 ==> u[k] == v[k];
        assert forall k :: i < k < n ==> u[k] == v[k];
      }
      if i :| 0 <= i < n && u[i] > v[i] && forall k :: i < k < n ==> u[k] == v[k] {
        if i < n - 1 {
          assert u[n - 1] == v[n - 1];
          assert forall k :: i < k < n - 1 ==> u[k] == v[k];
        }
      }
    }
  }

  /** The ranking in the words of the comparator: `u` ranks above `v` exactly when, at the
      highest score where their counts differ, `u` has the larger count. */
  lemma RanksAboveAtHighestDifference(u: seq<nat>, v: seq<nat>)
    requires IsBuckets(u) && IsBuckets(v)
    ensures RanksAbove(u, v) <==> exists i :: 0 <= i <= CAP && u[i] > v[i] && forall k :: i < k <= CAP ==> u[k] == v[k]
  {
    AboveFromAtHighestDifference(u, v, CAP + 1);
  }

  lemma {:induction false} AboveFromTrichotomy(u: seq<nat>, v: seq<nat>, n: nat)
    requires n <= |u| && n <= |v|
    ensures !(AboveFrom(u, v, n) && AboveFrom(v, u, n))
    ensures AboveFrom(u, v, n) || AboveFrom(v, u, n) || u[..n] == v[..n]
    ensures u[..n] == v[..n] ==> !AboveFrom(u, v, n)
  {
    if n > 0 {
      AboveFromTrichotomy(u, v, n - 1);
      assert u[..n] == u[..n - 1] + [u[n - 1]];
      assert v[..n] == v[..n - 1] + [v[n - 1]];
      if u[..n] == v[..n] {
        assert u[..n][..n - 1] == u[..n - 1] && v[..n][..n - 1] == v[..n - 1];
        assert u[n - 1] == u[..n][n - 1];
      }
    }
  }

  lemma {:induction false} AboveFromTransitive(u: seq<nat>, v: seq<nat>, w: seq<nat>, n: nat)
    requires n <= |u| && n <= |v| && n <= |w|
    requires AboveFrom(u, v, n) && AboveFrom(v, w, n)
    ensures AboveFrom(u, w, n)
  {
    if u[n - 1] == v[n - 1] && v[n - 1] == w[n - 1] {
      AboveFromTransitive(u, v, w, n - 1);
    }
  }

  /** Exactly one of: `u` ranks above `v`, `v` ranks above `u`, they are equal. */
  lemma RanksAboveTrichotomy(u: seq<nat>, v: seq<nat>)
    requires IsBuckets(u) && IsBuckets(v)
    ensures !(RanksAbove(u, v) && RanksAbove(v, u))
    ensures RanksAbove(u, v) || RanksAbove(v, u) || u == v
    ensures u == v ==> !RanksAbove(u, v)
  {
    AboveFromTrichotomy(u, v, CAP + 1);
    assert u[..CAP + 1] == u && v[..CAP + 1] == v;
  }

  lemma RanksAboveTransitive(u: seq<nat>, v: seq<nat>, w: seq<nat>)
    requires IsBuckets(u) && IsBuckets(v) && IsBuckets(w)
    requires RanksAbove(u, v) && RanksAbove(v, w)
    ensures RanksAbove(u, w)
  {
    AboveFromTransitive(u, v, w, CAP + 1);
  }

  /** Not ranking above is transitive too, so ties behave like equality. */
  lemma NotAboveTransitive(u: seq<nat>, v: seq<nat>, w: seq<nat>)
    requires IsBuckets(u) && IsBuckets(v) && IsBuckets(w)
    requires !RanksAbove(u, v) && !RanksAbove(v, w)
    ensures !RanksAbove(u, w)
  {
    if RanksAbove(u, w) {
      RanksAboveTrichotomy(v, w);
      if RanksAbove(w, v) {
        RanksAboveTransitive(u, w, v);
      }
    }
  }

  /** Equal counts above index `n` make the full scan decide at index `n - 1` or below. */
  lemma {:induction false} AboveFromEqualTop(u: seq<nat>, v: seq<nat>, n: nat, m: nat)
    requires n <= m <= |u| && m <= |v|
    requires forall k :: n <= k < m ==> u[k] == v[k]
    ensures AboveFrom(u, v, m) == AboveFrom(u, v, n)
  {
    if n < m {
      AboveFromEqualTop(u, v, n, m - 1);
    }
  }

  /** The comparator of the source's `sort`: from index ARRAY_SIZE down to 0, return
      `bScore[i] - aScore[i]` at the first index where the counts differ, else 0. A
      negative result puts `a` first. */
  method Compare(aScore: seq<nat>, bScore: seq<nat>) returns (r: int)
    requires IsBuckets(aScore) && IsBuckets(bScore)
    ensures r < 0 <==> RanksAbove(aScore, bScore)
    ensures r > 0 <==> RanksAbove(bScore, aScore)
    ensures r == 0 <==> aScore == bScore
  {
    var i: int := CAP;
    while i >= 0
      invariant -1 <= i <= CAP
      invariant forall k :: i < k <= CAP ==> aScore[k] == bScore[k]
    {
      if aScore[i] != bScore[i] {
        AboveFromEqualTop(aScore, bScore, i + 1, CAP + 1);
        AboveFromEqualTop(bScore, aScore, i + 1, CAP + 1);
        return bScore[i] as int - aScore[i] as int;
      }
      i := i - 1;
    }
    assert aScore == bScore;
    RanksAboveTrichotomy(aScore, bScore);
    return 0;
  }

  /** `tagCount.get(k)`: the counters of a key. Every key being sorted comes from the
      histogram itself, so the fallback to zero counters is never taken there; it makes the
      lookup total. */
  function Score(hist: Hist, k: string): (v: seq<nat>)
    ensures IsBuckets(v)
    ensures k in hist && IsBuckets(hist[k]) ==> v == hist[k]
  {
    if k in hist && IsBuckets(hist[k]) then hist[k] else Zeros()
  }

  /** Insert `x` into `sorted` after every key it does not rank above. */
  function Insert(sorted: seq<string>, x: string, hist: Hist): (r: seq<string>)
  {
    if sorted == [] then [x]
    else
      var last := sorted[|sorted| - 1];
      if RanksAbove(Score(hist, x), Score(hist, last)) then Insert(sorted[..|sorted| - 1], x, hist) + [last]
      else sorted + [x]
  }

  /** The stable sort of the keys by the comparator, as an insertion sort. For a comparator
      that is a strict weak order (`RanksAboveTrichotomy`, `NotAboveTransitive`) the stable
      result is unique, so any stable algorithm gives this result; that uniqueness is not
      proved here. */
  function SortByRank(keys: seq<string>, hist: Hist): (r: seq<string>)
  {
    if keys == [] then []
    else
      var init := keys[..|keys| - 1];
      Insert(SortByRank(init, hist), keys[|keys| - 1], hist)
  }

  /** Insertion adds `x` and loses nothing. */
  lemma {:induction false} InsertPermutes(sorted: seq<string>, x: string, hist: Hist)
    ensures multiset(Insert(sorted, x, hist)) == multiset(sorted) + multiset{x}
  {
    if sorted != [] {
      var init := sorted[..|sorted| - 1];
      var last := sorted[|sorted| - 1];
      assert sorted == init + [last];
      if RanksAbove(Score(hist, x), Score(hist, last)) {
        InsertPermutes(init, x, hist);
      }
    }
  }

  /** The sorted keys are a permutation of the keys. */
  lemma {:induction false} SortByRankPermutes(keys: seq<string>, hist: Hist)
    ensures multiset(SortByRank(keys, hist)) == multiset(keys)
  {
    if keys != [] {
      var init := keys[..|keys| - 1];
      assert keys == init + [keys[|keys| - 1]];
      SortByRankPermutes(init, hist);
      InsertPermutes(SortByRank(init, hist), keys[|keys| - 1], hist);
    }
  }

  /** No key ranks above a key placed before it. */
  predicate SortedByRank(s: seq<string>, hist: Hist) {
    forall i, j :: 0 <= i < j < |s| ==> !RanksAbove(Score(hist, s[j]), Score(hist, s[i]))
  }

  lemma {:induction false} InsertSorted(sorted: seq<string>, x: string, hist: Hist)
    requires SortedByRank(sorted, hist)
    ensures SortedByRank(Insert(sorted, x, hist), hist)
  {
    if sorted != [] {
      var last := sorted[|sorted| - 1];
      var init := sorted[..|sorted| - 1];
      var r := Insert(sorted, x, hist);
      if RanksAbove(Score(hist, x), Score(hist, last)) {
        var rest := Insert(init, x, hist);
        InsertSorted(init, x, hist);
        InsertPermutes(init, x, hist);
        assert r == rest + [last];
        forall i | 0 <= i < |rest| ensures !RanksAbove(Score(hist, last), Score(hist, rest[i])) {
          assert rest[i] in multiset(rest);
          if rest[i] == x {
            RanksAboveTrichotomy(Score(hist, x), Score(hist, last));
          } else {
            assert rest[i] in init;
            var k :| 0 <= k < |init| && init[k] == rest[i];
            assert sorted[k] == init[k];
          }
        }
      } else {
        assert r == sorted + [x];
        forall i | 0 <= i < |sorted| ensures !RanksAbove(Score(hist, x), Score(hist, sorted[i])) {
          if i < |sorted| - 1 {
            NotAboveTransitive(Score(hist, x), Score(hist, last), Score(hist, sorted[i]));
          }
        }
      }
    }
  }

  /** The sorted keys: no key ranks above one placed before it. */
  lemma {:induction false} SortByRankSorted(keys: seq<string>, hist: Hist)
    ensures SortedByRank(SortByRank(keys, hist), hist)
  {
    if keys != [] {
      var init := keys[..|keys| - 1];
      SortByRankSorted(init, hist);
      InsertSorted(SortByRank(init, hist), keys[|keys| - 1], hist);
    }
  }

  /** The keys whose counters are exactly `v`: the ones the comparator cannot put apart. */
  function TiedWith(hist: Hist, v: seq<nat>): string -> bool {
    k => Score(hist, k) == v
  }

  lemma {:induction false} InsertKeepsTies(sorted: seq<string>, x: string, hist: Hist, v: seq<nat>)
    ensures Filter(Insert(sorted, x, hist), TiedWith(hist, v)) == Filter(sorted, TiedWith(hist, v)) + Filter([x], TiedWith(hist, v))
  {
    var p := TiedWith(hist, v);
    FilterSingleton(x, p);
    if sorted != [] {
      var last := sorted[|sorted| - 1];
      var init := sorted[..|sorted| - 1];
      assert sorted == init + [last];
      FilterAppend(init, [last], p);
      FilterSingleton(last, p);
      var fi, fx, fl := Filter(init, p), Filter([x], p), Filter([last], p);
      if RanksAbove(Score(hist, x), Score(hist, last)) {
        var rest := Insert(init, x, hist);
        assert Insert(sorted, x, hist) == rest + [last];
        InsertKeepsTies(init, x, hist, v);
        FilterAppend(rest, [last], p);
        assert Filter(Insert(sorted, x, hist), p) == Filter(rest, p) + fl;
        // `x` ranks above `last`, so their counters differ and at most one is tied with `v`.
        RanksAboveTrichotomy(Score(hist, x), Score(hist, last));
        if p(x) {
          assert fl == [] && Filter(sorted, p) == fi;
          assert Filter(rest, p) + fl == Filter(rest, p);
        } else {
          assert fx == [] && Filter(rest, p) == fi;
          assert Filter(sorted, p) + fx == Filter(sorted, p);
        }
      } else {
        assert Insert(sorted, x, hist) == sorted + [x];
        FilterAppend(sorted, [x], p);
      }
    }
  }

  /** The sort is stable: keys with equal counters keep their relative order
      (for the histogram's keys, the order in which the map first received them). */
  lemma {:induction false} SortByRankStable(keys: seq<string>, hist: Hist, v: seq<nat>)
    ensures Filter(SortByRank(keys, hist), TiedWith(hist, v)) == Filter(keys, TiedWith(hist, v))
  {
    if keys != [] {
      var init := keys[..|keys| - 1];
      var last := keys[|keys| - 1];
      SortByRankStable(init, hist, v);
      InsertKeepsTies(SortByRank(init, hist), last, hist, v);
      assert keys == init + [last];
      FilterAppend(init, [last], TiedWith(hist, v));
    }
  }

  lemma {:induction false} NoDuplicatesCount(s: seq<string>, x: string)
    requires NoDuplicates(s)
    ensures multiset(s)[x] <= 1
  {
    if s != [] {
      assert s == [s[0]] + s[1..];
      NoDuplicatesCount(s[1..], x);
      if x == s[0] {
        assert x !in s[1..];
      }
    }
  }

  /** A rearrangement of distinct keys has distinct keys. */
  lemma PermutationNoDuplicates(s: seq<string>, r: seq<string>)
    requires NoDuplicates(s) && multiset(r) == multiset(s)
    ensures NoDuplicates(r)
  {
    forall i, j | 0 <= i < j < |r| ensures r[i] != r[j] {
      if r[i] == r[j] {
        var x := r[i];
        assert r == r[..j] + [x] + r[j + 1..];
        assert x in r[..j];
        assert multiset(r)[x] >= 2;
        NoDuplicatesCount(s, x);
      }
    }
  }

  /** Where `Insert` puts `x`: after `sorted[..j]` when `x` ranks above every key from
      `j` on but not above `sorted[j - 1]`. */
  lemma {:induction false} InsertSplit(sorted: seq<string>, x: string, hist: Hist, j: nat)
    requires j <= |sorted|
    requires forall k :: j <= k < |sorted| ==> RanksAbove(Score(hist, x), Score(hist, sorted[k]))
    requires j == 0 || !RanksAbove(Score(hist, x), Score(hist, sorted[j - 1]))
    ensures Insert(sorted, x, hist) == sorted[..j] + [x] + sorted[j..]
    decreases |sorted|
  {
    if j == |sorted| {
      assert sorted[..j] == sorted && sorted[j..] == [];
    } else {
      var init := sorted[..|sorted| - 1];
      var last := sorted[|sorted| - 1];
      assert RanksAbove(Score(hist, x), Score(hist, last));
      InsertSplit(init, x, hist, j);
      assert init[..j] == sorted[..j];
      assert sorted[j..] == init[j..] + [last];
    }
  }

  /** The array contents `s` after one insertion step over `o`: `o[i]` was put at `j`, the
      keys from `j` to `i - 1` moved one slot right, and `o[i]` ranks above exactly those. */
  lemma Arranged(s: seq<string>, o: seq<string>, i: nat, j: nat, hist: Hist)
    requires j <= i < |o| == |s| && s[j] == o[i]
    requires forall k {:trigger s[k]} :: 0 <= k < j ==> s[k] == o[k]
    requires forall k {:trigger s[k]} :: j < k <= i ==> s[k] == o[k - 1]
    requires forall k {:trigger s[k]} :: i < k < |s| ==> s[k] == o[k]
    requires forall k :: j <= k < i ==> RanksAbove(Score(hist, o[i]), Score(hist, o[k]))
    requires j == 0 || !RanksAbove(Score(hist, o[i]), Score(hist, o[j - 1]))
    ensures s[..i + 1] == Insert(o[..i], o[i], hist)
    ensures s[i + 1..] == o[i + 1..]
  {
    var sorted := o[..i];
    InsertSplit(sorted, o[i], hist, j);
    var t := sorted[..j] + [o[i]] + sorted[j..];
    forall k | 0 <= k <= i ensures s[k] == t[k] {
      if k < j {
        assert t[k] == sorted[k];
      } else if j < k {
        assert t[k] == sorted[k - 1];
      }
    }
    assert s[..i + 1] == t;
  }

  lemma SortByRankSnoc(keys: seq<string>, i: nat, hist: Hist)
    requires i < |keys|
    ensures SortByRank(keys[..i + 1], hist) == Insert(SortByRank(keys[..i], hist), keys[i], hist)
  {
    assert keys[..i + 1][..i] == keys[..i];
  }

  /** The inner loop of the insertion sort: shift to the right, by one slot, the keys
      before index `i` that `x` ranks above, scanning from `i - 1` down, and return the slot
      `j` left free. */
  method OpenGap(a: array<string>, i: nat, x: string, hist: Hist) returns (j: nat)
    requires i < a.Length
    modifies a
    ensures j <= i
    ensures forall k {:trigger a[k]} :: 0 <= k < j ==> a[k] == old(a[k])
    ensures forall k {:trigger a[k]} :: j < k <= i ==> a[k] == old(a[k - 1])
    ensures forall k {:trigger a[k]} :: i < k < a.Length ==> a[k] == old(a[k])
    ensures forall k :: j <= k < i ==> RanksAbove(Score(hist, x), Score(hist, old(a[k])))
    ensures j == 0 || !RanksAbove(Score(hist, x), Score(hist, old(a[j - 1])))
  {
    ghost var before := a[..];
    j := i;
    var placed := false;
    while j > 0 && !placed
      decreases j, if placed then 0 else 1
      invariant 0 <= j <= i
      invariant forall k {:trigger a[k]} :: 0 <= k < j ==> a[k] == before[k]
      invariant forall k {:trigger a[k]} :: j < k <= i ==> a[k] == before[k - 1]
      invariant forall k {:trigger a[k]} :: i < k < a.Length ==> a[k] == before[k]
      invariant forall k :: j <= k < i ==> RanksAbove(Score(hist, x), Score(hist, before[k]))
      invariant placed ==> j > 0 && !RanksAbove(Score(hist, x), Score(hist, before[j - 1]))
    {
      var c := Compare(Score(hist, a[j - 1]), Score(hist, x));
      if c > 0 {
        a[j] := a[j - 1];
        j := j - 1;
      } else {
        placed := true;
      }
    }
  }

  /** One step of the insertion sort: `a[..i]` is sorted and `a[i]` moves left past the
      keys it ranks above. */
  method InsertAt(a: array<string>, i: nat, hist: Hist)
    requires i < a.Length
    modifies a
    ensures a[..i + 1] == Insert(old(a[..i]), old(a[i]), hist)
    ensures a[i + 1..] == old(a[i + 1..])
  {
    var x := a[i];
    var j := OpenGap(a, i, x, hist);
    a[j] := x;
    Arranged(a[..], old(a[..]), i, j, hist);
  }

  /** `Array.from(tagCount.keys()).sort(comparator)`, as an insertion sort in place: each
      key in turn moves left past the keys it ranks above. */
  method SortKeys(a: array<string>, hist: Hist)
    modifies a
    ensures a[..] == SortByRank(old(a[..]), hist)
  {
    ghost var input := a[..];
    for i := 0 to a.Length
      invariant a[..i] == SortByRank(input[..i], hist)
      invariant a[i..] == input[i..]
    {
      assert a[i] == input[i];
      ghost var prev := a[..];
      InsertAt(a, i, hist);
      SortByRankSnoc(input, i, hist);
      assert a[i + 1..] == prev[i + 1..] == input[i + 1..];
    }
    assert input[..a.Length] == input;
  }
}
