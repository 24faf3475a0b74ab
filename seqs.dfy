/** Sequence and string helpers shared by the tag-suggestion model: the searches that
    JavaScript's string methods and regular expressions perform, written out. */
module Seqs {

  datatype Option<T> = None | Some(value: T)

  /** No element occurs twice. */
  predicate NoDuplicates<T(==)>(s: seq<T>) {
    forall i, j :: 0 <= i < j < |s| ==> s[i] != s[j]
  }

  /** Position of the first occurrence of `x` in `s` (what a left-to-right search finds). */
  function IndexOf<T(==)>(s: seq<T>, x: T): (r: Option<nat>)
    ensures r.None? <==> x !in s
    ensures r.Some? ==> r.value < |s| && s[r.value] == x && x !in s[..r.value]
  {
    if s == [] then None
    else if s[0] == x then Some(0)
    else
      match IndexOf(s[1..], x)
      case None => None
      case Some(i) =>
        assert s[..i + 1] == [s[0]] + s[1..][..i];
        Some(i + 1)
  }

  /** `String.prototype.lastIndexOf`: the position of the last occurrence of `x`, or -1. */
  function LastIndexOf<T(==)>(s: seq<T>, x: T): (r: int)
    ensures -1 <= r < |s|
    ensures r == -1 <==> x !in s
    ensures r >= 0 ==> s[r] == x && x !in s[r + 1..]
  {
    if s == [] then -1
    else if s[|s| - 1] == x then |s| - 1
    else
      assert s == s[..|s| - 1] + [s[|s| - 1]];
      LastIndexOf(s[..|s| - 1], x)
  }

  /** The longest prefix of `s` whose elements all satisfy `keep` (a greedy `[...]*` match). */
  function Span<T>(s: seq<T>, keep: T -> bool): (r: seq<T>)
    ensures |r| <= |s|
  {
    if s == [] || !keep(s[0]) then [] else [s[0]] + Span(s[1..], keep)
  }

  /** The span is a prefix of kept elements that stops at the end or at an element `keep`
      rejects. */
  lemma {:induction false} SpanIsLongestPrefix<T>(s: seq<T>, keep: T -> bool)
    ensures Span(s, keep) <= s
    ensures forall i :: 0 <= i < |Span(s, keep)| ==> keep(Span(s, keep)[i])
    ensures |Span(s, keep)| < |s| ==> !keep(s[|Span(s, keep)|])
  {
    if s != [] && keep(s[0]) {
      SpanIsLongestPrefix(s[1..], keep);
    }
  }

  /** `Array.prototype.filter`: the elements of `s` that satisfy `p`, in their order. */
  function Filter<T(!new)>(s: seq<T>, p: T -> bool): (r: seq<T>)
    ensures |r| <= |s|
  {
    if s == [] then [] else (if p(s[0]) then [s[0]] else []) + Filter(s[1..], p)
  }

  /** The filter keeps exactly the elements that satisfy `p`. */
  lemma {:induction false} FilterMembers<T(!new)>(s: seq<T>, p: T -> bool)
    ensures forall x :: x in Filter(s, p) <==> x in s && p(x)
  {
    if s != [] {
      FilterMembers(s[1..], p);
      assert s == [s[0]] + s[1..];
    }
  }

  lemma FilterSingleton<T(!new)>(x: T, p: T -> bool)
    ensures Filter([x], p) == if p(x) then [x] else []
  {
    assert [x][1..] == [];
  }

  lemma {:induction false} FilterAppend<T(!new)>(a: seq<T>, b: seq<T>, p: T -> bool)
    ensures Filter(a + b, p) == Filter(a, p) + Filter(b, p)
  {
    if a != [] {
      assert (a + b)[0] == a[0] && (a + b)[1..] == a[1..] + b;
      FilterAppend(a[1..], b, p);
      var h := if p(a[0]) then [a[0]] else [];
      assert Filter(a + b, p) == h + Filter(a[1..] + b, p);
      assert Filter(a, p) == h + Filter(a[1..], p);
    } else {
      assert a + b == b;
    }
  }

  /** Filtering keeps the relative order: any two elements of the result stand in
      the same order in the input. */
  lemma {:induction false} FilterKeepsOrder<T(!new)>(s: seq<T>, p: T -> bool, i: nat, j: nat)
    requires i < j < |Filter(s, p)|
    ensures exists i', j' :: 0 <= i' < j' < |s| && s[i'] == Filter(s, p)[i] && s[j'] == Filter(s, p)[j]
  {
    var r := Filter(s, p);
    var rest := Filter(s[1..], p);
    if p(s[0]) {
      assert r == [s[0]] + rest;
      if i == 0 {
        var x := rest[j - 1];
        FilterMembers(s[1..], p);
        assert x in s[1..];
        var k :| 0 <= k < |s[1..]| && s[1..][k] == x;
        assert s[0] == r[i] && s[k + 1] == r[j];
      } else {
        FilterKeepsOrder(s[1..], p, i - 1, j - 1);
        var i', j' :| 0 <= i' < j' < |s[1..]| && s[1..][i'] == rest[i - 1] && s[1..][j'] == rest[j - 1];
        assert s[i' + 1] == r[i] && s[j' + 1] == r[j];
      }
    } else {
      assert r == rest;
      FilterKeepsOrder(s[1..], p, i, j);
      var i', j' :| 0 <= i' < j' < |s[1..]| && s[1..][i'] == rest[i] && s[1..][j'] == rest[j];
      assert s[i' + 1] == r[i] && s[j' + 1] == r[j];
    }
  }

  lemma FilterNoDuplicates<T(!new)>(s: seq<T>, p: T -> bool)
    requires NoDuplicates(s)
    ensures NoDuplicates(Filter(s, p))
  {
    var r := Filter(s, p);
    forall i, j | 0 <= i < j < |r| ensures r[i] != r[j] {
      FilterKeepsOrder(s, p, i, j);
    }
  }

  /** Two filters commute. */
  lemma {:induction false} FilterCommutes<T(!new)>(s: seq<T>, p: T -> bool, q: T -> bool)
    ensures Filter(Filter(s, p), q) == Filter(Filter(s, q), p)
  {
    if s != [] {
      var hp := if p(s[0]) then [s[0]] else [];
      var hq := if q(s[0]) then [s[0]] else [];
      FilterAppend(hp, Filter(s[1..], p), q);
      FilterAppend(hq, Filter(s[1..], q), p);
      FilterCommutes(s[1..], p, q);
    }
  }
}
