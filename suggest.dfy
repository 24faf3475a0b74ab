/** The whole of `getSuggestions` (main.ts): the tags of the note being edited, the tag lists
    of the other notes, the histogram, the sort and the final filter. */
module Suggest {
  import opened Seqs
  import opened Subsequence
  import opened Tags
  import opened Histogram
  import opened Ranking

  /** The predicate of the final `filter`: the tag contains the query as a subsequence and
      is not already used in the note being edited. */
  function Wanted(currTags: seq<string>, query: string): string -> bool {
    v => IsSubsequence(query, v) && v !in currTags
  }

  /** The suggestions for the tags `currTags` of the edited note and the tag lists `corpus`
      of the other notes. */
  function Rank(currTags: seq<string>, corpus: seq<seq<string>>, query: string): seq<string> {
    Filter(SortByRank(KeysOf(corpus), HistOf(currTags, corpus)), Wanted(currTags, query))
  }

  /** A tag is suggested exactly when it occurs in some other note, contains the query as a
      subsequence and is not a tag of the edited note. */
  lemma RankMembers(currTags: seq<string>, corpus: seq<seq<string>>, query: string)
    ensures forall v :: v in Rank(currTags, corpus, query) <==>
      (exists d :: d in corpus && v in d) && IsSubsequence(query, v) && v !in currTags
  {
    var keys := KeysOf(corpus);
    var sorted := SortByRank(keys, HistOf(currTags, corpus));
    SortByRankPermutes(keys, HistOf(currTags, corpus));
    KeysOfTags(corpus);
    FilterMembers(sorted, Wanted(currTags, query));
    forall v ensures v in sorted <==> v in keys {
      assert v in sorted <==> v in multiset(sorted);
      assert v in keys <==> v in multiset(keys);
    }
  }

  /** No tag is suggested twice. */
  lemma RankNoDuplicates(currTags: seq<string>, corpus: seq<seq<string>>, query: string)
    ensures NoDuplicates(Rank(currTags, corpus, query))
  {
    var keys := KeysOf(corpus);
    var sorted := SortByRank(keys, HistOf(currTags, corpus));
    SortByRankPermutes(keys, HistOf(currTags, corpus));
    PermutationNoDuplicates(keys, sorted);
    FilterNoDuplicates(sorted, Wanted(currTags, query));
  }

  lemma FilterSorted(s: seq<string>, hist: Hist, p: string -> bool)
    requires SortedByRank(s, hist)
    ensures SortedByRank(Filter(s, p), hist)
  {
    var r := Filter(s, p);
    forall i, j | 0 <= i < j < |r| ensures !RanksAbove(Score(hist, r[j]), Score(hist, r[i])) {
      FilterKeepsOrder(s, p, i, j);
    }
  }

  /** Every suggestion has the same counters as a later one, or ranks above it: at the
      highest score where their counters differ, its count is the larger. */
  lemma RankOrdered(currTags: seq<string>, corpus: seq<seq<string>>, query: string)
    ensures var r, h := Rank(currTags, corpus, query), HistOf(currTags, corpus);
      forall i, j :: 0 <= i < j < |r| ==> Score(h, r[i]) == Score(h, r[j]) || RanksAbove(Score(h, r[i]), Score(h, r[j]))
  {
    var r, h := Rank(currTags, corpus, query), HistOf(currTags, corpus);
    SortByRankSorted(KeysOf(corpus), h);
    FilterSorted(SortByRank(KeysOf(corpus), h), h, Wanted(currTags, query));
    forall i, j | 0 <= i < j < |r| ensures Score(h, r[i]) == Score(h, r[j]) || RanksAbove(Score(h, r[i]), Score(h, r[j])) {
      RanksAboveTrichotomy(Score(h, r[i]), Score(h, r[j]));
    }
  }

  /** Suggestions with equal counters come in the order in which their tags first occur in
      the corpus. */
  lemma RankTiesInFirstSeenOrder(currTags: seq<string>, corpus: seq<seq<string>>, query: string, v: seq<nat>)
    ensures var h := HistOf(currTags, corpus);
      Filter(Rank(currTags, corpus, query), TiedWith(h, v)) == Filter(Filter(KeysOf(corpus), Wanted(currTags, query)), TiedWith(h, v))
  {
    var h := HistOf(currTags, corpus);
    var keys, w, t := KeysOf(corpus), Wanted(currTags, query), TiedWith(h, v);
    FilterCommutes(SortByRank(keys, h), w, t);
    SortByRankStable(keys, h, v);
    FilterCommutes(keys, t, w);
  }

  /** The tag lists of the other notes, as `getFileTags` yields them, in vault order. */
  function Corpus(caches: seq<Option<FileCache>>): seq<seq<string>> {
    seq(|caches|, k requires 0 <= k < |caches| => FileTags(caches[k]))
  }

  /** `getSuggestions`: extract the edited note's tags, build the histogram over the other
      notes, sort its keys in place and keep the wanted ones. */
  method GetSuggestions(text: string, caches: seq<Option<FileCache>>, query: string) returns (suggestions: seq<string>)
    ensures suggestions == Rank(ExtractTags(text), Corpus(caches), query)
    ensures forall v :: v in suggestions ==> IsSubsequence(query, v) && v !in ExtractTags(text)
    ensures forall v :: v in suggestions <==>
      (exists k :: 0 <= k < |caches| && v in FileTags(caches[k])) && IsSubsequence(query, v) && v !in ExtractTags(text)
    ensures NoDuplicates(suggestions)
  {
    var currTags := ExtractTags(text);
    var fileTags := Corpus(caches);
    var tagCount, keys := BuildHistogram(currTags, fileTags);
    var a := new string[|keys|](i requires 0 <= i < |keys| => keys[i]);
    assert a[..] == keys;
    SortKeys(a, tagCount);
    suggestions := Filter(a[..], Wanted(currTags, query));
    RankMembers(currTags, fileTags, query);
    RankNoDuplicates(currTags, fileTags, query);
    forall v | v in suggestions ensures exists k :: 0 <= k < |caches| && v in FileTags(caches[k]) {
      var d :| d in fileTags && v in d;
      var k :| 0 <= k < |fileTags| && fileTags[k] == d;
      assert v in FileTags(caches[k]);
    }
    forall k, v | 0 <= k < |caches| && v in FileTags(caches[k]) && IsSubsequence(query, v) && v !in currTags
      ensures v in suggestions
    {
      assert fileTags[k] in fileTags;
    }
  }
}
