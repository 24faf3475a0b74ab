# Tag suggestion engine of the Obsidian tag-suggest plugin

This project models the `TagSuggest` editor suggester of `main.ts` in Dafny. When the user
types `@` in a note, the suggester offers tags. Each offered tag:

- is used in other notes;
- contains the typed query as a (not necessarily contiguous) subsequence;
- is not already a tag of the edited note.

Tags are ranked by how often they occur together with the edited note's tags.

The model has one module per piece of the engine:

- `Seqs`: the string searches that JavaScript's string methods and regular expressions do
  (`indexOf`, `lastIndexOf`, a greedy character-class run, `Array.prototype.filter`).
- `Trigger`: `onTrigger`. It reads the line prefix before the cursor and returns the query
  and the span a chosen suggestion replaces.
- `Subsequence`: `_isSubsequence`. Its two-pointer loop is a method proved against a
  recursive definition. That definition is proved equivalent to "there is a strictly
  increasing embedding".
- `Tags`: the tags of the edited note scanned from its text (`/#[^ !@#$%^&*(),.?":{}|<>]*/g`
  without the `#`), and `getFileTags`, which strips the first `#` of every cached tag in place.
- `Histogram`: the co-occurrence histogram `tagCount`.
  - Every other note scores its overlap with the edited note, clamped to `ARRAY_SIZE = 10`.
  - Every tag occurrence in a note bumps that tag's counter for the note's score.
  - The build is a pair of nested loops that update a `map<string, seq<nat>>` and the
    insertion-ordered key list of the JavaScript `Map`.
  - It is proved equal to a recursive description, and that description is proved equal to
    a loop-free one.
- `Ranking`: the comparator and the sort.
  - The comparator (`Compare`) is a descending loop over the counters, proved to decide the
    lexicographic order from the top counter down.
  - `Array.prototype.sort` is modelled as a stable in-place insertion sort on an array. It is
    proved equal to a functional insertion sort, which is proved to be a permutation, sorted,
    and stable.
- `Suggest`: `getSuggestions` end to end. The final `filter` keeps exactly the wanted tags, in
  ranked order, without duplicates.

The code writes into counter index 10 whenever a note scores 10 (`main.ts:102-105`); the model
gives every tag 11 counters (see Findings).

## Model

| member | source | states |
|---|---|---|
| Subsequence.CheckSubsequence | main.ts:55-64 | the two-pointer loop returns true exactly when `sub` is a subsequence of `s`; its invariant keeps `j <= i`, `i` within `s` and `j` within `sub` |
| Subsequence.IsSubsequence | main.ts:55-64 | the recursive definition of the loop's result: a matching first character is consumed from both strings, a mismatch only from `s`; its partner lemmas `SubsequenceIffEmbedding` and `CheckSubsequence` tie it to embeddings and to the loop |
| Subsequence.SubsequenceIffEmbedding | main.ts:55-64 | the loop's relation holds exactly when strictly increasing positions of `s` spell out `sub` (so the empty query always matches) |
| Subsequence.GreedyEmbedding | main.ts:56-62 | the positions the greedy scan matches form an embedding |
| Subsequence.EmbeddingIsFound | main.ts:56-62 | whenever an embedding exists, the greedy scan finds the whole of `sub` |
| Trigger.LinePrefix | main.ts:33 | `substring(0, cursor.ch)` is a prefix of the line whose length is `cursor.ch` clamped to the line length |
| Trigger.IsWordChar | main.ts:34 | `\w` without the `u` flag: exactly the ASCII letters, the digits and `_`; `OnTrigger`'s contract uses it for the query run |
| Trigger.OnTrigger | main.ts:32-53 | the result is null exactly when the line prefix has no `@`; otherwise it ends at the cursor, starts on the cursor line at the last `@`, and its query is the whole run of `\w` characters after the first `@` |
| Trigger.FirstQueryLastSpan | main.ts:34-48 | on `@ab @cd` the query `ab` comes from the first `@` while the span starts at the second (column 4) |
| Trigger.QueryIsDetermined | main.ts:34-48 | at most one string is the word run after the first `@`, so the described query is unique |
| Seqs.IndexOf | main.ts:85 | the search finds the first occurrence, or none exactly when the element is absent |
| Seqs.LastIndexOf | main.ts:44 | `lastIndexOf` returns -1 exactly when the element is absent, and otherwise its last position |
| Seqs.Span | main.ts:34 | the greedy run of a character class (the `\w*` after `@`), never longer than its input; its partner lemma `SpanIsLongestPrefix` states that it is the longest prefix of accepted elements |
| Seqs.SpanIsLongestPrefix | main.ts:34 | a greedy character-class run is a prefix of accepted elements that stops at the end or at a rejected element |
| Seqs.Filter | main.ts:124 | `Array.prototype.filter`, never longer than its input; its partner lemmas `FilterMembers` and `FilterKeepsOrder` state that it keeps exactly the elements satisfying the predicate, in input order |
| Seqs.FilterMembers | main.ts:124 | `filter` keeps exactly the elements that satisfy its predicate |
| Seqs.FilterKeepsOrder | main.ts:124 | any two kept elements occur in the input in the same order |
| Seqs.FilterNoDuplicates | main.ts:124 | filtering a list without duplicates gives a list without duplicates |
| Tags.TagRun | main.ts:85 | the tag after a `#` is a prefix of the rest of the text, made of tag characters only, without `#`, and it stops only at the end of the text or before a character that is not a tag character |
| Tags.IsTagChar | main.ts:85 | the negated character class of the tag pattern: every character but space and `!@#$%^&*(),.?":{}<>` and the vertical bar; `ExtractTags` and `TagRun` promise their results consist of such characters |
| Tags.ExtractTags | main.ts:83-86 | no extracted tag contains a character of the excluded set (space, the vertical bar and `!@#$%^&*(),.?":{}<>`) |
| Tags.ExtractTagsOnePerHash | main.ts:85-86 | the global match yields one tag per `#` of the text, left to right, each the run of tag characters after its `#` |
| Tags.ExtractTagsCount | main.ts:85-86 | there are as many extracted tags as `#` characters in the text |
| Tags.EmptyTagExample | main.ts:85-86 | `##a` gives the tags `""` and `"a"`: empty tags occur |
| Tags.StripFirstHashRemovesFirst | main.ts:76 | `tag.replace("#", "")` leaves a tag without `#` unchanged and otherwise removes exactly its first `#` |
| Tags.StripMarker | main.ts:76 | stripping undoes the `#` marker that cached tags carry |
| Tags.StripAll | main.ts:75-77 | the `forEach` keeps the length and strips every element |
| Tags.StripFirstHash | main.ts:76 | `tag.replace("#", "")` with a string pattern; its partner lemma `StripFirstHashRemovesFirst` states that a tag without `#` is kept and otherwise exactly its first `#` is removed |
| Tags.StripAllInPlace | main.ts:75-77 | the in-place loop leaves the array equal to the stripped list |
| Tags.GetFileTags | main.ts:66-80 | no cache entry gives `[]`, no tags give `[]`; otherwise the result has the input's length and each element is its input with the first `#` removed |
| Tags.FileTags | main.ts:66-80 | the value `getFileTags` yields for a cache entry; the method `GetFileTags` is proved to return it, and its contract spells out the three cases |
| Tags.Completion | main.ts:133 | the text `#tag ` that `selectSuggestion` writes; its partner lemma `CompletionRoundTrip` states that, for a tag made of tag characters, that text on its own is scanned back as exactly `[tag]` |
| Tags.CompletionRoundTrip | main.ts:133 | for a tag made of tag characters, the text `#tag ` on its own is scanned back as exactly `[tag]` |
| Histogram.Zeros | main.ts:104 | every tag seen for the first time starts from all-zero counters, one per score 0..10 |
| Histogram.Overlap | main.ts:98 | the overlap counts the note's tags (repeats counted) that are tags of the edited note: 0 exactly when none are, all exactly when all are |
| Histogram.Bucket | main.ts:98-102 | the clamped score is the overlap when it is at most 10 and 10 otherwise, so it always indexes a counter |
| Histogram.AddDoc | main.ts:103-107 | the inner loop over one note's tags as a recursive function; it keeps every counter list at 11 slots, and its partner lemmas `AddDocKeys` and `AddDocCounters` and the method `AddNote` give its keys and counters |
| Histogram.Counters | main.ts:104 | `tagCount.get(tag) ?? fill(0)` yields a full counter list |
| Histogram.Bump | main.ts:105 | `curr[score]++` raises that one counter by one and changes no other |
| Histogram.AddDocKeys | main.ts:103-107 | a note adds its tags to the keys and removes none |
| Histogram.AddDocCounters | main.ts:103-107 | after a note, a tag's counter for the note's score has grown by the tag's occurrences in the note, and its other counters are unchanged |
| Histogram.HistKeys | main.ts:97-108 | the histogram has an entry exactly for the tags that occur in some note |
| Histogram.AppendNew | main.ts:106 | `Map.set` keeps the existing key order, appends only new keys, and creates no duplicates |
| Histogram.KeysOf | main.ts:106-112 | the key order of `tagCount` after the outer loop; it lists no key twice |
| Histogram.KeysOfFirstSeen | main.ts:106-112 | `Array.from(tagCount.keys())` lists exactly the tags of all the notes, each key placed by the first occurrence of its tag in the notes' tags visited in loop order |
| Histogram.AppendNewFirstSeen | main.ts:103-107 | one note's `Map.set` calls keep keys ordered by the first occurrence of their tags in everything visited so far |
| Histogram.KeysOfTags | main.ts:112 | `Array.from(tagCount.keys())` lists exactly the tags of the corpus |
| Histogram.HistOf | main.ts:97-108 | the outer loop over the notes as a recursive function; it keeps every counter list at 11 slots, and its partner lemmas `HistKeys`, `HistCounters` and `HistOfIsHistSpec` give its keys and counts |
| Histogram.HistCounters | main.ts:97-108 | counter `b` of every tag counts that tag's occurrences in the notes whose clamped score is `b` |
| Histogram.HistOfIsHistSpec | main.ts:97-108 | the histogram equals its loop-free description |
| Histogram.CountersSumToOccurrences | main.ts:97-108 | a tag's counters add up to its number of occurrences in the corpus |
| Histogram.OccurrencesPermutation | main.ts:97 | the counts do not depend on the order of the notes |
| Histogram.HistOrderIndependent | main.ts:97-108 | the histogram built from the same notes in any order is the same map |
| Histogram.AddNote | main.ts:103-107 | the inner loop over one note's tags leaves the map and its key order as a note's contribution prescribes |
| Histogram.BuildHistogram | main.ts:97-108 | the nested loops produce the described histogram and the `Map`'s insertion-ordered keys |
| Histogram.FullOverlapOverflowsAsWritten | main.ts:102-105 | as written: a note with at least ten tags, all tags of the edited note, scores 10 and its first occurrence hits a counter slot the source never allocated |
| Histogram.TenSharedTagsOverflowAsWritten | main.ts:102-105 | as written: ten tags shared with the edited note give that out-of-range write |
| Histogram.ZerosAsWritten | main.ts:104 | as written: `Array(ARRAY_SIZE).fill(0)` is ten zero counters, for the scores 0..9 only |
| Histogram.BumpAsWritten | main.ts:105 | as written: `curr[score]++` succeeds exactly when the score indexes an allocated counter, and then raises that counter by one |
| Histogram.BucketAllocated | main.ts:102-105 | corrected: with 11 counters every clamped score has a slot and the increment is the model's `Bump` |
| Ranking.AboveFromAtHighestDifference | main.ts:116-121 | the scan from the top decides at the highest counter where two lists differ |
| Ranking.RanksAboveAtHighestDifference | main.ts:116-121 | a tag ranks above another exactly when, at the highest score where their counters differ, its counter is larger |
| Ranking.RanksAbove | main.ts:116-121 | the order the comparator decides, scanning the counters from index 10 down; its partner lemmas state that it is decided at the highest differing counter, is a strict order (trichotomy, transitivity) and that `Compare` computes it |
| Ranking.RanksAboveTrichotomy | main.ts:113-123 | of two counter lists, exactly one ranks above the other or they are equal |
| Ranking.RanksAboveTransitive | main.ts:113-123 | ranking above is transitive |
| Ranking.NotAboveTransitive | main.ts:113-123 | not ranking above is transitive, so ties form classes and the comparator is consistent |
| Ranking.Compare | main.ts:113-123 | the comparator is negative exactly when `a` ranks above `b`, positive exactly when `b` ranks above `a`, and zero exactly when their counters are equal |
| Ranking.Score | main.ts:114-115 | `tagCount.get(k)!` gives the tag's counter list |
| Ranking.Insert | main.ts:112-123 | one insertion step of the stable sort; its partner lemmas `InsertPermutes`, `InsertSorted`, `InsertKeepsTies` and `InsertSplit` state that it adds exactly the key, keeps the list ranked, keeps ties in order and puts the key after the last key it does not rank above |
| Ranking.SortByRank | main.ts:112-123 | the stable sort of the keys by the comparator; its partner lemmas `SortByRankPermutes`, `SortByRankSorted` and `SortByRankStable` state that it is a permutation, ranked and stable, and `SortKeys` computes it in place |
| Ranking.InsertPermutes | main.ts:112-123 | inserting a key adds exactly that key |
| Ranking.SortByRankPermutes | main.ts:112-123 | the sorted keys are a permutation of the keys |
| Ranking.InsertSorted | main.ts:112-123 | inserting into a ranked list gives a ranked list |
| Ranking.SortByRankSorted | main.ts:112-123 | no key ranks above a key placed before it |
| Ranking.InsertKeepsTies | main.ts:112-123 | insertion places a key after every earlier key with the same counters |
| Ranking.SortByRankStable | main.ts:112-123 | keys with equal counters keep their first-insertion order |
| Ranking.PermutationNoDuplicates | main.ts:112 | a permutation of a list without duplicates has none |
| Ranking.InsertSplit | main.ts:112-123 | insertion puts the key right after the last key it does not rank above |
| Ranking.OpenGap | main.ts:112-123 | the shifting loop moves exactly the keys the new key ranks above one place right and leaves the rest |
| Ranking.InsertAt | main.ts:112-123 | one insertion step in the array is the functional insertion |
| Ranking.SortKeys | main.ts:112-123 | sorting the key array in place gives the ranked order |
| Suggest.RankMembers | main.ts:112-125 | a tag is suggested exactly when it occurs in some other note, contains the query as a subsequence, and is not a tag of the edited note |
| Suggest.RankNoDuplicates | main.ts:112-125 | no tag is suggested twice |
| Suggest.FilterSorted | main.ts:124 | filtering a ranked list keeps it ranked |
| Suggest.RankOrdered | main.ts:112-125 | of two suggestions, the earlier has equal counters or ranks above the later |
| Suggest.RankTiesInFirstSeenOrder | main.ts:112-125 | suggestions with equal counters appear in the order their tags were first seen in the corpus |
| Suggest.Wanted | main.ts:124 | the predicate of the final `filter`: the tag contains the query as a subsequence and is not a tag of the edited note; `RankMembers` states what it lets through |
| Suggest.Corpus | main.ts:95 | the tag lists `Promise.all` collects, one per other note in vault order, each what `getFileTags` yields for that note |
| Suggest.Rank | main.ts:112-125 | the sorted-then-filtered keys; its partner lemmas `RankMembers`, `RankNoDuplicates`, `RankOrdered` and `RankTiesInFirstSeenOrder` state its members, uniqueness and order, and `GetSuggestions` is proved to return it |
| Suggest.GetSuggestions | main.ts:82-126 | the method returns the ranked, filtered tags; every suggestion contains the query and is not used in the edited note; exactly the wanted tags of the other notes are suggested, each once |

## Left out

- Plugin lifecycle and settings (`MyPlugin`, `DEFAULT_SETTINGS`, main.ts:7-13, 139-159): host persistence, no logic.
- `renderSuggestion` (main.ts:128-130): DOM rendering.
- `selectSuggestion` (main.ts:133): the `replaceRange` call is a foreign editor call. Only the inserted text `#tag ` is modelled (`Tags.Completion`).
- Vault enumeration, excluding the current file, and `Promise.all` (main.ts:90-95): asynchronous I/O. The other notes' cache entries are a parameter of `GetSuggestions`, in vault order.
- `getFileCache` and `getAllTags` (main.ts:67, 73): foreign calls. A cache entry is `Option<FileCache>`, whose `allTags` is what `getAllTags` would report, and only the stripping is modelled.
- Trigger.OnTrigger and Trigger.LinePrefix: the source counts `cursor.ch`, `substring(0, cursor.ch)` and `lastIndexOf('@')` in UTF-16 code units (main.ts:33, 44), while the model counts characters. A character outside the Basic Multilingual Plane before the cursor is two code units in the source and one character in the model, so there the model's prefix and start column differ from the source's.
- Subsequence.CheckSubsequence: `_isSubsequence` compares UTF-16 code units (main.ts:58), the model whole characters. For a query with a character outside the Basic Multilingual Plane the source can match its two surrogate halves in two different characters, which the model does not.
- The regular-expression engine (main.ts:34, 85): both scans are written out as searches and greedy runs. `\w` is ASCII letters, digits and `_`. Characters are compared without Unicode normalisation.
- `NaN` arithmetic from the write to the unallocated counter (main.ts:104-105) and its effect on the comparator (main.ts:116-120): the model gives every tag 11 counters instead (see Findings).
- Dead code: the unused `test` position (main.ts:37-40) and the `score === undefined` branch (main.ts:99-101), which cannot run because `getFileTags` always returns an array.
- The `TagSuggesEntry` wrapper (main.ts:16-20, 125): suggestions are the tag strings themselves.
- Ranking.SortKeys: `Array.prototype.sort` is modelled as a stable insertion sort. The comparator is proved consistent, but the model does not prove that every stable sort algorithm gives the same list.
- Suggest.GetSuggestions: the final `filter` uses the predicate `IsSubsequence`, which `CheckSubsequence` (the loop of `_isSubsequence`) is proved to compute, rather than calling the loop method from inside the filter.

## Findings

| source | as written | input that shows it | evidently intended | confidence | as-written member | corrected member |
|---|---|---|---|---|---|---|
| main.ts:102-105 | `Array(ARRAY_SIZE).fill(0)` allocates counters 0..9, but the score is clamped to at most `ARRAY_SIZE`, so `curr[10]++` writes an unallocated slot and stores `NaN` | another note with the ten tags `a`..`j`, all of which are also tags of the edited note | one counter per clamped score 0..10 (`ARRAY_SIZE + 1` slots), which is what the comparator's scan from index 10 reads | not executed | Histogram.FullOverlapOverflowsAsWritten | Histogram.BucketAllocated |
