/** The co-occurrence histogram of `getSuggestions` (main.ts): every note of the corpus has
    an overlap score with the note being edited, and every tag occurrence in a note counts
    once in that tag's counter for the note's score. */
module Histogram {
  import opened Seqs

  /** `ARRAY_SIZE`: scores are clamped to this value. */
  const CAP: nat := 10

  /** A tag's counters, one per clamped score 0..CAP. The source allocates
      `Array(ARRAY_SIZE).fill(0)`, that is CAP slots for the scores 0..CAP-1 only, so a
      note scoring CAP increments an unallocated slot (giving NaN). This model gives
      every tag CAP + 1 counters, which is what the comparator's scan from index CAP
      down to 0 reads. */
  predicate IsBuckets(v: seq<nat>) {
    |v| == CAP + 1
  }

  function Zeros(): (v: seq<nat>)
    ensures IsBuckets(v) && forall b :: 0 <= b <= CAP ==> v[b] == 0
  {
    seq(CAP + 1, _ => 0)
  }

  /** The map `tagCount` from tag to its counters. */
  type Hist = map<string, seq<nat>>

  predicate WellFormed(h: Hist) {
    forall t :: t in h ==> IsBuckets(h[t])
  }

  /** `tags.filter((t) => currTags.includes(t)).length`: the elements of `doc`, repeats
      counted, that occur in `currTags`. */
  function Overlap(currTags: seq<string>, doc: seq<string>): (n: nat)
    ensures n <= |doc|
    ensures n == 0 <==> forall t :: t in doc ==> t !in currTags
    ensures n == |doc| <==> forall t :: t in doc ==> t in currTags
  {
    if doc == [] then 0
    else (if doc[0] in currTags then 1 else 0) + Overlap(currTags, doc[1..])
  }

  /** `Math.min(score, ARRAY_SIZE)`: the counter a note's tags go to. */
  function Bucket(currTags: seq<string>, doc: seq<string>): (b: nat)
    ensures b <= CAP
    ensures Overlap(currTags, doc) <= CAP ==> b == Overlap(currTags, doc)
    ensures Overlap(currTags, doc) >= CAP ==> b == CAP
  {
    var score := Overlap(currTags, doc);
    if score < CAP then score else CAP
  }

  /** The counters as the source allocates them, `Array(ARRAY_SIZE).fill(0)`: CAP slots. */
  function ZerosAsWritten(): (v: seq<nat>)
    ensures |v| == CAP && forall b :: 0 <= b < CAP ==> v[b] == 0
  {
    seq(CAP, _ => 0)
  }

  /** `curr[score]++` where the slot may be unallocated: JavaScript then stores NaN, which
      this reports as None. */
  function BumpAsWritten(v: seq<nat>, b: nat): (r: Option<seq<nat>>)
    ensures r.Some? <==> b < |v|
    ensures r.Some? ==> |r.value| == |v| && r.value[b] == v[b] + 1
  {
    if b < |v| then Some(v[b := v[b] + 1]) else None
  }

  /** As written: a note with at least CAP tags, all of them tags of the edited note,
      scores CAP, and its first tag occurrence increments a slot the source never allocated. */
  lemma {:induction false} FullOverlapOverflowsAsWritten(currTags: seq<string>, doc: seq<string>)
    requires |doc| >= CAP && forall t :: t in doc ==> t in currTags
    ensures Bucket(currTags, doc) == CAP
    ensures BumpAsWritten(ZerosAsWritten(), Bucket(currTags, doc)).None?
  {
    assert Overlap(currTags, doc) == |doc|;
  }

  /** Ten tags shared with the edited note make such a note. */
  lemma TenSharedTagsOverflowAsWritten()
    ensures BumpAsWritten(ZerosAsWritten(), Bucket(["a", "b", "c", "d", "e", "f", "g", "h", "i", "j"], ["a", "b", "c", "d", "e", "f", "g", "h", "i", "j"])).None?
  {
    var tags := ["a", "b", "c", "d", "e", "f", "g", "h", "i", "j"];
    FullOverlapOverflowsAsWritten(tags, tags);
  }

  /** Corrected: with CAP + 1 counters every clamped score has a slot, so `curr[score]++`
      is always defined. */
  lemma BucketAllocated(currTags: seq<string>, doc: seq<string>)
    ensures BumpAsWritten(Zeros(), Bucket(currTags, doc)).Some?
    ensures BumpAsWritten(Zeros(), Bucket(currTags, doc)).value == Bump(Zeros(), Bucket(currTags, doc), 1)
  {
  }

  /** `tagCount.get(tag) ?? Array(ARRAY_SIZE).fill(0)`: a tag seen for the first time
      starts from all-zero counters. */
  function Counters(h: Hist, t: string): (v: seq<nat>)
    requires WellFormed(h)
    ensures IsBuckets(v)
  {
    if t in h then h[t] else Zeros()
  }

  /** Counter `b` of `v` raised by `n`. */
  function Bump(v: seq<nat>, b: nat, n: nat): (r: seq<nat>)
    requires b < |v|
    ensures |r| == |v| && r[b] == v[b] + n
    ensures forall k :: 0 <= k < |v| && k != b ==> r[k] == v[k]
  {
    v[b := v[b] + n]
  }

  /** The inner loop for one note: each tag occurrence bumps counter `b` of its tag. */
  function AddDoc(h: Hist, tags: seq<string>, b: nat): (r: Hist)
    requires WellFormed(h) && b <= CAP
    ensures WellFormed(r)
    decreases |tags|
  {
    if tags == [] then h
    else
      var h' := AddDoc(h, tags[..|tags| - 1], b);
      var t := tags[|tags| - 1];
      assert tags == tags[..|tags| - 1] + [t];
      h'[t := Bump(Counters(h', t), b, 1)]
  }

  /** A note adds its tags to the keys and removes none. */
  lemma {:induction false} AddDocKeys(h: Hist, tags: seq<string>, b: nat)
    requires WellFormed(h) && b <= CAP
    ensures AddDoc(h, tags, b).Keys == h.Keys + set t | t in tags
    decreases |tags|
  {
    if tags != [] {
      var init := tags[..|tags| - 1];
      AddDocKeys(h, init, b);
      assert tags == init + [tags[|tags| - 1]];
      assert (set t | t in tags) == (set t | t in init) + {tags[|tags| - 1]};
    }
  }

  lemma CountersUpdate(h: Hist, t0: string, v: seq<nat>, t: string)
    requires WellFormed(h) && IsBuckets(v)
    ensures WellFormed(h[t0 := v])
    ensures Counters(h[t0 := v], t) == if t == t0 then v else Counters(h, t)
  {
  }

  lemma CountSnoc(tags: seq<string>, t: string)
    requires tags != []
    ensures multiset(tags)[t] == multiset(tags[..|tags| - 1])[t] + if t == tags[|tags| - 1] then 1 else 0
  {
    assert tags == tags[..|tags| - 1] + [tags[|tags| - 1]];
  }

  lemma BumpTwice(v: seq<nat>, b: nat, m: nat)
    requires b < |v|
    ensures Bump(Bump(v, b, m), b, 1) == Bump(v, b, m + 1)
  {
  }

  /** After a note, a tag's counter `b` has grown by the tag's occurrences in the note and
      its other counters are unchanged. */
  lemma {:induction false} AddDocCounters(h: Hist, tags: seq<string>, b: nat, t: string)
    requires WellFormed(h) && b <= CAP
    ensures Counters(AddDoc(h, tags, b), t) == Bump(Counters(h, t), b, multiset(tags)[t])
    decreases |tags|
  {
    var v := Counters(h, t);
    if tags == [] {
      assert Bump(v, b, 0) == v;
    } else {
      var init := tags[..|tags| - 1];
      var last := tags[|tags| - 1];
      AddDocCounters(h, init, b, t);
      var h' := AddDoc(h, init, b);
      CountersUpdate(h', last, Bump(Counters(h', last), b, 1), t);
      CountSnoc(tags, t);
      if t == last {
        BumpTwice(v, b, multiset(init)[t]);
      }
    }
  }

  /** The tags that occur in at least one note of the corpus. */
  ghost function TagsOf(corpus: seq<seq<string>>): set<string> {
    set d, t | d in corpus && t in d :: t
  }

  lemma TagsOfSnoc(corpus: seq<seq<string>>, d: seq<string>)
    ensures TagsOf(corpus + [d]) == TagsOf(corpus) + set t | t in d
  {
    assert forall e :: e in corpus + [d] <==> e in corpus || e == d;
  }

  /** The outer loop over the corpus, note by note. */
  function HistOf(currTags: seq<string>, corpus: seq<seq<string>>): (r: Hist)
    ensures WellFormed(r)
  {
    if corpus == [] then map[]
    else
      var d := corpus[|corpus| - 1];
      AddDoc(HistOf(currTags, corpus[..|corpus| - 1]), d, Bucket(currTags, d))
  }

  /** The histogram has an entry exactly for the tags that occur in the corpus. */
  lemma {:induction false} HistKeys(currTags: seq<string>, corpus: seq<seq<string>>)
    ensures HistOf(currTags, corpus).Keys == TagsOf(corpus)
  {
    if corpus != [] {
      var init := corpus[..|corpus| - 1];
      var d := corpus[|corpus| - 1];
      HistKeys(currTags, init);
      AddDocKeys(HistOf(currTags, init), d, Bucket(currTags, d));
      assert corpus == init + [d];
      TagsOfSnoc(init, d);
    }
  }

  /** The keys of `tagCount` in the order a JavaScript `Map` iterates them: first insertion. */
  function AppendNew(keys: seq<string>, tags: seq<string>): (r: seq<string>)
    ensures keys <= r
    ensures forall t :: t in r <==> t in keys || t in tags
    ensures NoDuplicates(keys) ==> NoDuplicates(r)
    decreases |tags|
  {
    if tags == [] then keys
    else
      var r' := AppendNew(keys, tags[..|tags| - 1]);
      var t := tags[|tags| - 1];
      assert tags == tags[..|tags| - 1] + [t];
      if t in r' then r' else r' + [t]
  }

  function KeysOf(corpus: seq<seq<string>>): (r: seq<string>)
    ensures NoDuplicates(r)
  {
    if corpus == [] then []
    else AppendNew(KeysOf(corpus[..|corpus| - 1]), corpus[|corpus| - 1])
  }

  /** The ordered keys list the same tags as the histogram's keys. */
  lemma {:induction false} KeysOfTags(corpus: seq<seq<string>>)
    ensures forall t :: t in KeysOf(corpus) <==> t in TagsOf(corpus)
  {
    if corpus != [] {
      var init := corpus[..|corpus| - 1];
      var d := corpus[|corpus| - 1];
      KeysOfTags(init);
      assert corpus == init + [d];
      TagsOfSnoc(init, d);
    }
  }

  /** Every tag occurrence of the corpus, note after note, in the order the loops visit them. */
  function Flatten(corpus: seq<seq<string>>): seq<string> {
    if corpus == [] then [] else Flatten(corpus[..|corpus| - 1]) + corpus[|corpus| - 1]
  }

  /** The keys stand in the order of their first occurrences in `s`. */
  predicate InFirstSeenOrder(keys: seq<string>, s: seq<string>) {
    forall i, j :: 0 <= i < j < |keys| ==>
      IndexOf(s, keys[i]).Some? && IndexOf(s, keys[j]).Some? && IndexOf(s, keys[i]).value < IndexOf(s, keys[j]).value
  }

  /** A position holding `x` with no `x` before it is the one `IndexOf` finds. */
  lemma IndexOfUnique(s: seq<string>, x: string, k: nat)
    requires k < |s| && s[k] == x && x !in s[..k]
    ensures IndexOf(s, x) == Some(k)
  {
  }

  /** Appending one tag moves no first occurrence, and a tag not seen before is first seen
      at the end. */
  lemma IndexOfSnoc(s: seq<string>, t: string, x: string)
    ensures x in s ==> IndexOf(s + [t], x) == IndexOf(s, x)
    ensures x !in s && x == t ==> IndexOf(s + [t], x) == Some(|s|)
  {
    if x in s {
      var k := IndexOf(s, x).value;
      assert (s + [t])[..k] == s[..k];
      IndexOfUnique(s + [t], x, k);
    } else if x == t {
      assert (s + [t])[..|s|] == s;
      IndexOfUnique(s + [t], x, |s|);
    }
  }

  /** A tag already seen keeps the order when one more tag occurrence is visited. */
  lemma FirstSeenSnoc(keys: seq<string>, s: seq<string>, t: string)
    requires forall x :: x in keys ==> x in s
    requires InFirstSeenOrder(keys, s)
    ensures InFirstSeenOrder(keys, s + [t])
  {
    forall i | 0 <= i < |keys|
      ensures IndexOf(s + [t], keys[i]) == IndexOf(s, keys[i])
    {
      IndexOfSnoc(s, t, keys[i]);
    }
  }

  /** A tag seen for the first time goes after every key, and so does its first occurrence. */
  lemma FirstSeenSnocNew(keys: seq<string>, s: seq<string>, t: string)
    requires forall x :: x in keys ==> x in s
    requires t !in s
    requires InFirstSeenOrder(keys, s)
    ensures InFirstSeenOrder(keys + [t], s + [t])
  {
    var r := keys + [t];
    FirstSeenSnoc(keys, s, t);
    IndexOfSnoc(s, t, t);
    forall i | 0 <= i < |keys|
      ensures IndexOf(s + [t], r[i]).Some? && IndexOf(s + [t], r[i]).value < |s|
    {
      assert r[i] == keys[i];
      IndexOfSnoc(s, t, keys[i]);
    }
    forall i, j | 0 <= i < j < |r|
      ensures IndexOf(s + [t], r[i]).Some? && IndexOf(s + [t], r[j]).Some?
        && IndexOf(s + [t], r[i]).value < IndexOf(s + [t], r[j]).value
    {
      if j < |keys| {
        assert r[i] == keys[i] && r[j] == keys[j];
      }
    }
  }

  /** `Map.set` on new keys keeps the keys in the order their tags were first seen. */
  lemma {:induction false} AppendNewFirstSeen(keys: seq<string>, base: seq<string>, tags: seq<string>)
    requires forall x :: x in keys <==> x in base
    requires InFirstSeenOrder(keys, base)
    ensures InFirstSeenOrder(AppendNew(keys, tags), base + tags)
    decreases |tags|
  {
    if tags == [] {
      assert base + tags == base;
    } else {
      var init := tags[..|tags| - 1];
      var t := tags[|tags| - 1];
      AppendNewFirstSeen(keys, base, init);
      var r0 := AppendNew(keys, init);
      var s0 := base + init;
      assert tags == init + [t];
      assert base + tags == s0 + [t];
      assert forall x :: x in r0 <==> x in s0;
      if t in r0 {
        FirstSeenSnoc(r0, s0, t);
      } else {
        FirstSeenSnocNew(r0, s0, t);
      }
    }
  }

  /** `Array.from(tagCount.keys())` lists exactly the tags of the corpus, each in the
      position of its first occurrence among all the notes' tags. */
  lemma {:induction false} KeysOfFirstSeen(corpus: seq<seq<string>>)
    ensures forall t :: t in KeysOf(corpus) <==> t in Flatten(corpus)
    ensures InFirstSeenOrder(KeysOf(corpus), Flatten(corpus))
  {
    if corpus != [] {
      var init := corpus[..|corpus| - 1];
      KeysOfFirstSeen(init);
      AppendNewFirstSeen(KeysOf(init), Flatten(init), corpus[|corpus| - 1]);
    }
  }

  /** Reference count: the occurrences of `t` in those notes of `corpus` whose clamped
      score is `b`. */
  function Occurrences(currTags: seq<string>, corpus: seq<seq<string>>, t: string, b: nat): nat {
    if corpus == [] then 0
    else
      var d := corpus[|corpus| - 1];
      Occurrences(currTags, corpus[..|corpus| - 1], t, b) + Contribution(currTags, d, t, b)
  }

  /** The occurrences of `t` in the whole corpus. */
  function TotalOccurrences(corpus: seq<seq<string>>, t: string): nat {
    if corpus == [] then 0
    else TotalOccurrences(corpus[..|corpus| - 1], t) + multiset(corpus[|corpus| - 1])[t]
  }

  /** Every counter of every tag is the reference count. */
  lemma {:induction false} HistCounters(currTags: seq<string>, corpus: seq<seq<string>>, t: string, b: nat)
    requires b <= CAP
    ensures Counters(HistOf(currTags, corpus), t)[b] == Occurrences(currTags, corpus, t, b)
  {
    if corpus != [] {
      var init := corpus[..|corpus| - 1];
      var d := corpus[|corpus| - 1];
      HistCounters(currTags, init, t, b);
      AddDocCounters(HistOf(currTags, init), d, Bucket(currTags, d), t);
    }
  }

  /** The histogram described without the loop: its keys are the tags of the corpus and
      counter `b` of a tag counts that tag's occurrences in the notes scoring `b`. */
  ghost function HistSpec(currTags: seq<string>, corpus: seq<seq<string>>): Hist {
    map t | t in TagsOf(corpus) :: seq(CAP + 1, b requires 0 <= b <= CAP => Occurrences(currTags, corpus, t, b))
  }

  lemma HistOfIsHistSpec(currTags: seq<string>, corpus: seq<seq<string>>)
    ensures HistOf(currTags, corpus) == HistSpec(currTags, corpus)
  {
    var h, s := HistOf(currTags, corpus), HistSpec(currTags, corpus);
    HistKeys(currTags, corpus);
    forall t | t in h ensures h[t] == s[t] {
      forall b | 0 <= b <= CAP ensures h[t][b] == s[t][b] {
        HistCounters(currTags, corpus, t, b);
      }
    }
  }

  function Sum(v: seq<nat>): nat {
    if v == [] then 0 else v[0] + Sum(v[1..])
  }

  lemma {:induction false} SumAdd(v: seq<nat>, b: nat, n: nat)
    requires b < |v|
    ensures Sum(Bump(v, b, n)) == Sum(v) + n
  {
    if b > 0 {
      SumAdd(v[1..], b - 1, n);
      assert v[b := v[b] + n][1..] == v[1..][b - 1 := v[b] + n];
    }
  }

  lemma ZerosSum()
    ensures Sum(Zeros()) == 0
  {
    var z := Zeros();
    assert z[1..][1..][1..][1..][1..][1..][1..][1..][1..][1..][1..] == [];
  }

  /** A tag's counters add up to its number of occurrences in the corpus: each occurrence
      is counted exactly once. */
  lemma {:induction false} CountersSumToOccurrences(currTags: seq<string>, corpus: seq<seq<string>>, t: string)
    ensures Sum(Counters(HistOf(currTags, corpus), t)) == TotalOccurrences(corpus, t)
  {
    if corpus == [] {
      assert Counters(HistOf(currTags, corpus), t) == Zeros();
      ZerosSum();
    } else {
      var init := corpus[..|corpus| - 1];
      var d := corpus[|corpus| - 1];
      var b := Bucket(currTags, d);
      var before := Counters(HistOf(currTags, init), t);
      CountersSumToOccurrences(currTags, init, t);
      AddDocCounters(HistOf(currTags, init), d, b, t);
      SumAdd(before, b, multiset(d)[t]);
      assert Counters(HistOf(currTags, corpus), t) == Bump(before, b, multiset(d)[t]);
      assert TotalOccurrences(corpus, t) == TotalOccurrences(init, t) + multiset(d)[t];
    }
  }

  lemma {:induction false} OccurrencesAppend(currTags: seq<string>, a: seq<seq<string>>, c: seq<seq<string>>, t: string, b: nat)
    ensures Occurrences(currTags, a + c, t, b) == Occurrences(currTags, a, t, b) + Occurrences(currTags, c, t, b)
    decreases |c|
  {
    if c == [] {
      assert a + c == a;
    } else {
      var init := c[..|c| - 1];
      assert (a + c)[..|a + c| - 1] == a + init;
      OccurrencesAppend(currTags, a, init, t, b);
    }
  }

  /** What note `d` adds to counter `b` of tag `t`. */
  function Contribution(currTags: seq<string>, d: seq<string>, t: string, b: nat): nat {
    if Bucket(currTags, d) == b then multiset(d)[t] else 0
  }

  lemma MultisetRemove(c: seq<seq<string>>, i: nat)
    requires i < |c|
    ensures multiset(c[..i] + c[i + 1..]) == multiset(c) - multiset{c[i]}
  {
    assert c == c[..i] + [c[i]] + c[i + 1..];
  }

  /** Taking note `i` out of the corpus takes its contribution out of the count. */
  lemma OccurrencesRemove(currTags: seq<string>, c: seq<seq<string>>, i: nat, t: string, b: nat)
    requires i < |c|
    ensures Occurrences(currTags, c, t, b) == Occurrences(currTags, c[..i] + c[i + 1..], t, b) + Contribution(currTags, c[i], t, b)
  {
    assert c == c[..i] + [c[i]] + c[i + 1..];
    OccurrencesAppend(currTags, c[..i] + [c[i]], c[i + 1..], t, b);
    OccurrencesAppend(currTags, c[..i], c[i + 1..], t, b);
    assert (c[..i] + [c[i]])[..i] == c[..i];
  }

  /** The counts do not depend on the order in which the notes are visited. */
  lemma {:induction false} OccurrencesPermutation(currTags: seq<string>, c1: seq<seq<string>>, c2: seq<seq<string>>, t: string, b: nat)
    requires multiset(c1) == multiset(c2)
    ensures Occurrences(currTags, c1, t, b) == Occurrences(currTags, c2, t, b)
    decreases |c1|
  {
    if c1 != [] {
      var d := c1[|c1| - 1];
      MultisetRemove(c1, |c1| - 1);
      assert c1[..|c1| - 1] + c1[|c1|..] == c1[..|c1| - 1];
      assert d in multiset(c2);
      var i :| 0 <= i < |c2| && c2[i] == d;
      MultisetRemove(c2, i);
      OccurrencesPermutation(currTags, c1[..|c1| - 1], c2[..i] + c2[i + 1..], t, b);
      OccurrencesRemove(currTags, c2, i, t, b);
    } else {
      assert c2 == [];
    }
  }

  lemma SameNotesSameTags(c1: seq<seq<string>>, c2: seq<seq<string>>)
    requires multiset(c1) == multiset(c2)
    ensures TagsOf(c1) == TagsOf(c2)
  {
    forall d ensures d in c1 <==> d in c2 {
      assert d in c1 <==> d in multiset(c1);
      assert d in c2 <==> d in multiset(c2);
    }
  }

  /** The histogram built from the notes in any order is the same. */
  lemma HistOrderIndependent(currTags: seq<string>, c1: seq<seq<string>>, c2: seq<seq<string>>)
    requires multiset(c1) == multiset(c2)
    ensures HistOf(currTags, c1) == HistOf(currTags, c2)
  {
    SameNotesSameTags(c1, c2);
    HistOfIsHistSpec(currTags, c1);
    HistOfIsHistSpec(currTags, c2);
    var s1, s2 := HistSpec(currTags, c1), HistSpec(currTags, c2);
    forall t | t in s1 ensures s1[t] == s2[t] {
      forall b | 0 <= b <= CAP ensures s1[t][b] == s2[t][b] {
        OccurrencesPermutation(currTags, c1, c2, t, b);
      }
    }
  }

  lemma AddDocStep(h: Hist, tags: seq<string>, j: nat, b: nat)
    requires WellFormed(h) && b <= CAP && j < |tags|
    ensures AddDoc(h, tags[..j + 1], b) == AddDoc(h, tags[..j], b)[tags[j] := Bump(Counters(AddDoc(h, tags[..j], b), tags[j]), b, 1)]
  {
    assert tags[..j + 1][..j] == tags[..j];
  }

  lemma AppendNewStep(keys: seq<string>, tags: seq<string>, j: nat)
    requires j < |tags|
    ensures AppendNew(keys, tags[..j + 1]) == if tags[j] in AppendNew(keys, tags[..j]) then AppendNew(keys, tags[..j]) else AppendNew(keys, tags[..j]) + [tags[j]]
  {
    assert tags[..j + 1][..j] == tags[..j];
  }

  lemma HistOfSnoc(currTags: seq<string>, corpus: seq<seq<string>>, i: nat)
    requires i < |corpus|
    ensures HistOf(currTags, corpus[..i + 1]) == AddDoc(HistOf(currTags, corpus[..i]), corpus[i], Bucket(currTags, corpus[i]))
  {
    assert corpus[..i + 1][..i] == corpus[..i];
  }

  lemma KeysOfSnoc(corpus: seq<seq<string>>, i: nat)
    requires i < |corpus|
    ensures KeysOf(corpus[..i + 1]) == AppendNew(KeysOf(corpus[..i]), corpus[i])
  {
    assert corpus[..i + 1][..i] == corpus[..i];
  }

  /** The inner loop of `getSuggestions`, `for (let tag of tags) { ... curr[score]++;
      tagCount.set(tag, curr) }`, over one note's tags: `hist` and `keys` are the map
      and its insertion-ordered keys before the note, the results those after it. */
  method AddNote(hist: Hist, keys: seq<string>, tags: seq<string>, score: nat) returns (tagCount: Hist, newKeys: seq<string>)
    requires WellFormed(hist) && score <= CAP
    requires forall t :: t in keys <==> t in hist
    ensures tagCount == AddDoc(hist, tags, score)
    ensures newKeys == AppendNew(keys, tags)
  {
    tagCount, newKeys := hist, keys;
    for j := 0 to |tags|
      invariant WellFormed(tagCount)
      invariant tagCount == AddDoc(hist, tags[..j], score)
      invariant newKeys == AppendNew(keys, tags[..j])
      invariant forall t :: t in newKeys <==> t in tagCount
    {
      var tag := tags[j];
      AddDocStep(hist, tags, j, score);
      AppendNewStep(keys, tags, j);
      var curr := Counters(tagCount, tag);
      curr := curr[score := curr[score] + 1];
      if tag !in tagCount {
        // `Map.set` appends a new key; an existing key keeps its place.
        newKeys := newKeys + [tag];
      }
      tagCount := tagCount[tag := curr];
    }
    assert tags[..|tags|] == tags;
  }

  /** The histogram loop of `getSuggestions`: for every other note, its overlap with the
      edited note, clamped to `CAP`, picks the score whose counter each of its tags bumps. */
  method BuildHistogram(currTags: seq<string>, corpus: seq<seq<string>>) returns (tagCount: Hist, keys: seq<string>)
    ensures tagCount == HistOf(currTags, corpus)
    ensures keys == KeysOf(corpus)
  {
    tagCount, keys := map[], [];
    for i := 0 to |corpus|
      invariant tagCount == HistOf(currTags, corpus[..i])
      invariant keys == KeysOf(corpus[..i])
    {
      var tags := corpus[i];
      var score := Overlap(currTags, tags);
      score := if score < CAP then score else CAP;
      HistKeys(currTags, corpus[..i]);
      KeysOfTags(corpus[..i]);
      HistOfSnoc(currTags, corpus, i);
      KeysOfSnoc(corpus, i);
      tagCount, keys := AddNote(tagCount, keys, tags, score);
    }
    assert corpus[..|corpus|] == corpus;
  }
}
