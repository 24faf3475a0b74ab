/** Tag extraction: the tags of the note being edited, scanned from its live text
    (`getSuggestions`, main.ts), and the tags of every other note, taken from the metadata
    cache with their `#` marker removed (`getFileTags`, main.ts). */
module Tags {
  import opened Seqs

  /** A character that may continue a tag: anything outside the class
      ` !@#$%^&*(),.?":{}|<>` of the live-text pattern. Space is excluded; tab and
      newline are not. */
  predicate IsTagChar(c: char) {
    c !in " !@#$%^&*(),.?\":{}|<>"
  }

  /** The tag body after a `#`: the longest run of tag characters. */
  function TagRun(s: string): (r: string)
    ensures r <= s
    ensures forall c :: c in r ==> IsTagChar(c)
    ensures '#' !in r
    ensures |r| < |s| ==> !IsTagChar(s[|r|])
  {
    SpanIsLongestPrefix(s, IsTagChar);
    Span(s, IsTagChar)
  }

  /** The global match of `#[^ !@#$%^&*(),.?":{}|<>]*` over `text`, each match without
      its leading `#`: search for the next `#`, take the run after it, and resume
      the search where that match ended. */
  function ExtractTags(text: string): (tags: seq<string>)
    ensures forall k :: 0 <= k < |tags| ==> forall c :: c in tags[k] ==> IsTagChar(c)
    decreases |text|
  {
    match IndexOf(text, '#')
    case None => []
    case Some(i) =>
      var after := text[i + 1..];
      var tag := TagRun(after);
      [tag] + ExtractTags(after[|tag|..])
  }

  /** Reference description: one tag for every `#` of `text`, left to right, made of the
      tag characters that follow that `#`. */
  function HashTags(text: string): seq<string> {
    if text == [] then []
    else (if text[0] == '#' then [TagRun(text[1..])] else []) + HashTags(text[1..])
  }

  lemma {:induction false} HashTagsCount(text: string)
    ensures |HashTags(text)| == multiset(text)['#']
  {
    if text != [] {
      assert text == [text[0]] + text[1..];
      HashTagsCount(text[1..]);
    }
  }

  /** Characters before the first `#` contribute no tag. */
  lemma {:induction false} HashTagsSkip(text: string, k: nat)
    requires k <= |text| && '#' !in text[..k]
    ensures HashTags(text) == HashTags(text[k..])
  {
    if k > 0 {
      assert text[0] == text[..k][0];
      assert text[1..][..k - 1] == text[..k][1..];
      HashTagsSkip(text[1..], k - 1);
      assert text[1..][k - 1..] == text[k..];
    }
  }

  /** The regular-expression scan finds exactly one tag per `#`, in order. */
  lemma {:induction false} ExtractTagsOnePerHash(text: string)
    ensures ExtractTags(text) == HashTags(text)
    decreases |text|
  {
    match IndexOf(text, '#')
    case None =>
      HashTagsSkip(text, |text|);
      assert text[|text|..] == [];
    case Some(i) =>
      var tag := TagRun(text[i + 1..]);
      var rest := text[i + 1..][|tag|..];
      ExtractTagsAt(text, i);
      HashTagsAfterHash(text, i);
      ExtractTagsOnePerHash(rest);
  }

  /** What the definition of `ExtractTags` gives for a first `#` at `i`. */
  lemma ExtractTagsAt(text: string, i: nat)
    requires IndexOf(text, '#') == Some(i)
    ensures ExtractTags(text) == [TagRun(text[i + 1..])] + ExtractTags(text[i + 1..][|TagRun(text[i + 1..])|..])
  {
    var after := text[i + 1..];
    var tag := TagRun(after);
    assert ExtractTags(text) == [tag] + ExtractTags(after[|tag|..]);
  }

  /** What the definition of `HashTags` gives from the first `#` at `i`: the tag after it,
      then the tags of what follows that tag. */
  lemma HashTagsAfterHash(text: string, i: nat)
    requires i < |text| && text[i] == '#' && '#' !in text[..i]
    ensures HashTags(text) == [TagRun(text[i + 1..])] + HashTags(text[i + 1..][|TagRun(text[i + 1..])|..])
  {
    var tag := TagRun(text[i + 1..]);
    HashTagsSkip(text, i);
    HashTagsAtHash(text[i..]);
    assert text[i..][1..] == text[i + 1..];
    assert text[i + 1..][..|tag|] == tag;
    HashTagsSkip(text[i + 1..], |tag|);
  }

  lemma HashTagsAtHash(text: string)
    requires text != [] && text[0] == '#'
    ensures HashTags(text) == [TagRun(text[1..])] + HashTags(text[1..])
  {
  }

  /** There are as many extracted tags as there are `#` characters in the text. */
  lemma ExtractTagsCount(text: string)
    ensures |ExtractTags(text)| == multiset(text)['#']
  {
    ExtractTagsOnePerHash(text);
    HashTagsCount(text);
  }

  lemma SingleTag()
    ensures ExtractTags("#a") == ["a"]
  {
    assert IndexOf("#a", '#') == Some(0);
    assert "#a"[1..] == "a" && "a"[1..] == [];
    assert IsTagChar('a');
    assert TagRun("a") == "a";
    assert "#a"[2..] == [];
    assert ExtractTags([]) == [];
  }

  /** Two adjacent markers give an empty tag and then the tag after them. */
  lemma EmptyTagExample()
    ensures ExtractTags("##a") == ["", "a"]
  {
    assert IndexOf("##a", '#') == Some(0);
    assert "##a"[1..] == "#a";
    assert TagRun("#a") == "";
    SingleTag();
  }

  /** `tag.replace("#", "")`: a string pattern replaces only its first occurrence. */
  function StripFirstHash(tag: string): string {
    match IndexOf(tag, '#')
    case None => tag
    case Some(i) => tag[..i] + tag[i + 1..]
  }

  /** A tag without `#` is kept; otherwise exactly its first `#` is removed. */
  lemma StripFirstHashRemovesFirst(tag: string)
    ensures '#' !in tag ==> StripFirstHash(tag) == tag
    ensures '#' in tag ==> var r := StripFirstHash(tag);
      |r| == |tag| - 1 && exists i :: 0 <= i <= |r| && '#' !in r[..i] && tag == r[..i] + "#" + r[i..]
  {
    match IndexOf(tag, '#')
    case None =>
    case Some(i) =>
      var r := tag[..i] + tag[i + 1..];
      assert r[..i] == tag[..i] && r[i..] == tag[i + 1..];
      assert tag == r[..i] + "#" + r[i..];
  }

  /** The strip undoes the marker that the metadata cache puts in front of a tag. */
  lemma StripMarker(t: string)
    ensures StripFirstHash("#" + t) == t
  {
    assert ("#" + t)[0] == '#';
  }

  /** The `forEach` of `getFileTags`: every tag with its first `#` removed, in place. */
  function StripAll(tags: seq<string>): (r: seq<string>)
    ensures |r| == |tags|
    ensures forall k :: 0 <= k < |tags| ==> r[k] == StripFirstHash(tags[k])
  {
    if tags == [] then [] else [StripFirstHash(tags[0])] + StripAll(tags[1..])
  }

  method StripAllInPlace(tags: array<string>)
    modifies tags
    ensures tags[..] == StripAll(old(tags[..]))
  {
    for index := 0 to tags.Length
      invariant forall k :: 0 <= k < index ==> tags[k] == StripFirstHash(old(tags[k]))
      invariant forall k :: index <= k < tags.Length ==> tags[k] == old(tags[k])
    {
      tags[index] := StripFirstHash(tags[index]);
    }
  }

  /** A note's entry in the metadata cache; `allTags` is what `getAllTags` reports for it
      (tags written with their `#`, or nothing). */
  datatype FileCache = FileCache(allTags: Option<seq<string>>)

  /** The tags `getFileTags` yields for a note whose cache entry is `cache`. */
  function FileTags(cache: Option<FileCache>): seq<string> {
    match cache
    case None => []
    case Some(entry) =>
      match entry.allTags
      case None => []
      case Some(tags) => StripAll(tags)
  }

  /** `getFileTags`: no cache entry gives no tags; otherwise `getAllTags(cache) ?? []`
      is stripped in place. */
  method GetFileTags(cache: Option<FileCache>) returns (tags: seq<string>)
    ensures cache.None? ==> tags == []
    ensures cache.Some? && cache.value.allTags.None? ==> tags == []
    ensures cache.Some? && cache.value.allTags.Some? ==>
      |tags| == |cache.value.allTags.value|
      && forall k :: 0 <= k < |tags| ==> tags[k] == StripFirstHash(cache.value.allTags.value[k])
    ensures tags == FileTags(cache)
  {
    if cache == None {
      return [];
    }
    var raw := if cache.value.allTags.Some? then cache.value.allTags.value else [];
    var arr := new string[|raw|](k requires 0 <= k < |raw| => raw[k]);
    assert arr[..] == raw;
    StripAllInPlace(arr);
    tags := arr[..];
  }

  /** What `selectSuggestion` writes over the trigger span for a chosen tag. */
  function Completion(tag: string): string {
    "#" + tag + " "
  }

  /** A completed tag made of tag characters is found again by the live-text scan, so
      it counts as used by the next suggestion request. */
  lemma CompletionRoundTrip(tag: string)
    requires forall c :: c in tag ==> IsTagChar(c)
    ensures ExtractTags(Completion(tag)) == [tag]
  {
    var text := Completion(tag);
    assert text[0] == '#';
    assert text[1..] == tag + " ";
    SpanOfTagChars(tag, " ");
    assert text[1..][|tag|..] == " ";
  }

  lemma {:induction false} SpanOfTagChars(tag: string, rest: string)
    requires forall c :: c in tag ==> IsTagChar(c)
    requires rest == [] || !IsTagChar(rest[0])
    ensures TagRun(tag + rest) == tag
  {
    if tag != [] {
      assert (tag + rest)[1..] == tag[1..] + rest;
      SpanOfTagChars(tag[1..], rest);
    } else {
      assert tag + rest == rest;
    }
  }
}
