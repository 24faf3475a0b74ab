/** Trigger detection (`TagSuggest.onTrigger`, main.ts): when the text of the cursor's line
    before the cursor contains `@`, the suggestion popup opens with a query and the span
    that a chosen suggestion will replace. */
module Trigger {
  import opened Seqs

  /** An editor position: line number and column. */
  datatype Position = Position(line: nat, ch: nat)

  /** What the editor needs to show suggestions: the span to replace and the typed query. */
  datatype TriggerInfo = TriggerInfo(start: Position, end: Position, query: string)

  /** `\w` in a JavaScript regular expression without the `u` flag: ASCII letters, digits, `_`. */
  predicate IsWordChar(c: char) {
    ('a' <= c <= 'z') || ('A' <= c <= 'Z') || ('0' <= c <= '9') || c == '_'
  }

  /** `line.substring(0, cursor.ch)`: an end beyond the string is clamped to its length. */
  function LinePrefix(lineText: string, ch: nat): (p: string)
    ensures p <= lineText
    ensures |p| == if ch <= |lineText| then ch else |lineText|
  {
    if ch <= |lineText| then lineText[..ch] else lineText
  }

  /** `q` is the whole run of word characters at the start of `s`. */
  ghost predicate IsWordRun(s: string, q: string) {
    && q <= s
    && (forall k :: 0 <= k < |q| ==> IsWordChar(q[k]))
    && (|q| == |s| || !IsWordChar(s[|q|]))
  }

  /** `q` is the run of word characters right after the first `@` of `p`. */
  ghost predicate IsQueryAfterFirstAt(p: string, q: string) {
    exists i :: 0 <= i < |p| && p[i] == '@' && '@' !in p[..i] && IsWordRun(p[i + 1..], q)
  }

  /** The source matches the pattern `@\w*` (its first match, so the first `@`) to get the query, but
      starts the replaced span at `lastIndexOf('@')`; the span ends at the cursor itself. */
  function OnTrigger(cursor: Position, lineText: string): (r: Option<TriggerInfo>)
    ensures r.None? <==> '@' !in LinePrefix(lineText, cursor.ch)
    ensures r.Some? ==>
      var p := LinePrefix(lineText, cursor.ch);
      && r.value.end == cursor
      && r.value.start.line == cursor.line
      && r.value.start.ch < |p| && p[r.value.start.ch] == '@' && '@' !in p[r.value.start.ch + 1..]
      && IsQueryAfterFirstAt(p, r.value.query)
  {
    var line := LinePrefix(lineText, cursor.ch);
    match IndexOf(line, '@')
    case None => None
    case Some(i) =>
      // The matched text `@\w*`; it is never empty, so `if (tag)` always holds here.
      var tag := ['@'] + Span(line[i + 1..], IsWordChar);
      SpanIsLongestPrefix(line[i + 1..], IsWordChar);
      assert IsWordRun(line[i + 1..], tag[1..]);
      var start := LastIndexOf(line, '@');
      Some(TriggerInfo(Position(cursor.line, start), cursor, tag[1..]))
  }

  lemma WordRunOfExample()
    ensures Span("ab @cd", IsWordChar) == "ab"
  {
    assert "ab @cd"[1..] == "b @cd" && "b @cd"[1..] == " @cd";
    assert !IsWordChar(' ');
  }

  lemma LastAtOfExample()
    ensures LastIndexOf("@ab @cd", '@') == 4
  {
    var line := "@ab @cd";
    assert line[..6] == "@ab @c" && line[..6][..5] == "@ab @";
  }

  /** With two `@` on the line, the query comes from the first and the replaced span
      starts at the second. */
  lemma FirstQueryLastSpan()
    ensures OnTrigger(Position(3, 7), "@ab @cd") == Some(TriggerInfo(Position(3, 4), Position(3, 7), "ab"))
  {
    var line := "@ab @cd";
    assert LinePrefix(line, 7) == line;
    assert IndexOf(line, '@') == Some(0);
    assert line[1..] == "ab @cd";
    WordRunOfExample();
    LastAtOfExample();
  }

  /** The description of the query pins it down: at most one string fits it. */
  lemma QueryIsDetermined(p: string, q1: string, q2: string)
    requires IsQueryAfterFirstAt(p, q1) && IsQueryAfterFirstAt(p, q2)
    ensures q1 == q2
  {
  }
}
