/** `split_by_regex_fallback`: the splitter used when the document has no
    outline. The title matches in the full text are an input: each is the
    offset where a matched line starts and the captured title. Section `i`
    runs from match `i` up to the next match, the last one to the end of
    the text. */
module Fallback {
  import opened Naming

  /** One title match: `m.start()` and `m.group(1)`. */
  datatype Match = Match(start: nat, title: string)

  /** The matches `re.finditer` reports: inside the text, at strictly
      increasing offsets. */
  predicate ValidMatches(ms: seq<Match>, text: string) {
    && (forall i :: 0 <= i < |ms| ==> ms[i].start <= |text|)
    && (forall i, j :: 0 <= i < j < |ms| ==> ms[i].start < ms[j].start)
  }

  /** Where section `i` ends: at the next match, or at the end of the text. */
  function SectionEnd(ms: seq<Match>, i: nat, text: string): nat
    requires i < |ms|
  {
    if i + 1 < |ms| then ms[i + 1].start else |text|
  }

  /** The sections cut at the matches. */
  function Sections(text: string, ms: seq<Match>): (r: seq<string>)
    requires ValidMatches(ms, text)
    ensures |r| == |ms|
    ensures forall i {:trigger r[i]} :: 0 <= i < |ms| ==>
      ms[i].start <= SectionEnd(ms, i, text) && r[i] == text[ms[i].start..SectionEnd(ms, i, text)]
  {
    if |ms| == 0 then []
    else
      var rest := Sections(text, ms[1..]);
      var r := [text[ms[0].start..SectionEnd(ms, 0, text)]] + rest;
      assert forall i :: 1 <= i < |ms| ==> SectionEnd(ms[1..], i - 1, text) == SectionEnd(ms, i, text);
      r
  }

  function Concat(parts: seq<string>): string {
    if |parts| == 0 then "" else parts[0] + Concat(parts[1..])
  }

  /** The sections put back together give the text from the first match on:
      nothing after it is lost or repeated, and everything before it is
      dropped. */
  lemma {:induction false} SectionsCoverTail(text: string, ms: seq<Match>)
    requires ValidMatches(ms, text) && |ms| > 0
    ensures Concat(Sections(text, ms)) == text[ms[0].start..]
    decreases |ms|
  {
    var r := Sections(text, ms);
    if |ms| == 1 {
      assert r[1..] == [];
    } else {
      assert ValidMatches(ms[1..], text);
      SectionsCoverTail(text, ms[1..]);
      assert r[1..] == Sections(text, ms[1..]);
      var a, b := ms[0].start, ms[1].start;
      assert text[a..b] + text[b..] == text[a..];
    }
  }

  /** The text is the part before the first match followed by the sections. */
  lemma TextIsPreambleAndSections(text: string, ms: seq<Match>)
    requires ValidMatches(ms, text) && |ms| > 0
    ensures text == text[..ms[0].start] + Concat(Sections(text, ms))
  {
    SectionsCoverTail(text, ms);
    assert text == text[..ms[0].start] + text[ms[0].start..];
  }

  /** The sanitised titles of the matches, in order. */
  function MatchTitles(ms: seq<Match>): (r: seq<string>)
    ensures |r| == |ms|
    ensures forall i :: 0 <= i < |ms| ==> r[i] == SafeTitle(ms[i].title)
  {
    seq(|ms|, i requires 0 <= i < |ms| => SafeTitle(ms[i].title))
  }

  /** `split_by_regex_fallback(full_md, ...)` without its file writes:
      failure when nothing matched, otherwise one file per match, named
      after the sanitised matched title with no length cap. */
  function FallbackFiles(text: string, ms: seq<Match>): (r: SplitResult)
    requires ValidMatches(ms, text)
    ensures r.Failed? <==> |ms| == 0
    ensures r.Written? ==> |r.files| == |ms| && DistinctNames(r.files)
    ensures r.Written? ==> forall i :: 0 <= i < |ms| ==> r.files[i].name == FileName(i, SafeTitle(ms[i].title))
    ensures r.Written? ==> forall i :: 0 <= i < |ms| ==>
      r.files[i].content == text[ms[i].start..SectionEnd(ms, i, text)]
  {
    if |ms| == 0 then Failed
    else
      Written(NumberedFiles(MatchTitles(ms), Sections(text, ms)))
  }

  /** The files' contents put back together are the text from the first
      match on. */
  lemma FallbackFilesCoverTail(text: string, ms: seq<Match>)
    requires ValidMatches(ms, text) && |ms| > 0
    ensures var files := FallbackFiles(text, ms).files;
      Concat(seq(|files|, i requires 0 <= i < |files| => files[i].content)) == text[ms[0].start..]
  {
    var files := FallbackFiles(text, ms).files;
    SectionsCoverTail(text, ms);
    assert seq(|files|, i requires 0 <= i < |files| => files[i].content) == Sections(text, ms);
  }
}
