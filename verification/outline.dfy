/** `split_by_toc`: the outline-driven splitter. The outline's entries at
    its shallowest level become chapters; a chapter runs from its own start
    page to the page before the next chapter's start, and the last one to
    the largest page number. Each chapter file holds a heading and, for
    every page of the range that exists, the normalised page text and a
    page marker. */
module Outline {
  import opened Text
  import opened Tables
  import opened Naming
  import opened Pages

  /** One bookmark of the outline: `(level, title, page)`. */
  datatype TocEntry = TocEntry(level: int, title: string, page: int)

  /** A chapter to be written: its title and its page range, both ends
      included. The range is empty when `last < first`. */
  datatype Chapter = Chapter(title: string, first: int, last: int)

  /** `min(set(level for each entry))`. */
  function MinLevel(toc: seq<TocEntry>): (m: int)
    requires |toc| > 0
    ensures exists i :: 0 <= i < |toc| && toc[i].level == m
    ensures forall i :: 0 <= i < |toc| ==> m <= toc[i].level
  {
    if |toc| == 1 then toc[0].level
    else
      var rest := MinLevel(toc[1..]);
      var i :| 0 <= i < |toc[1..]| && toc[1..][i].level == rest;
      assert toc[i + 1].level == rest;
      if toc[0].level <= rest then toc[0].level else rest
  }

  /** The entries of the given level, in outline order. */
  function AtLevel(toc: seq<TocEntry>, level: int): (r: seq<TocEntry>)
    ensures |r| <= |toc|
    ensures forall i :: 0 <= i < |r| ==> r[i].level == level
  {
    if |toc| == 0 then []
    else (if toc[0].level == level then [toc[0]] else []) + AtLevel(toc[1..], level)
  }

  /** The filter keeps exactly the entries of the level. */
  lemma {:induction false} AtLevelMembers(toc: seq<TocEntry>, level: int)
    ensures forall e :: e in AtLevel(toc, level) <==> e in toc && e.level == level
    decreases |toc|
  {
    if |toc| > 0 {
      AtLevelMembers(toc[1..], level);
      assert forall e :: e in toc <==> e == toc[0] || e in toc[1..] by {
        assert toc == [toc[0]] + toc[1..];
      }
    }
  }

  lemma {:induction false} AtLevelAppend(a: seq<TocEntry>, b: seq<TocEntry>, level: int)
    ensures AtLevel(a + b, level) == AtLevel(a, level) + AtLevel(b, level)
    decreases |a|
  {
    if |a| == 0 {
      assert a + b == b;
    } else {
      assert (a + b)[1..] == a[1..] + b;
      AtLevelAppend(a[1..], b, level);
    }
  }

  /** The main chapters: the entries at the shallowest level. */
  function TopLevel(toc: seq<TocEntry>): (r: seq<TocEntry>)
    requires |toc| > 0
    ensures |r| > 0
    ensures forall i :: 0 <= i < |r| ==> r[i].level == MinLevel(toc)
    ensures forall e :: e in r <==> e in toc && e.level == MinLevel(toc)
    ensures r == AtLevel(toc, MinLevel(toc))
  {
    var m := MinLevel(toc);
    var i :| 0 <= i < |toc| && toc[i].level == m;
    AtLevelMembers(toc, m);
    assert toc[i] in AtLevel(toc, m);
    AtLevel(toc, m)
  }

  /** The chapter ranges: each main chapter ends one page before the next
      one starts, the last at `total`. */
  function ChapterSpans(tops: seq<TocEntry>, total: int): (r: seq<Chapter>)
    ensures |r| == |tops|
    ensures forall i {:trigger r[i]} :: 0 <= i < |r| ==> r[i].title == tops[i].title && r[i].first == tops[i].page
    ensures forall i {:trigger r[i]} :: 0 <= i < |r| - 1 ==> r[i].last == tops[i + 1].page - 1
    ensures |r| > 0 ==> r[|r| - 1].last == total
  {
    if |tops| == 0 then []
    else
      var last := if |tops| > 1 then tops[1].page - 1 else total;
      [Chapter(tops[0].title, tops[0].page, last)] + ChapterSpans(tops[1..], total)
  }

  /** `f"# {title}\n\n"`. */
  function Heading(title: string): string {
    "# " + title + "\n\n"
  }

  /** `f"\n\n---\n<!-- Page {n} -->\n\n"`. */
  function PageMarker(n: int): string {
    "\n\n---\n<!-- Page " + IntToString(n) + " -->\n\n"
  }

  /** Every page with its tables normalised, as each chapter shows it. */
  function Normalized(pages: PageMap): (r: PageMap)
    ensures r.Keys == pages.Keys
  {
    map k | k in pages :: NormalizeText(pages[k])
  }

  /** The parts a list of (normalised) pages contributes to a chapter: for
      each page its text, then its marker. */
  function PageParts(pages: PageMap, ks: seq<int>, marker: int -> string): (r: seq<string>)
    requires forall i :: 0 <= i < |ks| ==> ks[i] in pages
    ensures |r| == 2 * |ks|
    ensures forall i :: 0 <= i < |ks| ==> r[2 * i] == pages[ks[i]] && r[2 * i + 1] == marker(ks[i])
  {
    if |ks| == 0 then []
    else
      var rest := PageParts(pages, ks[1..], marker);
      var r := [pages[ks[0]], marker(ks[0])] + rest;
      assert forall i :: 1 <= i < |ks| ==> r[2 * i] == pages[ks[i]] && r[2 * i + 1] == marker(ks[i]) by {
        forall i | 1 <= i < |ks| ensures r[2 * i] == pages[ks[i]] && r[2 * i + 1] == marker(ks[i]) {
          var j := i - 1;
          assert ks[i] == ks[1..][j];
          assert r[2 * j + 2] == rest[2 * j] && r[2 * j + 3] == rest[2 * j + 1];
        }
      }
      r
  }

  /** The text of one chapter file, given the normalised pages: the heading
      and the parts joined by newlines. It starts with the heading. */
  function ChapterContent(pages: PageMap, c: Chapter): (r: string)
    ensures Heading(c.title) <= r
  {
    var ks := PagesInRange(pages, c.first, c.last);
    assert forall i :: 0 <= i < |ks| ==> ks[i] in pages by {
      forall i | 0 <= i < |ks| ensures ks[i] in pages { assert ks[i] in ks; }
    }
    var parts := [Heading(c.title)] + PageParts(pages, ks, PageMarker);
    JoinStartsWithFirst(parts, "\n");
    Join(parts, "\n")
  }

  /** A chapter with no page of the map in its range holds the heading
      alone. */
  lemma ChapterWithoutPages(pages: PageMap, c: Chapter)
    requires forall k :: k in pages ==> k < c.first || c.last < k
    ensures ChapterContent(pages, c) == Heading(c.title)
  {
    var ks := PagesInRange(pages, c.first, c.last);
    assert forall i :: 0 <= i < |ks| ==> ks[i] in pages by {
      forall i | 0 <= i < |ks| ensures ks[i] in pages { assert ks[i] in ks; }
    }
    SameMembersEmpty(ks, []);
    assert [Heading(c.title)] + PageParts(pages, ks, PageMarker) == [Heading(c.title)];
  }

  /** The files for a list of chapters, named after their position. */
  function ChapterFiles(pages: PageMap, cs: seq<Chapter>): (r: seq<OutputFile>)
    ensures |r| == |cs|
    ensures forall i :: 0 <= i < |r| ==> r[i].content == ChapterContent(pages, cs[i])
    ensures forall i :: 0 <= i < |r| ==> r[i].name == FileName(i, OutlineTitle(cs[i].title))
    ensures DistinctNames(r)
  {
    NumberedFiles(seq(|cs|, i requires 0 <= i < |cs| => OutlineTitle(cs[i].title)),
                  seq(|cs|, i requires 0 <= i < |cs| => ChapterContent(pages, cs[i])))
  }

  /** `split_by_toc(pages_md, toc, ...)` without its file writes: failure
      for an empty outline, otherwise one file per main chapter, in outline
      order. */
  function TocFiles(pages: PageMap, toc: seq<TocEntry>): (r: SplitResult)
    ensures r.Failed? <==> |toc| == 0
    ensures r.Written? ==> |r.files| == |TopLevel(toc)| && DistinctNames(r.files)
  {
    if |toc| == 0 then Failed
    else Written(ChapterFiles(Normalized(pages), ChapterSpans(TopLevel(toc), LargestPage(pages))))
  }

  /** File `i` of a successful outline split is main chapter `i`: named
      after its sanitised, capped title, holding its heading and pages. */
  lemma TocFileContents(pages: PageMap, toc: seq<TocEntry>, i: nat)
    requires |toc| > 0 && i < |TopLevel(toc)|
    ensures var tops := TopLevel(toc);
      var f := TocFiles(pages, toc).files[i];
      && f.name == FileName(i, OutlineTitle(tops[i].title))
      && f.content == ChapterContent(Normalized(pages), Chapter(tops[i].title, tops[i].page,
           if i + 1 < |tops| then tops[i + 1].page - 1 else LargestPage(pages)))
  {
    var tops := TopLevel(toc);
    var cs := ChapterSpans(tops, LargestPage(pages));
    SpanAt(tops, LargestPage(pages), i);
    var files := ChapterFiles(Normalized(pages), cs);
    assert TocFiles(pages, toc).files == files;
    assert files[i].name == FileName(i, OutlineTitle(cs[i].title));
    assert files[i].content == ChapterContent(Normalized(pages), cs[i]);
  }

  lemma SpanAt(tops: seq<TocEntry>, total: int, i: nat)
    requires i < |tops|
    ensures ChapterSpans(tops, total)[i]
         == Chapter(tops[i].title, tops[i].page, if i + 1 < |tops| then tops[i + 1].page - 1 else total)
  {
  }

  /** The shallowest level is the level some entry has and no entry is
      above. */
  lemma MinLevelUnique(toc: seq<TocEntry>, m: int, w: nat)
    requires w < |toc| && toc[w].level == m
    requires forall j :: 0 <= j < |toc| ==> m <= toc[j].level
    ensures MinLevel(toc) == m
  {
    var i :| 0 <= i < |toc| && toc[i].level == MinLevel(toc);
    assert MinLevel(toc) <= toc[w].level;
  }

  /** Where the entries of an outline land once `e` is inserted at `k`. */
  lemma InsertedAt(toc: seq<TocEntry>, k: nat, e: TocEntry)
    requires k <= |toc|
    ensures var bigger := toc[..k] + [e] + toc[k..];
      && |bigger| == |toc| + 1 && bigger[k] == e
      && (forall j :: 0 <= j < k ==> bigger[j] == toc[j])
      && (forall j :: k < j < |bigger| ==> bigger[j] == toc[j - 1])
  {
  }

  /** The shallowest level does not change when an entry deeper than it is
      added. */
  lemma MinLevelWithDeeper(toc: seq<TocEntry>, k: nat, e: TocEntry)
    requires |toc| > 0 && k <= |toc| && e.level > MinLevel(toc)
    ensures MinLevel(toc[..k] + [e] + toc[k..]) == MinLevel(toc)
  {
    var m := MinLevel(toc);
    var i :| 0 <= i < |toc| && toc[i].level == m;
    var w := InsertedWitness(toc, k, e, i);
    InsertedBound(toc, k, e, m);
    MinLevelUnique(toc[..k] + [e] + toc[k..], m, w);
  }

  lemma InsertedWitness(toc: seq<TocEntry>, k: nat, e: TocEntry, i: nat) returns (w: nat)
    requires k <= |toc| && i < |toc|
    ensures w < |toc| + 1 && (toc[..k] + [e] + toc[k..])[w] == toc[i]
  {
    InsertedAt(toc, k, e);
    w := if i < k then i else i + 1;
  }

  lemma InsertedBound(toc: seq<TocEntry>, k: nat, e: TocEntry, m: int)
    requires k <= |toc| && m <= e.level
    requires forall j :: 0 <= j < |toc| ==> m <= toc[j].level
    ensures forall j :: 0 <= j < |toc| + 1 ==> m <= (toc[..k] + [e] + toc[k..])[j].level
  {
    InsertedAt(toc, k, e);
  }

  /** The main chapters do not change when an entry deeper than the
      shallowest level is added anywhere. */
  lemma TopLevelWithDeeper(toc: seq<TocEntry>, k: nat, e: TocEntry)
    requires |toc| > 0 && k <= |toc| && e.level > MinLevel(toc)
    ensures TopLevel(toc[..k] + [e] + toc[k..]) == TopLevel(toc)
  {
    var m := MinLevel(toc);
    var bigger := toc[..k] + [e] + toc[k..];
    MinLevelWithDeeper(toc, k, e);
    assert TopLevel(bigger) == AtLevel(bigger, m);
    SplitAt(toc, k);
    AtLevelSkip(toc[..k], toc[k..], e, m);
  }

  /** An entry of another level leaves the filter unchanged. */
  lemma AtLevelSkip(a: seq<TocEntry>, b: seq<TocEntry>, e: TocEntry, level: int)
    requires e.level != level
    ensures AtLevel(a + [e] + b, level) == AtLevel(a + b, level)
  {
    AtLevelAppend(a + [e], b, level);
    AtLevelAppend(a, [e], level);
    AtLevelAppend(a, b, level);
    assert AtLevel([e], level) == [];
    assert AtLevel(a, level) + [] == AtLevel(a, level);
  }

  lemma SplitAt(toc: seq<TocEntry>, k: nat)
    requires k <= |toc|
    ensures toc[..k] + toc[k..] == toc
  {
  }

  /** Adding an entry deeper than the shallowest level, anywhere in the
      outline, changes no file. */
  lemma NestedEntryIgnored(pages: PageMap, toc: seq<TocEntry>, k: nat, e: TocEntry)
    requires |toc| > 0 && k <= |toc| && e.level > MinLevel(toc)
    ensures TocFiles(pages, toc[..k] + [e] + toc[k..]) == TocFiles(pages, toc)
  {
    TopLevelWithDeeper(toc, k, e);
  }

  /** Chapter ranges on a small outline: with chapters A at page 1 and B at page 5, a
      nested B.1 at page 6 and largest page 10, A covers pages 1 to 4 and B
      pages 5 to 10. */
  lemma SpansExample()
    ensures var toc := [TocEntry(1, "A", 1), TocEntry(1, "B", 5), TocEntry(2, "B.1", 6)];
      ChapterSpans(TopLevel(toc), 10) == [Chapter("A", 1, 4), Chapter("B", 5, 10)]
  {
    var toc := [TocEntry(1, "A", 1), TocEntry(1, "B", 5), TocEntry(2, "B.1", 6)];
    assert MinLevel(toc) == 1;
    var a, b, c := TocEntry(1, "A", 1), TocEntry(1, "B", 5), TocEntry(2, "B.1", 6);
    assert toc == [a, b] + [c];
    AtLevelAppend([a, b], [c], 1);
    AtLevelAppend([a], [b], 1);
    assert [a] + [b] == [a, b];
    assert AtLevel([c], 1) == [];
    assert TopLevel(toc) == [a, b];
  }

  /** Main chapters whose start pages never go down. */
  predicate NonDecreasingStarts(tops: seq<TocEntry>) {
    forall i, j :: 0 <= i < j < |tops| ==> tops[i].page <= tops[j].page
  }

  /** The page numbers of all chapters, chapter after chapter. */
  function ChapterPages(pages: PageMap, cs: seq<Chapter>): seq<int> {
    if |cs| == 0 then [] else PagesInRange(pages, cs[0].first, cs[0].last) + ChapterPages(pages, cs[1..])
  }

  /** The end of the page range the chapters cover together. */
  function CoveredEnd(tops: seq<TocEntry>, total: int): int
    requires |tops| > 0
  {
    var lastStart := tops[|tops| - 1].page;
    if lastStart - 1 > total then lastStart - 1 else total
  }

  lemma {:induction false} ChaptersTile(pages: PageMap, tops: seq<TocEntry>, total: int)
    requires |tops| > 0 && NonDecreasingStarts(tops)
    ensures ChapterPages(pages, ChapterSpans(tops, total)) == PagesInRange(pages, tops[0].page, CoveredEnd(tops, total))
    decreases |tops|
  {
    if |tops| == 1 {
      TileLast(pages, tops, total);
    } else {
      ChaptersTile(pages, tops[1..], total);
      TileStep(pages, tops, total);
    }
  }

  lemma TileLast(pages: PageMap, tops: seq<TocEntry>, total: int)
    requires |tops| == 1
    ensures ChapterPages(pages, ChapterSpans(tops, total)) == PagesInRange(pages, tops[0].page, CoveredEnd(tops, total))
  {
    var cs := ChapterSpans(tops, total);
    assert cs[1..] == [];
    assert ChapterPages(pages, cs) == PagesInRange(pages, tops[0].page, total) + [];
    if tops[0].page - 1 > total {
      assert PagesInRange(pages, tops[0].page, total) == [];
      assert PagesInRange(pages, tops[0].page, tops[0].page - 1) == [];
    }
  }

  lemma TileStep(pages: PageMap, tops: seq<TocEntry>, total: int)
    requires |tops| > 1 && NonDecreasingStarts(tops)
    requires ChapterPages(pages, ChapterSpans(tops[1..], total))
          == PagesInRange(pages, tops[1].page, CoveredEnd(tops[1..], total))
    ensures ChapterPages(pages, ChapterSpans(tops, total)) == PagesInRange(pages, tops[0].page, CoveredEnd(tops, total))
  {
    var cs := ChapterSpans(tops, total);
    var rest := tops[1..];
    assert cs[1..] == ChapterSpans(rest, total);
    assert cs[0] == Chapter(tops[0].title, tops[0].page, tops[1].page - 1);
    assert rest[|rest| - 1] == tops[|tops| - 1];
    assert CoveredEnd(rest, total) == CoveredEnd(tops, total);
    assert tops[0].page <= tops[1].page <= tops[|tops| - 1].page;
    AdjacentRanges(pages, tops[0].page, tops[1].page - 1, CoveredEnd(tops, total));
  }

  /** When the main chapters' start pages never go down, the chapters
      together hold every page from the first start page to the last page,
      each exactly once and in ascending order. */
  lemma ChaptersCoverPages(pages: PageMap, toc: seq<TocEntry>)
    requires |toc| > 0 && NonDecreasingStarts(TopLevel(toc))
    ensures var tops := TopLevel(toc);
      ChapterPages(pages, ChapterSpans(tops, LargestPage(pages)))
        == PagesInRange(pages, tops[0].page, LargestPage(pages))
  {
    var tops := TopLevel(toc);
    ChaptersTile(pages, tops, LargestPage(pages));
    RangeBeyondLargest(pages, tops[0].page, CoveredEnd(tops, LargestPage(pages)));
  }

  /** The chapter a page at or after the first start page falls into: the
      last one starting at or before it. */
  lemma FindChapter(tops: seq<TocEntry>, p: int) returns (i: nat)
    requires |tops| > 0 && tops[0].page <= p
    ensures i < |tops| && tops[i].page <= p
    ensures i + 1 < |tops| ==> p < tops[i + 1].page
  {
    i := 0;
    while i + 1 < |tops| && tops[i + 1].page <= p
      invariant i < |tops| && tops[i].page <= p
      decreases |tops| - i
    {
      i := i + 1;
    }
  }

  /** The chapter's page range holds page `p`. */
  predicate Holds(c: Chapter, p: int) {
    c.first <= p <= c.last
  }

  lemma PageInOneSpan(tops: seq<TocEntry>, total: int, p: int)
    requires |tops| > 0 && NonDecreasingStarts(tops) && tops[0].page <= p <= total
    ensures exists i :: 0 <= i < |tops| && Holds(ChapterSpans(tops, total)[i], p)
    ensures forall i, j ::
      (0 <= i < |tops| && 0 <= j < |tops| && Holds(ChapterSpans(tops, total)[i], p)
       && Holds(ChapterSpans(tops, total)[j], p)) ==> i == j
  {
    var cs := ChapterSpans(tops, total);
    var i := FindChapter(tops, p);
    assert Holds(cs[i], p);
    SpansDisjoint(tops, total, p);
  }

  /** With non-decreasing starts, no two chapter ranges share a page. */
  lemma SpansDisjoint(tops: seq<TocEntry>, total: int, p: int)
    requires NonDecreasingStarts(tops)
    ensures forall i, j ::
      (0 <= i < |tops| && 0 <= j < |tops| && Holds(ChapterSpans(tops, total)[i], p)
       && Holds(ChapterSpans(tops, total)[j], p)) ==> i == j
  {
    var cs := ChapterSpans(tops, total);
    forall i, j | 0 <= i < j < |tops| ensures !(Holds(cs[i], p) && Holds(cs[j], p)) {
      assert cs[i].last == tops[i + 1].page - 1;
      assert i + 1 < j ==> tops[i + 1].page <= tops[j].page;
      assert cs[j].first == tops[j].page;
    }
  }

  /** When the main chapters' start pages never go down, each page of the
      map from the first start page on lies in the range of exactly one
      chapter, and so is written to exactly one chapter file. */
  lemma PageInExactlyOneChapter(pages: PageMap, toc: seq<TocEntry>, p: int)
    requires |toc| > 0 && NonDecreasingStarts(TopLevel(toc))
    requires p in pages && TopLevel(toc)[0].page <= p
    ensures exists i ::
      (0 <= i < |TopLevel(toc)|
       && Holds(ChapterSpans(TopLevel(toc), LargestPage(pages))[i], p)
       && p in PagesInRange(pages, TopLevel(toc)[i].page, ChapterSpans(TopLevel(toc), LargestPage(pages))[i].last))
    ensures forall i, j ::
      (0 <= i < |TopLevel(toc)| && 0 <= j < |TopLevel(toc)|
       && Holds(ChapterSpans(TopLevel(toc), LargestPage(pages))[i], p)
       && Holds(ChapterSpans(TopLevel(toc), LargestPage(pages))[j], p)) ==> i == j
  {
    var tops := TopLevel(toc);
    var total := LargestPage(pages);
    assert p <= total;
    PageInOneSpan(tops, total, p);
    var cs := ChapterSpans(tops, total);
    var i :| 0 <= i < |tops| && Holds(cs[i], p);
    assert p in PagesInRange(pages, tops[i].page, cs[i].last);
  }
}
