/** The full document and the choice of splitter. Every page, in ascending
    page order, becomes a block headed by its page comment and holding its
    table-repaired text; the blocks are joined by a horizontal rule. The
    outline splitter runs when the outline has entries, the fallback
    splitter on the full document otherwise. */
module Assembly {
  import opened Text
  import opened Tables
  import opened Naming
  import opened Pages
  import opened Outline
  import opened Fallback

  /** The comment that opens a page's block. */
  function PageHeader(n: int): string {
    "<!-- Page " + IntToString(n) + " -->\n\n"
  }

  /** What goes between two page blocks. */
  const PageSeparator: string := "\n\n---\n\n"

  /** The blocks of the pages `ks`, in that order, taken from an already
      normalised page map, each opened by `header` of its page number. */
  function PageBlocks(pages: PageMap, ks: seq<int>, header: int -> string): (r: seq<string>)
    requires forall i :: 0 <= i < |ks| ==> ks[i] in pages
    ensures |r| == |ks|
    ensures forall i :: 0 <= i < |ks| ==> r[i] == header(ks[i]) + pages[ks[i]]
  {
    seq(|ks|, i requires 0 <= i < |ks| => header(ks[i]) + pages[ks[i]])
  }

  /** The blocks of the pages `ks` of a normalised page map, joined: no
      pages give nothing, otherwise the document opens with the block of the
      first page listed. */
  function Document(pages: PageMap, ks: seq<int>, header: int -> string): (r: string)
    requires forall i :: 0 <= i < |ks| ==> ks[i] in pages
    ensures |ks| == 0 ==> r == ""
    ensures |ks| > 0 ==> header(ks[0]) + pages[ks[0]] <= r
  {
    var blocks := PageBlocks(pages, ks, header);
    if |ks| == 0 then "" else
      JoinStartsWithFirst(blocks, PageSeparator);
      Join(blocks, PageSeparator)
  }

  /** The contents of the full markdown file. No pages give an empty
      document. */
  function FullDocument(pages: PageMap): (r: string)
    ensures pages == map[] ==> r == ""
  {
    Document(Normalized(pages), SortedKeys(pages.Keys), PageHeader)
  }

  /** The block of one page, with its text repaired. */
  function Block(pages: PageMap, n: int): string
    requires n in pages
  {
    PageHeader(n) + NormalizeText(pages[n])
  }

  lemma SortedKeysLeast(s: set<int>)
    requires s != {}
    ensures SortedKeys(s) == [Least(s)] + SortedKeys(s - {Least(s)})
  {
  }

  /** Joining the blocks of `[m] + tail`. */
  lemma DocumentCons(pages: PageMap, m: int, tail: seq<int>, header: int -> string)
    requires m in pages && forall i :: 0 <= i < |tail| ==> tail[i] in pages
    ensures |tail| == 0 ==> Document(pages, [m] + tail, header) == header(m) + pages[m]
    ensures |tail| > 0 ==> Document(pages, [m] + tail, header) == header(m) + pages[m] + PageSeparator + Document(pages, tail, header)
  {
    assert PageBlocks(pages, [m] + tail, header) == [header(m) + pages[m]] + PageBlocks(pages, tail, header);
    JoinCons(header(m) + pages[m], PageBlocks(pages, tail, header), PageSeparator);
  }

  /** Blocks only depend on the pages they list. */
  lemma DocumentAgree(a: PageMap, b: PageMap, ks: seq<int>, header: int -> string)
    requires forall i :: 0 <= i < |ks| ==> ks[i] in a && ks[i] in b && a[ks[i]] == b[ks[i]]
    ensures Document(a, ks, header) == Document(b, ks, header)
  {
    assert PageBlocks(a, ks, header) == PageBlocks(b, ks, header);
  }

  lemma NormalizedRemove(pages: PageMap, m: int)
    ensures forall k :: k in pages - {m} ==> k in Normalized(pages) && Normalized(pages - {m})[k] == Normalized(pages)[k]
  {
  }

  lemma NonEmptyKeys(pages: PageMap)
    requires pages != map[]
    ensures pages.Keys != {}
  {
    assert (forall k :: k !in pages) ==> pages == map[];
  }

  /** The document is the block of the lowest page, then, when other pages
      remain, a separator and the document of those pages. */
  lemma FullDocumentFirst(pages: PageMap)
    requires pages != map[]
    ensures Least(pages.Keys) in pages
    ensures pages - {Least(pages.Keys)} == map[] ==>
      FullDocument(pages) == Block(pages, Least(pages.Keys))
    ensures pages - {Least(pages.Keys)} != map[] ==>
      FullDocument(pages) == Block(pages, Least(pages.Keys)) + PageSeparator + FullDocument(pages - {Least(pages.Keys)})
  {
    NonEmptyKeys(pages);
    var m := Least(pages.Keys);
    var rest := pages - {m};
    var norm := Normalized(pages);
    SortedKeysLeast(pages.Keys);
    assert rest.Keys == pages.Keys - {m};
    var tail := SortedKeys(rest.Keys);
    forall i | 0 <= i < |tail| ensures tail[i] in rest {
      assert tail[i] in tail;
    }
    DocumentCons(norm, m, tail, PageHeader);
    NormalizedRemove(pages, m);
    DocumentAgree(norm, Normalized(rest), tail, PageHeader);
    if rest != map[] {
      NonEmptyKeys(rest);
    }
  }

  /** A one-page document is that page's block. */
  lemma SinglePageDocument(n: int, text: string)
    ensures FullDocument(map[n := text]) == PageHeader(n) + NormalizeText(text)
  {
    var pages := map[n := text];
    FullDocumentFirst(pages);
    assert pages.Keys == {n};
    assert pages - {n} == map[];
  }

  /** A page without table lines appears in the document as it was
      extracted. */
  lemma TableFreePageKept(n: int, text: string)
    requires forall i :: 0 <= i < |Split(text)| ==> !IsTableLine(Split(text)[i])
    ensures FullDocument(map[n := text]) == PageHeader(n) + text
  {
    SinglePageDocument(n, text);
  }

  /** Every document of at least one page opens with the lowest page's
      header. */
  lemma DocumentOpensWithLowestPage(pages: PageMap)
    requires pages != map[]
    ensures PageHeader(Least(pages.Keys)) <= FullDocument(pages)
  {
    FullDocumentFirst(pages);
    var m := Least(pages.Keys);
    var block := Block(pages, m);
    PrefixAppend(PageHeader(m), NormalizeText(pages[m]), []);
    if pages - {m} != map[] {
      PrefixAppend(block, PageSeparator, FullDocument(pages - {m}));
    }
    PrefixTransitive(PageHeader(m), block, FullDocument(pages));
  }

  lemma PrefixTransitive(a: string, b: string, c: string)
    requires a <= b && b <= c
    ensures a <= c
  {
    assert c[..|b|][..|a|] == c[..|a|];
  }

  lemma PrefixAppend(a: string, b: string, c: string)
    ensures a <= a + b + c
  {
    assert (a + b + c)[..|a|] == a;
  }

  /** The outcome of a run: nothing when no page was extracted, otherwise the
      full document and what the chosen splitter reports. */
  datatype Outcome = NoPages | Converted(document: string, split: SplitResult)

  /** The driver from the extracted pages on. `matches` are the title matches
      in the full document; they are only consulted when the outline is
      empty. */
  function Convert(pages: PageMap, toc: seq<TocEntry>, matches: seq<Match>): (r: Outcome)
    requires pages != map[] && |toc| == 0 ==> ValidMatches(matches, FullDocument(pages))
    ensures r.NoPages? <==> pages == map[]
    ensures r.Converted? ==> (r.split.Failed? <==> |toc| == 0 && |matches| == 0)
    ensures r.Converted? && |toc| > 0 ==> |r.split.files| == |TopLevel(toc)|
    ensures r.Converted? && |toc| == 0 && |matches| > 0 ==> |r.split.files| == |matches|
    ensures r.Converted? && r.split.Written? ==> DistinctNames(r.split.files)
  {
    if pages == map[] then NoPages
    else
      var document := FullDocument(pages);
      Converted(document, if |toc| > 0 then TocFiles(pages, toc) else FallbackFiles(document, matches))
  }

  /** With an outline, the split depends on the pages and the outline only;
      without one, on the full document and the matches in it. */
  lemma ConvertChoosesSplitter(pages: PageMap, toc: seq<TocEntry>, matches: seq<Match>)
    requires pages != map[]
    requires |toc| == 0 ==> ValidMatches(matches, FullDocument(pages))
    ensures |toc| > 0 ==> Convert(pages, toc, matches).split == TocFiles(pages, toc)
    ensures |toc| == 0 ==> Convert(pages, toc, matches).split == FallbackFiles(FullDocument(pages), matches)
    ensures Convert(pages, toc, matches).document == FullDocument(pages)
  {
  }
}
