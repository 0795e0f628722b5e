/** Chapter file names and the shape of a splitter's output: every
    splitter returns the files it would write, as (name, content) pairs. */
module Naming {
  import opened Text

  /** The characters the sanitiser deletes from a title: the class
      `[\\/:*?"<>|\n#]`. */
  predicate IsReserved(c: char) {
    c == '\\' || c == '/' || c == ':' || c == '*' || c == '?' || c == '"'
    || c == '<' || c == '>' || c == '|' || c == '\n' || c == '#'
  }

  /** Deleting every reserved character, keeping the others in order. */
  function RemoveReserved(s: string): (r: string)
    ensures |r| <= |s|
    ensures forall i :: 0 <= i < |r| ==> !IsReserved(r[i])
    ensures (forall i :: 0 <= i < |s| ==> !IsReserved(s[i])) ==> r == s
  {
    if |s| == 0 then []
    else
      var rest := RemoveReserved(s[1..]);
      if IsReserved(s[0]) then rest else [s[0]] + rest
  }

  /** Deletion keeps exactly the characters that are not reserved. */
  lemma {:induction false} RemoveReservedKeepsOthers(s: string)
    ensures forall c :: c in RemoveReserved(s) <==> c in s && !IsReserved(c)
    decreases |s|
  {
    if |s| > 0 {
      RemoveReservedKeepsOthers(s[1..]);
      assert forall c :: c in s <==> c == s[0] || c in s[1..] by {
        assert s == [s[0]] + s[1..];
      }
    }
  }

  /** Deletion works piece by piece. */
  lemma {:induction false} RemoveReservedAppend(a: string, b: string)
    ensures RemoveReserved(a + b) == RemoveReserved(a) + RemoveReserved(b)
    decreases |a|
  {
    if |a| == 0 {
      assert a + b == b;
    } else {
      assert (a + b)[1..] == a[1..] + b;
      RemoveReservedAppend(a[1..], b);
    }
  }

  /** The title used by the fallback splitter: reserved characters deleted,
      then surrounding whitespace stripped. The result is the contiguous piece
      of the deleted form that follows its leading whitespace, and only
      whitespace follows the piece. */
  function SafeTitle(title: string): (r: string)
    ensures LeadingSpace(RemoveReserved(title)) + |r| <= |RemoveReserved(title)|
    ensures r == RemoveReserved(title)[LeadingSpace(RemoveReserved(title))..LeadingSpace(RemoveReserved(title)) + |r|]
    ensures forall i :: LeadingSpace(RemoveReserved(title)) + |r| <= i < |RemoveReserved(title)| ==>
      IsSpace(RemoveReserved(title)[i])
    ensures forall i :: 0 <= i < |r| ==> !IsReserved(r[i])
    ensures |r| > 0 ==> !IsSpace(r[0]) && !IsSpace(r[|r| - 1])
    ensures forall c :: c in r ==> c in title
  {
    SafeTitleCharacters(title);
    Strip(RemoveReserved(title))
  }

  lemma SafeTitleCharacters(title: string)
    ensures forall i :: 0 <= i < |Strip(RemoveReserved(title))| ==> !IsReserved(Strip(RemoveReserved(title))[i])
    ensures forall c :: c in Strip(RemoveReserved(title)) ==> c in title
  {
    var removed := RemoveReserved(title);
    RemoveReservedKeepsOthers(title);
    StripKeeps(removed, c => !IsReserved(c));
  }

  /** Sanitising a sanitised title changes nothing. */
  lemma SafeTitleIdempotent(title: string)
    ensures SafeTitle(SafeTitle(title)) == SafeTitle(title)
  {
    var s := SafeTitle(title);
    assert RemoveReserved(s) == s;
    if |s| == 0 {
      assert Strip(s) == s;
    }
  }

  /** A title that is already clean is used as it is. */
  lemma CleanTitleKept(title: string)
    requires forall i :: 0 <= i < |title| ==> !IsReserved(title[i])
    requires |title| > 0 && !IsSpace(title[0]) && !IsSpace(title[|title| - 1])
    ensures SafeTitle(title) == title
  {
  }

  /** Only the reserved characters and surrounding whitespace go: a tab
      inside a title survives, so a sanitised title may hold control
      characters. */
  lemma ControlCharacterSurvives()
    ensures SafeTitle("a\tb") == "a\tb"
    ensures '\t' in SafeTitle("a\tb")
  {
    CleanTitleKept("a\tb");
  }

  /** The outline splitter's length limit on titles, in code points. */
  const TitleCap: nat := 50

  /** The title used by the outline splitter: the sanitised title cut to its
      first `TitleCap` characters. The cut may leave whitespace at the end. */
  function OutlineTitle(title: string): (r: string)
    ensures |r| <= TitleCap
    ensures r <= SafeTitle(title)
    ensures |SafeTitle(title)| <= TitleCap ==> r == SafeTitle(title)
    ensures |SafeTitle(title)| > TitleCap ==> |r| == TitleCap
    ensures forall i :: 0 <= i < |r| ==> !IsReserved(r[i])
    ensures |r| > 0 ==> !IsSpace(r[0])
  {
    var s := SafeTitle(title);
    if |s| <= TitleCap then s else s[..TitleCap]
  }

  /** A long clean title keeps its full length on the fallback path and is
      cut to `TitleCap` characters on the outline path. */
  lemma LongTitleCutOnlyByOutline(title: string)
    requires forall i :: 0 <= i < |title| ==> !IsReserved(title[i])
    requires |title| > TitleCap && !IsSpace(title[0]) && !IsSpace(title[|title| - 1])
    ensures SafeTitle(title) == title
    ensures OutlineTitle(title) == title[..TitleCap]
  {
    CleanTitleKept(title);
  }

  /** The number in front of a file name: `str(index + 1).zfill(2)`. */
  function IndexPrefix(index: nat): (r: string)
    ensures |r| >= 2 && AllDigits(r) && DecimalValue(r) == index + 1
    ensures index + 1 < 100 ==> |r| == 2
    ensures |r| > 2 ==> r[0] != '0'
  {
    var digits := NatToString(index + 1);
    SmallNumberDigits(digits);
    ZFill(digits, 2)
  }

  /** A canonical digit string of a number below 100 has at most two digits. */
  lemma SmallNumberDigits(s: string)
    requires AllDigits(s) && (|s| > 1 ==> s[0] != '0')
    ensures DecimalValue(s) < 100 ==> |s| <= 2
  {
    if |s| > 2 {
      AtLeastHundred(s);
    }
  }

  lemma {:induction false} AtLeastHundred(s: string)
    requires AllDigits(s) && |s| > 2 && s[0] != '0'
    ensures DecimalValue(s) >= 100
    decreases |s|
  {
    var front := s[..|s| - 1];
    assert front[0] == s[0];
    if |s| == 3 {
      var ff := front[..1];
      assert ff == [s[0]];
      assert DecimalValue(ff) == DecimalValue([]) * 10 + DigitValue(s[0]);
      assert DecimalValue(front) >= 10;
    } else {
      AtLeastHundred(front);
    }
  }

  /** `f"{str(index + 1).zfill(2)}_{title}.md"`: the number, an underscore,
      the title and the `.md` extension. */
  function FileName(index: nat, title: string): (r: string)
    ensures |r| == |IndexPrefix(index)| + |title| + 4
    ensures r[|r| - 3..] == ".md"
  {
    IndexPrefix(index) + "_" + title + ".md"
  }

  /** The longest all-digit prefix of a string. */
  function DigitRun(s: string): (r: string)
    ensures AllDigits(r) && r <= s
  {
    if |s| > 0 && IsDigit(s[0]) then [s[0]] + DigitRun(s[1..]) else []
  }

  lemma {:induction false} DigitRunPrefix(p: string, rest: string)
    requires AllDigits(p) && |rest| > 0 && !IsDigit(rest[0])
    ensures DigitRun(p + rest) == p
    decreases |p|
  {
    if |p| == 0 {
      assert p + rest == rest;
    } else {
      assert (p + rest)[1..] == p[1..] + rest;
      DigitRunPrefix(p[1..], rest);
      assert [p[0]] + p[1..] == p;
    }
  }

  /** A file name reads back: its leading digits give the one-based
      position whatever the title holds, an underscore follows them, and the
      title sits between it and the extension. */
  lemma FileNameReadsBack(index: nat, title: string)
    ensures var r := FileName(index, title);
      && |r| >= |DigitRun(r)| + 4
      && DecimalValue(DigitRun(r)) == index + 1
      && r[|DigitRun(r)|] == '_'
      && r[|DigitRun(r)| + 1..|r| - 3] == title
  {
    DigitsNameReadsBack(IndexPrefix(index), title);
  }

  lemma DigitsNameReadsBack(p: string, title: string)
    requires AllDigits(p)
    ensures var r := p + "_" + title + ".md";
      && |r| >= |DigitRun(r)| + 4
      && DigitRun(r) == p
      && r[|DigitRun(r)|] == '_'
      && r[|DigitRun(r)| + 1..|r| - 3] == title
  {
    var r := p + "_" + title + ".md";
    assert r == p + ("_" + title + ".md");
    DigitRunPrefix(p, "_" + title + ".md");
    assert r[|p| + 1..|r| - 3] == title;
  }

  /** Two files of one run never share a name. */
  lemma FileNamesDistinct(i: nat, j: nat, a: string, b: string)
    requires i != j
    ensures FileName(i, a) != FileName(j, b)
  {
    FileNameReadsBack(i, a);
    FileNameReadsBack(j, b);
  }

  /** The first chapter of an outline, titled `A/B:C*D`, is written to
      `01_ABCD.md`: the reserved `/`, `:` and `*` are dropped. */
  lemma FileNameExample()
    ensures FileName(0, OutlineTitle("A/B:C*D")) == "01_ABCD.md"
  {
    OutlineTitleExample();
    FirstIndexPrefix();
    ExampleName(IndexPrefix(0), OutlineTitle("A/B:C*D"));
  }

  /** The example's name once its two computed parts are known; kept apart
      so that the string comparison does not see how the parts are built. */
  lemma ExampleName(prefix: string, title: string)
    requires prefix == "01" && title == "ABCD"
    ensures prefix + "_" + title + ".md" == "01_ABCD.md"
  {
  }

  lemma OutlineTitleExample()
    ensures OutlineTitle("A/B:C*D") == "ABCD"
  {
    RemoveReservedExample();
    CleanTitleKept("ABCD");
  }

  lemma FirstIndexPrefix()
    ensures IndexPrefix(0) == "01"
  {
    assert NatToString(1) == "1";
    assert Repeat('0', 1) == "0";
  }

  lemma RemoveReservedExample()
    ensures RemoveReserved("A/B:C*D") == "ABCD"
  {
    DropSeparators('A', '/', 'B', ':', 'C', '*', 'D');
  }

  /** Four kept characters separated by three reserved ones. */
  lemma DropSeparators(a: char, x: char, b: char, y: char, c: char, z: char, d: char)
    requires !IsReserved(a) && !IsReserved(b) && !IsReserved(c) && !IsReserved(d)
    requires IsReserved(x) && IsReserved(y) && IsReserved(z)
    ensures RemoveReserved([a, x, b, y, c, z, d]) == [a, b, c, d]
  {
    assert [a, x, b, y, c, z, d][1..] == [x, b, y, c, z, d];
    assert [x, b, y, c, z, d][1..] == [b, y, c, z, d];
    assert [b, y, c, z, d][1..] == [y, c, z, d];
    assert [y, c, z, d][1..] == [c, z, d];
    assert [c, z, d][1..] == [z, d];
    assert [z, d][1..] == [d];
    assert RemoveReserved([d]) == [d];
    assert RemoveReserved([c, z, d]) == [c, d];
    assert RemoveReserved([b, y, c, z, d]) == [b, c, d];
  }

  /** One file a splitter writes. */
  datatype OutputFile = OutputFile(name: string, content: string)

  /** What a splitter reports: failure, or success with the files written. */
  datatype SplitResult = Failed | Written(files: seq<OutputFile>)

  predicate DistinctNames(files: seq<OutputFile>) {
    forall i, j :: 0 <= i < j < |files| ==> files[i].name != files[j].name
  }

  /** The files a splitter writes for sections with these titles and
      contents: file `i` is named after position `i` and title `i`. */
  function NumberedFiles(titles: seq<string>, contents: seq<string>): (r: seq<OutputFile>)
    requires |titles| == |contents|
    ensures |r| == |titles|
    ensures forall i :: 0 <= i < |r| ==> r[i].name == FileName(i, titles[i]) && r[i].content == contents[i]
    ensures DistinctNames(r)
  {
    var r := seq(|titles|, i requires 0 <= i < |titles| => OutputFile(FileName(i, titles[i]), contents[i]));
    assert DistinctNames(r) by {
      forall i, j | 0 <= i < j < |r| ensures r[i].name != r[j].name {
        FileNamesDistinct(i, j, titles[i], titles[j]);
      }
    }
    r
  }
}
