/** The page map `{page number: markdown}` and the few questions the
    converter asks of it: the largest page number, the page numbers in
    ascending order, and the page numbers present in a range. */
module Pages {

  type PageMap = map<int, string>

  lemma {:induction false} GreatestExists(s: set<int>)
    requires s != {}
    ensures exists m :: m in s && forall k :: k in s ==> k <= m
    decreases s
  {
    var x := Pick(s);
    var rest := s - {x};
    if rest == {} {
      forall k | k in s ensures k <= x {
        assert k !in rest;
      }
    } else {
      GreatestExists(rest);
      var m :| m in rest && forall k :: k in rest ==> k <= m;
      var top := if m < x then x else m;
      forall k | k in s ensures k <= top {
        if k != x { assert k in rest; }
      }
      assert top in s;
    }
  }

  lemma {:induction false} LeastExists(s: set<int>)
    requires s != {}
    ensures exists m :: m in s && forall k :: k in s ==> m <= k
    decreases s
  {
    var x := Pick(s);
    var rest := s - {x};
    if rest == {} {
      forall k | k in s ensures x <= k {
        assert k !in rest;
      }
    } else {
      LeastExists(rest);
      var m :| m in rest && forall k :: k in rest ==> m <= k;
      var bottom := if x < m then x else m;
      forall k | k in s ensures bottom <= k {
        if k != x { assert k in rest; }
      }
      assert bottom in s;
    }
  }

  lemma Pick(s: set<int>) returns (x: int)
    requires s != {}
    ensures x in s
  {
    assert (forall y :: y !in s) ==> s == {};
    x :| x in s;
  }

  /** The smallest element of a non-empty set. */
  function Least(s: set<int>): (m: int)
    requires s != {}
    ensures m in s && forall k :: k in s ==> m <= k
  {
    LeastExists(s);
    var m :| m in s && forall k :: k in s ==> m <= k;
    m
  }

  /** `max(pages.keys()) if pages else 0`. */
  function LargestPage(pages: PageMap): (r: int)
    ensures pages == map[] ==> r == 0
    ensures pages != map[] ==> r in pages && forall k :: k in pages ==> k <= r
  {
    if pages.Keys == {} then
      assert pages == map[];
      0
    else
      GreatestExists(pages.Keys);
      var m :| m in pages && forall k :: k in pages ==> k <= m;
      m
  }

  predicate Increasing(ks: seq<int>) {
    forall i, j :: 0 <= i < j < |ks| ==> ks[i] < ks[j]
  }

  /** `sorted(keys)`: every key once, in ascending order. */
  function SortedKeys(s: set<int>): (r: seq<int>)
    ensures Increasing(r)
    ensures forall k :: k in r <==> k in s
    ensures |r| == |s|
    decreases |s|
  {
    if s == {} then []
    else
      var m := Least(s);
      var rest := SortedKeys(s - {m});
      assert forall j :: 0 <= j < |rest| ==> m < rest[j] by {
        forall j | 0 <= j < |rest| ensures m < rest[j] {
          assert rest[j] in rest;
        }
      }
      [m] + rest
  }

  /** The page numbers `lo..hi` (both included) that the map holds, ascending:
      the pages `for page_num in range(lo, hi + 1): if page_num in pages`
      visits. An empty range gives nothing. */
  function PagesInRange(pages: PageMap, lo: int, hi: int): (r: seq<int>)
    ensures Increasing(r)
    ensures forall k :: k in r <==> k in pages && lo <= k <= hi
    decreases hi - lo
  {
    if lo > hi then []
    else
      var rest := PagesInRange(pages, lo + 1, hi);
      assert forall j :: 0 <= j < |rest| ==> lo < rest[j] by {
        forall j | 0 <= j < |rest| ensures lo < rest[j] {
          assert rest[j] in rest;
        }
      }
      (if lo in pages then [lo] else []) + rest
  }

  /** The first element of an ascending sequence is its least. */
  lemma IncreasingHead(a: seq<int>, k: int)
    requires Increasing(a) && k in a
    ensures a[0] <= k && (k != a[0] ==> k in a[1..])
  {
    var j :| 0 <= j < |a| && a[j] == k;
    if j > 0 {
      assert a[1..][j - 1] == k;
    }
  }

  /** An ascending sequence is determined by its elements. */
  lemma {:induction false} IncreasingUnique(a: seq<int>, b: seq<int>)
    requires Increasing(a) && Increasing(b)
    requires forall k :: k in a <==> k in b
    ensures a == b
    decreases |a|
  {
    SameMembersEmpty(a, b);
    if |a| > 0 {
      IncreasingHead(a, b[0]);
      IncreasingHead(b, a[0]);
      forall k ensures k in a[1..] <==> k in b[1..] {
        if k in a[1..] {
          IncreasingHead(a, k);
          IncreasingHead(b, k);
        }
        if k in b[1..] {
          IncreasingHead(a, k);
          IncreasingHead(b, k);
        }
      }
      IncreasingUnique(a[1..], b[1..]);
      assert a == [a[0]] + a[1..] && b == [b[0]] + b[1..];
    }
  }

  lemma SameMembersEmpty<T>(a: seq<T>, b: seq<T>)
    requires forall k :: k in a <==> k in b
    ensures |a| > 0 <==> |b| > 0
  {
    if |a| > 0 { assert a[0] in a; }
    if |b| > 0 { assert b[0] in b; }
  }

  /** A range holding every page lists the whole map in ascending order. */
  lemma AllPagesInRange(pages: PageMap, lo: int, hi: int)
    requires forall k :: k in pages ==> lo <= k <= hi
    ensures PagesInRange(pages, lo, hi) == SortedKeys(pages.Keys)
  {
    IncreasingUnique(PagesInRange(pages, lo, hi), SortedKeys(pages.Keys));
  }

  /** Two adjacent ranges list the pages of their union. */
  lemma AdjacentRanges(pages: PageMap, lo: int, mid: int, hi: int)
    requires lo <= mid + 1 <= hi + 1
    ensures PagesInRange(pages, lo, mid) + PagesInRange(pages, mid + 1, hi) == PagesInRange(pages, lo, hi)
  {
    var a, b := PagesInRange(pages, lo, mid), PagesInRange(pages, mid + 1, hi);
    assert Increasing(a + b) by {
      forall i, j | 0 <= i < j < |a + b| ensures (a + b)[i] < (a + b)[j] {
        if i < |a| && j >= |a| {
          assert a[i] in a && b[j - |a|] in b;
        }
      }
    }
    IncreasingUnique(a + b, PagesInRange(pages, lo, hi));
  }

  /** No page lies beyond the largest one. */
  lemma RangeBeyondLargest(pages: PageMap, lo: int, hi: int)
    requires hi >= LargestPage(pages)
    ensures PagesInRange(pages, lo, hi) == PagesInRange(pages, lo, LargestPage(pages))
  {
    IncreasingUnique(PagesInRange(pages, lo, hi), PagesInRange(pages, lo, LargestPage(pages)));
  }
}
