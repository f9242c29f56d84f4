/** `sorted(pages, key=lambda x: x["page"])`: Python's stable sort of a bucket by page number. */
module Sorting {
  import opened Records

  predicate SortedByPage(s: seq<Hit>) {
    forall i, j :: 0 <= i < j < |s| ==> s[i].page <= s[j].page
  }

  /** The hits of `s` on page `page`, in their order in `s`. */
  function OnPage(s: seq<Hit>, page: int): seq<Hit> {
    if s == [] then []
    else OnPage(s[..|s| - 1], page) + (if s[|s| - 1].page == page then [s[|s| - 1]] else [])
  }

  /** Places `h` after every trailing hit of `s` whose page is larger than its own. */
  function InsertByPage(s: seq<Hit>, h: Hit): seq<Hit> {
    if s == [] || s[|s| - 1].page <= h.page then s + [h]
    else InsertByPage(s[..|s| - 1], h) + [s[|s| - 1]]
  }

  /** Insertion sort, one hit at a time in input order; equal pages keep their input order. */
  function SortByPage(s: seq<Hit>): seq<Hit> {
    if s == [] then [] else InsertByPage(SortByPage(s[..|s| - 1]), s[|s| - 1])
  }

  /** Inserting adds exactly `h`. */
  lemma {:induction false} InsertByPageMultiset(s: seq<Hit>, h: Hit)
    ensures multiset(InsertByPage(s, h)) == multiset(s) + multiset{h}
    ensures |InsertByPage(s, h)| == |s| + 1
  {
    if !(s == [] || s[|s| - 1].page <= h.page) {
      var s' := s[..|s| - 1];
      assert s == s' + [s[|s| - 1]];
      InsertByPageMultiset(s', h);
    }
  }

  lemma SortedSnoc(s: seq<Hit>, h: Hit)
    requires SortedByPage(s)
    requires forall x | x in s :: x.page <= h.page
    ensures SortedByPage(s + [h])
  {
  }

  /** Inserting into a sorted sequence keeps it sorted. */
  lemma {:induction false} InsertByPageSorted(s: seq<Hit>, h: Hit)
    requires SortedByPage(s)
    ensures SortedByPage(InsertByPage(s, h))
  {
    if s == [] || s[|s| - 1].page <= h.page {
      SortedSnoc(s, h);
    } else {
      var last := s[|s| - 1];
      var s' := s[..|s| - 1];
      assert s == s' + [last];
      InsertByPageSorted(s', h);
      InsertByPageMultiset(s', h);
      var r' := InsertByPage(s', h);
      forall x | x in r' ensures x.page <= last.page {
        assert x in multiset(r');
      }
      SortedSnoc(r', last);
    }
  }

  /** The sort yields a sequence ordered by page that is a permutation of its input. */
  lemma {:induction false} SortByPageSorted(s: seq<Hit>)
    ensures SortedByPage(SortByPage(s))
    ensures multiset(SortByPage(s)) == multiset(s)
    ensures |SortByPage(s)| == |s|
  {
    if s != [] {
      var s' := s[..|s| - 1];
      assert s == s' + [s[|s| - 1]];
      SortByPageSorted(s');
      InsertByPageSorted(SortByPage(s'), s[|s| - 1]);
      InsertByPageMultiset(SortByPage(s'), s[|s| - 1]);
    }
  }

  lemma OnPageAppend(s: seq<Hit>, h: Hit, page: int)
    ensures OnPage(s + [h], page) == OnPage(s, page) + (if h.page == page then [h] else [])
  {
    assert (s + [h])[..|s|] == s;
  }

  lemma {:induction false} InsertByPageOnPage(s: seq<Hit>, h: Hit, page: int)
    requires SortedByPage(s)
    ensures OnPage(InsertByPage(s, h), page) == OnPage(s, page) + (if h.page == page then [h] else [])
  {
    if s == [] || s[|s| - 1].page <= h.page {
      OnPageAppend(s, h, page);
    } else {
      var last := s[|s| - 1];
      var s' := s[..|s| - 1];
      assert s == s' + [last];
      InsertByPageOnPage(s', h, page);
      OnPageAppend(InsertByPage(s', h), last, page);
      OnPageAppend(s', last, page);
    }
  }

  /** Stability: for every page number, the hits on that page come out in the order they went in. */
  lemma {:induction false} SortStable(s: seq<Hit>, page: int)
    ensures OnPage(SortByPage(s), page) == OnPage(s, page)
  {
    if s != [] {
      var s' := s[..|s| - 1];
      SortStable(s', page);
      SortByPageSorted(s');
      InsertByPageOnPage(SortByPage(s'), s[|s| - 1], page);
    }
  }
}
