/** Cutting a page-sorted bucket into maximal runs of consecutive pages (app.py, group_results). */
module PageRuns {
  import opened Records

  function Last<T>(s: seq<T>): T
    requires s != []
  {
    s[|s| - 1]
  }

  /** Each page is exactly one more than the page before it. */
  ghost predicate Consecutive(run: seq<Hit>) {
    forall j, k :: 0 <= j < k < |run| && k == j + 1 ==> run[k].page == run[j].page + 1
  }

  /** The runs laid end to end. */
  function Flatten(runs: seq<seq<Hit>>): seq<Hit> {
    if runs == [] then [] else Flatten(runs[..|runs| - 1]) + Last(runs)
  }

  /** `runs`, taken in order, cut `s` into non-empty runs of consecutive pages, and no run could be
      joined to the one before it. */
  ghost predicate IsRunSplit(s: seq<Hit>, runs: seq<seq<Hit>>) {
    && Flatten(runs) == s
    && (forall i :: 0 <= i < |runs| ==> runs[i] != [] && Consecutive(runs[i]))
    && (forall i, j :: 0 <= i && j == i + 1 && j < |runs| ==> !Joinable(runs[i], runs[j]))
  }

  /** `b` would continue `a`: its first page is one past the last page of `a`. */
  predicate Joinable(a: seq<Hit>, b: seq<Hit>) {
    a != [] && b != [] && b[0].page == Last(a).page + 1
  }

  /** The `ranges` that the scan over the sorted pages produces. */
  function Runs(s: seq<Hit>): (runs: seq<seq<Hit>>)
    ensures s == [] <==> runs == []
    ensures forall i :: 0 <= i < |runs| ==> runs[i] != []
    ensures s != [] ==> Last(Last(runs)) == Last(s)
  {
    if s == [] then []
    else
      var page := Last(s);
      var prior := Runs(s[..|s| - 1]);
      if prior != [] && page.page == Last(Last(prior)).page + 1 then
        prior[..|prior| - 1] + [Last(prior) + [page]]
      else
        prior + [[page]]
  }

  /** The loop over `pages[1:]` with its `current_range` accumulator. */
  method SplitRuns(pages: seq<Hit>) returns (ranges: seq<seq<Hit>>)
    requires pages != []
    ensures ranges == Runs(pages)
  {
    ranges := [];
    var current := [pages[0]];
    assert pages[..1] == [pages[0]];
    for i := 1 to |pages|
      invariant current != []
      invariant ranges + [current] == Runs(pages[..i])
    {
      assert pages[..i + 1][..i] == pages[..i];
      var page := pages[i];
      if page.page == current[|current| - 1].page + 1 {
        current := current + [page];
      } else {
        ranges := ranges + [current];
        current := [page];
      }
    }
    assert pages[..|pages|] == pages;
    ranges := ranges + [current];
  }

  lemma FlattenSnoc(runs: seq<seq<Hit>>, run: seq<Hit>)
    ensures Flatten(runs + [run]) == Flatten(runs) + run
  {
    assert (runs + [run])[..|runs|] == runs;
  }

  /** Every hit of every run is in the flattened sequence. */
  lemma {:induction false} FlattenContains(runs: seq<seq<Hit>>, i: nat, h: Hit)
    requires i < |runs| && h in runs[i]
    ensures h in Flatten(runs)
  {
    if i < |runs| - 1 {
      FlattenContains(runs[..|runs| - 1], i, h);
    }
  }

  lemma ConsecutiveSnoc(run: seq<Hit>, x: Hit)
    requires Consecutive(run) && run != [] && x.page == Last(run).page + 1
    ensures Consecutive(run + [x])
  {
    var r := run + [x];
    forall j, k | 0 <= j < k < |r| && k == j + 1 ensures r[k].page == r[j].page + 1 {
      if k < |run| {
        assert r[k] == run[k] && r[j] == run[j];
      }
    }
  }

  lemma SplitExtendLast(s: seq<Hit>, runs: seq<seq<Hit>>, x: Hit)
    requires IsRunSplit(s, runs) && runs != [] && x.page == Last(Last(runs)).page + 1
    ensures IsRunSplit(s + [x], runs[..|runs| - 1] + [Last(runs) + [x]])
  {
    var front := runs[..|runs| - 1];
    var run := Last(runs);
    assert runs == front + [run];
    FlattenSnoc(front, run);
    FlattenSnoc(front, run + [x]);
    var runs' := front + [run + [x]];
    ConsecutiveSnoc(run, x);
    forall i | 0 <= i < |runs'| ensures runs'[i] != [] && Consecutive(runs'[i]) {
      if i < |front| {
        assert runs'[i] == runs[i];
      }
    }
    forall i, j | 0 <= i && j == i + 1 && j < |runs'| ensures !Joinable(runs'[i], runs'[j]) {
      assert runs'[i] == runs[i] && runs'[j][0] == runs[j][0];
    }
  }

  lemma SplitStartRun(s: seq<Hit>, runs: seq<seq<Hit>>, x: Hit)
    requires IsRunSplit(s, runs) && (runs != [] ==> x.page != Last(Last(runs)).page + 1)
    ensures IsRunSplit(s + [x], runs + [[x]])
  {
    FlattenSnoc(runs, [x]);
    var runs' := runs + [[x]];
    forall i | 0 <= i < |runs'| ensures runs'[i] != [] && Consecutive(runs'[i]) {
      if i < |runs| {
        assert runs'[i] == runs[i];
      }
    }
    forall i, j | 0 <= i && j == i + 1 && j < |runs'| ensures !Joinable(runs'[i], runs'[j]) {
      if j < |runs| {
        assert runs'[i] == runs[i] && runs'[j] == runs[j];
      }
    }
  }

  /** The scan's result is a split of its input into maximal runs. */
  lemma {:induction false} RunsSplit(s: seq<Hit>)
    ensures IsRunSplit(s, Runs(s))
  {
    if s != [] {
      var s' := s[..|s| - 1];
      var x := Last(s);
      RunsSplit(s');
      RunsSplitStep(s', x);
      assert s == s' + [x];
    }
  }

  /** One step of the scan: extending the input by one hit keeps the split maximal. */
  lemma RunsSplitStep(s: seq<Hit>, x: Hit)
    requires IsRunSplit(s, Runs(s))
    ensures IsRunSplit(s + [x], Runs(s + [x]))
  {
    var prior := Runs(s);
    assert (s + [x])[..|s|] == s;
    if prior != [] && x.page == Last(Last(prior)).page + 1 {
      var runs := prior[..|prior| - 1] + [Last(prior) + [x]];
      assert Runs(s + [x]) == runs;
      SplitExtendLast(s, prior, x);
      assert IsRunSplit(s + [x], runs);
    } else {
      var runs := prior + [[x]];
      assert Runs(s + [x]) == runs;
      SplitStartRun(s, prior, x);
      assert IsRunSplit(s + [x], runs);
    }
  }

  lemma SplitDropSingleton(s: seq<Hit>, runs: seq<seq<Hit>>)
    requires IsRunSplit(s, runs) && runs != [] && |Last(runs)| == 1
    ensures s != [] && Last(runs) == [Last(s)]
    ensures IsRunSplit(s[..|s| - 1], runs[..|runs| - 1])
    ensures |runs| > 1 ==> Last(s).page != Last(Last(runs[..|runs| - 1])).page + 1
  {
    var front := runs[..|runs| - 1];
    assert runs == front + [Last(runs)];
    FlattenSnoc(front, Last(runs));
    assert s[..|s| - 1] == Flatten(front);
    if |runs| > 1 {
      assert !Joinable(runs[|runs| - 2], runs[|runs| - 1]);
    }
  }

  lemma SplitShortenLast(s: seq<Hit>, runs: seq<seq<Hit>>)
    requires IsRunSplit(s, runs) && runs != [] && |Last(runs)| > 1
    ensures s != [] && Last(s) == Last(Last(runs))
    ensures var run := Last(runs)[..|Last(runs)| - 1];
      && IsRunSplit(s[..|s| - 1], runs[..|runs| - 1] + [run])
      && Last(s).page == Last(run).page + 1
  {
    var front := runs[..|runs| - 1];
    var run := Last(runs);
    var run' := run[..|run| - 1];
    assert runs == front + [run];
    assert run == run' + [Last(run)];
    FlattenSnoc(front, run);
    FlattenSnoc(front, run');
    assert s[..|s| - 1] == Flatten(front + [run']);
    var runs' := front + [run'];
    forall i, j | 0 <= i && j == i + 1 && j < |runs'| ensures !Joinable(runs'[i], runs'[j]) {
      assert runs'[i] == runs[i] && runs'[j][0] == runs[j][0];
    }
  }

  lemma RunsFlatten(s: seq<Hit>)
    ensures Flatten(Runs(s)) == s
  {
    RunsSplit(s);
  }

  /** The split into maximal runs is unique: any split with the properties of IsRunSplit is the scan's. */
  lemma {:induction false} RunsUnique(s: seq<Hit>, runs: seq<seq<Hit>>)
    requires IsRunSplit(s, runs)
    ensures runs == Runs(s)
    decreases |s|
  {
    if runs == [] {
      assert s == [];
    } else if |Last(runs)| == 1 {
      SplitDropSingleton(s, runs);
      RunsUnique(s[..|s| - 1], runs[..|runs| - 1]);
      assert runs == runs[..|runs| - 1] + [[Last(s)]];
    } else {
      SplitShortenLast(s, runs);
      var run := Last(runs)[..|Last(runs)| - 1];
      var runs' := runs[..|runs| - 1] + [run];
      RunsUnique(s[..|s| - 1], runs');
      assert Last(runs) == run + [Last(s)];
      assert runs == runs'[..|runs'| - 1] + [Last(runs') + [Last(s)]];
    }
  }

  lemma {:induction false} RunPageAt(run: seq<Hit>, j: nat)
    requires Consecutive(run) && j < |run|
    ensures run[j].page == run[0].page + j
  {
    if j > 0 {
      RunPageAt(run, j - 1);
    }
  }

  /** Inside a run the pages count up from the first one, so no page appears twice in a run: two hits with
      the same page always land in different runs. */
  lemma RunPages(run: seq<Hit>)
    requires Consecutive(run)
    ensures forall j :: 0 <= j < |run| ==> run[j].page == run[0].page + j
    ensures forall j, k :: 0 <= j < k < |run| ==> run[j].page < run[k].page
  {
    forall j | 0 <= j < |run| ensures run[j].page == run[0].page + j {
      RunPageAt(run, j);
    }
  }
}
