/** group_results (app.py): from raw hits to per-document lists of page-range summaries. */
module Consolidation {
  import opened Records
  import opened Text
  import opened Dicts
  import opened Grouping
  import opened Sorting
  import opened PageRuns

  datatype Classification = MostRelevant | Maybe {
    /** The text the range record carries. */
    function Label(): string {
      match this
      case MostRelevant => "most relevant"
      case Maybe => "maybe"
    }
  }

  /** One entry of a document's list: the page range, its best distance, its class and its locator. */
  datatype RangeSummary = RangeSummary(range: string, score: real, classification: Classification, link: string)

  /** `min(item["score"] for item in group)`. */
  function MinScore(run: seq<Hit>): (m: real)
    requires run != []
    ensures exists j :: 0 <= j < |run| && run[j].score == m
    ensures forall j :: 0 <= j < |run| ==> m <= run[j].score
  {
    if |run| == 1 then run[0].score
    else
      var rest := MinScore(run[..|run| - 1]);
      if Last(run).score < rest then Last(run).score else rest
  }

  function Classify(score: real): Classification {
    if score <= MostRelevantThreshold then MostRelevant else Maybe
  }

  /** `"start-end"`, or just `"start"` when the range is one page. */
  function RangeLabel(start: int, end: int): string {
    if start != end then IntToString(start) + "-" + IntToString(end) else IntToString(start)
  }

  /** Reads the bounds back out of a range label. */
  function ParseRangeLabel(shown: string): (int, int) {
    var i := IndexOf(shown, '-');
    if i == |shown| then (ParseNat(shown), ParseNat(shown))
    else (ParseNat(shown[..i]), ParseNat(shown[i + 1..]))
  }

  /** For page numbers that are not negative, the label determines both ends of the range. */
  lemma RangeLabelRoundTrip(start: int, end: int)
    requires 0 <= start && 0 <= end
    ensures ParseRangeLabel(RangeLabel(start, end)) == (start, end)
  {
    ParseNatToString(start);
    ParseNatToString(end);
    if start != end {
      IndexOfJoin(NatToString(start), NatToString(end), '-');
      assert RangeLabel(start, end) == NatToString(start) + ['-'] + NatToString(end);
    }
  }

  /** The record that summarises one run of document `pdf`. */
  function Summarise(pdf: string, run: seq<Hit>): RangeSummary
    requires run != []
  {
    var start := run[0].page;
    var minScore := MinScore(run);
    RangeSummary(RangeLabel(start, Last(run).page), minScore, Classify(minScore), PageLink(pdf, start))
  }

  function Summaries(pdf: string, runs: seq<seq<Hit>>): seq<RangeSummary>
    requires forall i :: 0 <= i < |runs| ==> runs[i] != []
  {
    seq(|runs|, i requires 0 <= i < |runs| => Summarise(pdf, runs[i]))
  }

  /** The runs of document `pdf`: its surviving hits, sorted by page, cut into runs. */
  function PdfRuns(hits: seq<Hit>, pdf: string): seq<seq<Hit>> {
    Runs(SortByPage(Bucket(hits, pdf)))
  }

  /** The `clubbed` list of a document whose bucket is `pages`. */
  function Clubbed(pdf: string, pages: seq<Hit>): seq<RangeSummary> {
    Summaries(pdf, Runs(SortByPage(pages)))
  }

  /** The `pdf_groups` dict that group_results returns: every bucket replaced by its `clubbed` list. */
  function Consolidate(hits: seq<Hit>): Dict<seq<RangeSummary>> {
    MapValues(Group(hits), Clubbed)
  }

  lemma ClubbedNonEmpty(pdf: string, pages: seq<Hit>)
    requires pages != []
    ensures Clubbed(pdf, pages) != []
  {
    SortByPageSorted(pages);
  }

  /** What a summary says about its run: the best distance in it, "most relevant" exactly when some hit in
      it is within the tighter threshold, a label spanning its pages and a link to its first page. */
  lemma SummaryMeaning(pdf: string, run: seq<Hit>)
    requires run != [] && Consecutive(run)
    ensures var r := Summarise(pdf, run);
      && (exists j :: 0 <= j < |run| && r.score == run[j].score)
      && (forall j :: 0 <= j < |run| ==> r.score <= run[j].score)
      && (r.classification == MostRelevant <==> exists j :: 0 <= j < |run| && run[j].score <= MostRelevantThreshold)
      && r.classification.Label() == (if r.score <= MostRelevantThreshold then "most relevant" else "maybe")
      && r.range == (if |run| == 1 then IntToString(run[0].page)
                     else IntToString(run[0].page) + "-" + IntToString(run[0].page + |run| - 1))
      && r.link == PageLink(pdf, run[0].page)
  {
    RunPageAt(run, |run| - 1);
    var r := Summarise(pdf, run);
    assert r.score == MinScore(run) && r.classification == Classify(r.score);
    assert r.range == RangeLabel(run[0].page, run[0].page + |run| - 1);
  }

  /** The loop that turns the runs of one document into its `clubbed` list. */
  method SummariseRuns(pdf: string, ranges: seq<seq<Hit>>) returns (clubbed: seq<RangeSummary>)
    requires forall i :: 0 <= i < |ranges| ==> ranges[i] != []
    ensures clubbed == Summaries(pdf, ranges)
  {
    clubbed := [];
    for i := 0 to |ranges|
      invariant |clubbed| == i
      invariant forall j :: 0 <= j < i ==> clubbed[j] == Summarise(pdf, ranges[j])
    {
      var group := ranges[i];
      var startPage := group[0].page;
      var endPage := group[|group| - 1].page;
      var minScore := MinScore(group);
      var classification := Classify(minScore);
      var link := PageLink(pdf, startPage);
      clubbed := clubbed + [RangeSummary(RangeLabel(startPage, endPage), minScore, classification, link)];
    }
  }

  /** The body of the per-document loop of group_results: sort the bucket, split it, summarise the runs. */
  method ClubPages(pdf: string, pages: seq<Hit>) returns (clubbed: seq<RangeSummary>)
    requires pages != []
    ensures clubbed == Clubbed(pdf, pages)
  {
    var sorted := SortByPage(pages);
    SortByPageSorted(pages);
    var ranges := SplitRuns(sorted);
    clubbed := SummariseRuns(pdf, ranges);
  }

  /** The second loop of group_results, over the buckets in key order. */
  method ClubAll(grouped: Dict<seq<Hit>>) returns (pdfGroups: Dict<seq<RangeSummary>>)
    requires WellFormed(grouped)
    requires forall p :: p in grouped.entries ==> grouped.entries[p] != []
    ensures pdfGroups == MapValues(grouped, Clubbed)
  {
    pdfGroups := Dict([], map[]);
    assert MapValues(Prefix(grouped, 0), Clubbed) == pdfGroups;
    for i := 0 to |grouped.order|
      invariant pdfGroups == MapValues(Prefix(grouped, i), Clubbed)
    {
      var pdf := grouped.order[i];
      MapValuesPrefixStep(grouped, Clubbed, i);
      var clubbed := ClubPages(pdf, grouped.entries[pdf]);
      pdfGroups := Put(pdfGroups, pdf, clubbed);
    }
    PrefixAll(grouped);
  }

  /** group_results: filter and bucket, then sort, split into runs and summarise, document by document. */
  method GroupResults(results: seq<Hit>) returns (pdfGroups: Dict<seq<RangeSummary>>)
    ensures pdfGroups == Consolidate(results)
  {
    var grouped := GroupByPdf(results);
    GroupWellFormed(results);
    pdfGroups := ClubAll(grouped);
  }

  /** Which documents appear: exactly those with a hit within the threshold, in order of first appearance,
      never with an empty list. An empty input therefore gives an empty result. */
  lemma ConsolidateKeys(hits: seq<Hit>)
    ensures var c := Consolidate(hits);
      && WellFormed(c)
      && c.order == FirstAppearance(SurvivingPdfs(hits))
      && (forall p :: p in c.entries <==> exists i :: 0 <= i < |hits| && Survives(hits[i]) && hits[i].pdf == p)
      && (forall p :: p in c.entries ==> c.entries[p] != [])
  {
    var g := Group(hits);
    GroupCharacterized(hits);
    forall p ensures p in g.entries <==> exists i :: 0 <= i < |hits| && Survives(hits[i]) && hits[i].pdf == p {
      BucketNonEmptyIff(hits, p);
    }
    forall p | p in g.entries ensures Clubbed(p, g.entries[p]) != [] {
      ClubbedNonEmpty(p, g.entries[p]);
    }
  }

  /** A document's list summarises, one for one and in order, the maximal runs of its surviving hits sorted
      by page; every surviving hit is in exactly one run. */
  lemma ConsolidateRuns(hits: seq<Hit>, pdf: string)
    requires pdf in Consolidate(hits).entries
    ensures var runs := PdfRuns(hits, pdf);
      var ranges := Consolidate(hits).entries[pdf];
      && IsRunSplit(SortByPage(Bucket(hits, pdf)), runs)
      && multiset(Flatten(runs)) == multiset(Bucket(hits, pdf))
      && |ranges| == |runs|
      && (forall j :: 0 <= j < |runs| ==> ranges[j] == Summarise(pdf, runs[j]))
  {
    ConsolidateEntry(hits, pdf);
    SortByPageSorted(Bucket(hits, pdf));
    RunsSplit(SortByPage(Bucket(hits, pdf)));
  }

  lemma ConsolidateEntry(hits: seq<Hit>, pdf: string)
    requires pdf in Consolidate(hits).entries
    ensures Consolidate(hits).entries[pdf] == Summaries(pdf, PdfRuns(hits, pdf))
  {
    GroupCharacterized(hits);
  }

  /** Every range in the result has a distance within the threshold, and is "most relevant" exactly when
      that distance is within the tighter one. */
  lemma ConsolidateScores(hits: seq<Hit>)
    ensures var c := Consolidate(hits);
      forall p, j :: p in c.entries && 0 <= j < |c.entries[p]| ==>
        && c.entries[p][j].score <= MinThreshold
        && (c.entries[p][j].classification == MostRelevant <==> c.entries[p][j].score <= MostRelevantThreshold)
  {
    var c := Consolidate(hits);
    forall p, j | p in c.entries && 0 <= j < |c.entries[p]| ensures c.entries[p][j].score <= MinThreshold {
      RangeScoreBound(hits, p, j);
    }
  }

  lemma RangeScoreBound(hits: seq<Hit>, pdf: string, j: nat)
    requires pdf in Consolidate(hits).entries && j < |Consolidate(hits).entries[pdf]|
    ensures Consolidate(hits).entries[pdf][j].score <= MinThreshold
  {
    ConsolidateEntry(hits, pdf);
    var run := PdfRuns(hits, pdf)[j];
    var k :| 0 <= k < |run| && run[k].score == MinScore(run);
    RunHitSurvives(hits, pdf, j, run[k]);
  }

  /** Every hit in a run of a document is one of that document's surviving hits. */
  lemma RunHitSurvives(hits: seq<Hit>, pdf: string, j: nat, h: Hit)
    requires j < |PdfRuns(hits, pdf)| && h in PdfRuns(hits, pdf)[j]
    ensures h in hits && Survives(h) && h.pdf == pdf
  {
    var sorted := SortByPage(Bucket(hits, pdf));
    SortByPageSorted(Bucket(hits, pdf));
    RunsFlatten(sorted);
    FlattenContains(PdfRuns(hits, pdf), j, h);
    assert h in multiset(sorted);
  }

  /** No run of any document holds two hits on the same page. */
  lemma SamePageNeverMerged(hits: seq<Hit>, pdf: string)
    ensures forall i, j, k :: 0 <= i < |PdfRuns(hits, pdf)| && 0 <= j < k < |PdfRuns(hits, pdf)[i]| ==>
      PdfRuns(hits, pdf)[i][j].page != PdfRuns(hits, pdf)[i][k].page
  {
    RunsSplit(SortByPage(Bucket(hits, pdf)));
    forall i | 0 <= i < |PdfRuns(hits, pdf)| {
      RunPages(PdfRuns(hits, pdf)[i]);
    }
  }

  /** Two hits on the same page, and nothing else, give two runs of one hit each. */
  lemma DuplicatePageSplits(a: Hit, b: Hit)
    requires a.page == b.page
    ensures Runs([a, b]) == [[a], [b]]
  {
    assert [a, b][..1] == [a];
  }
}
