/** Turning the nearest neighbours of a query into hits, and the per-document overall score (app.py, search). */
module Query {
  import opened Records
  import opened Text
  import opened Dicts
  import Consolidation

  /** One row of the nearest-neighbour answer: a position in the index (faiss pads with -1) and its distance. */
  type Neighbour = (int, real)

  function Min(a: int, b: int): int {
    if a <= b then a else b
  }

  /** `min(10, index.ntotal)`: how many neighbours a query asks for. */
  function TopK(ntotal: nat): (k: nat)
    ensures k <= DefaultK && k <= ntotal
    ensures k == DefaultK || k == ntotal
  {
    Min(DefaultK, ntotal)
  }

  /** `text[:200] + '...'`. */
  function Preview(text: string): (p: string)
    ensures |p| == Min(|text|, PreviewLength) + 3
    ensures p[..|p| - 3] <= text
    ensures p[|p| - 3..] == "..."
  {
    text[..Min(|text|, PreviewLength)] + "..."
  }

  /** The hit record built from an indexed page and its distance to the query. */
  function MakeHit(e: Entry, score: real): Hit {
    Hit(e.pdf, e.page, score, Preview(e.text), PageLink(e.pdf, e.page))
  }

  /** Whether a neighbour's position names an entry of `documents`. */
  predicate Resolves(documents: seq<Entry>, n: Neighbour) {
    0 <= n.0 < |documents|
  }

  /** `raw_results`: one hit per neighbour that resolves, in neighbour order. */
  function Hits(documents: seq<Entry>, ns: seq<Neighbour>): seq<Hit> {
    if ns == [] then []
    else
      var n := ns[|ns| - 1];
      Hits(documents, ns[..|ns| - 1]) + (if Resolves(documents, n) then [MakeHit(documents[n.0], n.1)] else [])
  }

  /** The loop of search that builds `raw_results`. */
  method CollectHits(documents: seq<Entry>, ns: seq<Neighbour>) returns (rawResults: seq<Hit>)
    ensures rawResults == Hits(documents, ns)
  {
    rawResults := [];
    for i := 0 to |ns|
      invariant rawResults == Hits(documents, ns[..i])
    {
      assert ns[..i + 1][..i] == ns[..i];
      var (idx, distance) := ns[i];
      if 0 <= idx < |documents| {
        var e := documents[idx];
        rawResults := rawResults + [Hit(e.pdf, e.page, distance, e.text[..Min(|e.text|, PreviewLength)] + "...", PageLink(e.pdf, e.page))];
      }
    }
    assert ns[..|ns|] == ns;
  }

  /** No more hits than neighbours, and every hit is built from a neighbour that resolves. */
  lemma {:induction false} HitsFromNeighbours(documents: seq<Entry>, ns: seq<Neighbour>)
    ensures |Hits(documents, ns)| <= |ns|
    ensures forall h | h in Hits(documents, ns) ::
      exists i :: 0 <= i < |ns| && Resolves(documents, ns[i]) && h == MakeHit(documents[ns[i].0], ns[i].1)
  {
    if ns != [] {
      var front := ns[..|ns| - 1];
      HitsFromNeighbours(documents, front);
      forall h | h in Hits(documents, ns)
        ensures exists i :: 0 <= i < |ns| && Resolves(documents, ns[i]) && h == MakeHit(documents[ns[i].0], ns[i].1)
      {
        if h in Hits(documents, front) {
          var i :| 0 <= i < |front| && Resolves(documents, front[i]) && h == MakeHit(documents[front[i].0], front[i].1);
          assert ns[i] == front[i];
        } else {
          assert ns[|ns| - 1] == ns[|ns| - 1];
        }
      }
    }
  }

  /** When every neighbour resolves, there is exactly one hit per neighbour, in the same order. */
  lemma {:induction false} HitsAllResolve(documents: seq<Entry>, ns: seq<Neighbour>)
    requires forall i :: 0 <= i < |ns| ==> 0 <= ns[i].0 < |documents|
    ensures |Hits(documents, ns)| == |ns|
    ensures forall i :: 0 <= i < |ns| ==> Hits(documents, ns)[i] == MakeHit(documents[ns[i].0], ns[i].1)
  {
    if ns != [] {
      var front := ns[..|ns| - 1];
      var n := ns[|ns| - 1];
      assert forall i :: 0 <= i < |front| ==> front[i] == ns[i];
      HitsAllResolve(documents, front);
      assert Hits(documents, ns) == Hits(documents, front) + [MakeHit(documents[n.0], n.1)];
    }
  }

  /** Every neighbour that resolves yields its hit. */
  lemma {:induction false} HitsComplete(documents: seq<Entry>, ns: seq<Neighbour>, i: nat)
    requires i < |ns| && Resolves(documents, ns[i])
    ensures MakeHit(documents[ns[i].0], ns[i].1) in Hits(documents, ns)
  {
    if i < |ns| - 1 {
      var front := ns[..|ns| - 1];
      assert front[i] == ns[i];
      HitsComplete(documents, front, i);
    }
  }

  /** The positions of `ns` that resolve, in increasing order. */
  function ResolvingPositions(documents: seq<Entry>, ns: seq<Neighbour>): (ps: seq<nat>)
    ensures forall j :: 0 <= j < |ps| ==> ps[j] < |ns| && Resolves(documents, ns[ps[j]])
    ensures forall j, k :: 0 <= j < k < |ps| ==> ps[j] < ps[k]
    ensures forall i :: 0 <= i < |ns| && Resolves(documents, ns[i]) ==> i in ps
  {
    if ns == [] then []
    else
      var front := ns[..|ns| - 1];
      var ps' := ResolvingPositions(documents, front);
      assert forall i :: 0 <= i < |front| ==> front[i] == ns[i];
      ps' + (if Resolves(documents, ns[|ns| - 1]) then [|ns| - 1] else [])
  }

  /** `raw_results` is the in-order filter of the neighbours that resolve: one hit for each resolving
      position, in increasing position order, and nothing else. */
  lemma {:induction false} HitsInOrder(documents: seq<Entry>, ns: seq<Neighbour>)
    ensures |Hits(documents, ns)| == |ResolvingPositions(documents, ns)|
    ensures forall j :: 0 <= j < |Hits(documents, ns)| ==>
      Hits(documents, ns)[j] == MakeHit(documents[ns[ResolvingPositions(documents, ns)[j]].0], ns[ResolvingPositions(documents, ns)[j]].1)
  {
    if ns != [] {
      var front := ns[..|ns| - 1];
      HitsInOrder(documents, front);
      var n := ns[|ns| - 1];
      var hs := Hits(documents, ns);
      var hs' := Hits(documents, front);
      var ps := ResolvingPositions(documents, ns);
      var ps' := ResolvingPositions(documents, front);
      assert hs == hs' + (if Resolves(documents, n) then [MakeHit(documents[n.0], n.1)] else []);
      assert ps == ps' + (if Resolves(documents, n) then [|ns| - 1] else []);
      forall j | 0 <= j < |hs| ensures hs[j] == MakeHit(documents[ns[ps[j]].0], ns[ps[j]].1) {
        if j < |hs'| {
          assert hs[j] == hs'[j] && ps[j] == ps'[j] && ns[ps[j]] == front[ps'[j]];
        }
      }
    }
  }

  /** `max(g['score'] for g in groups)`. */
  function MaxScore(groups: seq<Consolidation.RangeSummary>): (m: real)
    requires groups != []
    ensures exists j :: 0 <= j < |groups| && groups[j].score == m
    ensures forall j :: 0 <= j < |groups| ==> groups[j].score <= m
  {
    if |groups| == 1 then groups[0].score
    else
      var rest := MaxScore(groups[..|groups| - 1]);
      if groups[|groups| - 1].score > rest then groups[|groups| - 1].score else rest
  }

  /** `pdf_overall`: for each document, the largest of its ranges' scores, keys in the same order. */
  function PdfOverall(grouped: Dict<seq<Consolidation.RangeSummary>>): (overall: Dict<real>)
    requires WellFormed(grouped)
    requires forall p :: p in grouped.entries ==> grouped.entries[p] != []
    ensures WellFormed(overall) && overall.order == grouped.order
    ensures forall p :: p in overall.entries <==> p in grouped.entries
    ensures forall p :: p in overall.entries ==>
      && (exists j :: 0 <= j < |grouped.entries[p]| && grouped.entries[p][j].score == overall.entries[p])
      && (forall j :: 0 <= j < |grouped.entries[p]| ==> grouped.entries[p][j].score <= overall.entries[p])
  {
    if grouped.order == [] then Dict([], map[])
    else Dict(grouped.order, map p | p in grouped.entries :: MaxScore(grouped.entries[p]))
  }

  /** Every document's overall score is within the threshold that let its hits through. */
  lemma OverallWithinThreshold(hits: seq<Hit>)
    ensures WellFormed(Consolidation.Consolidate(hits))
    ensures forall p :: p in Consolidation.Consolidate(hits).entries ==> Consolidation.Consolidate(hits).entries[p] != []
    ensures forall p :: p in PdfOverall(Consolidation.Consolidate(hits)).entries ==>
      PdfOverall(Consolidation.Consolidate(hits)).entries[p] <= MinThreshold
  {
    Consolidation.ConsolidateKeys(hits);
    Consolidation.ConsolidateScores(hits);
  }
}
