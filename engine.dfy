/** The search engine's state: the vector index and the page metadata aligned with it (app.py). */
module Engine {
  import opened Records
  import opened Dicts
  import opened Ingestion
  import opened Query
  import opened Consolidation

  /** What the search page is rendered with. */
  datatype SearchOutcome =
    | Redirect
    | NoIndex
    | Found(hits: seq<Hit>, grouped: Dict<seq<RangeSummary>>, overall: Dict<real>)

  /** Position `i` of `index` holds the embedding of the text of `documents[i]`. */
  ghost predicate Aligned(encode: string -> Vector, index: seq<Vector>, documents: seq<Entry>) {
    && |index| == |documents|
    && (forall i :: 0 <= i < |index| ==> index[i] == encode(documents[i].text))
  }

  /** Appending aligned batches to aligned lists keeps them aligned. */
  lemma AlignedAppend(encode: string -> Vector, index: seq<Vector>, documents: seq<Entry>,
                      vectors: seq<Vector>, entries: seq<Entry>)
    requires Aligned(encode, index, documents)
    requires |vectors| == |entries| && forall j :: 0 <= j < |vectors| ==> vectors[j] == encode(entries[j].text)
    ensures Aligned(encode, index + vectors, documents + entries)
  {
    var n := |index|;
    forall i | 0 <= i < |index + vectors| ensures (index + vectors)[i] == encode((documents + entries)[i].text) {
      if i >= n {
        assert (index + vectors)[i] == vectors[i - n] && (documents + entries)[i] == entries[i - n];
      }
    }
  }

  class Corpus {
    /** The sentence embedding model. */
    const encode: string -> Vector
    /** The flat L2 index: one vector per indexed page, in insertion order. */
    var index: seq<Vector>
    /** `documents`: the (pdf, page, text) record of each indexed page. */
    var documents: seq<Entry>

    /** Position `i` of the index holds the embedding of the text of `documents[i]`. */
    ghost predicate Valid()
      reads this
    {
      && (forall t :: |encode(t)| == ModelDimensions)
      && Aligned(encode, index, documents)
    }

    /** A fresh `IndexFlatL2(MODEL_DIMENSIONS)` with an empty metadata list. */
    constructor (encode: string -> Vector)
      requires forall t :: |encode(t)| == ModelDimensions
      ensures Valid()
      ensures this.encode == encode && index == [] && documents == []
    {
      this.encode := encode;
      index := [];
      documents := [];
    }

    /** `model.encode([entry[2] for entry in entries])`. */
    function Embeddings(entries: seq<Entry>): seq<Vector> {
      seq(|entries|, i requires 0 <= i < |entries| => encode(entries[i].text))
    }

    /** process_pdf. `reader` is the text extracted from each page, or None when the PDF could not be
        opened; a page whose extraction gives no text is None. */
    method ProcessPdf(pdfName: string, reader: Option<seq<Option<string>>>) returns (count: nat)
      requires Valid()
      modifies this
      ensures Valid()
      ensures reader.None? ==> count == 0 && index == old(index) && documents == old(documents)
      ensures reader.Some? ==>
        && documents == old(documents) + KeptPages(pdfName, reader.value)
        && index == old(index) + Embeddings(KeptPages(pdfName, reader.value))
        && count == |KeptPages(pdfName, reader.value)|
      ensures |index| == |old(index)| + count && |documents| == |old(documents)| + count
    {
      if reader.None? {
        return 0;
      }
      var newEntries := CollectEntries(pdfName, reader.value);
      if |newEntries| > 0 {
        var embeddings := Embeddings(newEntries);
        AlignedAppend(encode, index, documents, embeddings, newEntries);
        index := index + embeddings;
        documents := documents + newEntries;
      }
      count := |newEntries|;
    }

    /** search, from the query string to the data the results page is rendered with. `knn` is the
        index's k-nearest-neighbour search: for a query vector it answers rows of (position, distance). */
    method Search(query: Option<string>, knn: (seq<Vector>, Vector, nat) -> seq<Neighbour>) returns (outcome: SearchOutcome)
      requires Valid()
      ensures outcome.Redirect? <==> query.None? || query.value == ""
      ensures outcome.NoIndex? <==> !outcome.Redirect? && index == []
      ensures outcome.Found? ==>
        var ns := knn(index, encode(query.value), TopK(|index|));
        && outcome.hits == Hits(documents, ns)
        && |outcome.hits| <= |ns|
        && (|ns| <= TopK(|index|) ==> |outcome.hits| <= TopK(|index|))
        && outcome.grouped == Consolidate(outcome.hits)
        && WellFormed(outcome.grouped)
        && (forall p :: p in outcome.grouped.entries ==> outcome.grouped.entries[p] != [])
        && outcome.overall == PdfOverall(outcome.grouped)
    {
      if query.None? || query.value == "" {
        return Redirect;
      }
      if |index| == 0 {
        return NoIndex;
      }
      var k := Min(DefaultK, |index|);
      var ns := knn(index, encode(query.value), k);
      var rawResults := CollectHits(documents, ns);
      HitsFromNeighbours(documents, ns);
      var grouped := GroupResults(rawResults);
      ConsolidateKeys(rawResults);
      outcome := Found(rawResults, grouped, PdfOverall(grouped));
    }
  }
}
