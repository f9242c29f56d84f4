/** First phase of consolidation: drop poor hits and bucket the rest by document (app.py, group_results). */
module Grouping {
  import opened Records
  import opened Dicts

  /** A hit is kept unless its distance is above the minimum threshold. */
  predicate Survives(h: Hit) {
    h.score <= MinThreshold
  }

  /** The surviving hits of document `pdf`, in input order. */
  function Bucket(hits: seq<Hit>, pdf: string): (b: seq<Hit>)
    ensures forall h :: h in b <==> h in hits && Survives(h) && h.pdf == pdf
  {
    if hits == [] then []
    else
      var h := hits[|hits| - 1];
      assert hits == hits[..|hits| - 1] + [h];
      Bucket(hits[..|hits| - 1], pdf) + (if Survives(h) && h.pdf == pdf then [h] else [])
  }

  /** The document names of the surviving hits, in input order, repeats included. */
  function SurvivingPdfs(hits: seq<Hit>): seq<string> {
    if hits == [] then []
    else
      var h := hits[|hits| - 1];
      SurvivingPdfs(hits[..|hits| - 1]) + (if Survives(h) then [h.pdf] else [])
  }

  /** The distinct names of `names`, in order of first appearance. */
  function FirstAppearance(names: seq<string>): seq<string> {
    if names == [] then []
    else
      var earlier := FirstAppearance(names[..|names| - 1]);
      var n := names[|names| - 1];
      if n in earlier then earlier else earlier + [n]
  }

  /** The `grouped` dict that the first loop of group_results builds. */
  function Group(hits: seq<Hit>): Dict<seq<Hit>> {
    if hits == [] then Dict([], map[])
    else
      var h := hits[|hits| - 1];
      var g := Group(hits[..|hits| - 1]);
      if !Survives(h) then g else AppendTo(g, h.pdf, h)
  }

  /** The first loop of group_results. */
  method GroupByPdf(results: seq<Hit>) returns (grouped: Dict<seq<Hit>>)
    ensures grouped == Group(results)
  {
    var order: seq<string> := [];
    var entries: map<string, seq<Hit>> := map[];
    for i := 0 to |results|
      invariant Dict(order, entries) == Group(results[..i])
    {
      assert results[..i + 1][..i] == results[..i];
      var res := results[i];
      if res.score > MinThreshold {
        continue;
      }
      var pdf := res.pdf;
      // grouped.setdefault(pdf, []).append(res)
      ghost var before := Dict(order, entries);
      var bucket := if pdf in entries then entries[pdf] else [];
      if pdf !in entries {
        order := order + [pdf];
      }
      entries := entries[pdf := bucket + [res]];
      assert pdf !in before.entries ==> bucket + [res] == [res];
      assert Dict(order, entries) == AppendTo(before, pdf, res);
    }
    assert results[..|results|] == results;
    grouped := Dict(order, entries);
  }

  /** What the grouping means: one key per document with a surviving hit, in order of first appearance,
      each mapped to exactly that document's surviving hits in input order. */
  lemma GroupCharacterized(hits: seq<Hit>)
    ensures WellFormed(Group(hits))
    ensures Group(hits).order == FirstAppearance(SurvivingPdfs(hits))
    ensures forall p :: p in Group(hits).entries <==> Bucket(hits, p) != []
    ensures forall p :: p in Group(hits).entries ==> Group(hits).entries[p] == Bucket(hits, p)
  {
    GroupEntries(hits);
    GroupOrder(hits);
    FirstAppearanceDistinct(SurvivingPdfs(hits));
  }

  lemma {:induction false} GroupEntries(hits: seq<Hit>)
    ensures forall p :: p in Group(hits).entries <==> Bucket(hits, p) != []
    ensures forall p :: p in Group(hits).entries ==> Group(hits).entries[p] == Bucket(hits, p)
  {
    if hits != [] {
      var s := hits[..|hits| - 1];
      GroupEntries(s);
      if Survives(hits[|hits| - 1]) && hits[|hits| - 1].pdf !in Group(s).entries {
        assert Bucket(s, hits[|hits| - 1].pdf) == [];
      }
    }
  }

  lemma {:induction false} GroupOrder(hits: seq<Hit>)
    ensures Group(hits).order == FirstAppearance(SurvivingPdfs(hits))
    ensures forall p :: p in Group(hits).entries <==> p in Group(hits).order
  {
    if hits != [] {
      var s := hits[..|hits| - 1];
      var h := hits[|hits| - 1];
      GroupOrder(s);
      var g := Group(s);
      if Survives(h) {
        var names := SurvivingPdfs(hits);
        assert names == SurvivingPdfs(s) + [h.pdf];
        assert names[..|names| - 1] == SurvivingPdfs(s);
        assert h.pdf in g.order <==> h.pdf in g.entries;
      } else {
        assert SurvivingPdfs(hits) == SurvivingPdfs(s);
      }
    }
  }

  /** FirstAppearance keeps every name once. */
  lemma {:induction false} FirstAppearanceDistinct(names: seq<string>)
    ensures forall i, j :: 0 <= i < j < |FirstAppearance(names)| ==> FirstAppearance(names)[i] != FirstAppearance(names)[j]
    ensures forall n :: n in FirstAppearance(names) <==> n in names
  {
    if names != [] {
      var rest := names[..|names| - 1];
      FirstAppearanceDistinct(rest);
      assert names == rest + [names[|names| - 1]];
    }
  }

  lemma GroupWellFormed(hits: seq<Hit>)
    ensures WellFormed(Group(hits))
    ensures forall p :: p in Group(hits).entries ==> Group(hits).entries[p] != []
  {
    GroupCharacterized(hits);
  }

  /** A document has a non-empty bucket exactly when one of its hits survives the threshold. */
  lemma BucketNonEmptyIff(hits: seq<Hit>, pdf: string)
    ensures Bucket(hits, pdf) != [] <==> exists i :: 0 <= i < |hits| && Survives(hits[i]) && hits[i].pdf == pdf
  {
    if Bucket(hits, pdf) != [] {
      var h := Bucket(hits, pdf)[0];
      assert h in Bucket(hits, pdf);
    }
  }
}
