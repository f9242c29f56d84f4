/** Which pages of a document are indexed (app.py, process_pdf). */
module Ingestion {
  import opened Records
  import opened Text

  /** `text and text.strip()`: the extractor produced text with a character that is not whitespace.
      `None` stands for a page from which no text could be extracted. */
  predicate HasText(text: Option<string>) {
    text.Some? && |Strip(text.value)| > 0
  }

  /** The `new_entries` of a document whose pages yield `pages`, page numbers counted from 1. */
  function KeptPages(name: string, pages: seq<Option<string>>): seq<Entry> {
    if pages == [] then []
    else
      var text := pages[|pages| - 1];
      KeptPages(name, pages[..|pages| - 1]) + (if HasText(text) then [Entry(name, |pages|, text.value)] else [])
  }

  /** The loop of process_pdf over `enumerate(reader.pages, start=1)`. */
  method CollectEntries(name: string, pages: seq<Option<string>>) returns (newEntries: seq<Entry>)
    ensures newEntries == KeptPages(name, pages)
  {
    newEntries := [];
    for i := 0 to |pages|
      invariant newEntries == KeptPages(name, pages[..i])
    {
      assert pages[..i + 1][..i] == pages[..i];
      var pageNum := i + 1;
      var text := pages[i];
      if text.Some? && |Strip(text.value)| > 0 {
        newEntries := newEntries + [Entry(name, pageNum, text.value)];
      }
    }
    assert pages[..|pages|] == pages;
  }

  /** Every kept entry is a page of this document, numbered from 1, that has text, and carries that text. */
  lemma {:induction false} KeptPagesSound(name: string, pages: seq<Option<string>>)
    ensures forall e | e in KeptPages(name, pages) ::
      && e.pdf == name
      && 1 <= e.page <= |pages|
      && HasText(pages[e.page - 1])
      && e.text == pages[e.page - 1].value
  {
    if pages != [] {
      var front := pages[..|pages| - 1];
      KeptPagesSound(name, front);
      var kept' := KeptPages(name, front);
      var text := pages[|pages| - 1];
      assert KeptPages(name, pages) == kept' + (if HasText(text) then [Entry(name, |pages|, text.value)] else []);
      forall e | e in KeptPages(name, pages)
        ensures && e.pdf == name
                && 1 <= e.page <= |pages|
                && HasText(pages[e.page - 1])
                && e.text == pages[e.page - 1].value
      {
        if e in kept' {
          assert pages[e.page - 1] == front[e.page - 1];
        }
      }
    }
  }

  /** The kept entries are in strictly increasing page order. */
  lemma {:induction false} KeptPagesIncreasing(name: string, pages: seq<Option<string>>)
    ensures forall i, j :: 0 <= i < j < |KeptPages(name, pages)| ==> KeptPages(name, pages)[i].page < KeptPages(name, pages)[j].page
  {
    if pages != [] {
      var front := pages[..|pages| - 1];
      KeptPagesIncreasing(name, front);
      KeptPagesSound(name, front);
      var kept := KeptPages(name, pages);
      var kept' := KeptPages(name, front);
      var text := pages[|pages| - 1];
      assert kept == kept' + (if HasText(text) then [Entry(name, |pages|, text.value)] else []);
      forall i, j | 0 <= i < j < |kept| ensures kept[i].page < kept[j].page {
        assert kept[i] == kept'[i] && kept[i] in kept';
        if j < |kept'| {
          assert kept[j] == kept'[j];
        }
      }
    }
  }

  /** No page with text is skipped. */
  lemma {:induction false} KeptPagesComplete(name: string, pages: seq<Option<string>>, n: nat)
    requires 1 <= n <= |pages| && HasText(pages[n - 1])
    ensures Entry(name, n, pages[n - 1].value) in KeptPages(name, pages)
  {
    if n < |pages| {
      var front := pages[..|pages| - 1];
      assert front[n - 1] == pages[n - 1];
      KeptPagesComplete(name, front, n);
    }
  }

  /** process_pdf keeps exactly the pages with text, in page order, each with its 1-based number and its text. */
  lemma KeptPagesCharacterized(name: string, pages: seq<Option<string>>)
    ensures var kept := KeptPages(name, pages);
      && (forall e | e in kept ::
            && e.pdf == name
            && 1 <= e.page <= |pages|
            && HasText(pages[e.page - 1])
            && e.text == pages[e.page - 1].value)
      && (forall i, j :: 0 <= i < j < |kept| ==> kept[i].page < kept[j].page)
      && (forall k :: 0 <= k < |pages| && HasText(pages[k]) ==> Entry(name, k + 1, pages[k].value) in kept)
  {
    KeptPagesSound(name, pages);
    KeptPagesIncreasing(name, pages);
    forall k | 0 <= k < |pages| && HasText(pages[k]) ensures Entry(name, k + 1, pages[k].value) in KeptPages(name, pages) {
      KeptPagesComplete(name, pages, k + 1);
    }
  }
}
