# semantic-search: a Dafny model of indexing and result consolidation

The application indexes PDF documents page by page for semantic search:

- every page with text becomes one vector in a flat L2 index;
- a metadata record `(pdf, page, text)` is kept at the same position;
- a query is answered with its nearest pages, grouped per document into ranges of consecutive pages.

This project models the three pieces of `app.py` that carry that logic and proves what they promise.

- **Ingestion** (`process_pdf`), in `ingestion.dfy` and `engine.dfy`.
  - A page is kept exactly when its extracted text is non-empty after `strip()`. Pages are numbered from 1.
  - The index and the metadata list grow together. `Engine.Corpus` is a class whose fields are the index and `documents`. Its invariant `Valid` says that position `i` of the index holds the embedding of `documents[i]`.
- **Hit construction** (`search`), in `query.dfy` and `engine.dfy`.
  - `k = min(10, ntotal)`. An empty index gives no results, and an absent or empty query redirects.
  - Neighbour positions outside `documents` are skipped.
  - A hit carries a 200-character preview followed by `...`, and a link to its page.
  - `pdf_overall` is the largest range score of each document.
- **Consolidation** (`group_results`), in `grouping.dfy`, `sorting.dfy`, `runs.dfy` and `consolidation.dfy`.
  - Hits with a distance above 1.75 are dropped.
  - The rest are bucketed per document, in order of first appearance.
  - Each bucket is stable-sorted by page and cut into maximal runs of consecutive pages.
  - Each run is summarised by its range label, its smallest distance, its class ("most relevant" when that distance is at most 1.25) and a link to its first page.

Python dicts keep insertion order, so a dict is modelled as `Dicts.Dict`, which holds the key order and the map. Python's `sorted` is modelled as a stable insertion sort (`Sorting.SortByPage`). Every loop of the source is a method with loop invariants. Each method is proved equal to a specification function, and the properties are proved about those functions. Most specification functions are recursive. `Consolidation.Summaries` is a sequence comprehension and `Dicts.MapValues` a map comprehension, as the source's loops over `ranges` and `grouped.items()` build one entry per element.

## Model

| member | source | states |
|---|---|---|
| Text.Strip | app.py:55 | the stripped text neither starts nor ends with whitespace |
| Text.StripIsTrimmedSlice | app.py:55 | strip() keeps the slice between the leading and the trailing whitespace, and removes only whitespace |
| Text.StripNonEmptyIff | app.py:55 | `text.strip()` is truthy exactly when the text has a non-whitespace character |
| Text.NatToString | app.py:164-166 | the decimal rendering of a page number is non-empty, made of digits, and has no leading zero |
| Text.ParseNatToString | app.py:166 | reading a rendered page number back gives the number |
| Grouping.Bucket | app.py:133-138 | a document's bucket holds exactly its hits whose distance is at most 1.75 |
| Grouping.GroupByPdf | app.py:133-138 | the filtering `setdefault(...).append` loop builds `Group(results)` |
| Grouping.GroupCharacterized | app.py:133-138 | `grouped` has one key per document with a surviving hit, in order of first appearance, each mapped to exactly that document's surviving hits in input order |
| Grouping.GroupEntries | app.py:133-138 | a key is present exactly when its bucket is non-empty, and it maps to that bucket |
| Grouping.GroupOrder | app.py:133-138 | the key order is the first-appearance order of the surviving documents |
| Grouping.FirstAppearanceDistinct | app.py:138 | keys are never repeated, and every surviving document is a key |
| Grouping.GroupWellFormed | app.py:137-144 | every bucket is non-empty, so the `if not pages` guard never fires |
| Grouping.BucketNonEmptyIff | app.py:134-138 | a bucket is non-empty exactly when some hit of that document survives the threshold |
| Sorting.InsertByPageMultiset | app.py:145 | one insertion step adds exactly the inserted hit |
| Sorting.InsertByPageSorted | app.py:145 | one insertion step keeps the sequence sorted by page |
| Sorting.SortByPageSorted | app.py:145 | the sort is ordered by page and is a permutation of the bucket |
| Sorting.SortStable | app.py:145 | the sort is stable: the hits on any one page keep their input order |
| PageRuns.Runs | app.py:146-154 | runs are non-empty, none exist only for an empty input, and the last run ends with the last page |
| PageRuns.SplitRuns | app.py:146-154 | the `current_range`/`ranges` scan produces `Runs(pages)` |
| PageRuns.RunsSplit | app.py:146-154 | the runs concatenate back to the sorted pages; each run is consecutive; no run could be joined to the one before it |
| PageRuns.RunsFlatten | app.py:146-154 | every hit lands in exactly one place in the runs, none lost and none duplicated |
| PageRuns.RunsUnique | app.py:146-154 | any cut into maximal consecutive runs is the scan's, so the runs are uniquely determined |
| PageRuns.FlattenContains | app.py:146-154 | every hit of every run is among the split pages |
| PageRuns.RunPages | app.py:148-150 | inside a run the pages count up by one from the first, so a run never holds the same page twice |
| Consolidation.MinScore | app.py:160 | the range score is attained by a hit of the run and is at most every hit's score |
| Consolidation.RangeLabelRoundTrip | app.py:166 | the label `"s"` or `"s-e"` determines the start and end pages |
| Consolidation.SummaryMeaning | app.py:157-170 | a summary gives the run's minimum distance; it is "most relevant" exactly when some hit is within 1.25, and its class text is "most relevant" or "maybe" accordingly; its label is `"s"` for one page and `"s-e"` otherwise; its link names the first page |
| Consolidation.SummariseRuns | app.py:156-170 | the `clubbed` loop builds one summary per run, in run order |
| Consolidation.ClubbedNonEmpty | app.py:145-171 | a non-empty bucket yields a non-empty `clubbed` list |
| Consolidation.ClubPages | app.py:145-170 | sort, split and summarise yield `Clubbed(pdf, pages)` |
| Consolidation.ClubAll | app.py:141-171 | the per-document loop maps every bucket to its `clubbed` list, keeping the key order |
| Consolidation.GroupResults | app.py:131-172 | group_results returns `Consolidate(results)` |
| Consolidation.ConsolidateKeys | app.py:133-144 | a document is a key exactly when one of its hits survives; keys follow first appearance and are never mapped to an empty list; an empty input gives an empty mapping |
| Consolidation.ConsolidateRuns | app.py:145-154 | a document's ranges correspond one for one, in order, to the maximal runs of its surviving hits sorted by page; together the runs hold exactly those hits |
| Consolidation.ConsolidateEntry | app.py:141-171 | a document's list is the summaries of its page runs |
| Consolidation.ConsolidateScores | app.py:135-163 | every range score is at most 1.75, and a range is "most relevant" exactly when its score is at most 1.25 |
| Consolidation.RangeScoreBound | app.py:135-160 | one range's score is at most 1.75 |
| Consolidation.RunHitSurvives | app.py:133-154 | every hit inside a run is a surviving hit of that document |
| Consolidation.SamePageNeverMerged | app.py:145-154 | no run of any document holds two hits on the same page |
| Consolidation.DuplicatePageSplits | app.py:148-153 | for two hits on the same page, the scan gives two runs of one hit each |
| Ingestion.CollectEntries | app.py:52-56 | the page loop builds `KeptPages(name, pages)` |
| Ingestion.KeptPagesSound | app.py:53-56 | every kept entry is a page of the document with text, numbered from 1, and carries that page's text |
| Ingestion.KeptPagesIncreasing | app.py:53-56 | kept entries are in strictly increasing page order |
| Ingestion.KeptPagesComplete | app.py:53-56 | no page with text is skipped |
| Ingestion.KeptPagesCharacterized | app.py:52-56 | `new_entries` is exactly the pages with text, in page order, with 1-based numbers and their text |
| Query.TopK | app.py:192 | `k` is at most 10 and at most the index size, and equals one of them |
| Query.Preview | app.py:203 | the preview is the first `min(len, 200)` characters of the text followed by `...` |
| Query.CollectHits | app.py:195-205 | the `raw_results` loop builds `Hits(documents, neighbours)` |
| Query.HitsFromNeighbours | app.py:196-205 | there are no more hits than neighbours, and every hit is built from a neighbour whose position is inside `documents` |
| Query.HitsAllResolve | app.py:196-205 | when every position resolves, there is one hit per neighbour, in neighbour order |
| Query.HitsComplete | app.py:196-205 | every neighbour whose position is inside `documents` yields its hit |
| Query.ResolvingPositions | app.py:197 | the positions whose index is inside `documents` are listed exactly once each, in increasing order |
| Query.HitsInOrder | app.py:195-205 | `raw_results` holds one hit per resolving position, in position order, and nothing else |
| Query.MaxScore | app.py:210 | the overall score is one of the range scores and at least all of them |
| Query.PdfOverall | app.py:209-212 | `pdf_overall` has the same keys in the same order as the grouped results, each mapped to the largest of its range scores |
| Query.OverallWithinThreshold | app.py:208-212 | every document's overall score is at most 1.75 |
| Engine.Corpus.constructor | app.py:27-38 | a fresh index and metadata list are empty and aligned |
| Engine.Corpus.ProcessPdf | app.py:45-67 | a reader failure returns 0 and changes nothing; otherwise the kept pages are appended to `documents` and their embeddings to the index, and the count is returned; both grow by that count and stay aligned |
| Engine.Corpus.Search | app.py:185-212 | an absent or empty query redirects; an empty index gives no results; otherwise the hits, the grouped results and `pdf_overall` are those of the k-nearest neighbours with `k = min(10, ntotal)`; when the neighbour answer has at most `k` rows there are at most `k` hits |

## Left out

- The Flask routes, uploads, template rendering, file serving and the counting of PDFs in the directory (app.py:70-128, 175-184, 214-225) are HTTP and file-system plumbing.
- `process_all` and the startup block (app.py:93-106, 228-247) loop over a directory listing, so they are file-system I/O. Re-indexing from scratch is the constructor followed by `ProcessPdf` calls.
- Persistence with `save_artifacts` and the module-level loading of the index and metadata (app.py:27-42) is file I/O. The constructor starts from the empty state.
- Logging with `print` is not modelled.
- The embedding model is the field `encode`, a function from text to vector.
  - Only the vector dimension (768) is modelled, not unit normalisation.
  - Batch encoding is modelled as encoding each text on its own.
- The faiss search is the `knn` parameter of `Search`. Its L2 distances and float32 conversion are not modelled. Distances are `real` and are only compared.
- PDF text extraction is an input. `None` means the file could not be opened, and a `None` page means no text was extracted. An exception raised by `extract_text` in the middle of a document is not modelled.
- The `if not pages: continue` guard (app.py:143-144) is not written as code, because it can never fire. `Grouping.GroupWellFormed` proves that every bucket is non-empty.
- `Query.PdfOverall` requires non-empty lists where Python's `max` would raise. `Consolidation.ConsolidateKeys` proves the lists are never empty.
- `Query.MaxScore` is proved about `real` values, so NaN distances are out of scope.
- Consolidation.RangeLabelRoundTrip: proved only for non-negative page numbers, because `Consolidation.ParseRangeLabel` splits at the first `-`. Pages are numbered from 1 (app.py:53), so every label the program builds meets this.
- Engine.Corpus.Search: bounds the number of hits by `k` only when the neighbour answer has at most `k` rows. The model places no constraint on the oracle's answer.
- Concurrency: requests are modelled as serialized, one operation of `Engine.Corpus` at a time. The threaded server (app.py:247) can run a search between `index.add` and `documents.extend` (app.py:64-65), when the index is longer than `documents`. A search can also run while `process_all` rebinds the globals (app.py:97-98), and then sees a new empty index beside the old `documents`. `Engine.Corpus.Valid` holds only between operations, and the model does not capture these interleavings. The bounds check at app.py:197 is modelled, but not the states that make it necessary.

## Notes

- Equal page numbers: one might expect two hits on the same page to count as adjacent. The code (app.py:149) only extends a run when the next page is exactly one more than the last, so equal pages start a new run. The model follows the code (`Consolidation.SamePageNeverMerged`, `Consolidation.DuplicatePageSplits`, `PageRuns.RunPages`). With the same document indexed twice, a result can therefore hold two ranges for the same page.
