# BioDWH2 core: paged MVStore index and OBO ontology export

This project models two parts of BioDWH2's core in Dafny and proves properties
of them.

**The paged secondary index (`MVStoreIndex`).** An index key maps to a list of
page indices, and each page stores object ids. The index also keeps metadata
for each page in memory only: its minimum id, maximum id and slot count.
- Inserting an id goes to the first listed page whose metadata admits it. If
  none does, the id goes into a fresh page.
- Removing an id touches the first page whose `[minId, maxId]` range contains
  it. A page whose slot count drops to zero is dropped.
- Opening the index rebuilds the metadata from the stored pages. It then
  repacks every key's pages: the ids are sorted and written back `PAGE_SIZE` at
  a time, and unused page indices are cut from the list.

The index is the class `MVStoreIndex.Index`. Its fields are the key table, the
page table, the metadata table and the next page index. Each method is proved
to leave the state given by a function on `Store` values. The properties of
the operations are proved about those functions:
- insertion, removal and repacking keep the index's invariant;
- `find` returns the union of a key's pages;
- repacking keeps every key's ids, is idempotent, and leaves ascending, full
  pages with exact metadata.

**The ontology exporter (`OntologyGraphExporter`).** It turns an OBO file into
graph nodes and edges.
- The header becomes a `Header` node. Every subset definition, synonym-type
  definition and idspace becomes a node linked from the header node.
- Every term, typedef and instance record becomes a node. Its references
  (typed relationships, `is_a`, `union_of`, …) become edges.
- A reference whose target id is not in the graph yet goes into a relation
  cache. It is flushed as edges when a node with that id is created. Each
  handler call ends with a flush for the record's own id.

The graph and the relation cache are classes that the export methods update in
place. The main result is request accounting:
- The `Accounts` predicate (module `RelationResolution`) states that the edges
  added plus the cached entries hold exactly the requests the records made.
- The `Resolved` predicate states that no cached id is in the graph.
- Together these give `ReferencesResolveOnce`: after all records, every
  reference whose target exists has become exactly one edge, wherever the
  target appeared. Every other reference is still cached.
- The header's definition texts are parsed by models of the exporter's string
  handling, with round-trip lemmas for the written forms.

Nullable Java values are `Option`. A Java exception (a missing token, an index
of -1, an unknown scope name) is a `None` or `ok == false` result.

## Model

| member | source | states |
|---|---|---|
| PagedIndexModel.FirstIndex | src/biodwh2-core/src/main/java/de/unibi/agbi/biodwh2/core/io/mvstore/MVStoreIndex.java:75-83 | the position of the first listed page whose metadata is accepted, with no accepted page before it, or none when no page is accepted |
| PagedIndexModel.Fits | src/biodwh2-core/src/main/java/de/unibi/agbi/biodwh2/core/io/mvstore/MVStoreIndex.java:75-83 | a page without a minimum never accepts; a page with room accepts every id from its minimum up; a full page accepts only ids from its minimum to below its maximum |
| PagedIndexModel.Insert | src/biodwh2-core/src/main/java/de/unibi/agbi/biodwh2/core/io/mvstore/MVStoreIndex.java:67-108 | the key is listed afterwards and every other key keeps its pages; the next page index stays or grows by one, and when it grows a fresh page holding only the id is appended to the key's list |
| PagedIndexModel.AppendToPage | src/biodwh2-core/src/main/java/de/unibi/agbi/biodwh2/core/io/mvstore/MVStoreIndex.java:95-105 | the id is in the page afterwards; an id already there changes nothing; otherwise it is appended and the slot count grows by one, with every other page, key and the next index unchanged |
| PagedIndexModel.Remove | src/biodwh2-core/src/main/java/de/unibi/agbi/biodwh2/core/io/mvstore/MVStoreIndex.java:146-175 | an unknown key changes nothing; otherwise every other key keeps its pages, the next index stays and no page is created |
| PagedIndexModel.RemoveFirst | src/biodwh2-core/src/main/java/de/unibi/agbi/biodwh2/core/io/mvstore/MVStoreIndex.java:156 | removing one occurrence of a present id shrinks the page by one and removes exactly one copy from its multiset; an absent id leaves the page unchanged |
| PagedIndexModel.Max | src/biodwh2-core/src/main/java/de/unibi/agbi/biodwh2/core/io/mvstore/MVStoreIndex.java:162 | the recomputed maximum is an element of the page and at least every element |
| PagedIndexModel.PagesUnion | src/biodwh2-core/src/main/java/de/unibi/agbi/biodwh2/core/io/mvstore/MVStoreIndex.java:121-122 | an id is in the union exactly when some listed page holds it |
| PagedIndexModel.Find | src/biodwh2-core/src/main/java/de/unibi/agbi/biodwh2/core/io/mvstore/MVStoreIndex.java:116-124 | an unknown key finds nothing; otherwise an id is found exactly when one of the key's pages holds it |
| PagedIndexInsertion.InsertKeepsValid | src/biodwh2-core/src/main/java/de/unibi/agbi/biodwh2/core/io/mvstore/MVStoreIndex.java:67-108 | insertion keeps the index invariant: metadata exactly for stored pages, page indices below `next`, duplicate-free lists, no page shared by two keys |
| PagedIndexInsertion.InsertThenFind | src/biodwh2-core/src/main/java/de/unibi/agbi/biodwh2/core/io/mvstore/MVStoreIndex.java:67-108 | after inserting an id under a key, `find` on that key returns it |
| PagedIndexInsertion.InsertChoosesFirstFit | src/biodwh2-core/src/main/java/de/unibi/agbi/biodwh2/core/io/mvstore/MVStoreIndex.java:95-105 | only the first fitting page may change: a new id is appended, its slot count grows by one, `minId` stays, `maxId` becomes the larger of old maximum and id; an id already stored changes nothing |
| PagedIndexInsertion.InsertAllocatesPage | src/biodwh2-core/src/main/java/de/unibi/agbi/biodwh2/core/io/mvstore/MVStoreIndex.java:84-94 | with no fitting page, an unused page index `next` gets a one-id page with min = max = id and one slot, is appended to the key's list, and `next` grows by one |
| PagedIndexInsertion.InsertKeepsSlotsExact | src/biodwh2-core/src/main/java/de/unibi/agbi/biodwh2/core/io/mvstore/MVStoreIndex.java:98-100 | when every slot count equals its page's length, insertion keeps that |
| PagedIndexInsertion.InsertKeepsOtherKeys | src/biodwh2-core/src/main/java/de/unibi/agbi/biodwh2/core/io/mvstore/MVStoreIndex.java:67-108 | inserting under one key leaves `find` on every other key unchanged |
| PagedIndexInsertion.InsertOutcome | src/biodwh2-core/src/main/java/de/unibi/agbi/biodwh2/core/io/mvstore/MVStoreIndex.java:84-105 | the two outcomes by the page selection's result: a new page when nothing fits, otherwise an append to the selected stored page |
| PagedIndexRemoval.RemoveKeepsValid | src/biodwh2-core/src/main/java/de/unibi/agbi/biodwh2/core/io/mvstore/MVStoreIndex.java:146-175 | removal keeps the index invariant |
| PagedIndexRemoval.RemoveWithoutBracket | src/biodwh2-core/src/main/java/de/unibi/agbi/biodwh2/core/io/mvstore/MVStoreIndex.java:147-154 | an unknown key, or no page whose range contains the id, leaves the index unchanged |
| PagedIndexRemoval.RemoveLeavesRest | src/biodwh2-core/src/main/java/de/unibi/agbi/biodwh2/core/io/mvstore/MVStoreIndex.java:150-168 | only the first bracketing page may change: every other page, its metadata, every other key's list and `next` stay, and no page is added |
| PagedIndexRemoval.RemoveEmptiesPage | src/biodwh2-core/src/main/java/de/unibi/agbi/biodwh2/core/io/mvstore/MVStoreIndex.java:169-174 | a page whose slot count reaches zero leaves the page table, the metadata table and the key's list, whose other entries keep their order |
| PagedIndexRemoval.RemoveShrinksPage | src/biodwh2-core/src/main/java/de/unibi/agbi/biodwh2/core/io/mvstore/MVStoreIndex.java:155-166 | a page that keeps slots loses the first copy of the id and one slot; a removed maximum becomes the true maximum of the rest; a removed minimum becomes the page's head |
| PagedIndexRemoval.RemovePresentKeepsSlotsExact | src/biodwh2-core/src/main/java/de/unibi/agbi/biodwh2/core/io/mvstore/MVStoreIndex.java:156-157 | removing an id the bracketing page holds keeps every slot count exact |
| PagedIndexRemoval.RemoveAbsentUndercounts | src/biodwh2-core/src/main/java/de/unibi/agbi/biodwh2/core/io/mvstore/MVStoreIndex.java:156-157 | removing an id inside the page's range that the page does not hold still drops a slot, so the count falls one below the page's length |
| PagedIndexRemoval.RemovingAbsentIdTwiceLosesPage | src/biodwh2-core/src/main/java/de/unibi/agbi/biodwh2/core/io/mvstore/MVStoreIndex.java:155-174 | on a page holding 1 and 3, removing the absent id 2 twice drops the page, so `find` loses both stored ids |
| PagedIndexRemoval.MinIdAfterRemovalIsHead | src/biodwh2-core/src/main/java/de/unibi/agbi/biodwh2/core/io/mvstore/MVStoreIndex.java:163-164 | removing the minimum 5 from the page [5, 9, 7] records 9, the head, as the minimum although 7 remains |
| SortedChunks.SortedOf | src/biodwh2-core/src/main/java/de/unibi/agbi/biodwh2/core/io/mvstore/MVStoreIndex.java:196 | the result is strictly ascending and holds exactly the elements of the input, without duplicates |
| SortedChunks.AscendingUnique | src/biodwh2-core/src/main/java/de/unibi/agbi/biodwh2/core/io/mvstore/MVStoreIndex.java:192-196 | two strictly ascending sequences with the same elements are equal, so sorting a set has one result |
| SortedChunks.NeededPages | src/biodwh2-core/src/main/java/de/unibi/agbi/biodwh2/core/io/mvstore/MVStoreIndex.java:198 | the number of chunks of `n` ids is the least page count whose capacity covers `n` |
| SortedChunks.Chunks | src/biodwh2-core/src/main/java/de/unibi/agbi/biodwh2/core/io/mvstore/MVStoreIndex.java:198-201 | the ids cut into `NeededPages` non-empty chunks of at most `PAGE_SIZE`, all but the last full |
| SortedChunks.ChunksOf2500 | src/biodwh2-core/src/main/java/de/unibi/agbi/biodwh2/core/io/mvstore/MVStoreIndex.java:197-201 | 2500 sorted ids fill three pages of 1000, 1000 and 500 ids, in order |
| SortedChunks.FlattenChunks | src/biodwh2-core/src/main/java/de/unibi/agbi/biodwh2/core/io/mvstore/MVStoreIndex.java:198-201 | concatenating the chunks gives back the ids |
| SortedChunks.InChunks | src/biodwh2-core/src/main/java/de/unibi/agbi/biodwh2/core/io/mvstore/MVStoreIndex.java:198-201 | an id is in the input exactly when it is in some chunk |
| SortedChunks.AscendingChunks | src/biodwh2-core/src/main/java/de/unibi/agbi/biodwh2/core/io/mvstore/MVStoreIndex.java:198-201 | chunks of ascending ids are ascending, and every id of an earlier chunk is below every id of a later one |
| PagedIndexSorting.SortCounts | src/biodwh2-core/src/main/java/de/unibi/agbi/biodwh2/core/io/mvstore/MVStoreIndex.java:192-196 | the sorted page indices number as many as the listed ones, and the sorted ids are exactly the key's found ids, each once |
| PagedIndexSorting.PackResult | src/biodwh2-core/src/main/java/de/unibi/agbi/biodwh2/core/io/mvstore/MVStoreIndex.java:197-209 | writing chunks into page indices puts chunk `j` and its first/last/length metadata into page `j`, leaves every other page and metadata, the key table and `next` alone |
| PagedIndexSorting.PackKeepsKeys | src/biodwh2-core/src/main/java/de/unibi/agbi/biodwh2/core/io/mvstore/MVStoreIndex.java:197-209 | writing chunks into pages leaves the key table and the next page index alone |
| PagedIndexSorting.SortKey | src/biodwh2-core/src/main/java/de/unibi/agbi/biodwh2/core/io/mvstore/MVStoreIndex.java:188-215 | an unknown key or one with no pages is left alone; otherwise only that key's list may change, the set of keys and the next index stay |
| PagedIndexSorting.SortKeyKeepsValid | src/biodwh2-core/src/main/java/de/unibi/agbi/biodwh2/core/io/mvstore/MVStoreIndex.java:188-215 | repacking a key keeps the index invariant and exact slot counts |
| PagedIndexSorting.SortKeyKeepsFind | src/biodwh2-core/src/main/java/de/unibi/agbi/biodwh2/core/io/mvstore/MVStoreIndex.java:188-215 | repacking a key changes `find` for no key |
| PagedIndexSorting.SortKeyPacks | src/biodwh2-core/src/main/java/de/unibi/agbi/biodwh2/core/io/mvstore/MVStoreIndex.java:188-215 | after repacking, the key's pages in ascending index order hold its sorted ids chunk by chunk, with no listed page left over |
| PagedIndexSorting.SortKeyKeepsPacked | src/biodwh2-core/src/main/java/de/unibi/agbi/biodwh2/core/io/mvstore/MVStoreIndex.java:188-215 | repacking one key keeps every other key's packed layout |
| PagedIndexSorting.SortKeyIdempotent | src/biodwh2-core/src/main/java/de/unibi/agbi/biodwh2/core/io/mvstore/MVStoreIndex.java:188-215 | repacking an already packed key changes nothing |
| PagedIndexSorting.SortAll | src/biodwh2-core/src/main/java/de/unibi/agbi/biodwh2/core/io/mvstore/MVStoreIndex.java:183-186 | repacking keys in any order keeps the invariant, the set of keys and `find` for every key |
| PagedIndexSorting.SortAllPacks | src/biodwh2-core/src/main/java/de/unibi/agbi/biodwh2/core/io/mvstore/MVStoreIndex.java:183-186 | after `sortAllPages` every visited key is packed |
| PagedIndexSorting.SortAllKeepsNext | src/biodwh2-core/src/main/java/de/unibi/agbi/biodwh2/core/io/mvstore/MVStoreIndex.java:183-186 | repacking never changes the next page index |
| PagedIndexSorting.SortAllKeepsSlotsExact | src/biodwh2-core/src/main/java/de/unibi/agbi/biodwh2/core/io/mvstore/MVStoreIndex.java:183-186 | repacking keeps exact slot counts |
| PagedIndexSorting.PackedLayout | src/biodwh2-core/src/main/java/de/unibi/agbi/biodwh2/core/io/mvstore/MVStoreIndex.java:197-209 | a packed key's pages are ascending, non-empty, all but the last full, ordered across pages, with metadata bracketing every id and counting it exactly |
| PagedIndexSorting.ReadyWhenPagesFit | src/biodwh2-core/src/main/java/de/unibi/agbi/biodwh2/core/io/mvstore/MVStoreIndex.java:197-199 | when no listed page holds more than `PAGE_SIZE` ids, there is a page index for every chunk |
| PagedIndexLoading.Loaded | src/biodwh2-core/src/main/java/de/unibi/agbi/biodwh2/core/io/mvstore/MVStoreIndex.java:29-47 | the opened state keeps the persisted tables and is valid, with exact slot counts and enough pages for every key's repacking |
| PagedIndexLoading.LoadedMeta | src/biodwh2-core/src/main/java/de/unibi/agbi/biodwh2/core/io/mvstore/MVStoreIndex.java:35-46 | the rebuilt metadata counts every slot, has a minimum exactly when the page is non-empty, and its bounds are ids of the page |
| PagedIndexLoading.NextIndexUnique | src/biodwh2-core/src/main/java/de/unibi/agbi/biodwh2/core/io/mvstore/MVStoreIndex.java:33-34 | the next page index is determined by the stored page indices |
| PagedIndexLoading.LoadedMetaBrackets | src/biodwh2-core/src/main/java/de/unibi/agbi/biodwh2/core/io/mvstore/MVStoreIndex.java:37-45 | for an ascending stored page, the rebuilt bounds are stored ids that bracket every id of the page |
| PagedIndexLoading.LoadedMaxIsLast | src/biodwh2-core/src/main/java/de/unibi/agbi/biodwh2/core/io/mvstore/MVStoreIndex.java:42 | the rebuilt maximum is the last slot, so the page [1, 5, 3] records 3 and its range misses 5 |
| PagedIndexBatch.InsertKey | src/biodwh2-core/src/main/java/de/unibi/agbi/biodwh2/core/io/mvstore/MVStoreIndex.java:62-65 | inserting under a possibly absent key keeps the invariant |
| PagedIndexBatch.RemoveKey | src/biodwh2-core/src/main/java/de/unibi/agbi/biodwh2/core/io/mvstore/MVStoreIndex.java:141-144 | removing under a possibly absent key keeps the invariant |
| PagedIndexBatch.InsertAll | src/biodwh2-core/src/main/java/de/unibi/agbi/biodwh2/core/io/mvstore/MVStoreIndex.java:110-114 | inserting under every key of an array keeps the invariant |
| PagedIndexBatch.RemoveAll | src/biodwh2-core/src/main/java/de/unibi/agbi/biodwh2/core/io/mvstore/MVStoreIndex.java:177-181 | removing under every key of an array keeps the invariant |
| PagedIndexBatch.InsertAllAbsent | src/biodwh2-core/src/main/java/de/unibi/agbi/biodwh2/core/io/mvstore/MVStoreIndex.java:111-113 | an array of absent keys changes nothing |
| PagedIndexBatch.RemoveAllAbsent | src/biodwh2-core/src/main/java/de/unibi/agbi/biodwh2/core/io/mvstore/MVStoreIndex.java:178-180 | an array of absent keys changes nothing |
| PagedIndexBatch.InsertGrowsFind | src/biodwh2-core/src/main/java/de/unibi/agbi/biodwh2/core/io/mvstore/MVStoreIndex.java:67-108 | insertion never loses an id that `find` returned for any key |
| PagedIndexBatch.InsertAllFinds | src/biodwh2-core/src/main/java/de/unibi/agbi/biodwh2/core/io/mvstore/MVStoreIndex.java:110-114 | after the array insertion the id is found under every present key of the array |
| PagedIndexBatch.InsertAllKeepsFound | src/biodwh2-core/src/main/java/de/unibi/agbi/biodwh2/core/io/mvstore/MVStoreIndex.java:110-114 | the array insertion never loses a found id |
| MVStoreIndex.LoadPageMeta | src/biodwh2-core/src/main/java/de/unibi/agbi/biodwh2/core/io/mvstore/MVStoreIndex.java:37-45 | the slot walk yields the page's length as slot count, its last id as maximum and its head as minimum, none for an empty page |
| MVStoreIndex.RebuildMeta | src/biodwh2-core/src/main/java/de/unibi/agbi/biodwh2/core/io/mvstore/MVStoreIndex.java:33-47 | every stored page gets its rebuilt metadata, and the next page index is one past the largest stored index, or 0 |
| MVStoreIndex.Index.constructor | src/biodwh2-core/src/main/java/de/unibi/agbi/biodwh2/core/io/mvstore/MVStoreIndex.java:25-49 | the opened index is the loaded state after repacking in key order: valid, exact slot counts, every key packed |
| MVStoreIndex.Index.Update | src/biodwh2-core/src/main/java/de/unibi/agbi/biodwh2/core/io/mvstore/MVStoreIndex.java:62-65 | an absent key changes nothing, a present one inserts; the invariant is kept |
| MVStoreIndex.Index.UpdateArray | src/biodwh2-core/src/main/java/de/unibi/agbi/biodwh2/core/io/mvstore/MVStoreIndex.java:110-114 | inserts under every present key of the array in order; the invariant is kept |
| MVStoreIndex.Index.FirstFit | src/biodwh2-core/src/main/java/de/unibi/agbi/biodwh2/core/io/mvstore/MVStoreIndex.java:75-83 | the selection loop returns the first page whose minimum is set and at most the id and that spans the id or has a free slot |
| MVStoreIndex.Index.InsertToPage | src/biodwh2-core/src/main/java/de/unibi/agbi/biodwh2/core/io/mvstore/MVStoreIndex.java:67-108 | the new state is the insertion of the id under the key, and the invariant is kept |
| MVStoreIndex.Index.AddPage | src/biodwh2-core/src/main/java/de/unibi/agbi/biodwh2/core/io/mvstore/MVStoreIndex.java:84-94 | stores a one-id page under the next page index, lists it under the key and bumps the index |
| MVStoreIndex.Index.AppendId | src/biodwh2-core/src/main/java/de/unibi/agbi/biodwh2/core/io/mvstore/MVStoreIndex.java:95-105 | appends a new id to the page, counts its slot and raises the maximum |
| MVStoreIndex.Index.Find | src/biodwh2-core/src/main/java/de/unibi/agbi/biodwh2/core/io/mvstore/MVStoreIndex.java:116-124 | returns the union of the key's pages, empty for an unknown key |
| MVStoreIndex.Index.Remove | src/biodwh2-core/src/main/java/de/unibi/agbi/biodwh2/core/io/mvstore/MVStoreIndex.java:141-144 | an absent key changes nothing, a present one removes; the invariant is kept |
| MVStoreIndex.Index.RemoveArray | src/biodwh2-core/src/main/java/de/unibi/agbi/biodwh2/core/io/mvstore/MVStoreIndex.java:177-181 | removes under every present key of the array in order; the invariant is kept |
| MVStoreIndex.Index.FirstBracketing | src/biodwh2-core/src/main/java/de/unibi/agbi/biodwh2/core/io/mvstore/MVStoreIndex.java:151-154 | the selection loop returns the first page whose recorded range contains the id |
| MVStoreIndex.Index.RemoveFromPage | src/biodwh2-core/src/main/java/de/unibi/agbi/biodwh2/core/io/mvstore/MVStoreIndex.java:146-175 | the new state is the removal of the id under the key, and the invariant is kept |
| MVStoreIndex.Index.SortKeyPages | src/biodwh2-core/src/main/java/de/unibi/agbi/biodwh2/core/io/mvstore/MVStoreIndex.java:188-215 | the new state is the key's repacking, and the invariant is kept |
| MVStoreIndex.Index.WriteChunks | src/biodwh2-core/src/main/java/de/unibi/agbi/biodwh2/core/io/mvstore/MVStoreIndex.java:197-209 | the loop writes one page per chunk of the sorted ids and counts the chunks |
| MVStoreIndex.Index.WriteChunk | src/biodwh2-core/src/main/java/de/unibi/agbi/biodwh2/core/io/mvstore/MVStoreIndex.java:199-207 | stores one chunk as a page with its first id, last id and length as metadata |
| MVStoreIndex.Index.SortAllPages | src/biodwh2-core/src/main/java/de/unibi/agbi/biodwh2/core/io/mvstore/MVStoreIndex.java:183-186 | the new state repacks every key in the given order, and the invariant is kept |
| MVStoreIndex.CollectIds | src/biodwh2-core/src/main/java/de/unibi/agbi/biodwh2/core/io/mvstore/MVStoreIndex.java:193-195 | an id is collected exactly when one of the given pages holds it |
| OboText.SpaceIndex | src/biodwh2-core/src/main/java/de/unibi/agbi/biodwh2/core/etl/OntologyGraphExporter.java:99 | the index of the first space, or the length when there is none |
| OboText.LastSpaceIndex | src/biodwh2-core/src/main/java/de/unibi/agbi/biodwh2/core/etl/OntologyGraphExporter.java:107 | the index of the last space, or -1 when there is none |
| OboText.Split | src/biodwh2-core/src/main/java/de/unibi/agbi/biodwh2/core/etl/OntologyGraphExporter.java:84 | at most `max` tokens, none empty and none starting with a space |
| OboText.SplitWords | src/biodwh2-core/src/main/java/de/unibi/agbi/biodwh2/core/etl/OntologyGraphExporter.java:84 | the split rebuilds its input: no tokens exactly for an all-space text; joined by single spaces the tokens give the text with runs of spaces collapsed; with fewer than `max` tokens that join is the collapsed text itself, and with `max` tokens the last one is a suffix of the text |
| OboText.TwoWords | src/biodwh2-core/src/main/java/de/unibi/agbi/biodwh2/core/etl/OntologyGraphExporter.java:84 | a split into at most two parts has two parts exactly when the collapsed text holds a space |
| OboText.SplitTokens | src/biodwh2-core/src/main/java/de/unibi/agbi/biodwh2/core/etl/OntologyGraphExporter.java:126 | every token but the last is free of spaces |
| OboText.SplitAfterToken | src/biodwh2-core/src/main/java/de/unibi/agbi/biodwh2/core/etl/OntologyGraphExporter.java:189 | a token followed by a space and more text splits into the token and the split of the rest; a lone token splits into itself |
| OboText.Trim | src/biodwh2-core/src/main/java/de/unibi/agbi/biodwh2/core/etl/OntologyGraphExporter.java:85 | the result is a substring of the input with only trimmed characters before and after it, and neither starts nor ends with one |
| OboText.StripQuotes | src/biodwh2-core/src/main/java/de/unibi/agbi/biodwh2/core/etl/OntologyGraphExporter.java:85 | the result is a substring of the input with only double quotes before and after it, and neither starts nor ends with one |
| OboText.QuotedNameRoundTrip | src/biodwh2-core/src/main/java/de/unibi/agbi/biodwh2/core/etl/OntologyGraphExporter.java:108 | trimming and unquoting a quoted name, with or without a leading space, gives the name back |
| OboText.EqualsTrueIgnoringCase | src/biodwh2-core/src/main/java/de/unibi/agbi/biodwh2/core/etl/OntologyGraphExporter.java:309 | a text equals "true" ignoring case exactly when it has four letters t, r, u, e in either case |
| OboGraph.FirstWithId | src/biodwh2-core/src/main/java/de/unibi/agbi/biodwh2/core/etl/OntologyGraphExporter.java:192 | the position of the first node with the id, or none exactly when no node has it |
| OboGraph.FirstWithIdAppend | src/biodwh2-core/src/main/java/de/unibi/agbi/biodwh2/core/etl/OntologyGraphExporter.java:245 | appending a node keeps every earlier lookup, and an id found only in the new node is found there |
| OboGraph.Graph.FindNode | src/biodwh2-core/src/main/java/de/unibi/agbi/biodwh2/core/etl/OntologyGraphExporter.java:245 | the lookup returns the first node with the id |
| OboGraph.Graph.AddNode | src/biodwh2-core/src/main/java/de/unibi/agbi/biodwh2/core/etl/OntologyGraphExporter.java:86 | appends the node and returns its position; the edges stay |
| OboGraph.Graph.AddEdge | src/biodwh2-core/src/main/java/de/unibi/agbi/biodwh2/core/etl/OntologyGraphExporter.java:87 | appends the edge; the nodes stay |
| RelationCaching.CacheAdd | src/biodwh2-core/src/main/java/de/unibi/agbi/biodwh2/core/etl/OntologyGraphExporter.java:206-212 | the entry is appended to the target's relation list; every other list and target stays, and missing maps and lists are created |
| RelationCaching.RelationCache.constructor | src/biodwh2-core/src/main/java/de/unibi/agbi/biodwh2/core/etl/OntologyGraphExporter.java:137 | the cache starts empty |
| RelationCaching.CacheAddReqs | src/biodwh2-core/src/main/java/de/unibi/agbi/biodwh2/core/etl/OntologyGraphExporter.java:203-213 | caching an entry adds exactly its request to the cache's requests |
| RelationCaching.CacheRemoveReqs | src/biodwh2-core/src/main/java/de/unibi/agbi/biodwh2/core/etl/OntologyGraphExporter.java:227 | removing a target takes exactly that target's requests out of the cache |
| RelationCaching.FlushEdges | src/biodwh2-core/src/main/java/de/unibi/agbi/biodwh2/core/etl/OntologyGraphExporter.java:221-226 | one edge per cached entry of a relation, in list order: from the entry's source into the node under the relation, with a property exactly when the entry has both key and value, and then that pair |
| RelationCaching.FlushEdgesReqs | src/biodwh2-core/src/main/java/de/unibi/agbi/biodwh2/core/etl/OntologyGraphExporter.java:221-226 | the flushed edges of a target's node fulfil exactly the cached requests they replace |
| OboReferences.Links | src/biodwh2-core/src/main/java/de/unibi/agbi/biodwh2/core/etl/OntologyGraphExporter.java:235-244 | a reference array parses exactly when each present element does; the links are then the parses of the present elements, one each, in order |
| OboReferences.GenericLink | src/biodwh2-core/src/main/java/de/unibi/agbi/biodwh2/core/etl/OntologyGraphExporter.java:238-244 | a reference without a space is all target id with no annotation; one with a space parses exactly when its collapsed text keeps a space, into a token id and an annotation property |
| OboReferences.TypedLink | src/biodwh2-core/src/main/java/de/unibi/agbi/biodwh2/core/etl/OntologyGraphExporter.java:187-191 | parses exactly when the collapsed text holds a space: the first token becomes the `rel_id` property and the rest the non-empty target |
| OboReferences.GenericLinkSplit | src/biodwh2-core/src/main/java/de/unibi/agbi/biodwh2/core/etl/OntologyGraphExporter.java:240-244 | `id annotation` yields the target id and the annotation property |
| OboReferences.GenericLinkWithoutSpace | src/biodwh2-core/src/main/java/de/unibi/agbi/biodwh2/core/etl/OntologyGraphExporter.java:238-239 | a reference without a space is all target id, with no annotation |
| OboReferences.TypedLinkSplit | src/biodwh2-core/src/main/java/de/unibi/agbi/biodwh2/core/etl/OntologyGraphExporter.java:189-191 | `relId target` yields the target and the `rel_id` property |
| OboReferences.TypedLinkSingleToken | src/biodwh2-core/src/main/java/de/unibi/agbi/biodwh2/core/etl/OntologyGraphExporter.java:189-191 | a typed relationship with one token has no target and fails |
| HeaderDefinitions.SubsetDefRoundTrip | src/biodwh2-core/src/main/java/de/unibi/agbi/biodwh2/core/etl/OntologyGraphExporter.java:83-86 | `id "name"` parses back to that id and name |
| HeaderDefinitions.ParseSubsetDef | src/biodwh2-core/src/main/java/de/unibi/agbi/biodwh2/core/etl/OntologyGraphExporter.java:83-86 | parses exactly when the collapsed text holds a space; then the node has an id token and an unquoted name, and nothing else |
| HeaderDefinitions.ParseSynonymTypeDef | src/biodwh2-core/src/main/java/de/unibi/agbi/biodwh2/core/etl/OntologyGraphExporter.java:97-114 | a text without a space fails; otherwise the id is the text before the first space, the name is unquoted, and a scope is present exactly when the text ends with a scope name, which then is a valid scope |
| HeaderDefinitions.ParseScoped | src/biodwh2-core/src/main/java/de/unibi/agbi/biodwh2/core/etl/OntologyGraphExporter.java:106-110 | the scoped branch succeeds exactly when the text after the last space is a scope name; the id is the text before the first space and the scope the text after the last |
| HeaderDefinitions.ParseIdspace | src/biodwh2-core/src/main/java/de/unibi/agbi/biodwh2/core/etl/OntologyGraphExporter.java:125-132 | parses exactly when the collapsed text holds a space; then id and iri are tokens, and a name, when present, is unquoted |
| HeaderDefinitions.NoSpaceFails | src/biodwh2-core/src/main/java/de/unibi/agbi/biodwh2/core/etl/OntologyGraphExporter.java:84-100 | a text without a space fails both the subset and the synonym-type parse |
| HeaderDefinitions.SynonymTypeDefRoundTrip | src/biodwh2-core/src/main/java/de/unibi/agbi/biodwh2/core/etl/OntologyGraphExporter.java:97-114 | `id "name"` with or without a synonym scope parses back to its id, name and scope |
| HeaderDefinitions.ScopedSynonymTypeDef | src/biodwh2-core/src/main/java/de/unibi/agbi/biodwh2/core/etl/OntologyGraphExporter.java:106-110 | the scoped form parses back to its id, name and scope |
| HeaderDefinitions.UnscopedSynonymTypeDef | src/biodwh2-core/src/main/java/de/unibi/agbi/biodwh2/core/etl/OntologyGraphExporter.java:111-113 | the unscoped form parses back to its id and name |
| HeaderDefinitions.ScopedShape | src/biodwh2-core/src/main/java/de/unibi/agbi/biodwh2/core/etl/OntologyGraphExporter.java:106-110 | a text ending in a scope name: the name lies between the first and the last space and the scope after the last |
| HeaderDefinitions.ScopeSuffixOfLongerToken | src/biodwh2-core/src/main/java/de/unibi/agbi/biodwh2/core/etl/OntologyGraphExporter.java:101-109 | a last token that only ends with a scope name passes the suffix test and then fails the scope lookup |
| HeaderDefinitions.IdspaceRoundTrip | src/biodwh2-core/src/main/java/de/unibi/agbi/biodwh2/core/etl/OntologyGraphExporter.java:125-132 | `id iri ["name"]` parses back to its id, iri and optional name |
| HeaderDefinitions.NamedIdspace | src/biodwh2-core/src/main/java/de/unibi/agbi/biodwh2/core/etl/OntologyGraphExporter.java:128-130 | three tokens give id, iri and the unquoted name |
| HeaderDefinitions.UnnamedIdspace | src/biodwh2-core/src/main/java/de/unibi/agbi/biodwh2/core/etl/OntologyGraphExporter.java:131-132 | two tokens give id and iri only |
| HeaderExport.DefNodeId | src/biodwh2-core/src/main/java/de/unibi/agbi/biodwh2/core/etl/OntologyGraphExporter.java:86 | a definition node carries its kind's label and the parsed id as its id, so records can reference it |
| HeaderExport.SubsetDefNode | src/biodwh2-core/src/main/java/de/unibi/agbi/biodwh2/core/etl/OntologyGraphExporter.java:86 | `id "name"` becomes a `Subset` node with that id and name |
| HeaderExport.ScopedSynonymTypeDefNode | src/biodwh2-core/src/main/java/de/unibi/agbi/biodwh2/core/etl/OntologyGraphExporter.java:110 | a scoped synonym-type definition becomes a `SynonymType` node with id, name and scope |
| HeaderExport.UnscopedSynonymTypeDefNode | src/biodwh2-core/src/main/java/de/unibi/agbi/biodwh2/core/etl/OntologyGraphExporter.java:113 | an unscoped one becomes a `SynonymType` node with id and name |
| HeaderExport.NamedIdspaceDefNode | src/biodwh2-core/src/main/java/de/unibi/agbi/biodwh2/core/etl/OntologyGraphExporter.java:130 | a named idspace becomes an `Idspace` node with id, iri and name |
| HeaderExport.UnnamedIdspaceDefNode | src/biodwh2-core/src/main/java/de/unibi/agbi/biodwh2/core/etl/OntologyGraphExporter.java:132 | an unnamed idspace becomes an `Idspace` node with id and iri |
| HeaderExport.ExportDefinition | src/biodwh2-core/src/main/java/de/unibi/agbi/biodwh2/core/etl/OntologyGraphExporter.java:83-88 | a parsed definition adds its node and an edge from the header node to it; an unparsable one fails and changes nothing |
| HeaderExport.ExportDefinitions | src/biodwh2-core/src/main/java/de/unibi/agbi/biodwh2/core/etl/OntologyGraphExporter.java:76-81 | succeeds exactly when every text parses (an absent array is empty), then adds their nodes in order, each linked from the header node |
| HeaderExport.HeaderStar | src/biodwh2-core/src/main/java/de/unibi/agbi/biodwh2/core/etl/OntologyGraphExporter.java:69-72 | the header's edges form a star from the header node, one per definition node, each under the label belonging to that node's label |
| HeaderExport.HeaderLayout | src/biodwh2-core/src/main/java/de/unibi/agbi/biodwh2/core/etl/OntologyGraphExporter.java:70-72 | the three runs of definitions in order lay out the header's nodes and edges |
| HeaderExport.ExportHeader | src/biodwh2-core/src/main/java/de/unibi/agbi/biodwh2/core/etl/OntologyGraphExporter.java:45-74 | succeeds exactly when every definition parses, then adds the header node, the definition nodes and the header's edges |
| RelationResolution.AccountsCompose | src/biodwh2-core/src/main/java/de/unibi/agbi/biodwh2/core/etl/OntologyGraphExporter.java:157-163 | two accounted stretches of export in a row account for both sets of requests |
| RelationResolution.AddRelationshipToCache | src/biodwh2-core/src/main/java/de/unibi/agbi/biodwh2/core/etl/OntologyGraphExporter.java:203-213 | the cache becomes the old cache with the entry appended under its target and relation |
| RelationResolution.FlushRelation | src/biodwh2-core/src/main/java/de/unibi/agbi/biodwh2/core/etl/OntologyGraphExporter.java:221-226 | adds one edge into the node per cached entry of one relation, in list order |
| RelationResolution.FlushTarget | src/biodwh2-core/src/main/java/de/unibi/agbi/biodwh2/core/etl/OntologyGraphExporter.java:219-226 | the added edges are exactly the flushed edges of every relation of the target, in any relation order, and fulfil exactly the target's cached requests |
| RelationResolution.HandleCachedRelationshipsForNode | src/biodwh2-core/src/main/java/de/unibi/agbi/biodwh2/core/etl/OntologyGraphExporter.java:215-229 | a node whose id is cached gets all its cached edges and its id leaves the cache; otherwise nothing changes |
| RelationResolution.ResolveLink | src/biodwh2-core/src/main/java/de/unibi/agbi/biodwh2/core/etl/OntologyGraphExporter.java:245-254 | a link to an existing id becomes one edge to the first node with it; otherwise it is cached under the target |
| RelationResolution.LinkAccounted | src/biodwh2-core/src/main/java/de/unibi/agbi/biodwh2/core/etl/OntologyGraphExporter.java:245-254 | resolving one link, either way, accounts for its request and caches only ids missing from the graph |
| RelationResolution.ResolveReferences | src/biodwh2-core/src/main/java/de/unibi/agbi/biodwh2/core/etl/OntologyGraphExporter.java:235-255 | succeeds exactly when every present reference parses, and then accounts for each link's request as an edge or a cache entry |
| RelationResolution.FlushAccounted | src/biodwh2-core/src/main/java/de/unibi/agbi/biodwh2/core/etl/OntologyGraphExporter.java:257 | after the flush of the node's own id the accounting still holds and no cached id is in the graph |
| RelationResolution.FlushOwnTarget | src/biodwh2-core/src/main/java/de/unibi/agbi/biodwh2/core/etl/OntologyGraphExporter.java:257 | the closing flush keeps the accounting and leaves no cached id in the graph |
| RelationResolution.ResolveThenFlush | src/biodwh2-core/src/main/java/de/unibi/agbi/biodwh2/core/etl/OntologyGraphExporter.java:234-257 | the shared handler shape: succeeds exactly when every present reference parses, then accounts for all its requests and leaves no cached id in the graph |
| RelationResolution.HandleRelationships | src/biodwh2-core/src/main/java/de/unibi/agbi/biodwh2/core/etl/OntologyGraphExporter.java:231-258 | generic references: succeeds exactly when each parses; every request becomes an edge or a cache entry, and no cached id is in the graph afterwards |
| RelationResolution.HandleRelationshipsWithRelId | src/biodwh2-core/src/main/java/de/unibi/agbi/biodwh2/core/etl/OntologyGraphExporter.java:182-201 | typed relationships under `HAS_RELATIONSHIP`: succeeds exactly when each has two tokens; every request becomes an edge or a cache entry, and no cached id is in the graph afterwards |
| OntologyGraphExporter.EntryProps | src/biodwh2-core/src/main/java/de/unibi/agbi/biodwh2/core/etl/OntologyGraphExporter.java:166-180 | a record node has the id, obsolete and anonymous properties, and its id is the record's id |
| OntologyGraphExporter.Relation | src/biodwh2-core/src/main/java/de/unibi/agbi/biodwh2/core/etl/OntologyGraphExporter.java:277-291 | every category's edge label is non-empty and differs from the typed-relationship label |
| OntologyGraphExporter.RelationsDistinct | src/biodwh2-core/src/main/java/de/unibi/agbi/biodwh2/core/etl/OntologyGraphExporter.java:277-301 | no two categories share an edge label |
| OntologyGraphExporter.CategoriesShape | src/biodwh2-core/src/main/java/de/unibi/agbi/biodwh2/core/etl/OntologyGraphExporter.java:151-302 | each kind handles a category at most once and ends with the replaced-by references; only typedefs have domain and range, only instances an instance-of reference, every kind but instances is-a references |
| OntologyGraphExporter.RefsFor | src/biodwh2-core/src/main/java/de/unibi/agbi/biodwh2/core/etl/OntologyGraphExporter.java:284-301 | a single-valued clause becomes a one-element array whose element is present exactly when the value is; a list clause is its array, absent exactly when the clause is |
| OntologyGraphExporter.GroupsShape | src/biodwh2-core/src/main/java/de/unibi/agbi/biodwh2/core/etl/OntologyGraphExporter.java:277-291 | a record's handler calls are its typed relationships first, then one call per category of its kind in order |
| OntologyGraphExporter.GroupsReqsOk | src/biodwh2-core/src/main/java/de/unibi/agbi/biodwh2/core/etl/OntologyGraphExporter.java:157-163 | a run of handler calls succeeds exactly when each of them does |
| OntologyGraphExporter.ExportRecord | src/biodwh2-core/src/main/java/de/unibi/agbi/biodwh2/core/etl/OntologyGraphExporter.java:151-164 | appends the record's node; succeeds exactly when every reference parses, then accounts for all its requests and leaves no cached id in the graph |
| OntologyGraphExporter.Kept | src/biodwh2-core/src/main/java/de/unibi/agbi/biodwh2/core/etl/OntologyGraphExporter.java:139-140 | the exported records are records of the input, none skipped, and all of them when none is obsolete under the flag |
| OntologyGraphExporter.KeptCounts | src/biodwh2-core/src/main/java/de/unibi/agbi/biodwh2/core/etl/OntologyGraphExporter.java:139-140 | every record not skipped is exported as often as it occurs in the input, and a skipped one never |
| OntologyGraphExporter.KeptAppend | src/biodwh2-core/src/main/java/de/unibi/agbi/biodwh2/core/etl/OntologyGraphExporter.java:138-146 | the filter keeps the input order: the kept records of two runs are those of the first followed by those of the second |
| OntologyGraphExporter.ReferencesResolveOnce | src/biodwh2-core/src/main/java/de/unibi/agbi/biodwh2/core/etl/OntologyGraphExporter.java:136-149 | every request whose target is in the graph has as many edges as it was made and no cache entry; every other has as many cache entries and no edge |
| OntologyGraphExporter.ExportNext | src/biodwh2-core/src/main/java/de/unibi/agbi/biodwh2/core/etl/OntologyGraphExporter.java:141-146 | one more exported record keeps the export state, with its node after those of the records before it |
| OntologyGraphExporter.ExportEntries | src/biodwh2-core/src/main/java/de/unibi/agbi/biodwh2/core/etl/OntologyGraphExporter.java:136-149 | succeeds exactly when every record not skipped exports; then one node per kept record in order, all requests accounted, no cached id in the graph |
| OntologyGraphExporter.IgnoreObsolete | src/biodwh2-core/src/main/java/de/unibi/agbi/biodwh2/core/etl/OntologyGraphExporter.java:307-310 | true exactly when the property is present and spells "true" in any case |
| OntologyGraphExporter.ExportGraph | src/biodwh2-core/src/main/java/de/unibi/agbi/biodwh2/core/etl/OntologyGraphExporter.java:30-43 | succeeds exactly when the header and every kept record export; then the header's nodes and edges, then the records' nodes; each request of a kept record to a present id became as many edges as it was made, and each other request as many cache entries |

## Left out

- MVStoreIndex.Index.UpdateArray and MVStoreIndex.Index.RemoveArray take the
  key array as a sequence. A null key array (MVStoreIndex.java:111 and 178)
  throws a NullPointerException in the source; the model has no null array.
- OntologyGraphExporter.ExportRecord: a record's id is a string, never absent.
  `HandleCachedRelationshipsForNode` keeps the `targetId != null` guard of
  OntologyGraphExporter.java:218 for any node, but on a record's node it
  always holds; a record without an id is not modelled.
- Persistence, locking and concurrency. The `MVStoreDB` maps are plain maps,
  and `synchronized` and the concurrent queues are not modelled.
- Page indices and ids are unbounded integers. Java `long` wrap-around is not
  modelled.
- The key table's iteration order in `sortAllPages` is the constructor's
  `keyOrder` parameter.
- The rebuild visits stored pages in ascending page-index order, the order of
  the sorted page map.
- The null-slot `break` at MVStoreIndex.java:39-40 is not modelled. Pages hold
  no null ids.
- Selecting the object's key (`update(MVStoreModel)` and
  `remove(MVStoreModel)`, MVStoreIndex.java:55-60 and 134-139) is not modelled,
  and neither are `getName`, `getKey` and `isArrayIndex`. The model starts from
  the key or key array already read.
- MVStoreIndex.Index.SortKeyPages: requires enough listed pages for the key's
  ids (`SortReadyKey`). Without them the source reads past the end of its
  page-index array. `ReadyWhenPagesFit` gives a sufficient condition, but
  insertion can overfill a page (`Fits` accepts a full page that spans the id),
  so the index invariant does not imply it.
- MVStoreIndex.Index.constructor: requires the persisted tables to be
  well formed (`PersistedOk`): duplicate-free page lists of stored pages, no
  page shared by two keys, and enough pages for every key's ids. The source
  does not check this.
- Insertion and removal keep the source's behaviour as written:
  - a page can grow past `PAGE_SIZE`;
  - removing an absent id inside a page's range still consumes a slot
    (`RemovingAbsentIdTwiceLosesPage`);
  - the minimum after removing the minimum is the page's head
    (`MinIdAfterRemovalIsHead`);
  - the rebuilt maximum is the last slot (`LoadedMaxIsLast`).
- OBO file reading (`OboReader`, OntologyGraphExporter.java:35-36), the
  `IOException` path and the workspace and data-source lookup are not
  modelled. The records, the header and the data source's properties are
  parameters.
- `graph.setNodeIndexPropertyKeys` (line 33) is not modelled. Lookup by id is
  a linear search for the first node with the id.
- The header's scalar properties (lines 46-68) are given as one property map.
  The NodeBuilder that collects them is not part of this model.
- Record properties other than id, obsolete and anonymous (lines 155, 168-177
  and 264-275) are not modelled. They never take part in reference resolution.
- Typedef flags such as `builtin` and `is_transitive` are not modelled either.
- `StringUtils` is not part of this model. `split` is modelled for a positive
  maximum with a single-space separator, `strip` for one strip character, and
  Java's `trim` as removing characters up to U+0020.
- Case folding in `equalsIgnoreCase` is modelled for ASCII letters only.
- `SynonymScope` is not part of this model. Its four names are the `SCOPES`
  constant.
- The relation cache's inner map is a `HashMap`, so relations are flushed in an
  unspecified order. The flushed edges are therefore stated as a multiset.
- A failure (an exception in the source) is stated as `ok == false`. The
  partial graph left behind on failure is not characterised, except for a
  single definition, which changes nothing.
- Header definition arrays and record reference lists hold no null texts in
  the header model. Record arrays may hold absent elements, which are skipped
  as in the source.
- The other exporters and updaters of the repository are not part of this
  model.
