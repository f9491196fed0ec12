# Verified models of Sphinx's self-contained cores

Sphinx is a full-text search server. Several of its components are algorithms that need no I/O to
state, and this project models those in Dafny and proves what they promise.

- **Snippets** (`src/sphinxexcerpt.cpp`). `CacheStreamer` is the compressed event log that a document
  is tokenized into once and replayed from twice. `TokenSpan` is the growing ring buffer of the passage
  extractor. `PassageWeights` and `PassageWeigher` weigh the passage under that window as it moves, and
  `PassageFlush` cuts it down and sets aside the tokens around its keywords.
  `PassageSelection`, `PassageTrimming` and `PassageChoice` choose the passages to show under the limits, and
  `PassageDisplay` compares what they show with what their counters count. `PassageHighlight` emits their
  texts, `PassageEmission` puts those in the order of weight, and `HitMarks` turns match marks into spans to
  highlight.
- **Index tools** (`src/indextool.cpp`). `KillLists` rewrites the kill lists of a sequence of index
  chunks. `IdfMerger` merges sorted dictionaries through small read buffers.
- **Morphology** (`src/sphinxaot.cpp`). `MorphWalk` is the dictionary automaton: the walk with explicit
  stacks and the child cache. `AotTokenizer` is the token filter that fans a token out into lemmas.
- **Filters** (`src/sphinxfilter.cpp`). `FilterTree` says what filter trees mean for rows and for blocks
  of rows, and `FilterNodes` evaluates, joins and optimizes them in place on the heap. `FilterSearch` has
  the searches in value lists and multi-value attributes.
- **Client protocol**. `SearchRequest`, `RequestBuilder` and `ParseArray` are the two-pass request
  builder and number parser of `mysqlse/ha_sphinx.cc`, and `RequestReader` reads a request as
  `src/searchd.cpp` does. `SphinxPack` is the 64-bit packing of
  `api/sphinxapi.php` for PHP without bcmath.
- **Word counts** (`src/indexer.cpp`). `MtfHash` is the move-to-front counting hash.
- `Integers`, `Vectors` and `Decimal` hold what the others share: machine integers, the vector operations
  of `src/sphinxstd.h`, and decimal texts.

`dafny verify dfyconfig.toml` checks all of it.

## Conventions

Code that changes state is a class, or a method with loops, proved against a specification; code made
of expressions is functions. A keyword bit mask is the set of its bit numbers (the code uses 32). Shifts
are divisions by powers of two, and `&` with a power of two minus one is a remainder. Integers are
unbounded except where the text says so: the event log's varints, its two- and four-byte fields and its
positions modulo 2^32, the automaton's 32-bit path codes, the 32-bit counts of the dictionary merge, the
signed and unsigned readings of document ids in filters and kill lists, the elements of `ParseArray`, and
everything in `SphinxPack`. Floats in filters are reals. Callbacks, hash functions, linguistic lookups and
files are parameters: a function, or a sequence of records.

## Where the code does less than it seems to promise

- The limits of snippets are kept by the passages' counters, and what is shown may be more. The tokens after the
  keywords are stored up to an index that counts from the window's start, also when the passage starts later;
  so what is trimmed off the counters is not what leaves the passage. `PassageDisplay.ShownLessCounted` gives the
  difference, `CountedIsShown` and `CountsEveryTrimming` say exactly when there is none, and `FrontCutOverruns` is
  an input: two passages trimmed to a limit of 20 codepoints show 29.
- Passages shown by weight need a head each in the text they are cut from, and one that starts within the passage
  before it gets none. Emission then reads past the heads: it gets through iff each passage starts after the end
  of the one before (`PassageHighlighting.HighlightPassages`, `OneHeadEach`, with an input in `OverlapLosesHead`).
- The walk of the morphology automaton has stacks for 32 levels. Its assertion holds iff no path of 32 relations
  leads from the walk's node through nodes that are not final (`MorphWalk.MorphAutomat.ListPaths`).
- The kill-list pass sorts kills as signed values but live ids as unsigned ones. It gets through iff no
  chunk's kills of live documents lie on both sides of 2^63; otherwise a kill is not found
  (`KillLists.OptimizeKlists`, with an input in `KillsOnBothSides`).
- A filter by values that was never given any accepts every row and rejects every block
  (`FilterTree.PruningExact` says exactly when pruning is sound, with an input in
  `UnsetFilterPrunesWrongly`).
- `Join` of the two- and three-way conjunctions does not take over the "uses attributes" flag of the
  filter joined in (`FilterTree.JoinFlag`, with an input in `JoinLosesFlag`). This is about the interface of
  `Join`: filters are only joined before they are optimized (`src/sphinx.cpp:17703-17706`), so no path in
  the repository joins a filter to such a conjunction.
- An exclusive multi-value range search that lands on the minimum answers without looking at the maximum
  (`FilterSearch.ExclusiveExact`, with an input in `ExclusiveFails`).
- The window's count of query words is that of its words with a term and of all query words without a term
  index ever added: those are counted when added and never taken off (`strays` in `TokenSpans.TokenSpan`, with
  an input in `StrayStaysCounted`).
- A minus sign directly after a digit is not a sign for `ParseArray`. `ParseArrays.ReadPlainly` says exactly when
  that changes a number: iff after some such sign there is a number other than zero, with no other sign before it
  (with an input in `MinusPastNumberIsLost`).

## Model

| member | source | states |
|---|---|---|
| CacheStreaming.CacheStreamer.constructor | src/sphinxexcerpt.cpp:631-682 | the log starts empty |
| CacheStreaming.CacheStreamer.StoreToken | src/sphinxexcerpt.cpp:736-775 | the log grows by exactly that token event, whichever of the one-byte and full forms it takes |
| CacheStreaming.CacheStreamer.StoreOverlap | src/sphinxexcerpt.cpp:683-726 | the log grows by exactly that overlap event, also when it is fused into the token byte before it |
| CacheStreaming.CacheStreamer.Fuse | src/sphinxexcerpt.cpp:693-709 | overwriting the last byte turns the last stored token into the same token followed by the overlap |
| CacheStreaming.CacheStreamer.StoreSkipHtml | src/sphinxexcerpt.cpp:728-734 | the log grows by exactly that event |
| CacheStreaming.CacheStreamer.StoreSPZ | src/sphinxexcerpt.cpp:777-787 | the log grows by exactly that event, zone -1 included |
| CacheStreaming.CacheStreamer.StoreTail | src/sphinxexcerpt.cpp:789-799 | the log grows by exactly that event, boundary -1 included |
| CacheStreaming.CacheStreamer.ZipInt | src/sphinxexcerpt.cpp:1008-1024 | appends the big-endian base-128 digits of the value, all but the last with the high bit |
| CacheStreaming.CacheStreamer.UnzipInt | src/sphinxexcerpt.cpp:1026-1039 | reads back the value whose digits lie at the read position, and moves just past them |
| CacheStreaming.CacheStreamer.ReplayEntry | src/sphinxexcerpt.cpp:801-1005 | one stored entry is delivered as the events it was stored for, a zone mark with the name its number has, in its own byte length |
| CacheStreaming.CacheStreamer.Tokenize | src/sphinxexcerpt.cpp:801-1005 | a replay delivers the stored events in order with their fields and then OnFinish; it stops at the first token or overlap after which the receiver asks it to, and only there; the log stays as it is for the next replay |
| CacheStreaming.FindName | src/sphinxexcerpt.cpp:963-974 | the first name with the zone's number, or none |
| CacheStreaming.FindAddZone | src/sphinxexcerpt.cpp:74-87 | the number given out leads back to the name, and the names of earlier numbers stay |
| CacheStreaming.HeardAsStored | src/sphinxexcerpt.cpp:777-787 | marks stored with names that the table has are replayed with those names |
| CacheStreaming.DeliverConcat | src/sphinxexcerpt.cpp:801-1005 | delivering two runs of events is delivering the first and, unless it was stopped, the second |
| CacheStreaming.DeliverStops | src/sphinxexcerpt.cpp:801-1005 | delivering stops right after the first event refused, and only if one is |
| CacheStreaming.HoldsReplaced | src/sphinxexcerpt.cpp:693-709 | replacing the last entry's bytes replaces just the last entry of the stream |
| TokenStream.VarintDigit | src/sphinxexcerpt.cpp:1008-1024 | the k-th byte from the end carries the k-th base-128 digit |
| TokenStream.GetLe4 | src/sphinxexcerpt.cpp:736-775 | four bytes stored low first read back as the number modulo 2^32 |
| TokenStream.ChunkAt | src/sphinxexcerpt.cpp:801-1005 | where each entry's bytes lie in the stream |
| TokenSpans.TokenSpan.constructor | src/sphinxexcerpt.cpp:1430-1436 | an empty window whose buffer is large enough for the tokens asked for and less than twice as large as needed |
| TokenSpans.TokenSpan.Reset | src/sphinxexcerpt.cpp:1438-1446 | the window is empty and the counters are zero |
| TokenSpans.TokenSpan.GetToken | src/sphinxexcerpt.cpp:1492-1497 | the i-th token of the window, wherever the ring has it |
| TokenSpans.TokenSpan.ScaleUp | src/sphinxexcerpt.cpp:1448-1462 | doubling the buffer keeps the window |
| TokenSpans.TokenSpan.Add | src/sphinxexcerpt.cpp:1464-1485 | the window gains the token at its end, growing the buffer if full, and the counters still count the window |
| TokenSpans.TokenSpan.RemoveStartingTokens | src/sphinxexcerpt.cpp:1499-1504 | the window loses its first n tokens |
| TokenSpans.TokenSpan.ShrinkHead | src/sphinxexcerpt.cpp:2444-2472 | the window loses the fewest leading tokens for it to be within the codepoint limit and the word limit, or, if none was set, within twice the words around and its query words, or for one token to remain; the counters still count it |
| TokenSpans.StrayStaysCounted | src/sphinxexcerpt.cpp:2453-2458 | a window without a keyword whose count of query words is one |
| TokenSpans.RingPush | src/sphinxexcerpt.cpp:1413-1485 | writing the slot past the ring's end appends to the sequence it stands for |
| TokenSpans.RingDrop | src/sphinxexcerpt.cpp:1499-1504 | moving the ring's start drops from the front of the sequence |
| TokenSpans.MaskedWraps | src/sphinxexcerpt.cpp:1413-1505 | a ring index wraps at most once |
| PassageWeights.CalcPassageWeight | src/sphinxexcerpt.cpp:1650-1722 | the keywords of the window are those of its word tokens, with their number, the sum of their weights, and the number of word tokens with one; first and last positions, the longest run of successive terms, and the gaps, each by what it means |
| PassageWeights.UpdateGaps | src/sphinxexcerpt.cpp:2301-2325 | the least distance of a keyword from either end and the words around all keywords |
| PassageWeigher.UpdateAgrees | src/sphinxexcerpt.cpp:2285-2325 | when tokens without a keyword leave at the front and come in at the end, the earlier weight with the gaps computed anew is the weight of the new window, in every field |
| PassageWeigher.KeysDropped | src/sphinxexcerpt.cpp:2444-2472 | keywords, counts, weight, longest run and limits stay right when tokens without a keyword leave |
| PassageWeigher.KeysKept | src/sphinxexcerpt.cpp:2099-2116 | and when such tokens come in |
| PassageWeigher.WeighsUnique | src/sphinxexcerpt.cpp:2285-2325 | for single-term words a window has one weight, so updating the gaps gives what weighing in full would |
| PassageWeigher.Weigher.Add | src/sphinxexcerpt.cpp:1464-1485 | a token comes in, the first one with the window's start, and unless it is a query word the weight stays that of the window, gaps aside |
| PassageWeigher.Weigher.Reset | src/sphinxexcerpt.cpp:1438-1446 | the window is emptied and the weight goes stale unmarked; it is not used again before a full weighing |
| PassageWeigher.Weigher.DropHead | src/sphinxexcerpt.cpp:2444-2472 | leading tokens leave, keywords are taken off the count of query words, and unless one had a term the weight stays that of the window, gaps aside |
| PassageWeigher.Weigher.Weigh | src/sphinxexcerpt.cpp:2285-2299 | after any run of these, a window with query words gets its own weight, whether weighed in full or by its gaps alone; one without keeps the old one |
| PassageWeights.WeighedIsCounted | src/sphinxexcerpt.cpp:1675-1721 | every keyword is counted at least once, and run and gap are not negative |
| PassageWeights.GapsUnique | src/sphinxexcerpt.cpp:2301-2325 | the words and the limit determine the gaps |
| PassageWeights.RunSnoc | src/sphinxexcerpt.cpp:1685-1695 | shifting and masking keeps just the terms that end a run, when every word is one term at most |
| PassageWeights.LongestSnoc | src/sphinxexcerpt.cpp:1685-1695 | the longest run found so far stays a run that exists and, for single-term words, the longest |
| PassageWeights.ChainIs | src/sphinxexcerpt.cpp:1685-1695 | a run ends at a word iff that many words up to it hold successive terms |
| PassageWeights.KeysMean | src/sphinxexcerpt.cpp:1675-1721 | mask, hits and weight in terms of the tokens and the weight of each term |
| PassageWeights.UnionIs | src/sphinxexcerpt.cpp:1675-1721 | a term is in the mask iff some word of the window has it |
| PassageWeights.HitsAre | src/sphinxexcerpt.cpp:1675-1721 | the hits are as many as the word tokens with a keyword |
| PassageFlush.CutAround | src/sphinxexcerpt.cpp:2327-2361 | no keyword is cut, at most the allowed words remain on either side and no word is cut in vain, and length, codepoints and words count exactly what is left; the code's assertions hold |
| PassageFlush.AppendBeforeAfterTokens | src/sphinxexcerpt.cpp:1724-1776 | the tokens before the first keyword, and those after the last up to an index of the window, with the counts between the keywords leaving out just these; neither loop breaks off, and the closing assertion holds |
| PassageFlush.AroundKeywords | src/sphinxexcerpt.cpp:1742-1773 | the words counted around the keywords are all there are on either side |
| PassageFlush.BetweenPositive | src/sphinxexcerpt.cpp:1775 | something is left between the keywords |
| PassageFlush.FrontIsFree | src/sphinxexcerpt.cpp:2335-2347 | a token about to be cut is no keyword |
| PassageFlush.CutGaps | src/sphinxexcerpt.cpp:2327-2361 | the words around the keywords of what is left are those that were not cut |
| PassageSelection.Selector.PickBest | src/sphinxexcerpt.cpp:1805-1813 | the best passage not shown yet in the passage order, the first one of several; none iff there is none |
| PassageSelection.Selector.TakeOut | src/sphinxexcerpt.cpp:1856-1872 | a passage loses exactly the shown keywords, their weights and their number |
| PassageSelection.Selector.ReweightAll | src/sphinxexcerpt.cpp:1856-1872 | every passage not shown is weighed over its unshown keywords |
| PassageSelection.Selector.RestoreWeights | src/sphinxexcerpt.cpp:1845-1850 | once all keywords are shown, weights are the original ones |
| PassageSelection.Selector.CollectBest | src/sphinxexcerpt.cpp:1779-1873 | every pick is the best passage left, as rated by its unshown keywords, or by its own weight once all are shown, and may be shown under the limits; picking stops only with the passages allowed, with all of them picked, at a best one left that has no room, or after one shown in part; the totals are the sums over the picks |
| PassageSelection.Selector.UnlimitedShowsAll | src/sphinxexcerpt.cpp:1800-1873 | without limits all passages with text are picked, or as many as allowed |
| PassageSelection.Selector.BestIsBest | src/sphinxexcerpt.cpp:1805-1813 | what is found in the re-weighted copy is the best passage left in terms of the original ones |
| PassageSelection.Selector.TookSnoc | src/sphinxexcerpt.cpp:1817-1834 | when one more passage may be shown, and when it is the last one, shown in part |
| PassageSelection.BeatsMeans | src/sphinxexcerpt.cpp:1375-1386 | the passage order: unshown keywords, then weight, then codepoints, then the place |
| PassageSelection.RatedWhileOpen | src/sphinxexcerpt.cpp:1856-1872 | while keywords are missing, a pick has the keywords not shown yet, their number and the sum of their weights, and one occurrence less for each one shown |
| PassageSelection.RatedSince | src/sphinxexcerpt.cpp:1845-1854 | from when all keywords are shown, a pick has its original weight, and the keywords not shown before the pick that completed them |
| PassageSelection.Selector.BestIsGreedy | src/sphinxexcerpt.cpp:1803-1813 | the best passage in the order has the most unshown keywords |
| PassageSelection.WorkingSnoc | src/sphinxexcerpt.cpp:1815-1872 | marking and re-weighting keep every unshown passage's mask, weight and count those of its unshown keywords |
| Passages.WithoutShared | src/sphinxexcerpt.cpp:1856-1872 | taking shared terms out of a mask takes out exactly their weights and number |
| Passages.CountIsSize | src/sphinxexcerpt.cpp:1710-1718 | the bits counted are the keywords of the mask |
| Passages.WeightIsSum | src/sphinxexcerpt.cpp:1710-1718 | the weight of a mask is the sum of the weights of its terms |
| Passages.WeightAdds | src/sphinxexcerpt.cpp:1710-1718 | one more term adds its own weight |
| Passages.WeightLaws | src/sphinxexcerpt.cpp:1368-1371 | the weight of a passage: its occurrences and gap count once, and the weight of its keywords as often as its run is long |
| Passages.TrimOneEnds | src/sphinxexcerpt.cpp:1897-1908 | which end of a passage loses a token: the longer side, of equal sides a space before a word, and otherwise by turns |
| Passages.TrimEvenly | src/sphinxexcerpt.cpp:1897-1926 | the longer side is cut to the length of the other before that loses any, and then both evenly |
| PassageTrimming.TrimRound | src/sphinxexcerpt.cpp:1888-1933 | one round takes one end token off each passage that has one, from the last passage on, and breaks off at the first token after which the totals fit |
| PassageTrimming.TrimPassages | src/sphinxexcerpt.cpp:1880-1939 | trimming ends at the first token after which the totals fit, or after the first round that leaves the codepoints as they are; tokens having some length, then nothing is left to trim; passages lose only their outermost stored tokens, and each as many as there were rounds that came to it |
| PassageTrimming.NextVisit | src/sphinxexcerpt.cpp:1888-1926 | what one step of a round does to the passages, by turns of the rounds |
| PassageTrimming.FitPassages | src/sphinxexcerpt.cpp:1779-1947 | the picks of CollectBest, trimmed no more than needed if they do not fit, then the longest prefix whose counters fit; for passages as they are filled nothing is dropped after trimming, trimming makes the counters fit iff what is between the keywords fits, and without force_all_words the counters of codepoints and words are within their limits; the dropping loop never pops an empty vector |
| PassageTrimming.TrimmingFits | src/sphinxexcerpt.cpp:1880-1939 | the counters of trimmed passages fit iff what is between their keywords does |
| PassageTrimming.WholeTotals | src/sphinxexcerpt.cpp:1895-1933 | the counters of trimmed passages count what is between their keywords and what is still stored around them |
| PassageDisplay.ShownLessCounted | src/sphinxexcerpt.cpp:1910-1926 | a trimmed passage still shows all its keywords, and shows more than is counted by what the tokens counted as trimmed off its back have more than those that left it |
| PassageDisplay.CountedIsShown | src/sphinxexcerpt.cpp:1752-1758 | the counters of a trimmed passage are those of the tokens it shows iff those two stretches count alike |
| PassageDisplay.CountsEveryTrimming | src/sphinxexcerpt.cpp:1752-1758 | they are under every trimming iff each token stored after the keywords is like the one as many tokens later as were cut off the front; so always if none were |
| PassageDisplay.FrontCutOverruns | src/sphinxexcerpt.cpp:1888-1933 | two passages whose counters are trimmed to 20 codepoints and which show 29 |
| PassageDisplay.TotalsShown | src/sphinxexcerpt.cpp:2620-2633 | the totals of passages counted right are those of what they show, however they were trimmed |
| PassageChoice.OrderPassages | src/sphinxexcerpt.cpp:1952-1969 | the same passages in document order, left alone if shown by weight and in that order already; the weight order is to be fixed iff not |
| PassageChoice.SelectBestPassages | src/sphinxexcerpt.cpp:1779-1972 | the best passages as CollectBest picks them, neither too few nor too many, trimmed and dropped no more than needed, in document order and of no negative weight; unless force_all_words is on, the counters are within the limits, and so is what is shown of the document if the passages are such as are counted right |
| PassageChoice.KeptShows | src/sphinxexcerpt.cpp:2620-2633 | the passages kept of such show just what their counters count |
| PassageChoice.ShownWeigh | src/sphinxexcerpt.cpp:1856-1872 | neither re-weighting nor trimming makes a weight negative |
| PassageTrimming.TrimStep | src/sphinxexcerpt.cpp:1888-1933 | trimming one token keeps the codepoint and word totals exact |
| PassageTrimming.DropLast | src/sphinxexcerpt.cpp:1940-1947 | dropping the last passage takes its counts off the totals |
| PassageTrimming.NothingLeft | src/sphinxexcerpt.cpp:1940-1947 | with no passage left the codepoint total is zero and the word total at most zero |
| PassageTrimming.WordsCounted | src/sphinxexcerpt.cpp:1908-1947 | what the running word total counts after trimming and dropping |
| PassageHighlighting.Highlighter.UpdatePassage | src/sphinxexcerpt.cpp:2607-2648 | the passage a token is shown in is still the current one, or the first that spans it after the one that ended, or of all; a head and the zone's tag iff it is that passage's first token |
| PassageHighlighting.Highlighter.OnToken | src/sphinxexcerpt.cpp:2498-2605 | a token's text is emitted iff some passage is being shown, after the zone's tag where the passage begins |
| PassageHighlighting.HeadsAreOk | src/sphinxexcerpt.cpp:2635-2644 | heads are in text order, belong to different passages, and each of those was being shown at its start |
| PassageHighlighting.OneHeadEach | src/sphinxexcerpt.cpp:2620-2647 | never more heads than passages, and as many iff each passage starts after the end of the one before |
| PassageHighlighting.OverlapLosesHead | src/sphinxexcerpt.cpp:2620-2647 | two overlapping passages that get fewer than two heads |
| PassageHighlighting.SlicesAreTexts | src/sphinxexcerpt.cpp:2620-2647 | for passages apart, the slices between the heads are the passages' own texts |
| PassageHighlighting.HighlightPassages | src/sphinxexcerpt.cpp:3115-3136 | showing passages by weight gets through iff they are apart, and then gives each passage's text once, by falling weight, between separators |
| PassageEmission.EmitPassagesOrdered | src/sphinxexcerpt.cpp:3077-3112 | gets through iff there is a head for each passage; then every slice is emitted once, between separators, by falling weight and the later passage first among equals |
| PassageEmission.BestOf | src/sphinxexcerpt.cpp:3088-3094 | the last passage of the greatest weight |
| PassageEmission.SlicesPartition | src/sphinxexcerpt.cpp:3101-3105 | the slices make up the text from the first head on |
| PassageEmission.SomeLeft | src/sphinxexcerpt.cpp:3077-3112 | while fewer passages were emitted than there are, one is left |
| PassageEmission.EmittedFront | src/sphinxexcerpt.cpp:3096-3111 | what is emitted begins with a separator and the first passage's text, and goes on as for the others |
| HitMarks.MatchedPositions | src/sphinxexcerpt.cpp:3329-3340 | exactly the keyword hits inside a mark |
| HitMarks.Explode | src/sphinxexcerpt.cpp:3323-3362 | although it appends and swap-removes as it scans, it ends with single-position marks meaning just what the marks meant |
| HitMarks.ExplodeStep | src/sphinxexcerpt.cpp:3342-3361 | replacing one long mark by its hits changes no meaning |
| HitMarks.UniqSingles | src/sphinxexcerpt.cpp:3363 | the same marks, in strict order |
| HitMarks.Fold | src/sphinxexcerpt.cpp:3365-3386 | sorted, disjoint and non-adjacent spans covering exactly the marks |
| HitMarks.ExplodeAndFold | src/sphinxexcerpt.cpp:3323-3386 | canonical spans that cover the positions of single marks and the keyword hits inside longer ones, and no others |
| HitMarks.CanonicalIsUnique | src/sphinxexcerpt.cpp:3365-3386 | only one canonical list of spans has a given cover |
| KillLists.FilterKills | src/indextool.cpp:274-282 | exactly the kills that are live, each once |
| KillLists.ZeroKilled | src/indextool.cpp:283-298 | every kill is found iff the kept kills, sorted as signed values, have one sign; then exactly the killed live ids are zeroed in place |
| KillLists.NextKill | src/indextool.cpp:290-298 | past one kill the next is found iff it has the same sign |
| KillLists.DropZeros | src/indextool.cpp:304-307 | swap-removal loses the zeroes and no live id |
| KillLists.MergeRows | src/indextool.cpp:323-339 | live ids and the chunk's own, sorted and without duplicates |
| KillLists.OptimizeKlists | src/indextool.cpp:240-349 | the pass gets through iff no chunk's kills of live documents lie on both sides of 2^63; every list rewritten is sorted, and holds an original kill just when it kills a document still live there |
| KillLists.KillsOnBothSides | src/indextool.cpp:283-298 | two documents and their kills for which it does not get through |
| KillLists.SameVisibility | src/indextool.cpp:240-349 | a document is killed by some later original list iff it is killed by some later rewritten one |
| KillLists.SameFirstKill | src/indextool.cpp:240-349 | and by the same list first |
| KillLists.SecondPassChangesNothing | src/indextool.cpp:240-349 | optimizing optimized lists gives the same lists |
| KillLists.SecondPassGetsThrough | src/indextool.cpp:240-349 | and gets through where the first pass did |
| KillLists.LiveStep | src/indextool.cpp:258-343 | what is live after a chunk is the chunk's documents and what was live and not killed by it |
| IdfMerging.IdfMerger.ReadNext | src/indextool.cpp:577-597 | a read through the 256-entry buffer is the file's next entry |
| IdfMerging.IdfMerger.PickSmallest | src/indextool.cpp:607-611 | an unfinished input whose pending id is least |
| IdfMerging.IdfMerger.MergeOne | src/indextool.cpp:613-632 | the pending entry is added to the current word or closes it, and one counter counts it |
| IdfMerging.IdfMerger.WriteWord | src/indextool.cpp:620-629 | a closed word is written unless it is unique and those are skipped |
| IdfMerging.IdfMerger.Merge | src/indextool.cpp:575-641 | the loop ends with every input read and merged |
| IdfMerging.MergeIDF | src/indextool.cpp:518-653 | strictly increasing ids; a word is there iff some input has it and, when unique words are skipped, its 32-bit count over all inputs is above one; it has that count; read = merged + total + skipped |
| IdfMerge.ConsumeOne | src/indextool.cpp:607-632 | taking the least pending entry keeps all consumed ids below what is pending |
| IdfMerge.SameWord | src/indextool.cpp:613-618 | an entry of the current word adds to its count |
| IdfMerge.Flushed | src/indextool.cpp:619-632 | closing a word completes its output |
| IdfMerge.AllMerged | src/indextool.cpp:633-641 | when all is consumed the output is the merged file |
| IdfMerge.MergedMeans | src/indextool.cpp:607-641 | the merged file in terms of the inputs' entries |
| IdfMerge.TotalIsSum | src/indextool.cpp:613-618 | a word's count is the sum of the documents of all its entries |
| IdfMerging.Refill | src/indextool.cpp:577-597 | a refilled buffer holds the entries from the read position on |
| MorphAutomaton.DecodeFromAlphabet | src/sphinxaot.cpp:193-203 | the path's base (alphabet size - 1) value, lowest digit first, modulo 2^32 |
| MorphAutomaton.ValueSnoc | src/sphinxaot.cpp:193-203 | one more character adds its code times the next power of the base |
| MorphAutomaton.DecodeInjective | src/sphinxaot.cpp:193-203 | two paths of the same length that decode alike below the wrap are the same |
| MorphAutomaton.WrapEarly | src/sphinxaot.cpp:193-203 | wrapping at every step is wrapping once |
| MorphAutomaton.TooDeepIsPath | src/sphinxaot.cpp:341 | there are not levels enough iff a path of one relation more than levels below leads through nodes that are not final |
| MorphAutomaton.RoomEnough | src/sphinxaot.cpp:318-348 | with levels enough, more of them would list nothing else: every path is listed |
| MorphAutomaton.PathsListed | src/sphinxaot.cpp:318-348 | the enumeration lists the numbers of exactly the paths to first final nodes that have room, each once, in the order of their relations |
| MorphAutomaton.FollowWalks | src/sphinxaot.cpp:296-307 | a text leads from node to node by the first relation with each character, and nowhere iff some node has none |
| MorphAutomaton.InterpretationsListed | src/sphinxaot.cpp:310-350 | the interpretations are the numbers of all paths of at most 32 relations behind the text, in order, closed by AOT_NOFORM |
| MorphWalk.MorphAutomat.ListPaths | src/sphinxaot.cpp:318-348 | the stack walk ends on every automaton, cyclic or not; its assertion holds iff no path of 32 relations to nodes that are not final leaves the node, and then it lists in order what a recursive enumeration of paths to first final nodes decodes |
| MorphWalk.MorphAutomat.GetInnerMorphInfos | src/sphinxaot.cpp:310-350 | that list for the node the text leads to, ending in AOT_NOFORM; only that mark when the text leads nowhere; the assertion holds iff no such path leaves the node behind the text |
| MorphWalk.StepFinal | src/sphinxaot.cpp:318-348 | meeting a final child lists its path and leaves the rest to do |
| MorphWalk.StepInto | src/sphinxaot.cpp:318-348 | entering an inner child leaves exactly the same to list |
| MorphWalk.MorphAutomat.BuildChildrenCache | src/sphinxaot.cpp:231-249 | the cached nodes' rows answer as the linear scan does |
| MorphWalk.MorphAutomat.NextNode | src/sphinxaot.cpp:273-293 | the same child or -1, cached or not, for every node and byte |
| MorphWalk.MorphAutomat.FindStringAndPassAnnotChar | src/sphinxaot.cpp:296-307 | the node reached by the text and the annotation character, or -1 |
| MorphWalk.InitAlphabet | src/sphinxaot.cpp:215-227 | codes are in range, no two characters share one, and a character has one iff it is in the alphabet |
| MorphWalk.ScanSnoc | src/sphinxaot.cpp:273-293 | one more relation changes a scan's answer for its own character only |
| AotTokenizer.Filter.GetToken | src/sphinxaot.cpp:1472-1576 | returns the first of what is still to return, with its blended flag and morphology, or nothing when nothing is |
| AotTokenizer.Filter.Process | src/sphinxaot.cpp:1641-1720 | a source token gives the first of what it expands to and leaves the others pending; a pass-through token is its own only one |
| AotTokenizer.Filter.FirstLemma | src/sphinxaot.cpp:1541-1574 | the first lemma is returned and the others, with the original where exact forms are indexed, are scheduled |
| AotTokenizer.Filter.NextPending | src/sphinxaot.cpp:1476-1510 | pending lemmas come in order, then the original; only the last is not blended |
| AotTokenizer.Filter.ScheduleOriginal | src/sphinxaot.cpp:1550-1559 | the original's mark goes after the codes and before the end mark |
| AotTokenizer.ReadAll | src/sphinxaot.cpp:1599-1721 | over a whole run, every source token's lemmas in order and then its original iff exact forms are indexed |
| AotTokenizer.PositionsKept | src/sphinxaot.cpp:1439-1442 | as many unblended tokens come out as went in, so positions are kept |
| AotTokenizer.ExpandsTo | src/sphinxaot.cpp:1642-1719 | when a token passes through, when a wordform replaces it, and otherwise which tokens come of it, with their texts, blended flags and morphology |
| FilterSearch.EvalValues | src/sphinxfilter.cpp:70-92 | exact membership |
| FilterSearch.EvalBlockValues | src/sphinxfilter.cpp:96-103 | whether some value lies in the block's range |
| FilterSearch.MvaValuesEval | src/sphinxfilter.cpp:405-458 | true iff the sorted values and the sorted attribute intersect, with the left bound carried over |
| FilterSearch.MvaRangeEval | src/sphinxfilter.cpp:482-508 | what the range search answers, on any range |
| FilterSearch.InclusiveExact | src/sphinxfilter.cpp:482-508 | an inclusive search answers whether some element is in range iff min <= max or the minimum is absent |
| FilterSearch.ExclusiveExact | src/sphinxfilter.cpp:482-508 | an exclusive search answers that iff whatever follows a hit of the minimum is below the maximum |
| FilterSearch.ExclusiveFails | src/sphinxfilter.cpp:498 | an attribute for which the exclusive search is wrong |
| FilterTree.PruningExact | src/sphinxfilter.cpp:95-253 | for a row that passes and a block that holds it: the block passes iff every value-list filter outside a negation was given its values |
| FilterTree.LeafPruning | src/sphinxfilter.cpp:168-253 | the same for one filter |
| FilterTree.UnsetFilterPrunesWrongly | src/sphinxfilter.cpp:70-103 | a filter without values passes a row and rejects the row's block |
| FilterTree.AttrLaws | src/sphinxfilter.cpp:106-256 | a range of one value is that value, an inclusive range is the values in it, and an exclusive one stops short of both ends |
| FilterTree.WeightLaws | src/sphinxfilter.cpp:361-388 | the same for weights |
| FilterTree.IdLaws | src/sphinxfilter.cpp:296-359 | the same for document ids, compared as unsigned numbers |
| FilterTree.FloatLaws | src/sphinxfilter.cpp:258-293 | the same for floats |
| FilterTree.MvaLaws | src/sphinxfilter.cpp:390-508 | the same for multi-value attributes, of which one value in range is enough |
| FilterTree.NotNegates | src/sphinxfilter.cpp:692-718 | a negation passes the rows its filter does not, and every block |
| FilterTree.BlockTight | src/sphinxfilter.cpp:95-256 | a static attribute range or value passes a block iff some value within the block bounds is in it |
| FilterTree.JoinIsConjunction | src/sphinxfilter.cpp:511-741 | joining two filters is their conjunction, for rows and for blocks |
| FilterTree.OptimizeKeepsMeaning | src/sphinxfilter.cpp:670-700 | optimizing changes neither evaluation nor pruning, and makes conjunctions of two and three filters special ones |
| FilterTree.JoinFlag | src/sphinxfilter.cpp:539-741 | exactly when the joined tree's flag still tells whether attributes are read |
| FilterTree.JoinLosesFlag | src/sphinxfilter.cpp:591-700 | two filters whose join reads attributes and says it does not |
| FilterTree.AttrsIrrelevant | src/sphinxfilter.cpp:296-353 | a tree that reads no attributes evaluates alike on rows that differ in them |
| FilterTree.EvalLeaf | src/sphinxfilter.cpp:168-508 | what each kind of filter asks of a row, the searches included |
| FilterTree.EvalLeafBlock | src/sphinxfilter.cpp:95-353 | what each kind of filter asks of a block |
| FilterNodes.EvalNode | src/sphinxfilter.cpp:526-711 | a filter node on the heap passes a row iff the tree it stands for does |
| FilterNodes.EvalNodeBlock | src/sphinxfilter.cpp:531-718 | and so for blocks |
| FilterNodes.PushDown | src/sphinxfilter.cpp:539-544 | the joined filter takes the last argument's place together with it; every node is still held at most once and the joined tree by none |
| FilterNodes.JoinNode | src/sphinxfilter.cpp:539-741 | whatever the kind of the node, it comes to stand in place for the join of the two trees, and ownership stays unique |
| FilterNodes.TakeOver | src/sphinxfilter.cpp:670-687 | a deleted node's arguments are held by the new one alone |
| FilterNodes.OptimizeNode | src/sphinxfilter.cpp:670-687 | the node returned stands for the optimized tree and replaces the deleted one |
| Vectors.BinarySearch | src/sphinxstd.h:672-702 | the position of the value, or none iff it does not occur |
| Vectors.Uniq | src/sphinxstd.h:712-728 | the same elements, strictly ascending |
| Vectors.RemoveFastElements | src/sphinxstd.h:857-863 | swap-removal loses the element removed and no other |
| SearchRequest.SizeIsExact | mysqlse/ha_sphinx.cc:1851-1888 | the size computed in advance is the number of bytes of the request, for every query |
| SearchRequest.FiltersLength | mysqlse/ha_sphinx.cc:1862-1872 | the same of the filters, of every kind |
| SearchRequest.OverridesLength | mysqlse/ha_sphinx.cc:1880-1886 | and of the overrides |
| RequestBuilding.RequestBuilder.SendBytes | mysqlse/ha_sphinx.cc:1829-1843 | the bytes are appended if they fit; otherwise nothing is written and the overrun is recorded |
| RequestBuilding.RequestBuilder.SendUint64 | mysqlse/ha_sphinx.cc:605 | eight bytes, high word first |
| RequestBuilding.RequestBuilder.SendString | mysqlse/ha_sphinx.cc:606 | the length and the bytes |
| RequestBuilding.RequestBuilder.SendFilter | mysqlse/ha_sphinx.cc:1927-1953 | writes a filter in exactly the bytes counted for it |
| RequestBuilding.RequestBuilder.SendOverride | mysqlse/ha_sphinx.cc:1988-2003 | writes an override in exactly the bytes counted for it |
| RequestBuilding.ComputeSize | mysqlse/ha_sphinx.cc:1850-1888 | the loops add up the request size |
| RequestBuilding.RequestBuilder.BuildRequest | mysqlse/ha_sphinx.cc:1846-2015 | never -1: the buffer is filled exactly with the request, whose length field is right, and searchd reads the query from it |
| RequestReading.RequestReadBack | src/searchd.cpp:6358-6640 | what searchd reads from a request, field by field in its own order, is the query sent, every number modulo its width, and it reads every byte |
| RequestReading.QueryWhole | src/searchd.cpp:6358-6640 | and so the query itself when its numbers are within their widths and an expression comes only with the ranker that has one |
| ParseArrays.CountValues | mysqlse/ha_sphinx.cc:1311-1324 | the counting pass counts the numbers of the text |
| ParseArrays.ParseArray | mysqlse/ha_sphinx.cc:1302-1356 | the second pass stores exactly the numbers counted, each modulo the element's width; no array iff there are none |
| ParseArrays.RunNumber | mysqlse/ha_sphinx.cc:1326-1352 | what a run of digits contributes, and where the scan goes on |
| ParseArrays.ReadPlainly | mysqlse/ha_sphinx.cc:1331-1352 | the numbers read are those of the ordinary reading iff no minus sign directly after a digit has a number other than zero after it, with no other sign before that |
| ParseArrays.MinusPastNumberIsLost | mysqlse/ha_sphinx.cc:1340-1348 | a text whose second number loses its sign |
| ParseArrays.FitStep | mysqlse/ha_sphinx.cc:1336-1341 | losing high bits at every digit is losing them once |
| ParseArrays.FitIs | mysqlse/ha_sphinx.cc:1302-1356 | what an element holds is within its range and differs from the number by a multiple of 2^32 or 2^64 |
| SphinxPack.PackI64Exact | api/sphinxapi.php:133-179 | the two words are the number's 64-bit two's complement, negative texts included |
| SphinxPack.PackU64Exact | api/sphinxapi.php:182-238 | the two words are the number |
| SphinxPack.CutValue | api/sphinxapi.php:157-160 | the parts cut off a decimal text at its last thirteen characters make up its magnitude |
| SphinxPack.FactorBits | api/sphinxapi.php:162-165 | the 10^13 split: h * 2^32 + l is the number |
| SphinxPack.Split7Exact | api/sphinxapi.php:285-296 | the 10^7 split with its carry: h * 10^7 + l is the number |
| SphinxPack.Split5Exact | api/sphinxapi.php:257-266 | the 10^5 split is exact, and its low part is never 100000 at the test |
| SphinxPack.UnpackU64Text | api/sphinxapi.php:241-303 | unpacking prints the number held, in its canonical text |
| SphinxPack.UnpackI64Text | api/sphinxapi.php:307-373 | unpacking prints the signed number held, in its canonical text |
| SphinxPack.RoundTripI64 | api/sphinxapi.php:133-373 | unpack(pack(v)) is v, to the letter, whichever platforms pack and unpack |
| SphinxPack.RoundTripU64 | api/sphinxapi.php:182-303 | the same for unsigned numbers |
| SphinxPack.PackFloats | api/sphinxapi.php:157-165 | every intermediate product and sum of the packing is an integer below 2^53 |
| SphinxPack.Split7Floats | api/sphinxapi.php:335-358 | and so of the unpacking |
| SphinxPack.FloorSurvivesRounding | api/sphinxapi.php:162-165 | the floor of a rounded quotient is the floor of the exact one |
| Decimal.SplitText | api/sphinxapi.php:365-372 | printing a number in two parts, the lower zero-padded, prints the number |
| Decimal.CanonicalIsDec | api/sphinxapi.php:298-303 | a number has one canonical text |
| MtfHash.Hash.Locate | src/indexer.cpp:109-118 | the walk ends at the key's entry or, iff there is none, at the chain's end |
| MtfHash.Hash.Append | src/indexer.cpp:120-135 | a new entry goes last in its chain and nothing else changes |
| MtfHash.Hash.MoveToFront | src/indexer.cpp:136-145 | relinking moves the entry to the front of its chain and nothing else changes |
| MtfHash.Hash.Add | src/indexer.cpp:107-147 | the key's entry, present once, with every other chain as it was |
| MtfHash.Hash.GetWordID | src/indexer.cpp:273-286 | every entry's value stays its key's number of calls, and every word called has an entry |
| MtfHash.Hash.FindFirst | src/indexer.cpp:149-156 | the first entry of the first slot that has any |
| MtfHash.Hash.FindNext | src/indexer.cpp:158-169 | the next entry of the chain, or else of the next slot that has any |
| MtfHash.Hash.Collect | src/indexer.cpp:248-255 | the enumeration visits every word once |
| MtfHash.CountWords | src/indexer.cpp:239-286 | after any sequence of calls, every distinct word once with its number of calls |
| MtfHash.ToFrontPermutes | src/indexer.cpp:136-145 | moving to the front loses, duplicates and adds nothing |
| MtfHash.PassedNext | src/indexer.cpp:158-169 | a step of the enumeration passes exactly one entry |
| MtfHash.FlatDistinct | src/indexer.cpp:107-147 | no word occurs twice among all entries |

## Left out

- FilterTree.EvalLeaf: floats are reals, so NaN is not modelled; string and JSON filters are left out.
- FilterTree.EvalLeafBlock: likewise.
- CacheStreaming.CacheStreamer.StoreToken: start offsets are taken below 2^31.
- HitMarks.ExplodeAndFold: the branch for exact phrases, which keeps marks unexploded, is not modelled.
- PassageChoice.SelectBestPassages: limits are taken as non-negative; the sort by position is stated as a sorted permutation and done by insertion.
- TokenSpans.TokenSpan.Add: term indexes from 32 on, whose shift is undefined in C++, are not modelled.
- PassageFlush.CutAround: the rest of FlushPassage, which compares the passage with the last one by a quotient of floats and keeps the best weights seen, is not modelled.
- PassageWeights.CalcPassageWeight: the window is the sequence that the ring buffer is shown to stand for; for words of several terms, which the ring buffer's Add never makes, the longest run found is a run but perhaps not the longest.
- Vectors.Sort: sorting is stated as a sorted permutation and done by insertion; Sphinx's own introsort is not modelled.
- IdfMerging.MergeIDF: file headers, document totals and truncated files are not modelled; files are sequences of records. BuildIDF, with the same skeleton, is left out.
- MorphWalk.MorphAutomat.ListPaths: what a failed assertion leads to is not modelled; the walk stops there.
- PassageHighlighting.HighlightPassages: what a token emits, its highlighting marks included, is given; only passages shown by weight are modelled, not the chunk separators between passages shown in document order.
- AotTokenizer.ReadAll: alphabets, encodings, frequent words, the lemmatizer, lemma generation and wordforms are functions; the lemmatizer is taken to give at most ten codes, and texts to fit their buffers.
- MtfHash.CountWords: the sorting and cutting of the word list by Save is not modelled; the CRC32 is any function, and keys end at their first zero.
- RequestBuilding.RequestBuilder.BuildRequest: sizes are unbounded, floats are their bits, and parsing of the query into fields is left out, except for ParseArray.
- RequestReading.RequestReadBack: for strings and lists shorter than 2^31 and rankers that searchd knows; its limits on counts, other protocol versions, its lower-casing and what it makes of the values read are not modelled.
- ParseArrays.ParseArray: signed overflow, undefined in C++, is taken to wrap around.
- SphinxPack.PackI64Exact: decimal points, exponents, blanks and plus signs, which PHP also calls numeric, and the bcmath branches are left out; `pack` of a float above 2^31 is taken to store its low 32 bits.
- The extractor's state machines, zones and boundaries, the query parser, the tokenizers and the network and MySQL glue are not part of this model.
