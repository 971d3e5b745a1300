# MaluDB core, modelled and proved in Dafny

MaluDB is a memory database built as a PostgreSQL extension with small daemons beside it. This project models the
parts of it that carry real algorithms, in the form the code has them (heap arrays sifted in place, a select loop over
descriptors, a parser stepping a cursor), and proves what those algorithms are for.

* **Vector search.** `Selection` and `Heaps` hold the bounded heap that every search uses and the relation "the kept
  entries are the k nearest of those offered". `TopK` is the parallel aggregate with its byte-level hand-offs, and the
  exact scan. `Metrics` is the three distances. `Bitset`, `Beam`, `Nsw`, `BuildSpec`, `AnnTheorems`, `AnnBuild`,
  `Determined` and `LostNodes` are the navigable-graph index: the search, the build and what follows for whole build
  runs. `Blob` is the stored form of the graph, and `AnnStore` goes from table rows through the blob to answers.
* **Outlines.** `Outline`, `PdfOutline` and `Markdown` flatten documents into levelled entries and rebuild the tree.
* **Tokens.** `JsonScan` and `JsonMeaning` are the hand-written JSON field scanner and its meaning, `Base64` and `Jwt`
  the token layer below it.
* **Daemons.** `ChildLoop` runs an external tool, `Substitute`, `Rescan` and `Broker` fill its argument templates in
  two different ways, `WebSocket` frames messages, `VectorText` reads and prints vectors.
* **Shared.** `Bytes` has the fixed-width integers on the wire, `Letters` the letters and digits of ASCII, `Options` the
  optional result, `Seqs` maps and joins of sequences.

Each algorithm has two layers: functions, relations and lemmas that say what it must do for every input and every run,
and methods or classes over arrays and fields that are proved to do it.

Some results worth knowing before reading the table:

* An index built with m >= n - 1 answers every query exactly when the beam is at least n wide
  (`AnnTheorems.IndexIsExact`, and from rows through the stored blob to the answer `AnnStore.BuildThenSearch`). The
  bound on m is sharp: for every metric, smaller m and build width there are inputs on which the build cuts nodes off for
  good (`LostNodes.LoseNodes`).
* With distinct distances nothing about a search or a build is left open (`Determined.SearchIsDetermined`,
  `Determined.BuildIsDetermined`), and a search can stop before a nearer node that lies behind a farther one
  (`Determined.EarlyStopExample`).
* The builder's parent of an outline entry is the tightest enclosing entry exactly when levels never rise by more than
  one (`Outline.ParentIsTightestIffGentle`); an outline that skips a level breaks it (`Outline.SkippedLevelExample`).
* Flattening a PDF outline keeps every destination if and only if every list of destinations comes right after one
  (`PdfOutline.EmitsAllIff`).
* The placeholder loop that rescans after each replacement need not stop. For values that are templates themselves, the
  walk over all keys stops exactly when no key that is in play has a value holding the key itself (`Rescan.WalkIff`),
  and on brace-free arguments it agrees with the single-pass broker under an exact condition (`Broker.AgreeIff`).
* Base64url decoding inverts encoding, but distinct texts can decode alike (`Base64.SpareBitsAreIgnored`). Encoding what
  was decoded gives the text back, padding and line breaks apart, exactly when there is no lone digit and the spare bits
  are zero (`Base64.EncodeInvertsDecode`).
* A child whose output fits its buffer exactly is sent SIGTERM, since the loop looks at the room in the buffer before
  it reads (`ChildLoop.ExactFitIsSignalled`). Without a failed deadline check the signal is sent if and only if the
  output is at least as long as the buffer (`ChildLoop.SignalledIffFull`).

Where the code and its comments disagree the model follows the code:

* The comment on `_is_leaf_in_outline` makes an entry internal as soon as a deeper entry follows, but the code waits for
  one exactly one level deeper (`Outline.UndocumentedLeafExample`). The two agree if and only if every entry with a
  deeper one after it also has one exactly one level deeper in its stretch (`Outline.LeavesAsDocumentedIff`).
* `recv_frame` promises a protocol error for malformed input. A stream that ends inside a frame raises an index or
  unpacking error instead if and only if the header is cut or the payload of a masked frame is missing
  (`WebSocket.TruncatedIff`). It raises the protocol error for an unmasked frame, and an empty masked final frame without
  its key is returned as if it were complete (`WebSocket.CutStream`, at concrete streams `WebSocket.CutStreamExamples`).
* A comment in the build says that the search handles the index of an empty compartment, but its header has dimension
  0, so every query with components is refused for its dimension (`AnnStore.EmptyIndexAnswers`).

Distances are real numbers, integers are unbounded except where a width is written out (the 32-bit accumulator of the
decoder, 64-bit words of the bit set, the fields on the wire). Rows, clocks, system-call answers, assigned identifiers
and the way reads are cut into chunks are parameters or free choices.

## Model

| member | source | states |
|---|---|---|
| Selection.OfferReplaces | src/maludb_topk.c:206-223 | replacing the farthest kept entry by a nearer one keeps the k nearest of everything offered |
| Selection.OfferRejected | src/maludb_topk.c:206-224 | turning down an entry no nearer than every kept one keeps the k nearest of everything offered |
| Selection.MergeSelects | src/maludb_topk.c:301-327 | the k nearest of two partial selections are the k nearest of both pools together |
| Selection.SubsetNeverBeats | src/maludb_search.c:225-287 | at every rank a sorted sub-collection is no nearer than the sorted whole |
| Selection.AnswerIsTopK | src/maludb_topk.c:455-466 | a finalized answer has exactly the k smallest distances in order, and exactly those rows when distances differ |
| Selection.AnswersAgree | src/maludb_topk.c:455-466 | two answers over the same rows in any order have equal distances, and equal rows when distances differ |
| Heaps.RootIsExtreme | src/maludb_ann.c:137-196 | the root of a heap is nearest (or farthest) of all its entries |
| Heaps.UpRestores | src/maludb_topk.c:106-116 | sifting up repairs a heap whose last entry may be out of place |
| Heaps.DownRestores | src/maludb_topk.c:118-129 | sifting down repairs a heap whose root may be out of place |
| Heaps.MoveUp | src/maludb_search.c:104-114 | the in-place loop computes the sift-up function, which permutes the entries |
| Heaps.MoveDown | src/maludb_search.c:116-127 | the in-place loop computes the sift-down function, which permutes the entries |
| Heaps.MaxHeapPush | src/maludb_ann.c:171-196 | the bounded heap stays a heap and holds the old entries with the new one added, or put in place of the farthest, or left out |
| Heaps.PushSelects | src/maludb_ann.c:171-196 | what a bounded push leaves is the cap nearest of everything offered so far |
| Heaps.MinHeapPush | src/maludb_ann.c:137-149 | the candidate heap stays a heap with one entry more |
| Heaps.MinHeapPop | src/maludb_ann.c:151-167 | the nearest candidate leaves and the rest is a heap of the remaining entries |
| Heaps.ScanInto | src/maludb_search.c:225-282 | a scan of rows through the bounded heap ends with the k nearest of all of them |
| Heaps.InsertionSort | src/maludb_ann.c:303-312 | sorts in place by distance and then index: sorted and a permutation |
| Bytes.BeRoundTrip | src/maludb_topk.c:345-376 | an integer written most significant byte first reads back, for every width it fits |
| Bytes.LeRoundTrip | src/maludb_ann.c:510-535 | an integer written least significant byte first reads back, for every width it fits |
| Bytes.BeByteAt | src/maludb_topk.c:345-376 | byte i of w, most significant first, is the number divided by 256 to the power w - 1 - i, modulo 256 |
| Bytes.LeByteAt | src/maludb_ann.c:510-535 | byte i, least significant first, is the number divided by 256 to the power i, modulo 256 |
| TopK.RankIsNumericalOrder | src/maludb_topk.c:106-129 | the rank of two bit patterns orders them as the numbers that sign, exponent and fraction of a binary64 value stand for |
| TopK.TopKState.constructor | src/maludb_topk.c:169-183 | a fresh valid state with nothing in its heap |
| TopK.TopKState.Offer | src/maludb_topk.c:185-224 | one row offered to the state's heap under its capacity |
| TopK.TopKState.Combine | src/maludb_topk.c:301-327 | the state then holds the k nearest of both states' rows |
| TopK.TopKState.Serialize | src/maludb_topk.c:345-376 | the bytes are the encoding of the whole state: counts, metric, query and every row |
| TopK.MessageLayout | src/maludb_topk.c:333-366 | byte by byte: capacity, count, metric and dimension at offsets 0, 4, 8 and 12, most significant byte first, then the query |
| TopK.RowLayout | src/maludb_topk.c:333-375 | byte by byte: each row starts where the one before ends, with id, distance, similarity, length and text |
| TopK.Deserialize | src/maludb_topk.c:382-438 | from the encoding of any state the very same state comes back, heap order included |
| TopK.Scan | src/maludb_topk.c:230-296 | a worker's state holds the k nearest of its rows, there is no state without a row, and the first row refuses a limit that is not positive |
| TopK.CombineStates | src/maludb_topk.c:301-327 | merging with its missing-state cases holds the k nearest of both pools |
| TopK.Finalize | src/maludb_topk.c:455-466 | the rows held, in rank order |
| TopK.Run | src/maludb_topk.c:230-438 | any merge tree over any split of the rows, every hand-off through bytes, ends with the k nearest of all rows, or refuses a limit that is not positive as soon as there is a row |
| TopK.ParallelSearch | src/maludb_topk.c:230-466 | the whole parallel aggregate answers with the sorted k nearest of all rows, and refuses a limit that is not positive exactly when there is a row |
| TopK.ParallelIsSequential | src/maludb_topk.c:230-466 | the parallel answer equals a sequential scan's: the sorted k smallest distances, and the same rows when distances differ |
| TopK.ExactSearch | src/maludb_search.c:164-287 | a limit that is not positive is refused; otherwise the sorted k nearest of all rows |
| Metrics.ComputeDistance | src/maludb_search.c:63-91 | the accumulating loop computes the metric, and vectors of different dimension are refused |
| Metrics.DistanceSymmetric | src/maludb_ann.c:63-80 | every metric is symmetric |
| Metrics.DotOfAxis | src/maludb_search.c:79-90 | the product with an axis reads one component |
| Metrics.DotIsLinear | src/maludb_search.c:79-90 | the product is linear, so with the axes only one function is left |
| Metrics.SquaredL2Separates | src/maludb_search.c:72-78 | the squared distance is zero between equal vectors and positive otherwise |
| Metrics.UnitDistances | src/maludb_search.c:63-91 | on unit vectors the squared distance is twice the cosine distance, the inner product's one less than it, and the cosine distance zero between equal vectors only |
| Metrics.UnitMetricsRankAlike | src/maludb_search.c:63-91 | on unit vectors any two metrics order any two rows alike |
| Metrics.UnitRankingsAgree | src/maludb_search.c:256-287 | on unit vectors the full ranking by distance and position is the same under all three metrics |
| Metrics.UnitSearchesAgree | src/maludb_search.c:256-287 | on unit vectors with distinct distances the k rows returned are the same under all three metrics |
| Bitset.OrBitSets | src/maludb_ann.c:226-230 | setting a bit of a word sets that bit and no other |
| Bitset.Bitset.constructor | src/maludb_ann.c:205-212 | a fresh bit set is the empty set of nodes |
| Bitset.Bitset.Reset | src/maludb_ann.c:214-218 | after a reset the set is empty |
| Bitset.Bitset.Test | src/maludb_ann.c:220-224 | membership in the set that the words stand for |
| Bitset.Bitset.Set | src/maludb_ann.c:226-230 | adds exactly one node to the set that the words stand for |
| Beam.StopIsLocallyOptimal | src/maludb_ann.c:262-294 | when the search stops, each neighbour of a result is a result or no nearer than the worst of a full result set |
| Beam.StopsEarly | src/maludb_ann.c:262-294 | stopping at a candidate farther than the worst result leaves every result expanded and every visited node outside no nearer |
| Beam.StopsEmpty | src/maludb_ann.c:262-294 | running out of candidates leaves every result expanded and every visited node outside no nearer |
| Beam.WideBeamFindsAll | src/maludb_ann.c:246-294 | a beam at least as wide as the reachable set ends with exactly the reachable set |
| Beam.StopFills | src/maludb_ann.c:262-294 | the results number as many as the beam is wide, or as the reachable nodes if they are fewer |
| Nsw.Queue | src/maludb_ann.c:285-289 | a neighbour enters both heaps exactly when there is room or it is nearer than the worst result |
| Nsw.Visit | src/maludb_ann.c:283-289 | visiting a neighbour marks it, keeps the search invariant and queues it at most once |
| Nsw.Expand | src/maludb_ann.c:278-290 | after the edge loop all neighbours are visited, and candidates grew by no more than the visited set did |
| Nsw.Turn | src/maludb_ann.c:274-294 | a turn either stops soundly or expands the nearest node still waiting, keeping the invariant while unvisited plus candidates falls |
| Nsw.Roam | src/maludb_ann.c:246-294 | the loop ends, stays in its buffers and stops soundly, having expanded nodes in the order in which they were due and no others, for every graph with valid edges |
| Nsw.NswSearch | src/maludb_ann.c:246-316 | the first k of the sorted results of a sound stop after expanding what was due in order, for every k, ef, capacity and query, within the buffers given |
| Determined.SearchIsDetermined | src/maludb_ann.c:246-316 | with distinct distances a search has one answer: order of expansion, stop and results are fixed |
| Determined.EarlyStopExample | src/maludb_ann.c:274-294 | a graph in which the only answer misses a nearer node that lies behind a candidate the search must not expand |
| BuildSpec.SetEdgeSelects | src/maludb_ann.c:320-342 | offering an edge to a row keeps the m nearest of all edges ever offered to it |
| BuildSpec.LinksKeep | src/maludb_ann.c:500-505 | linking a new node to what was found keeps every row the m nearest of its own offers |
| BuildSpec.InsertKeeps | src/maludb_ann.c:487-507 | one insertion keeps the build invariant |
| AnnTheorems.BuildKeeps | src/maludb_ann.c:487-507 | after every insertion of every build run, each row holds the m nearest of all edges offered to it |
| Determined.BuildIsDetermined | src/maludb_ann.c:487-507 | with distinct distances from every node, any two build runs have the same searches and rows after every insertion |
| AnnTheorems.RowsAreClean | src/maludb_ann.c:320-342 | after every insertion rows have no self-loop and no duplicate, point at inserted nodes only and cache true distances |
| AnnTheorems.OneWayEdge | src/maludb_ann.c:320-342 | an edge without its reverse means the other row is full of entries no farther |
| AnnTheorems.NothingEvicted | src/maludb_ann.c:477-507 | with m >= n - 1 no edge is lost and the graph is symmetric |
| AnnTheorems.AllReachable | src/maludb_ann.c:477-507 | with m >= n - 1 every node is reachable from the entry node |
| AnnTheorems.ExactOverReachable | src/maludb_ann.c:246-316 | with ef at least the reachable count the search is exact over the reachable nodes |
| AnnTheorems.IndexIsExact | src/maludb_ann.c:246-507 | with m >= n - 1 and ef >= n the answer is the first min(k, n) of all nodes by distance and index |
| AnnTheorems.FoundIsFound | src/maludb_ann.c:296-315 | results are distinct nodes with true distances in order, at least one and at most k |
| AnnTheorems.FoundCount | src/maludb_ann.c:246-316 | a search returns exactly as many results as limit, beam and reachable nodes allow |
| AnnTheorems.NeverBeatsExact | src/maludb_ann.c:296-315 | at every rank the index is no nearer than the exact scan over the same rows |
| AnnBuild.FindSlot | src/maludb_ann.c:326-331 | the first empty slot of a row, or the farthest entry of a full one |
| AnnBuild.SetEdgeSlot | src/maludb_ann.c:320-342 | the slots then hold the row with the edge offered to it |
| AnnBuild.LinkFound | src/maludb_ann.c:500-505 | edges are set both ways for everything found |
| AnnBuild.InsertNode | src/maludb_ann.c:487-507 | one turn of the build loop extends the run by one step |
| AnnBuild.Build | src/maludb_ann.c:348-507 | bad m, bad ef, no rows and the first row of another dimension are told apart; otherwise the graph is the outcome of a build run over all rows |
| AnnBuild.Search | src/maludb_ann.c:576-643 | bad limit and wrong dimension are told apart; an empty graph gives no hits; otherwise a sound search of any graph with valid edges under the given metric |
| AnnBuild.BuiltIsSearchable | src/maludb_ann.c:438-507 | a built graph has valid edges and its rows list the neighbours of its run |
| LostNodes.ClusterIsComplete | src/maludb_ann.c:487-507 | when a search is at least as wide as a row, the first m + 1 nodes of any build are all linked to each other |
| LostNodes.OnlyHubsAreFound | src/maludb_ann.c:487-507 | when a search is narrower than a row and w nodes are nearest to all, every insertion finds just those w nodes |
| LostNodes.HubsKeepToThemselves | src/maludb_ann.c:320-342 | then the rows of the first m + 1 nodes never point outside them |
| LostNodes.FarNodesAreLost | src/maludb_ann.c:320-507 | for every build width, on inputs whose first m + 1 nodes keep to themselves no other node stays reachable |
| LostNodes.LoseNodes | src/maludb_ann.c:348-507 | for every metric, every 0 < m < n - 1 and every ef > 0 there are rows on which the build leaves every node after the first m + 1 unreachable |
| Blob.BlobSize | src/maludb_ann.c:510-535 | the blob is 32 + n(8 + 4m + 4dim) bytes long |
| Blob.BlobHeader | src/maludb_ann.c:518-530 | byte by byte: "ANN1", then metric, dim, m, ef, number of nodes, entry and zero at offsets 4 to 28, least significant byte first |
| Blob.BlobSections | src/maludb_ann.c:532-535 | byte by byte: the chunk ids from offset 32, the edges row by row after them, the embeddings row by row after those |
| Blob.BlobRoundTrip | src/maludb_ann.c:510-572 | decoding what was written gives back header, chunk ids, edges and embeddings of every well-formed graph |
| AnnStore.Save | src/maludb_ann.c:510-535 | the data written for a built graph: ids, words and the neighbours of its build run, all fitting their fields |
| AnnStore.BuildBlob | src/maludb_ann.c:348-572 | the blob for the chunks of a compartment, header only when there are none, which decodes to what was written, or the reason for refusing |
| AnnStore.EmptyIndexBytes | src/maludb_ann.c:390-406 | the index of an empty compartment is a 32-byte header: the metric as 1, 2 or 3, no dimension, m, ef, no nodes and entry -1 |
| AnnStore.Load | src/maludb_ann.c:543-572 | the graph of a decoded index has its edges, embeddings, entry and metric |
| AnnStore.SearchDecoded | src/maludb_ann.c:576-643 | bad limit and decoding errors come back as such, and searching an index that a build wrote is a sound search of the graph of its run, with the metric stored or the one given |
| AnnStore.AnswerFills | src/maludb_ann.c:576-643 | whatever beam is asked for, the answer has k chunks, or all reachable ones if they are fewer |
| AnnStore.EmptyIndexAnswers | src/maludb_ann.c:390-405 | the header-only index gives an empty answer exactly to a query of no components |
| AnnStore.BuildThenSearch | src/maludb_ann.c:348-643 | built, written, read back and searched with m >= n - 1 and a beam of n, the answer is the first min(k, n) chunks by distance and position |
| Outline.GentleParent | services/maludb-pageindexd/src/maludb_pageindexd/builder.py:184-193 | when levels rise by at most one the resolved parent is the tightest enclosing entry |
| Outline.ParentIsTightestIffGentle | services/maludb-pageindexd/src/maludb_pageindexd/builder.py:184-193 | every parent is the tightest enclosing entry if and only if levels never rise by more than one |
| Outline.SkippedLevelExample | services/maludb-pageindexd/src/maludb_pageindexd/builder.py:171-193 | an outline with a skipped level whose resolved parent does not enclose the entry and is itself called a leaf |
| Outline.LeafMeansNoEnclosedChild | services/maludb-pageindexd/src/maludb_pageindexd/builder.py:171-181 | for every outline, a leaf is an entry that encloses none of the entries resolved to it |
| Outline.LeafMeansChildless | services/maludb-pageindexd/src/maludb_pageindexd/builder.py:171-193 | when levels rise by at most one, a leaf is an entry nobody has as parent |
| Outline.LeafAsDocumentedIff | services/maludb-pageindexd/src/maludb_pageindexd/builder.py:171-181 | on an entry the code and its documentation agree if and only if the entry has nothing deeper after it or something exactly one level deeper in its stretch |
| Outline.LeavesAsDocumentedIff | services/maludb-pageindexd/src/maludb_pageindexd/builder.py:171-181 | the same for all entries at once, which covers outlines that skip no level |
| Outline.UndocumentedLeafExample | services/maludb-pageindexd/src/maludb_pageindexd/builder.py:171-181 | levels 0, 2: the first entry is a leaf by the code and not by its documentation |
| Outline.IsLeafInOutline | services/maludb-pageindexd/src/maludb_pageindexd/builder.py:171-181 | the forward scan decides the leaf predicate |
| Outline.FindParent | services/maludb-pageindexd/src/maludb_pageindexd/builder.py:184-204 | the backward scan finds the nearest earlier entry one level up, or nothing |
| Outline.BuildNodes | services/maludb-pageindexd/src/maludb_pageindexd/builder.py:98-132 | every node is recorded with its leaf flag and the identifier its parent was already given |
| PdfOutline.Walker.Walk | services/maludb-pageindexd/src/maludb_pageindexd/parsers/pypdf_parser.py:76-122 | the walker appends the flattened outline, numbered on from the shared counter |
| PdfOutline.EmittedOutline | services/maludb-pageindexd/src/maludb_pageindexd/parsers/pypdf_parser.py:76-122 | ordinals are 0 to n - 1 and levels start at 0 and rise by at most one |
| PdfOutline.EmitsAllIff | services/maludb-pageindexd/src/maludb_pageindexd/parsers/pypdf_parser.py:76-122 | every destination is emitted once, in document order and at its depth, if and only if every list with destinations comes right after one |
| PdfOutline.OrphanExample | services/maludb-pageindexd/src/maludb_pageindexd/parsers/pypdf_parser.py:90-94 | a list at the front is left out with its destinations |
| PdfOutline.FlattenThenRebuild | services/maludb-pageindexd/src/maludb_pageindexd/parsers/pypdf_parser.py:88-122 | the builder's parent of every emitted entry is the destination it was nested under |
| Markdown.ScanHeaders | services/maludb-pageindexd/src/maludb_pageindexd/parsers/markdown_parser.py:34-52 | exactly the header lines outside fenced blocks, in order, with their levels and titles |
| Markdown.ExtractOutline | services/maludb-pageindexd/src/maludb_pageindexd/parsers/markdown_parser.py:30-76 | one entry per header with its line range, or one entry for the whole document when there is none |
| Markdown.HeadersAreUnique | services/maludb-pageindexd/src/maludb_pageindexd/parsers/markdown_parser.py:34-52 | the list of headers of a document, and so its outline, is determined by its lines |
| Markdown.FenceIff | services/maludb-pageindexd/src/maludb_pageindexd/parsers/markdown_parser.py:21 | a fence is at most three spaces and three backquotes or tildes, the spaces spelled out |
| Markdown.HeaderIff | services/maludb-pageindexd/src/maludb_pageindexd/parsers/markdown_parser.py:20-51 | a header with a level and a title is that many hashes and one, at most six, a gap, the title without spaces around it, and perhaps spaces |
| Markdown.FenceOpenIff | services/maludb-pageindexd/src/maludb_pageindexd/parsers/markdown_parser.py:35-47 | a fence is open at a line exactly when an earlier line outside fences opened it and no later one carries the same marker |
| Markdown.RangesReachTheirEnd | services/maludb-pageindexd/src/maludb_pageindexd/parsers/markdown_parser.py:62-76 | in every document the range of an entry holds no other header at its level or a shallower one, and ends with the document or right before such a header |
| Markdown.RangeIsDetermined | services/maludb-pageindexd/src/maludb_pageindexd/parsers/markdown_parser.py:62-76 | that leaves one range, level and title for each header line |
| Markdown.EveryHeaderHasItsEntry | services/maludb-pageindexd/src/maludb_pageindexd/parsers/markdown_parser.py:54-76 | every header of the document has its entry, and a document without headers has one for all its lines |
| Markdown.EveryLineIsCovered | services/maludb-pageindexd/src/maludb_pageindexd/parsers/markdown_parser.py:62-76 | every line from the first header on lies in the range of the nearest header at or before it |
| Markdown.OutlineExample | services/maludb-pageindexd/src/maludb_pageindexd/parsers/markdown_parser.py:30-76 | a document of two headers with a line between: ranges 1 to 2 and 3 to 3 |
| Markdown.FindEnd | services/maludb-pageindexd/src/maludb_pageindexd/parsers/markdown_parser.py:64-69 | the line before the next header at the same or a shallower level, or the last line |
| Markdown.RangesAreLaminar | services/maludb-pageindexd/src/maludb_pageindexd/parsers/markdown_parser.py:62-76 | any two line ranges are nested or disjoint, and nested exactly when one entry encloses the other |
| Markdown.ParentHasTightestRange | services/maludb-pageindexd/src/maludb_pageindexd/builder.py:184-193 | when levels rise by at most one the parent's range is the tightest that holds the entry's |
| Markdown.ParentTextContainsChild | services/maludb-pageindexd/src/maludb_pageindexd/builder.py:207-227 | a parent's extracted lines contain its child's as one contiguous block |
| Markdown.DocumentIsLaminar | services/maludb-pageindexd/src/maludb_pageindexd/parsers/markdown_parser.py:30-76 | for every document, any two ranges of its outline are nested or disjoint |
| Markdown.DocumentTextNests | services/maludb-pageindexd/src/maludb_pageindexd/builder.py:184-227 | for every document that skips no level, the text of an entry's parent holds the entry's as one block |
| Markdown.DocumentAgreesWithTree | services/maludb-pageindexd/src/maludb_pageindexd/builder.py:171-193 | for every document that skips no level, the parent has the tightest range and a leaf is an entry nobody has as parent |
| JsonScan.JsonGetString | src/maludb_auth.c:183-260 | the cursor loop returns what the scanner specification yields, on every text |
| JsonMeaning.SkipValue | src/maludb_auth.c:183-260 | scanning past any value, whatever is nested or quoted in it, leaves field search and depth as they were |
| JsonMeaning.KeyScan | src/maludb_auth.c:204-251 | a key at depth one spelled as the field yields its value, any other key is passed over |
| JsonMeaning.ScannerMeetsMeaning | src/maludb_auth.c:183-260 | on every printed object the result is the raw string of the first member with that key, or nothing if there is none or it is not a string |
| Base64.ShiftedOut | src/maludb_auth.c:130-136 | the byte that leaves the wrapping 32-bit accumulator is the one the digit completes |
| Base64.B64UrlDecode | src/maludb_auth.c:87-140 | nothing exactly when a foreign character occurs, otherwise the bytes the digits stand for, 3c/4 rounded down of them, within the buffer |
| Base64.AlphabetTable | src/maludb_auth.c:90-102 | the digit values are those of the alphabet of section 5 of RFC 4648, in a table |
| Base64.ForeignIff | src/maludb_auth.c:119-129 | decoding fails for exactly the characters outside the alphabet, padding and line breaks |
| Base64.DecodedGroup | src/maludb_auth.c:130-136 | four digits give the three bytes of the same 24 bits |
| Base64.EncodedGroup | src/maludb_auth.c:130-136 | three bytes give the four digits of the same 24 bits |
| Base64.StandardExamples | src/maludb_auth.c:85-140 | encodings listed in section 10 of RFC 4648 |
| Base64.DecodeInvertsEncode | src/maludb_auth.c:87-140 | every byte string comes back from its encoding with padding and line breaks anywhere in it |
| Base64.EncodeInvertsDecode | src/maludb_auth.c:119-138 | encoding what was decoded gives the text back if and only if there is no lone digit and the spare bits are zero |
| Base64.SpareBitsAreIgnored | src/maludb_auth.c:119-138 | two different texts that decode to the same byte |
| Jwt.JwtSplit | src/maludb_auth.c:151-175 | succeeds exactly on the joins of three non-empty dot-free pieces, and returns those pieces |
| Jwt.PartsAreUnique | src/maludb_auth.c:151-175 | a token can be cut into three such pieces in one way only |
| Jwt.SignedInput | src/maludb_auth.c:452-457 | what is signed is the token up to its second dot |
| Jwt.OpenToken | src/maludb_auth.c:388-399 | succeeds exactly when the token splits and all pieces are clean, returns their decoded bytes, and gives every issued token's bytes back |
| ChildLoop.StepKeeps | mc2dbd/src/exec.c:397-484 | every turn keeps descriptors, signals, deadline and buffers right, whatever the system calls answer |
| ChildLoop.TurnCloses | mc2dbd/src/exec.c:397-484 | a turn closes an end if and only if its stream is over in it: all written, ended, failed or full |
| ChildLoop.LateTurnSignals | mc2dbd/src/exec.c:415-430 | a turn past the deadline sends SIGTERM and allows half a second, or SIGKILL and leaves |
| ChildLoop.RunIsSafe | mc2dbd/src/exec.c:334-523 | on every run: bytes written are a prefix of the envelope, output and error are capped prefixes, SIGTERM and SIGKILL at most once in that order, for a time-out not before the deadline, a time-out only after a failed deadline check, and all six pipe ends closed exactly once on both exits |
| ChildLoop.ErrorExitClosesAll | mc2dbd/src/exec.c:511-522 | however many pipes were made, the error exit closes every end exactly once |
| ChildLoop.NothingLost | mc2dbd/src/exec.c:443-490 | a run that ends without a signal delivered the whole envelope and holds all of stdout, and of stderr as much as fits |
| ChildLoop.RunCloses | mc2dbd/src/exec.c:397-484 | in a run of any length an end is closed if and only if its stream was over in some turn |
| ChildLoop.LeavesWhenOver | mc2dbd/src/exec.c:397-509 | a run on time leaves in its next turn if and only if all three streams are over, with no failed deadline check |
| ChildLoop.DeafChildExits | mc2dbd/src/exec.c:443-452 | a child that never reads its input: the failed write closes the pipe and no signal is sent |
| ChildLoop.SignalledIffFull | mc2dbd/src/exec.c:453-466 | a run that ends without a failed deadline check sent SIGTERM if and only if the child's output is at least as long as the buffer |
| ChildLoop.ExactFitIsSignalled | mc2dbd/src/exec.c:453-466 | a run in which output that fits the buffer exactly is answered with SIGTERM |
| ChildLoop.TurnMakesProgress | mc2dbd/src/exec.c:397-484 | a turn that goes round again uses up a finite budget or changes nothing, and the latter only before the deadline |
| ChildLoop.ChangesAreBounded | mc2dbd/src/exec.c:397-484 | in a run of any length the turns that change anything are bounded by the bytes to move plus four |
| ChildLoop.ChildRun.Turn | mc2dbd/src/exec.c:397-484 | one turn of the loop on its variables is one step of the machine |
| ChildLoop.ChildRun.Loop | mc2dbd/src/exec.c:397-484 | the loop plays the answers to where the machine ends |
| ChildLoop.ChildRun.Conclude | mc2dbd/src/exec.c:486-509 | the exit closes what is open, once, and reports a time-out exactly when a deadline check failed |
| ChildLoop.RunChild | mc2dbd/src/exec.c:377-509 | every run reports a time-out if and only if it left after a failed deadline check and an exit if and only if it left without one, with the captured output and every pipe end closed exactly once |
| WebSocket.XorTwice | services/maludb-realtimed/src/maludb_realtimed/ws.py:112 | masking twice with the same key gives the bits back |
| WebSocket.XorBits | services/maludb-realtimed/src/maludb_realtimed/ws.py:112 | bit by bit, masking sets what exactly one of byte and key has set |
| WebSocket.PayloadBits | services/maludb-realtimed/src/maludb_realtimed/ws.py:110-112 | bit by bit, byte i of a received payload is the exclusive or of byte i on the wire with byte i modulo 4 of the key |
| WebSocket.MaskedExample | services/maludb-realtimed/src/maludb_realtimed/ws.py:89-118 | the masked frame of section 5.7 of RFC 6455 is received as "Hello" |
| WebSocket.FrameBack | services/maludb-realtimed/src/maludb_realtimed/ws.py:89-118 | a final masked frame in any length form is received whole and nothing after it is consumed |
| WebSocket.FrameWasSent | services/maludb-realtimed/src/maludb_realtimed/ws.py:89-118 | what is received as a frame is a client frame on the stream if and only if its reserved bits are clear and it is not an empty frame cut before the end of its key |
| WebSocket.TruncatedIff | services/maludb-realtimed/src/maludb_realtimed/ws.py:95-112 | an index or unpacking error if and only if the header is cut or the payload of a masked frame is |
| WebSocket.RefusedIff | services/maludb-realtimed/src/maludb_realtimed/ws.py:95-118 | the protocol error for an unmasked frame and for a masked one that is not final, each if and only if, and the end of the stream as a close frame |
| WebSocket.CutStream | services/maludb-realtimed/src/maludb_realtimed/ws.py:95-118 | what becomes of a stream that ends inside a frame, in each case |
| WebSocket.CutStreamExamples | services/maludb-realtimed/src/maludb_realtimed/ws.py:95-118 | concrete streams for each of these cases |
| WebSocket.ReadExact | services/maludb-realtimed/src/maludb_realtimed/ws.py:121-132 | the next n bytes, or all there are, however the reads are cut |
| WebSocket.RecvFrame | services/maludb-realtimed/src/maludb_realtimed/ws.py:89-118 | result and bytes consumed on every stream: frame, clean close, unmasked, fragmented or cut off |
| WebSocket.ReceiveAll | services/maludb-realtimed/src/maludb_realtimed/ws.py:89-132 | any sequence of client frames comes back in order and the stream stands right after it |
| WebSocket.SendFrame | services/maludb-realtimed/src/maludb_realtimed/ws.py:71-86 | writes the frame with the shortest length form, and nothing when the size does not fit eight bytes |
| WebSocket.SentExamples | services/maludb-realtimed/src/maludb_realtimed/ws.py:71-86 | the frames of section 5.7 of RFC 6455: short text, 256 bytes and 65536 bytes |
| WebSocket.SentIsRead | services/maludb-realtimed/src/maludb_realtimed/ws.py:71-86 | a reader that follows section 5.2 of RFC 6455 and insists on the shortest form gets opcode and payload back |
| Substitute.ReplaceAll | mc2dbd/src/exec.c:225-240 | on every input on which the loop stops it returns where it stops, with no placeholder left |
| Substitute.ExhaustEnds | mc2dbd/src/exec.c:225-240 | the loop stops whenever the value has fewer braces than the placeholder, because braces run out |
| Substitute.ExhaustAllEnds | mc2dbd/src/exec.c:193-245 | the whole walk stops whenever each value has fewer braces than its placeholder |
| Substitute.SubstitutePlaceholders | mc2dbd/src/exec.c:193-245 | on every input on which the walk over the keys stops it returns where it stops |
| Substitute.ExhaustFills | mc2dbd/src/exec.c:225-240 | rescanning for one key fills exactly its placeholders |
| Substitute.RescanIsSimultaneous | mc2dbd/src/exec.c:193-245 | on templates with brace-free keys and values the result is the simultaneous substitution, unknown keys left in place |
| Substitute.OrderDoesNotMatter | mc2dbd/src/exec.c:193-245 | with the same values by key the order of the keys makes no difference |
| Substitute.NeverStops | mc2dbd/src/exec.c:225-240 | a value that holds its own placeholder keeps the loop going for ever |
| Substitute.StopsIff | mc2dbd/src/exec.c:225-240 | with values that are templates, the loop stops if and only if the template lacks the key or its value does not hold its own placeholder |
| Rescan.EndsIff | mc2dbd/src/exec.c:225-240 | with a value that is a template, the loop stops with a text if and only if it stops at all and the text has every placeholder of the key replaced at once |
| Rescan.WalkIff | mc2dbd/src/exec.c:193-245 | with such values the walk over all keys stops if and only if no key in play, through the template or an earlier value, has a value holding itself, and then with all of them expanded in order |
| Rescan.LateKeyExample | mc2dbd/src/exec.c:193-245 | a key that comes into play through an earlier value keeps the walk from stopping, and in the other order it does not |
| Broker.SubstOfTemplate | services/mcp-broker/src/mcp_broker/tools.py:158-173 | the single pass succeeds exactly when every marker is declared and supplied, and then fills the markers and nothing else |
| Broker.MarkIff | services/mcp-broker/src/mcp_broker/tools.py:20 | a marker stands at the front of a text if and only if it begins with a key in double braces, the characters of keys spelled out |
| Broker.AgreeIff | services/mcp-broker/src/mcp_broker/tools.py:158-173 | the two programs agree on a template if and only if every marker is declared and supplied and no other placeholder has a value |
| VectorText.VectorIn | src/maludb_type.c:42-101 | the cursor loop with its doubling buffer parses every text as specified, errors included |
| VectorText.Store | src/maludb_type.c:72-76 | the buffer has room for an element before it is written and keeps the earlier ones |
| VectorText.VectorOut | src/maludb_type.c:113-142 | the printed elements between brackets, separated by comma and space |
| VectorText.LayoutIsRead | src/maludb_type.c:42-101 | white space around tokens and anything after the closing bracket make no difference to the vector read |
| VectorText.AcceptedIff | src/maludb_type.c:42-101 | a text is accepted as a vector if and only if it is a bracketed list of numbers with these values, separated by commas and white space, perhaps with a comma after the last |
| VectorText.TextRoundTrip | src/maludb_type.c:42-142 | reading what was printed gives back every vector of every dimension, given that one number does |
| VectorText.InverseIsPossible | src/maludb_type.c:42-142 | the assumption on single numbers can be met |

## Left out

- Floating-point rounding, NaN and infinities: distances are reals; `TopK` keeps the bit patterns of doubles and orders them as numbers, infinities included, but not NaN.
- PostgreSQL plumbing: SPI queries, memory contexts, tuple stores and varlena headers; rows come in as sequences.
- HMAC, SHA, key lookup and the algorithm check of token verification: foreign functions and SQL.
- Plain-text and page-based extraction of node text: only the line ranges of Markdown entries are modelled.
- Handshake and close handling of the WebSocket server, and the HTTP and MCP servers: easy per-branch code.
- Log drain, page-index worker, language drivers and CLI: their guarantees rest on SQL that is not part of this model.
- What the child process itself does after the fork, and waiting for it: the child is the two streams it writes.
- TopK.Deserialize: states what happens to bytes that the serializer wrote; the errors raised for other bytes are those of PostgreSQL's message reader.
- TopK.ParallelSearch: workers share one limit, metric and query, as the planner passes them.
- PdfOutline.Walker.Walk: page ranges are left at (1, 1), because they come from pypdf objects.
- Nsw.NswSearch: which of two nodes at the same distance the heap gives up first is not modelled, so with equal distances several answers are allowed; Determined.SearchIsDetermined covers distinct ones.
- AnnBuild.Build: rows without an embedding, which the source skips, are not modelled.
- AnnStore.SearchDecoded: speaks of indexes that a build wrote; graphs made by hand are covered by AnnBuild.Search.
- Blob.BlobRoundTrip: negative or wrapping counts in a header that no build writes are not modelled.
- Markdown.ScanHeaders: works on lines already decoded and split.
- ChildLoop.NothingLost: holds for environments that answer an empty read only at the end of a stream and never fail a transfer; the other runs are covered by ChildLoop.RunIsSafe.
- ChildLoop.RunChild: plays any finite sequence of answers and says so when they run out before the loop leaves, because a clock that never advances keeps the code waiting.
- Substitute.SubstitutePlaceholders: takes values already rendered as text; Rescan.WalkIff says when it stops for values that are templates, and for values with other braces only the brace count of Substitute.ExhaustEnds is known.
- Broker.SubstOfTemplate: takes string values; how the two programs print other values is not modelled.
- VectorText.TextRoundTrip: assumes that printing and scanning are inverse on a single number.
- VectorText.VectorOut: takes whole elements; the check that the stored length is a multiple of four is not modelled.
