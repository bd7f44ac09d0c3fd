# Edge-list graph viewer: loading and reachability, in Dafny

The viewer is a single-page application (`app.js`) that reads an edge-list CSV
file chosen by the user, draws the graph, and highlights everything downstream
of a node on hover. This project models the part of it that computes things:

- **Field parsing** (`csv_parsing.dfy`).
  - `parseCSVLine` is a quote-aware comma splitter. It is modelled as the imperative `ParseCsvLine`, proved equal to the state machine `ScanFields`.
  - `parseListField` splits a `|`-separated multi-value cell.
- **Loading an edge file** (`ingestion.dfy`), the `reader.onload` handler.
  - `GraphViewer` holds the node list, the edge list and the global `edgeMetadata` map.
  - Its methods follow the handler step by step: the empty-file and missing-column checks, then the row loop. The row loop trims, splits and classifies each data line, registers unseen endpoints through a set that mirrors the node list, and numbers the edges `edge_k`.
  - The methods are proved against pure functions: `ClassifyRow`, `AddVerdict`, `Build` and `IngestRows`. The lemmas state what every load builds:
    - no node repeats;
    - every endpoint is a node;
    - nodes appear in the order the rows first mention them;
    - edge `k` comes from the `k`-th accepted row and has id `edge_k`;
    - the metadata is keyed exactly by the edge ids;
    - rejected rows change nothing.
- **Hover highlighting** (`reachability.dfy`), `highlightReachableNodes`.
  - This is a breadth-first search with a FIFO queue and a visited set. It is modelled as the method `HighlightReachableNodes`.
  - It is proved to highlight exactly the nodes reachable from the start node by a path along edge direction.
  - It highlights exactly the edges that leave those nodes.
  - It expands each node once.
- **Supporting modules.**
  - `strings.dfy`: JavaScript's `trim` (the ECMAScript whitespace set), `split` and `join` with a one-character separator, and the decimal rendering of the edge counter.
  - `graph.dfy`: the edge record.
  - `sequences.dfy`: generic facts about slicing and concatenation.
  - `wrappers.dfy`: `Option`.

Three facts about `app.js` that a reader of the repository's written description might not expect, and that the model follows:
- `app.js` stores the weight cell as read, with no default: `""` when the header has no `EdgeWeight` column, `undefined` (`None` here) when the row is too short to reach it.
- `app.js` loads one edge file only. It has no code for a separate node-attribute file and no node colouring.
- `app.js` looks for the optional headers `AffiliatedOrganization` and `AffiliatedOrganizationName`.

## Model

| member | source | states |
|---|---|---|
| Strings.Trim | app.js:128 | the result is trimmed and is the slice of the input between its leading and trailing whitespace; a trimmed string is left unchanged; the result is empty exactly when the input is all whitespace |
| Strings.TrimAround | app.js:128 | trimming a non-empty trimmed core wrapped in whitespace gives the core back |
| Strings.TrimTrailingExample | app.js:358 | `"a ".trim()` is `"a"` |
| Strings.TrimLeadingExample | app.js:358 | `" b".trim()` is `"b"` |
| Strings.TrimBareExample | app.js:358 | `"c".trim()` is `"c"` |
| Strings.SplitCount | app.js:100 | `split(sep)` gives one piece more than the string has separators |
| Strings.JoinSplit | app.js:100 | joining the pieces of `split(sep)` with `sep` gives the string back |
| Strings.SplitJoin | app.js:358 | splitting a `sep`-join of `sep`-free parts gives the parts back |
| Strings.DecimalRoundTrip | app.js:162 | reading the decimal numeral of the edge counter gives the counter back |
| Strings.NatToDecimalInjective | app.js:162 | distinct counters render to distinct numerals |
| CsvParsing.ParseCsvLine | app.js:327-353 | the loop returns exactly the fields of the quote-aware state machine `CsvFields` |
| CsvParsing.LineFieldCount | app.js:332-351 | a line has one field more than it has commas outside quotes, so never zero fields |
| CsvParsing.UnquotedLineRoundTrip | app.js:343-348 | a line without quotes splits at every comma: the fields are `split(',')`, rejoin to the line, and hold no comma |
| CsvParsing.ScanEscaped | app.js:337-339 | inside quotes, a body with every `"` doubled reads back as the original text, commas included |
| CsvParsing.ScanQuoted | app.js:336-342 | a quoted field followed by a comma or the line end reads back as its content |
| CsvParsing.ScanBare | app.js:343-348 | a field without quotes or commas reads back as itself |
| CsvParsing.RenderRoundTrip | app.js:327-353 | any record written with bare or quoted, escaped fields parses back to exactly its fields |
| CsvParsing.QuotedCommaExample | app.js:336-348 | `"X,Y",Z` parses to the two fields `X,Y` and `Z` |
| CsvParsing.UnbalancedQuote | app.js:336-347 | after an unmatched opening quote, the rest of the line, commas included, is one field |
| CsvParsing.TrimAndDropEmpty | app.js:358 | the map-and-filter keeps at most as many items as pieces, each non-empty, trimmed and `|`-free |
| CsvParsing.TrimAndDropEmptyItems | app.js:358 | a string is an item exactly when it is non-empty and is the trim of some piece: every piece with a non-blank trim is kept |
| CsvParsing.NoneDropped | app.js:358 | when no piece is blank, the items are the trims of the pieces, one per piece, in order |
| CsvParsing.ParseListField | app.js:356-359 | an absent or empty cell gives no items; every item is non-empty, trimmed and `|`-free |
| CsvParsing.ListFieldItems | app.js:356-359 | the items of a non-empty cell are exactly the non-empty trims of its `|`-pieces |
| CsvParsing.ListCellPieces | app.js:358 | the cell `a | b|c` splits into `a `, ` b` and `c`, spaces kept for `trim` to drop |
| CsvParsing.CleanItemsKept | app.js:358 | already-clean items pass the trim-and-filter unchanged |
| CsvParsing.ListFieldRoundTrip | app.js:356-359 | writing clean items joined by `|` and parsing the cell gives the items back |
| EdgeIngestion.IndexOf | app.js:110-115 | `indexOf` gives `None` exactly when the name is absent, else its first position |
| EdgeIngestion.Lines | app.js:100 | one line more than the trimmed text has newlines; no line holds a newline; the lines rejoin to the trimmed text |
| EdgeIngestion.HeaderCells | app.js:107 | one cell per comma-separated piece of the header line, quotes ignored; each cell is the piece with its surrounding whitespace removed |
| EdgeIngestion.LocateColumns | app.js:110-120 | the header is accepted exactly when it has both `Source` and `Target`, located at their first occurrences; each optional column is where `indexOf` finds its name, or absent |
| EdgeIngestion.OptionalCell | app.js:139-142 | an optional cell is `''` when its column is absent, `undefined` exactly when the row is too short to reach it, else the trimmed cell |
| EdgeIngestion.ClassifyRow | app.js:128-144 | a line is blank exactly when it trims to empty, too short exactly when it has at most `max(sourceIdx, targetIdx)` fields, and accepted exactly when both endpoint cells trim to non-empty ids; an accepted row holds those ids, the raw trimmed weight cell and the parsed list cells |
| EdgeIngestion.VerdictDetermined | app.js:128-144 | the description of `ClassifyRow` admits one verdict per line |
| EdgeIngestion.ReadRow | app.js:128-144 | the per-line body (trim, `parseCSVLine`, cell reads, list parsing) meets the same description: blank, short, missing-endpoint and accepted lines, and what an accepted row holds |
| EdgeIngestion.AddNode | app.js:147-159 | registering an id adds it at the end exactly when it is new, keeps the earlier nodes in place, and keeps the list free of repeats |
| EdgeIngestion.AddVerdict | app.js:146-179 | a skipped line changes nothing; an accepted one adds its endpoints as nodes, appends edge `edge_k` with the raw weight for the `k` edges so far, and stores its metadata under that id |
| EdgeIngestion.Verdicts | app.js:127-144 | one verdict per data line; every accepted row has clean endpoints |
| EdgeIngestion.EdgeIdInjective | app.js:162-163 | the ids `edge_i` and `edge_j` differ for i ≠ j |
| EdgeIngestion.Dedup | app.js:147-159 | node registration keeps exactly the ids met, with no repeat |
| EdgeIngestion.DedupFirstOccurrenceOrder | app.js:147-159 | registered nodes are ordered by their first mention |
| EdgeIngestion.BuildNodesFirstSeen | app.js:146-159 | the node list is the endpoint stream of the edges with repeats dropped |
| EdgeIngestion.BuildEdges | app.js:161-179 | edge `k` has id `edge_k`; the metadata is keyed exactly by the edge ids; all endpoints are clean |
| EdgeIngestion.BuildFollowsAcceptedRows | app.js:161-179 | one edge per accepted row, in order; edge `k` and its metadata come from the `k`-th accepted row |
| EdgeIngestion.BuildShape | app.js:127-180 | the loop's result is well shaped: distinct nodes, endpoints among the nodes, numbered edges, metadata keyed by edge ids, clean node ids, and nodes exactly when there are edges |
| EdgeIngestion.DedupEndpointsShape | app.js:146-159 | deduplicated endpoints of clean edges are distinct, clean nodes that contain every endpoint, and are empty exactly when there are no edges |
| EdgeIngestion.SkippedVerdictsChangeNothing | app.js:129-144 | rejected verdicts, wherever they stand, leave the built graph unchanged |
| EdgeIngestion.BuildSnoc | app.js:127-180 | one more verdict adds exactly its effect |
| EdgeIngestion.IngestShape | app.js:127-180 | what every load builds from its data lines has the shape of `BuildShape` |
| EdgeIngestion.IngestKeepsValid | app.js:127-185 | the built graph is well shaped, its metadata is keyed by the edge ids, and it has no edge without nodes |
| EdgeIngestion.SkippedRowsChangeNothing | app.js:129-144 | blank, short or endpoint-less lines add no node, edge or metadata, wherever they stand |
| EdgeIngestion.NoneAccepted | app.js:129-144 | lines none of which is accepted get no accepted verdict |
| EdgeIngestion.IngestRowsSnoc | app.js:127-180 | one more data line adds its verdict's effect |
| EdgeIngestion.VerdictsAppend | app.js:127 | lines are judged one by one: the verdicts on two runs of lines concatenate |
| EdgeIngestion.PairHeader | app.js:107-120 | the header `Source,Target` puts the endpoints at 0 and 1 with no optional column |
| EdgeIngestion.PairRow | app.js:128-179 | under that header, a line `a,b` of plain ids is accepted with raw weight `''` and no list items |
| EdgeIngestion.PairExample | app.js:127-180 | the data lines `a,b` and `b,c` of distinct plain ids build the nodes `a`, `b`, `c`, the edges `edge_0` (a to b) and `edge_1` (b to c), and their metadata |
| EdgeIngestion.GraphViewer.constructor | app.js:1-2 | the viewer starts with an empty graph and empty metadata |
| EdgeIngestion.GraphViewer.RegisterNode | app.js:147-159 | adds an id to the node list exactly when the mirroring set lacks it, and keeps the set mirroring the list |
| EdgeIngestion.GraphViewer.IngestDataLines | app.js:122-180 | the row loop's node list, edge list and `edgeMetadata` are exactly `IngestRows` of the data lines |
| EdgeIngestion.GraphViewer.LoadDataLines | app.js:122-192 | clears and refills the metadata; fails with no-valid-nodes leaving the graph untouched, or replaces it and reports the counts; keeps the viewer valid |
| EdgeIngestion.GraphViewer.LoadEdgeFile | app.js:95-201 | the whole handler: an empty-file or missing-column failure changes nothing; otherwise as `LoadDataLines` on the data lines; keeps the viewer valid |
| EdgeIngestion.GraphViewer.HoverNode | app.js:237-245 | hovering over a node of a valid viewer highlights exactly the nodes reachable from it and the edges leaving them, all of them on the surface |
| Reachability.Outgoing | app.js:435 | exactly the edges leaving the node, no more than the edge list |
| Reachability.ReachableStep | app.js:436-443 | following an edge out of a reachable node reaches its target |
| Reachability.ClosedSetHoldsReachable | app.js:427-445 | a set that holds the start and is closed under edges holds every reachable node |
| Reachability.Unvisited | app.js:436-444 | the queued targets were not visited, and every target of the walked edges is visited or queued |
| Reachability.UnvisitedReachable | app.js:436-444 | edges leaving reachable nodes queue only reachable nodes |
| Reachability.SearchStarts | app.js:421-424 | the initial queue `[start]` with nothing visited satisfies the search invariant |
| Reachability.SkipVisited | app.js:428-430 | dropping an already-visited queue head keeps the invariant |
| Reachability.ExpandFront | app.js:428-444 | expanding an unvisited queue head and walking its outgoing edges keeps the invariant |
| Reachability.SearchEnds | app.js:427-445 | when the queue is empty, the highlighted nodes are exactly the reachable ones and the highlighted edges exactly those leaving them |
| Reachability.VisitOutgoing | app.js:436-444 | the `forEach` marks every outgoing edge, and marks and queues every unvisited target in edge order |
| Reachability.HighlightReachableNodes | app.js:420-445 | highlights the start, exactly the nodes reachable from it, and exactly the edges leaving them, expanding each highlighted node once |

## Left out

- DOM access, the message banner (`showMessage`) and the console logs are not modelled. The load reports its outcome as a value instead.
- Reading the file (`FileReader`) is not modelled: the file text is a parameter.
- The Cytoscape render surface is the node and edge lists of `GraphViewer`. Styling, the `highlighted` class (app.js:447-454) and its removal on hover and mouse-out (app.js:241, 248-251), the click and select panels, the resize handler and the `cose` fallback are not modelled. `HoverNode` returns the sets to highlight instead.
- `applyHierarchicalLayout` (dagre positions) is floating-point layout and is not modelled.
- `download_libs.py` is a build helper and is not part of this model.
- The per-row "data missing" warning is not modelled; such a row is only skipped.
- The `try`/`catch` around the handler is not modelled: no step of the modelled code can throw.
- EdgeIngestion.GraphViewer.LoadDataLines: the graph is replaced as lists. Element objects and their ids colliding with `edge_k` in `cy.getElementById` are not modelled.
- Reachability.HighlightReachableNodes: the search follows the edge list given to it. It does not model `cy.getElementById` returning an edge for a node id of the form `edge_k`.
- Strings.Trim: only the ECMAScript whitespace code points are modelled. Strings are sequences of code points, not UTF-16 units.
