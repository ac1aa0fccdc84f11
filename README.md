# Gazette tracer front end: the collapsible tidy tree and the date cache

This project models the front end of the gazette tracer in Dafny, where the front end
shows amendments between government gazettes as a tree. It has two parts.

**The tidy tree** (`TidyTree.jsx`). The component builds a d3 hierarchy from a graph.
It gives every node an `id` (its index in `descendants()`) and parks each node's
children in `_children`. Below the root it hides every node's `children`. It then runs
`update`, which:
- lays out the visible nodes;
- scans them in `eachBefore` order for the highest and the lowest row, which size the
  canvas;
- joins the node groups on the canvas by `d.id`, and the link paths by `d.target.id`,
  with the visible nodes;
- stashes every visible node's position as its previous position.

A click on a node does the following:
- it toggles the node's `children` between null and `_children`, and runs `update`;
- it clears the highlight;
- when the click expanded the node, it highlights the node's visible subtree and runs
  `update` again;
- it reports the node's display fields.

**The application shell** (`App.jsx`). The dates file is split into lines, trimmed and
filtered into the date list. The initial date is `2022-July-22` when listed, and the
last date otherwise. `fetchGazetteData` queries the graph database once for each date
it has no graph for yet. It shapes the first record of each answer into a graph: the
amended gazette, with one child per amending gazette. `handleDateChange` serves a cached
graph when it has one, and fetches otherwise.

Files:
- `common.dfy`: the shared `Option`, `Gazette` and `Graph` values.
- `tree_model.dfy`: d3's hierarchy flattened in `descendants()` order. Also the visible
  children, the `eachBefore` traversal, reachability through visible children, and the
  toggle.
- `reconcile.dfy`: the keyed join, the extent scan and the canvas height.
- `tidy_tree.dfy`: the component. A class `Tree` holds the per-node fields
  (`ids`, `children`, `hidden` for `_children`, `pos` for `x`/`y`, `pos0` for `x0`/`y0`),
  the canvas contents and the highlight set. Its methods are the effect's
  initialisation, `update`, `highlightNodes` and the click handler.
- `dates.dfy`: the date-list parser and the initial date.
- `gazette_data.dfy`: `fetchGazetteData`, which is a loop proved against a left fold
  over the dates. It also holds the class `App`, whose cache is kept by `Initialize`
  (`initializeApp`) and `HandleDateChange`.

How the model represents the source:
- A node is its index in d3's `descendants()` order. d3 documents that order as
  breadth-first. The model assumes only that a child comes after its parent.
- Visible children are `Option<seq<nat>>` for each node, with `None` for null or
  undefined.
- The d3 layout `tree(root)` is a parameter. It is a deterministic function from the
  visible structure and a node to a position. Everything the component computes from
  the positions is modelled.
- The graph database is an oracle `query: string -> Answer`. An answer is either
  "threw" or the list of records.
- The text of `/gazette_dates.txt` is a parameter of `Initialize`. It is `None` when
  reading it threw.

Behaviour the code does not have, although a tidy tree might be expected to have it:
- **Node ids are not pre-order.** The code numbers nodes in `descendants()` order,
  which is breadth-first (`TidyTree.jsx:191-192`).
- **Collapsing does not move children anywhere.** The code only sets `children` to
  null. It never rewrites `_children` after initialisation (`TidyTree.jsx:97`), so
  `_children` always holds the original children (`TidyTree.Numbered`:
  `hidden == h.kids`).
- **Highlighting does not reach hidden descendants.** `highlightNodes` recurses through
  the visible `children` only (`TidyTree.jsx:182-183`), so the highlight set is the
  node's visible subtree (`TreeModel.ReachExact`).
- **A resize is not an in-place update.** A new width re-runs the whole effect, which
  rebuilds the hierarchy and the canvas. That is what `TidyTree.Tree.constructor`
  models.

## Model

| member | source | states |
|---|---|---|
| TreeModel.PreOrder | gazette_tracer/ui/frontend/src/components/TidyTree.jsx:69-73 | the `eachBefore` visit from a node starts at that node, and every node it visits is numbered at or after it |
| TreeModel.ReachExact | gazette_tracer/ui/frontend/src/components/TidyTree.jsx:182-183 | a node is reachable from `d` through visible `children` exactly when it is `d`, or it lies strictly below `d` in the hierarchy and `d` and every node strictly between `d` and it are expanded |
| TreeModel.ReachStaysBelow | gazette_tracer/ui/frontend/src/components/TidyTree.jsx:175-185 | everything reached from `d` lies in `d`'s hierarchy subtree, and no proper ancestor and no sibling of `d` is reached |
| TreeModel.ReachNested | gazette_tracer/ui/frontend/src/components/TidyTree.jsx:175-185 | the visible subtree of a node reached from `a` lies inside the visible subtree of `a` |
| TreeModel.Toggled | gazette_tracer/ui/frontend/src/components/TidyTree.jsx:95-97 | the click changes only node `d`: visible children become null, or null becomes `_children`; every node still shows either nothing or its original children |
| TreeModel.ToggleTwice | gazette_tracer/ui/frontend/src/components/TidyTree.jsx:95-97 | for a node that has children, collapse followed by expand (or the reverse) restores every node's visible children, its descendants' included |
| TreeModel.ToggleLeaf | gazette_tracer/ui/frontend/src/components/TidyTree.jsx:95-97 | clicking a leaf (`_children` undefined) changes no node's visible children |
| TreeModel.CollapseHides | gazette_tracer/ui/frontend/src/components/TidyTree.jsx:95-98 | collapsing a visible node hides exactly the nodes that were visible strictly below it |
| TreeModel.ExpandShows | gazette_tracer/ui/frontend/src/components/TidyTree.jsx:95-98 | expanding a visible node adds exactly its new visible subtree to the visible set, and the only node that subtree shares with the old visible set is the clicked node |
| TreeModel.DepthZeroIsRoot | gazette_tracer/ui/frontend/src/components/TidyTree.jsx:194 | `d.depth > 0` holds for every node except the root |
| TreeModel.InitialVisible | gazette_tracer/ui/frontend/src/components/TidyTree.jsx:191-195 | after initialisation every node shows nothing or its original children, and the visible nodes are the root followed by its children, in order |
| TreeModel.MaxDepth | gazette_tracer/ui/frontend/src/components/TidyTree.jsx:45 | `root.height` is at least every node's depth and is some node's depth |
| TreeModel.GraphHierarchy | gazette_tracer/ui/frontend/src/components/TidyTree.jsx:43 | `d3.hierarchy` of an application graph is well formed, has one node per gazette (the parent, then each child in order) and height 1 (0 without children) |
| Reconcile.KeyedJoin | gazette_tracer/ui/frontend/src/components/TidyTree.jsx:84-88 | enter and update make up the new keys; update and exit make up the old keys; the three sets are pairwise disjoint |
| Reconcile.JoinDetermined | gazette_tracer/ui/frontend/src/components/TidyTree.jsx:128-140 | any three sets that meet the partition laws are the keyed join: enter = new minus old, update = both, exit = old minus new |
| Reconcile.JoinSameKeys | gazette_tracer/ui/frontend/src/components/TidyTree.jsx:143-147 | joining the keys already on the canvas with themselves enters nothing and removes nothing |
| Reconcile.Scan | gazette_tracer/ui/frontend/src/components/TidyTree.jsx:69-73 | the scan's `left` and `right` stay within the visit order |
| Reconcile.ScanExtremes | gazette_tracer/ui/frontend/src/components/TidyTree.jsx:69-73 | after the scan, `left` has the least and `right` the greatest `x` of the visited nodes, and each is the first visited node with that `x` |
| Reconcile.ScanFirst | gazette_tracer/ui/frontend/src/components/TidyTree.jsx:71-72 | because the comparisons are strict, ties go to the node visited first |
| Reconcile.ScanExtent | gazette_tracer/ui/frontend/src/components/TidyTree.jsx:69-73 | the loop over `eachBefore` returns the extent of the full scan |
| Reconcile.CanvasHeight | gazette_tracer/ui/frontend/src/components/TidyTree.jsx:75 | the height is the distance between `left` and `right` plus the two margins, so it is at least 20 |
| TidyTree.ColumnSpacing | gazette_tracer/ui/frontend/src/components/TidyTree.jsx:45 | `dy` times `1 + root.height` is the width less the left and right margins |
| TidyTree.PassFacts | gazette_tracer/ui/frontend/src/components/TidyTree.jsx:61-166 | one pass: both joins partition old and new ids; entering items start at the source's `(x0, y0)` and exiting ones end at its `(x, y)`; `left` and `right` are visible nodes with the least and the greatest `x`; the height is their distance plus 20; the top edge is `left.x - 10` |
| TidyTree.PassFirstExtremes | gazette_tracer/ui/frontend/src/components/TidyTree.jsx:69-73 | `left` (`right`) comes no later in `eachBefore` order than any node with an `x` as small (large) |
| TidyTree.StashPositions | gazette_tracer/ui/frontend/src/components/TidyTree.jsx:169-172 | after the stash, every visited node's previous position is its current one, and every other node keeps its previous position |
| TidyTree.RelayoutStable | gazette_tracer/ui/frontend/src/components/TidyTree.jsx:67 | laying out nodes that already sit at their layout positions moves nothing |
| TidyTree.Measure | gazette_tracer/ui/frontend/src/components/TidyTree.jsx:69-88 | the joins, the extent scan and the height computed after the layout are the pass the specification function describes |
| TidyTree.Render | gazette_tracer/ui/frontend/src/components/TidyTree.jsx:61-173 | one `update`: only the visible nodes move, and they move to their layout positions; the stash gives them the same previous positions; the pass is the one `PassFacts` describes |
| TidyTree.CollapseJoins | gazette_tracer/ui/frontend/src/components/TidyTree.jsx:95-98 | the `update` after a collapse enters no node and no link, keeps the new visible set, and removes exactly the nodes strictly below the clicked node and the links into them |
| TidyTree.ExpandJoins | gazette_tracer/ui/frontend/src/components/TidyTree.jsx:95-98 | the `update` after an expand removes nothing and enters exactly the nodes strictly below the clicked node in its new visible subtree, and the links into them |
| TidyTree.ToggleKeepsNumbered | gazette_tracer/ui/frontend/src/components/TidyTree.jsx:95-97 | a click keeps every id, keeps `_children` equal to the original children, and keeps the clicked node visible |
| TidyTree.Number | gazette_tracer/ui/frontend/src/components/TidyTree.jsx:191-195 | after the loop, the ids are exactly 0..n-1 in `descendants()` order; `_children` is each node's original children; only the root keeps its visible children |
| TidyTree.FirstDrawJoins | gazette_tracer/ui/frontend/src/components/TidyTree.jsx:84-88 | on the empty canvas of the first draw, the root and each of its children enter, with a link into each child, and nothing is kept or removed |
| TidyTree.Tree.constructor | gazette_tracer/ui/frontend/src/components/TidyTree.jsx:16-197 | a new `data` or `width` builds the hierarchy, sizes the columns from its full height, and leaves the nodes numbered and collapsed below the root, the canvas consistent with the visible nodes and nothing highlighted; the first draw is the pass `PassOf` gives from the root's starting point `(dy / 2, 0)` on the empty canvas, so it enters the root and its children, with their links, from that point and sizes the canvas from the visible nodes' extremes |
| TidyTree.Tree.Start | gazette_tracer/ui/frontend/src/components/TidyTree.jsx:187-197 | numbering, collapsing and the first draw: every node keeps its original children in `_children`, only the root shows its children, nothing is highlighted, and the first draw is `PassOf` from `(dy / 2, 0)` on the empty canvas, whose nodes and links all enter from that point |
| TidyTree.Tree.DrawFirst | gazette_tracer/ui/frontend/src/components/TidyTree.jsx:189-197 | with the root's previous position set to `(dy / 2, 0)`, the first `update(null, root)` is the pass `PassOf` gives from there on the empty canvas: everything visible enters from that point, nothing exits, and the canvas is sized by that pass |
| TidyTree.Tree.Update | gazette_tracer/ui/frontend/src/components/TidyTree.jsx:61-173 | `update(event, source)`: after it, the canvas holds exactly the visible nodes and the links into them, at their layout positions with the same previous positions; hidden nodes keep their positions; the pass is `PassOf` of the old canvas |
| TidyTree.Tree.HighlightNodes | gazette_tracer/ui/frontend/src/components/TidyTree.jsx:175-185 | the recursion adds exactly the node's visible subtree to the highlight set |
| TidyTree.Tree.Toggle | gazette_tracer/ui/frontend/src/components/TidyTree.jsx:95-97 | the click's toggle of a drawn node leaves the numbering intact and the node visible |
| TidyTree.Tree.ToggleUpdate | gazette_tracer/ui/frontend/src/components/TidyTree.jsx:95-101 | toggle, `update` from the clicked node, then no node is highlighted |
| TidyTree.Tree.HighlightAndRedraw | gazette_tracer/ui/frontend/src/components/TidyTree.jsx:103-106 | the second `update` of an expanding click moves nothing and enters and removes nothing; its transitions start and end at the clicked node's position; it adds the clicked node's visible subtree to the highlight |
| TidyTree.Tree.Expand | gazette_tracer/ui/frontend/src/components/TidyTree.jsx:94-106 | an expanding click (leaf included) runs two passes and leaves exactly the clicked node's visible subtree highlighted; the visible nodes end at their layout positions and every hidden node keeps its `x`/`y` and `x0`/`y0` |
| TidyTree.Tree.Collapse | gazette_tracer/ui/frontend/src/components/TidyTree.jsx:94-101 | a collapsing click runs one pass and leaves nothing highlighted; the visible nodes end at their layout positions and every hidden node keeps its `x`/`y` and `x0`/`y0` |
| TidyTree.Tree.Click | gazette_tracer/ui/frontend/src/components/TidyTree.jsx:94-116 | the click handler: toggle; a first pass; a second pass exactly when the click expanded; the highlight is the visible subtree on expand and empty on collapse; the selection is the node's display fields; only the visible nodes move, to their layout positions, and hidden nodes keep their `x`/`y` and `x0`/`y0` |
| Dates.Trim | gazette_tracer/ui/frontend/src/App.jsx:30 | `trim()` leaves no white space at either end, and gives the empty string exactly when the line is all white space |
| Dates.TrimSlice | gazette_tracer/ui/frontend/src/App.jsx:30 | the trimmed line is a slice of the line with only white space cut from its two ends |
| Dates.TrimTrimmed | gazette_tracer/ui/frontend/src/App.jsx:30 | trimming a trimmed line changes nothing |
| Dates.Lines | gazette_tracer/ui/frontend/src/App.jsx:30 | `split("\n")` gives at least one piece, and no piece holds a line feed |
| Dates.LinesCount | gazette_tracer/ui/frontend/src/App.jsx:30 | the split gives one more piece than the text has line feeds |
| Dates.UnlinesLines | gazette_tracer/ui/frontend/src/App.jsx:30 | joining the pieces by line feeds gives back the text |
| Dates.LinesUnlines | gazette_tracer/ui/frontend/src/App.jsx:30 | splitting line-feed-free pieces joined by line feeds gives back the pieces |
| Dates.NonBlank | gazette_tracer/ui/frontend/src/App.jsx:30 | the trim and filter keep at most as many entries as there are lines, each non-empty and trimmed |
| Dates.NonBlankConcat | gazette_tracer/ui/frontend/src/App.jsx:30 | the filter works line by line in order: two blocks of lines give the first block's dates, then the second's |
| Dates.NonBlankMembers | gazette_tracer/ui/frontend/src/App.jsx:30 | a string is among the dates exactly when it is non-empty and the trim of some line |
| Dates.ParseDates | gazette_tracer/ui/frontend/src/App.jsx:30 | every parsed date is non-empty and trimmed, and there are at most as many dates as `\n`-separated lines |
| Dates.ParseUnlines | gazette_tracer/ui/frontend/src/App.jsx:30 | dates written one per line are parsed back as written |
| Dates.NonBlankOfDates | gazette_tracer/ui/frontend/src/App.jsx:30 | lines that are already dates pass through the trim and filter unchanged |
| Dates.InitialDate | gazette_tracer/ui/frontend/src/App.jsx:102-103 | a date is chosen exactly when the list is non-empty; it is one of the listed dates; it is `2022-July-22` when that is listed, and the last date otherwise |
| GazetteData.GazetteKeepsDisplayProps | gazette_tracer/ui/frontend/src/App.jsx:61-73 | a graph node's fields are the database node's properties cut down to name, date, description, gazette_id and url |
| GazetteData.GazetteOfProps | gazette_tracer/ui/frontend/src/App.jsx:61-73 | the five fields survive the trip through properties, so none is lost |
| GazetteData.GraphOf | gazette_tracer/ui/frontend/src/App.jsx:58-74 | the graph is the parent's display fields plus one child per collected child, in order, each with that child's display fields |
| GazetteData.ThrowIsFinal | gazette_tracer/ui/frontend/src/App.jsx:79-81 | once a query throws, no later date changes the outcome |
| GazetteData.StepSound | gazette_tracer/ui/frontend/src/App.jsx:43-76 | one turn of the loop keeps the soundness invariant of the dates fetched so far |
| GazetteData.RunSound | gazette_tracer/ui/frontend/src/App.jsx:43-76 | every graph held is the first record's graph for its date; a queried date whose answer has a record is held; a date is queried again only when its earlier answer had no record; only listed dates are queried; the loop has thrown exactly when its last query threw |
| GazetteData.RunComplete | gazette_tracer/ui/frontend/src/App.jsx:43-76 | when no query threw, a listed date has a graph exactly when its answer has a record |
| GazetteData.FetchedGraphs | gazette_tracer/ui/frontend/src/App.jsx:38-81 | the result holds only listed dates, each with its first record's graph; if nothing threw it holds every listed date whose answer has a record; a thrown query yields `{}` |
| GazetteData.FetchGazetteData | gazette_tracer/ui/frontend/src/App.jsx:38-85 | the loop with its two `continue`s and the early `{}` on a throw returns what the fold over the dates gives, and queries the dates the fold queries |
| GazetteData.FetchOne | gazette_tracer/ui/frontend/src/App.jsx:116-118 | fetching one date gives at most that date's graph, and gives it exactly when the database's answer has a record |
| GazetteData.LiftCached | gazette_tracer/ui/frontend/src/App.jsx:104-105 | the answer of any fetch, stored as the cache, holds for each date only that date's graph |
| GazetteData.App.constructor | gazette_tracer/ui/frontend/src/App.jsx:88-92 | the initial state: no tree, loading, no dates and an empty cache |
| GazetteData.App.Initialize | gazette_tracer/ui/frontend/src/App.jsx:97-109 | the dates are the parsed file, or none when reading it threw; with dates, only the initial date is fetched, its answer becomes the whole cache, its graph is shown and loading ends; without dates nothing else changes |
| GazetteData.App.HandleDateChange | gazette_tracer/ui/frontend/src/App.jsx:113-123 | on a cache hit nothing is fetched, the cache is unchanged and the cached graph is shown; on a miss only the date is queried, only its key is set, and the fetched graph is shown; loading ends and the cache stays consistent with the database |

## Left out

- The d3 layout (`d3.tree().nodeSize`, the node positions it computes, `root.height`'s bottom-up computation and the `linkHorizontal` path strings) is library code and is not part of this model. The layout is a deterministic function parameter. `root.height` is the greatest depth. The row spacing `dx = 20` is read only by the layout, so it is not part of the model.
- The SVG and DOM work is not modelled: element creation, CSS classes, circles and labels, the 500 ms transitions with their opacity animation, and the `viewBox` attribute beyond its top edge. Exiting elements are modelled as removed at once; in the source they are removed when their transition ends. A click on a node group during its 500 ms exit (the groups take pointer events) is therefore outside the model: the click methods require a node on the canvas, while the source would toggle and select a node that is already hidden.
- The `window` resize listener and the React component plumbing (`useRef`, `useEffect` dependencies, the `g.links`/`g.nodes` group creation) are event and rendering plumbing. A new width or new data is modelled as a fresh `Tree`.
- TidyTree.Tree.constructor: the effect's guard for missing `data` is outside the model. Without data the effect returns at once, so it draws nothing and leaves any earlier SVG in place. The constructor takes a well-formed hierarchy, which is what a present `data` gives.
- The order of the array handed to the node join (`descendants().reverse()`) is not modelled. The join's outcome depends only on the keys, which are modelled as sets.
- Clearing the highlight selects `.nodes circle, .nodes text` across the whole document. The model clears the highlight of the one tree it models.
- `TidyTree.Tree.Click` always returns the selection. The source calls `onNodeSelect` only when the prop is given.
- The Neo4j driver, session and `session.close()`, the Cypher text, the environment-variable check, `console` logging and the `fetch` of `/gazette_dates.txt` are I/O. The database is an oracle, and the dates file is the text parameter of `GazetteData.App.Initialize`.
- Neo4j property values are modelled as strings. Non-string properties (integers, dates) are not represented.
- React's asynchronous state updates are not modelled: interleaved `handleDateChange` calls, the functional `setAllData` update racing a stale closure, and the `selectedGazette`/preview/PDF state. Each modelled method runs to completion before the next event.
- GazetteData.App.HandleDateChange: the cache test `!allData[date]` in the source also reads properties inherited from `Object.prototype` (a date string such as `"constructor"`). The model sees only the cache's own keys. The database oracle `query` is fixed for the whole session. A cached graph therefore equals what a new fetch would give, and `Cached()` and the clause on `treeData` for every case rest on that. If the database changed after a date was cached, the source would still show the stale cached graph. The model states that case separately: on a hit the shown graph is the cached one.
- GazetteData.FetchGazetteData: the skip test on the result object also fires for a date named like an inherited `Object.prototype` property (such as `"constructor"`). The source never queries such a date; the model queries it like any other date, because it sees only the result's own keys.
- GazetteData.App.Initialize: reading the initial date's graph out of the fetched object also reads inherited properties. For an initial date named like an `Object.prototype` property, the source skips the query and shows that inherited value, not a graph. The model queries the date and shows its graph or nothing.
- `gazette_tracer/gazettetracer/services.py`, both `GazettePreview.jsx` components and `common/PDFViewer.jsx` are not part of this model. They hold query strings, a foreign PDF-text call and display components.
