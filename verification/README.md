# Shadow DOM builder — Dafny model

This project models the reconstruction core of `tools/shadow_builder.py`. The
builder reads a time-ordered stream of probes emitted by a Typst pass. Each
probe is a `start`, an `end`, or an unpaired marker. From this stream the
builder rebuilds a tree of shadow nodes. Nodes carry page-relative
rectangles (fragments): a closed paired node carries one or two, an atomic
node one 10×10 marker, and the root and any node whose `end` never arrives
carry none. The tree is then flattened into a list
of `(kind, id, rect)` fragments and grouped by page for the debug overlay.

Modules:

- `Values` (values.dfy): optional probe fields and the metadata values read by the builder.
- `Geometry` (geometry.dfy): locations, rectangles, and the fixed constants.
  The page height is 842 (A4) and the paired width is 400. The same-page
  minimum height is 15. The margin and the cross-page minimum are both 50, and
  the marker is 10×10. The module also holds the close-geometry policy
  (`CloseRects`) and the atomic marker.
- `Shadow` (shadow.dfy): the node record, closing a node, the id rule for
  start probes (`probe_id.replace("-start", "")`), and the shapes a node may take.
- `Builder` (builder.dfy): one probe step, the fold over the stream, the
  end-of-input folding of frames that are still open, the build itself, and the
  stack invariant.
- `Nesting` (nesting.dfy): stack depth for well-nested streams and node counts.
- `Fragments` (fragments.dfy): pre-order fragment collection, grouping by page,
  and the node geometry summary.
- `Order` (order.dfy): the built tree read in pre-order lists the created nodes in probe order.
- `Scenarios` (scenarios.dfy): small concrete streams and the trees they must produce.

The source gives each open node two places at once: its parent's child list
and the build stack. The model instead keeps a stack of open frames. A start
pushes a frame. An unpaired probe appends a leaf to the top frame. An end pops
the top frame, closes it, and appends it to the new top. At end of input,
`Materialize` folds the frames that are still open into their parents without
closing them: each becomes, unchanged, the last child of the frame below it
(`MaterializeNests`). Nothing is appended to a frame while another frame sits above
it. So every child ends up in the position the source gave it when it was created.

Coordinates are `real`: the source only subtracts and takes `max` against
constants. Pages are integers.

Behaviour of the code worth noting:

- The pairing role is read only from the payload's `edge` field (line 206).
  A probe-level pairing field is never consulted.
- The node id removes every occurrence of `-start`, scanning left to right
  without overlap, not only a trailing one (line 216). `StripStartSplit`
  proves that every occurrence is removed, wherever it stands.
- The page of a probe is recorded before the edge is examined (lines 208-209).
  So an `end` ignored because only the root is open still counts its page.
- An `end` seen with only the root on the stack is silently ignored. No
  diagnostic is raised.
- The geometry constants (page height, margins, widths, minimum heights) are fixed module-level values.

## Model

| member | source | states |
|---|---|---|
| Geometry.CloseRects | tools/shadow_builder.py:89-129 | On the same page: one rect at the open point, width 400. Its height is at least 15 and reaches the close point; it is exactly the larger of the two. Across pages: two rects of width 400 and height ≥ 50. The first is at the open point on the start page and reaches the bottom margin (842 − 50). The second is on the end page at (end x, 50) and reaches the close point. |
| Geometry.Resolve | tools/shadow_builder.py:83-87 | A missing page, x or y defaults to 1, 0 and 0; a present one is kept. |
| Geometry.MarkerRect | tools/shadow_builder.py:131-139 | An atomic marker sits at the probe's location and is 10×10. |
| Shadow.Close | tools/shadow_builder.py:89-129 | Closing keeps the node's identity, payload and children. The old rects stay as a prefix, and one rect is added (same page) or two (cross page). The first new rect is on the start page and the last is on the end page. |
| Shadow.CloseFinishes | tools/shadow_builder.py:89-129 | An open node with finished children becomes a finished paired node with 1 or 2 fragments. |
| Shadow.StripStart | tools/shadow_builder.py:216 | Removing `-start` never lengthens an id. |
| Shadow.StripStartNoTag | tools/shadow_builder.py:216 | An id with no `-start` occurrence is kept unchanged. |
| Shadow.StripStartSplit | tools/shadow_builder.py:216 | Every occurrence of `-start` is removed, wherever it stands. The text on either side of it is processed as if it stood alone. |
| Shadow.StripStartSuffix | tools/shadow_builder.py:216 | A trailing `-start` is always removed, whatever precedes it; the rest is treated as if it stood alone. |
| Builder.EdgeOf | tools/shadow_builder.py:206-229 | A probe is a start exactly when its payload's `edge` is `"start"`, an end exactly when it is `"end"`, and unpaired otherwise, including when `edge` is missing. |
| Builder.KindOf | tools/shadow_builder.py:205 | The kind is the payload's `kind` if present, else the probe's own `kind`, else `marker`. |
| Builder.IdOf | tools/shadow_builder.py:201 | The id is the probe's id, or `unknown` when it has none. |
| Builder.OrdinalOf | tools/shadow_builder.py:204 | The ordinal is the probe's `_seq`, or 0 when it has none. |
| Builder.OpenedNode | tools/shadow_builder.py:213-220 | A start probe opens a paired node with no rects and no children. Its kind, ordinal and payload come from the probe, its id has `-start` removed, and its open point is the resolved location. |
| Builder.AtomicNode | tools/shadow_builder.py:229-238 | An unpaired probe makes a finished atomic leaf. It keeps the probe's kind, id, ordinal and payload, and has exactly one 10×10 marker at the resolved location. |
| Builder.Step | tools/shadow_builder.py:200-239 | A location with a page adds that page to the pages seen. A start pushes exactly one new open node (no rects, no children, the probe's kind, ordinal and payload, the id with `-start` removed, the open point recorded) and leaves the frames below unchanged. An end with only the root open leaves the stack unchanged. Any other end pops exactly one frame, closes it at the probe's location, and makes it the last child of the new top. An unpaired probe keeps the stack depth and adds one atomic leaf to the top frame. The leaf keeps the probe's kind, id, ordinal and payload, has no children, and has one 10×10 marker at its location, which defaults to page 1, x 0, y 0. |
| Builder.Run | tools/shadow_builder.py:197-239 | The stack is never empty after any prefix of the stream. |
| Builder.Materialize | tools/shadow_builder.py:213-222 | Folding the frames still open at end of input keeps the root frame's identity and keeps its existing children, in order, as a prefix of the result's children. |
| Builder.MaterializeNests | tools/shadow_builder.py:213-222 | Each frame still open at end of input becomes, unclosed and otherwise unchanged, the last child of the frame below it, as line 221 attached it to its parent when it was opened: the fold of a stack is the bottom frame with the fold of the frames above appended to its children. |
| Builder.Build | tools/shadow_builder.py:194-242 | The built root is the DOCUMENT/ROOT node, not atomic, with no rects. Its payload holds only `pages`, the number of distinct pages named by the probes. |
| Builder.RunValid | tools/shadow_builder.py:194-242 | In every reachable state the bottom frame is the DOCUMENT/ROOT node, so the root is never popped. Every frame on the stack is a non-atomic node with zero rects whose children are finished. |
| Builder.MaterializeShape | tools/shadow_builder.py:213-222 | Folding the open frames at end of input keeps the root's identity and its existing children as a prefix. The resulting tree is well-shaped: atomic nodes have one marker and no children, and paired nodes have at most two rects. |
| Builder.BuildRoot | tools/shadow_builder.py:194-242 | The built root is DOCUMENT/ROOT with no rects and is not atomic. Its payload holds only the page count. Every node in the tree is well-shaped. |
| Builder.RunPages | tools/shadow_builder.py:198-209 | The pages seen are exactly the pages of the probe locations that carry a page. |
| Builder.BuildPages | tools/shadow_builder.py:208-209 | The root's `pages` entry is the number of distinct pages named by probe locations. |
| Builder.BuildEmpty | tools/shadow_builder.py:196-198 | Empty input gives a root with no children and `pages = 0`. |
| Nesting.RunDepth | tools/shadow_builder.py:211-227 | While no prefix has more ends than starts, the stack depth is 1 plus the number of starts not yet ended. |
| Nesting.WellNestedStack | tools/shadow_builder.py:211-227 | For a well-nested stream the stack ends as just the root. |
| Nesting.WellNestedBuild | tools/shadow_builder.py:194-242 | For a well-nested stream every node below the root is finished: paired nodes have 1 or 2 rects, atomic nodes have one marker, and no node is left open. |
| Nesting.UnmatchedEndIgnored | tools/shadow_builder.py:208-227 | An end probe with only the root on the stack leaves the stack and tree unchanged, but its page is still added to the pages seen. |
| Nesting.BuildSize | tools/shadow_builder.py:194-242 | No probe is dropped. The tree has the root plus exactly one node per start or unpaired probe, whether closed or not. |
| Order.BuildPreOrder | tools/shadow_builder.py:213-239 | Below the root, the built tree read in pre-order lists exactly the nodes that the start and unpaired probes create, with their kind, id, ordinal and atomic flag, in probe order. Start nodes carry the id with `-start` removed. This holds for any input, including nodes still open at the end. |
| Fragments.Own | tools/shadow_builder.py:251-252 | A node contributes one fragment per rect, in order, tagged with its kind and id. |
| Fragments.CollectInto | tools/shadow_builder.py:249-254 | Collection only appends. The earlier contents of the result list are kept as a prefix, immediately followed by the node's own fragments in order. |
| Fragments.CollectChildrenInto | tools/shadow_builder.py:253-254 | Collecting the children only appends to the result list. |
| Fragments.CollectAllRects | tools/shadow_builder.py:249-261 | The collected list is the pre-order concatenation of every node's own fragments. |
| Fragments.CollectIntoPreOrder | tools/shadow_builder.py:249-254 | Collecting a subtree appends the concatenation of each node's own fragments in pre-order. |
| Fragments.CollectChildrenIntoPreOrder | tools/shadow_builder.py:253-254 | Collecting the children appends their subtrees' fragments in stored child order, each in pre-order. |
| Fragments.CollectAllRectsSpec | tools/shadow_builder.py:249-261 | The collected list equals the pre-order concatenation of every node's own fragments: a node's own rects come before its children's. Its length is the total number of rects over all nodes. |
| Fragments.GroupByPage | tools/shadow_builder.py:263-268 | There is one bucket per page that holds a fragment. Each bucket holds exactly that page's fragments in their original relative order. |
| Fragments.OnPageMembers | tools/shadow_builder.py:263-268 | A fragment is in page p's bucket if and only if it is in the input and lies on page p. |
| Fragments.OnPageMultiplicity | tools/shadow_builder.py:263-268 | Each occurrence of a fragment goes to its own page's bucket and to no other: the buckets partition the input, duplicates included. |
| Fragments.MinPage | tools/shadow_builder.py:149-150 | The first page of the summary is a page of some rect and no greater than any rect's page. |
| Fragments.MaxPage | tools/shadow_builder.py:149-150 | The last page of the summary is a page of some rect and no smaller than any rect's page. |
| Fragments.Summarize | tools/shadow_builder.py:141-150 | The summary is empty exactly when there are no rects. With exactly one rect it gives that rect's page and its vertical span from y to y + h. Otherwise it gives the least and greatest page among the rects, and the fragment count. |
| Fragments.SummarizeCrossPage | tools/shadow_builder.py:110-150 | A node closed from an earlier page to a later one is summarised as the range between those pages with 2 fragments. |
| Scenarios.RunPair | tools/shadow_builder.py:213-227 | A start followed by its end, on a fresh builder, leaves the root with the closed node as its only child, whether or not the locations carry pages. When both carry a page, the page count is the number of distinct pages of the two probes. |
| Scenarios.SamePagePair | tools/shadow_builder.py:194-242 | Start and end on page 1 at y 100 and 140 give one child `p1` with one rect of height 40 and `pages = 1`. |
| Scenarios.CrossPagePair | tools/shadow_builder.py:110-129 | Start at page 1 y 800 and end at page 2 y 100 give two rects of height 50, one on each page. |
| Scenarios.LoneAtomic | tools/shadow_builder.py:229-239 | One probe with no edge and no location gives one atomic `marker` child. Its rect is 10×10 at page 1, (0, 0), and `pages = 0`. |
| Scenarios.StrayEnd | tools/shadow_builder.py:224-227 | An end with nothing open adds no child, but its page is still counted. |

## Left out

- `run_typst_query`: it runs the `typst` subprocess, decodes JSON and exits on failure. Its sort by `_seq` is not modelled: the probe sequence is taken as already ordered, and the ordinal is only stored on the node.
- The HTML text and file writing in `export_html`, `print_tree`, `main` and `to_tree_string`: these are presentation and console or file output. Only the page-grouping step of `export_html` is modelled.
- `Rect.__str__` and the `:.0f` formatting in `get_summary`: float-to-text formatting. `Summarize` models only the three-way case split and the page range.
- The optional type label that `to_tree_string` shows from the payload is presentation only and is left out.
- IEEE floating point: coordinates are `real`, because the source only subtracts and takes `max` against constants.
- Payload contents: values are abstracted to strings, integers and one opaque `Other`. Only `kind` and `edge` are read, and the root's `pages` is written.
- Probe fields are assumed to be well-typed JSON. The source raises in several cases the model cannot express. `"payload": null` fails at `payload.get` (line 205). `"location": null` fails at `"page" in location` (line 208). A non-string id on a start probe fails at `.replace` (line 216). A `"page": null` is added to the pages seen (line 209) and becomes the start page. In the model, `Probe` has a map payload, a `Location` record and an `Option<int>` page, so none of these inputs can be written.
- The `Rect` dataclass default height of 20 is never used by the core and is not modelled.
- Rerunning the builder on the same input gives the same tree. This holds by construction, because `Build` is a pure function, so no lemma states it.
- Shadow.StripStart: its own contract only bounds the length of the result. What it removes is stated by `StripStartNoTag`, `StripStartSplit` and `StripStartSuffix`.
