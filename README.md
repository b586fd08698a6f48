# Binary search tree visualizer — a verified model

The visualizer (`index.js`) does three things:

- It grows a random binary search tree over the range [0, 100].
- It lays the tree out as SVG circles, labels and parent-to-child lines.
- It animates a search for a random key. Each visited circle is painted coral and each line into it is widened. The matched circle is painted lime; a miss ends in an error.

This project models that core in Dafny and proves what the code promises about it.

The modules follow the program's pieces:

| module | file | what it models |
|---|---|---|
| `Wrappers` | `wrappers.dfy` | `Option` |
| `Trees` | `trees.dfy` | `BinarySearchTreeNode` as a tree datatype; `Nil` stands for `null`. Also height, size, keys, pre-order, depths, and the pre-order index of each node's parent. |
| `Generation` | `generation.dfy` | `generateTree`. `Math.random` becomes a sequence of draws consumed in call order: the node's draw, then the left subtree's draws, then the right's. |
| `Search` | `search.dfy` | `find` / `findRec` as a pure function. It returns the keys highlighted, in order, and the outcome. `NotFound` stands for the thrown "not found" error. |
| `Layout` | `layout.dfy` | `generateSVG`, returning records instead of markup, and the radius formula of `draw`. |
| `Styling` | `styling.dfy` | `highlight` and `found` as loops that update arrays of circle and line records in place (class `Scene`). Also what a whole sequence of such calls leaves behind. |
| `Session` | `session.dfy` | The pieces composed: a generated tree is searched, and the search is played out on its drawing. |

`Math.round` is modelled as `(x + 0.5).Floor`, which is what JavaScript's rounding does: halves round up. All arithmetic on coordinates and ranges uses exact reals.

## Model

| member | source | states |
|---|---|---|
| `Generation.GenerateTree` | index.js:48-69 | The returned height is the tree's height: 0 exactly when the tree is null, otherwise one more than the taller subtree. At least one draw is consumed. |
| `Generation.GeneratedIsSearchTree` | index.js:55-64 | Every generated tree is a search tree: left keys ≤ node key ≤ right keys at every node. The order is non-strict because of rounding. |
| `Generation.GeneratedKeysInRange` | index.js:55-64 | Every generated key lies in [round(lower), round(upper)]. |
| `Generation.DrawsConsumed` | index.js:48-69 | Exactly one draw per call, so a tree of n nodes uses 2n + 1 draws. |
| `Generation.RestIsSuffix` | index.js:51-58 | The draws left over are exactly the ones after those consumed, in their original order. |
| `Generation.WideRangeAlwaysSpawns` | index.js:49-53 | When the range is at least 12.5 wide, delta ≥ 1, so every draw in [0, 1) spawns a node. In particular `draw`'s range [0, 100] always yields a non-null root. |
| `Generation.EmptyBranch` | index.js:51-53 | A draw above delta ends the branch as `[null, 0]` after exactly one draw. |
| `Generation.Split` | index.js:55-64 | A node's key is the rounded midpoint, and its subtrees are the results on the two halves, fed the left's draws and then the right's. |
| `Generation.RoundMonotonic` | index.js:61 | `Math.round` preserves order. |
| `Search.FindRec` | index.js:10-30 | The search highlights at most height-many keys, starting at the root. It ends in `Found(key)` exactly when the last highlighted key equals the target. |
| `Search.VisitedKeys` | index.js:17-27 | Every highlighted key is a key of the tree, and only the last can equal the target. |
| `Search.Find` | index.js:6-8 | On an empty tree the search highlights nothing and ends in the not-found error. |
| `Search.FindCorrect` | index.js:13-27 | On a search tree the search ends in `Found(key)` exactly when the key is in the tree, and otherwise in the not-found error. |
| `Search.SearchStaysInWindow` | index.js:23-27 | After turning left at key v, every later visited key is ≤ v; after turning right, every later one is ≥ v. |
| `Search.Descend` | index.js:23-27 | A search that visits two keys or more left the root for the child on the target's side, which is the comparison step. It continues there as that child's search. |
| `Search.Signals` | index.js:17-22 | A search makes one call per visited key, plus one more exactly when it matched. |
| `Trees.PreOrderShape` | index.js:81-131 | The pre-order lists exactly the tree's keys. |
| `Trees.ParentIndex` | index.js:91-131 | A node's parent comes before it in pre-order. |
| `Trees.ParentOneLevelUp` | index.js:91-131 | The parent found by `ParentIndex` lies exactly one level above the node. |
| `Trees.ParentIsNearest` | index.js:91-131 | No entry listed between a node and `ParentIndex` of it is shallower than the node. With `ParentOneLevelUp`, `ParentIndex` is the nearest earlier entry one level up, which is the node's parent in pre-order. |
| `Trees.DepthsBelowHeight` | index.js:66 | Every node's depth is below the tree's height. |
| `Layout.Radius` | index.js:145 | The radius is at most `MAX_RADIUS` and at most yDelta / 2^height, and equals one of the two. |
| `Layout.GenerateSvg` | index.js:71-134 | The drawing has one circle and one label per node and one line fewer. The returned point is the anchor: the horizontal midpoint at p1.y + 3·radius. It carries the root's circle. |
| `Layout.ChildPart` | index.js:91-131 | A null child adds nothing. Otherwise the child adds one line, one circle and one label per node of its subtree. |
| `Layout.CirclesInPreOrder` | index.js:81-131 | Circle and label i mark the node at pre-order index i, with the markup's styles (gray fill, black stroke of width radius/5, white label of size radius on the circle's anchor). |
| `Layout.ChildMarks` | index.js:91-131 | Circle, label and pre-order entry i > 0 of a node's drawing are circle, label and pre-order entry j of one child's drawing: the left child's for the first Size(left) entries after the root, drawn one row lower in the node's left half, and the right child's after them, drawn one row lower in the right half. |
| `Layout.MarksAt` | index.js:81-131 | The same, for one index. |
| `Layout.LineParent` | index.js:99-128 | Line i runs from the circle of the parent of node i + 1 into circle i + 1, with black stroke of width radius/5. |
| `Layout.ChildLine` | index.js:99-128 | Within a child's part, the first line is the edge into the child, from the parent's anchor. Every later line is one of the child's own lines and starts at the circle of its node's parent inside the subtree. |
| `Layout.LinesIntoChildren` | index.js:99-131 | Every line i of the drawing goes from the circle of its node's parent to circle i + 1, and carries the parent's anchor and the child's anchor. |
| `Layout.LineIntoKey` | index.js:99-126 | Line i carries the key of pre-order node i + 1 as `data-dst` and the key of that node's parent as `data-src`. |
| `Layout.AnchorRow` | index.js:76-118 | Every anchor lies on the row of its depth. |
| `Layout.RowYClosedForm` | index.js:78 | A node at depth d sits at y = p1.y + 3·radius·(d + 1). |
| `Layout.AnchorLevel` | index.js:76-79 | Every anchor sits on a level 1..height. |
| `Layout.AnchorBetween` | index.js:76-118 | Every anchor lies strictly inside the horizontal extent of its region. |
| `Layout.AnchorMargin` | index.js:76-118 | Every anchor lies at least width / 2^height from both sides of the region it is laid out in. The region halves at each level, and the anchor is the middle of its own region. |
| `Layout.SiblingsSeparated` | index.js:91-118 | Left-subtree anchors lie strictly left of the node's anchor, and right-subtree anchors strictly right of it. Sibling subtrees never overlap. |
| `Layout.PathFits` | index.js:140-145 | With the default 100-unit height, the chosen radius is positive and leaves room for the 3n + 1 radii a path of n ≤ height levels needs. |
| `Layout.CircleFits` | index.js:137-147 | Suppose a radius leaves room for the deepest path (r·(3·height + 1) ≤ 100) and is at most 100 / 2^height. Then every circle lies entirely inside the 100 × 100 drawing: horizontally within [0, 100], and vertically within (0, 100]. |
| `Layout.FitsAcross` | index.js:137-147 | With r ≤ 100 / 2^height, every circle's leftmost and rightmost points lie within [0, 100]. |
| `Layout.FitsDown` | index.js:137-147 | With room for the deepest path, every circle's top and bottom lie within (0, 100]. |
| `Layout.DefaultDrawFits` | index.js:137-147 | With the bounds and radius `draw` uses, every circle lies entirely inside the 100 × 100 drawing, horizontally and vertically. A circle may touch the left or right border. |
| `Styling.HighlightFrame` | index.js:156-169 | `highlight(val)` fills circles valued `val` coral. It makes lines into `val` coral and twice as wide. Nothing else changes. |
| `Styling.FoundFrame` | index.js:171-177 | `found(val)` fills circles valued `val` lime. Nothing else changes. |
| `Styling.Scene.constructor` | index.js:147-151 | The displayed circles and lines are those of the drawing. |
| `Styling.Scene.Highlight` | index.js:156-169 | Both loops leave exactly the arrays `HighlightFrame` describes. |
| `Styling.Scene.Found` | index.js:171-177 | The loop leaves exactly the circles `FoundFrame` describes. The lines are untouched. |
| `Styling.Scene.Apply` | index.js:17-22 | One call of a search, carried out on the displayed arrays. |
| `Styling.Scene.Play` | index.js:17-27 | A whole sequence of calls, carried out in order on the displayed arrays. |
| `Styling.ReplayCirclesFill` | index.js:156-177 | After any sequence of calls, a circle has the fill of the last call naming it and is otherwise unchanged. |
| `Styling.ReplayLinesWidth` | index.js:163-168 | After any sequence of calls, a line into v is coral with its width doubled once per highlight of v, or untouched if v was never highlighted. |
| `Styling.SearchFills` | index.js:17-22 | A search's calls leave the matched key lime, other visited keys coral, and name no other key. |
| `Styling.HighlightsFill` | index.js:17 | Highlighting a path names exactly its keys, all coral. |
| `Styling.HighlightsCount` | index.js:17 | Highlighting a path highlights each key once per visit. |
| `Styling.SearchHighlights` | index.js:17-22 | A search highlights each key once per visit; `found` widens nothing. |
| `Session.GeneratedSearchCorrect` | index.js:142-153 | Searching a generated tree finds the target exactly when it is one of the tree's keys. |
| `Session.SearchColoursDrawing` | index.js:147-177 | After a search on the drawing, circle i is lime if it is the match, coral if its key was visited, and gray otherwise. No other field changes. |
| `Session.LineAfterRun` | index.js:163-168 | A line into key k, after a search, is widened once per visit of k. |
| `Session.LineAfterSearch` | index.js:147-168 | The same for line i of the drawing, in terms of the visits of node i + 1's key. |
| `Session.SearchWidensLines` | index.js:147-168 | After a search, every line of the drawing is coral, doubled once per visit, exactly when its child's key was visited. |
| `Session.ThreeNodeScenario` | index.js:10-134 | The tree 50 / 25, 75 is laid out at (50, 15), (25, 30), (75, 30) with lines 50→25 and 50→75. Searching for 25 visits [50, 25] and finds it; searching for 99 visits [50, 75] and misses. |

## Left out

- DOM access (`innerHTML`, `getElementsByTagName`) is not modelled. The displayed elements are the two arrays of `Styling.Scene`, and labels are never restyled.
- `findNode` and `deleteNode` (index.js:179-241) are never called in index.js. `findNode` appends a focus circle to the circle markup and re-renders the display; `deleteNode` adds the `deleted` class and CSS transforms. Neither has algorithmic content, so they are not modelled.
- `waitAsync` and the `async`/`await` pacing (index.js:18, 243-245) are not modelled. A search's calls are taken as strictly sequential.
- `Math.random` is replaced by an explicit sequence of draws. This includes the random search target of `draw` (index.js:153), which is a parameter here.
- `GenerateTree` returns `None` only when the sequence of draws runs out. That case has no counterpart in the program.
- The markup strings and number-to-text formatting of the template literals are not modelled; records carry the same attributes.
- IEEE floating point is not modelled: coordinates, ranges and radii are exact reals.
- The orchestration in `draw` (index.js:136-154) is not a member of its own. `Session` composes the same steps, and the module-level globals are left out.
- `Styling.Scene.Highlight` multiplies the stroke width as a number. The browser's string form of `style.strokeWidth` is not modelled.
- `Layout.GenerateSvg` requires a node because the source dereferences its root. `draw` never passes null, since its range always spawns a root (`Generation.WideRangeAlwaysSpawns`).
- `Layout.DefaultDrawFits` proves the fit only for `draw`'s default bounds (0,0)-(100,100), not for arbitrary regions.
- Keys are ordered only non-strictly. Two sub-ranges whose midpoints round alike give equal keys, so the tree is not always a strict search tree. With equal keys, `highlight` and `found` also restyle the other circles and lines carrying that key, and `Session.SearchColoursDrawing` states the result by key for that reason.
- A node spawns when its draw is at most delta. A draw of exactly 0 therefore spawns a node even with multiplier 0: the comparison is `>`.
