# Galaxy viewer: tree registry and SVG rendering

The viewer is a small HTTP service. It serves `GET /drawtree/{treeindex}`.
The handler fetches a quadtree of simulated stars from a remote tree source
and stores it in a process-wide list of tree roots (`treeArray`). It then
streams back an SVG image: one white dot per star and one square outline per
quadtree cell.

This project models the core of that handler in Dafny:

- `quadtree.dfy` (module `Quadtree`): the tree as values. A node has a
  bounding box (center and width), a sequence of optional child slots and a
  list of stars. The zero bounding box `ZeroBox` is the "do not draw" marker.
- `registry.dfy` (module `Registry`): `getGalaxy`'s growth policy, as the
  class `TreeRegistry` with a `seq<Node>` field and the padding loop. The
  function `Grown` is its specification. The lemmas state the length, the
  preserved prefix, the placeholders and where the fetched tree lands.
- `render.dfy` (module `Render`): the star pass (`DrawStars`, a loop) and the
  box pass (`DrawBox`, a recursive method with a loop over the child slots).
  The SVG sink is the sequence of drawing primitives (`Prim`) it receives.
  `DrawBox` emits `Walk`, the recursive description of its output.
  `WalkIsBoxPass` proves `Walk` equal to an independent reference, `BoxPass`.
  That reference takes the pre-order list of reachable nodes, keeps those
  whose boundary is not the zero box, and maps each one to its outline.
- `indexparam.dfy` (module `IndexParam`): how the `{treeindex}` path segment
  becomes a number. It follows Go's `strconv.ParseInt(s, 10, 0)` on a 64-bit
  platform, with the error thrown away.
- `viewer.dfy` (module `Viewer`): `drawTree` and `drawBoxes`, which join the
  pieces.

Coordinates are Go `float64` values. They are modelled as exact reals.
`int(v / 2000)` is modelled by `Render.Scale`, which divides exactly and then
truncates toward zero. Dafny's own rounding goes toward negative infinity, so
`Scale` spells out the truncation.

There are two copies of the handler. `src/main.go` is an older copy of
`main.go` with the same logic. The boundary field is spelled `Boundry`, the
port and the log text differ, and the `/` route is missing. One model covers
both files. The table cites whichever file shows a property best. The matching
lines are:

- `getGalaxy`: main.go:106-135 and src/main.go:82-111.
- `drawBox`: main.go:91-104 and src/main.go:67-80.
- `drawBoxes`: main.go:85-89 and src/main.go:61-65.
- `drawStars`: main.go:75-83 and src/main.go:51-59.
- `drawTree`: main.go:47-73 and src/main.go:26-49.

Two behaviours of the handler that a caller might not expect. The model follows the code in both:

- Not every failed parse becomes 0: `ParseInt`'s range result is kept. An index outside the int64
  range is clamped to the nearest int64 bound, and not set to 0. This happens even
  when non-digits follow the overflowing digits (`OverflowBeatsSyntaxError`).
- A negative index is not rejected up front. `getGalaxy` still appends the
  fetched tree. Only the lookup `treeArray[treeindex]` that follows fails,
  with Go's index panic (`DrawTree`, `completed == false`).

## Model

| member | source | states |
|---|---|---|
| `Quadtree.NewNode` | main.go:129 | the placeholder node has the given boundary, no stars and four absent child slots |
| `Registry.Placeholder` | main.go:129 | a padding entry has boundary center (0,0), width 10, which is not the zero box, and it has no stars and no children |
| `Registry.PaddingIsPlaceholders` | main.go:128-131 | the padding loop adds exactly `max(index - len, 0)` entries, each one a placeholder |
| `Registry.GrownLength` | main.go:128-133 | after `getGalaxy(i)` the registry length is `max(oldLen, i) + 1`, for negative `i` too |
| `Registry.GrownKeepsOld` | main.go:128-133 | the old registry is a prefix of the new one, so no entry is replaced |
| `Registry.GrownPadsWithPlaceholders` | src/main.go:104-107 | every entry between the old end and the last one is a placeholder |
| `Registry.GrownTreePosition` | src/main.go:104-109 | the fetched tree is the last entry; it is at position `i` exactly when `oldLen <= i`; otherwise position `i` keeps its old entry |
| `Registry.GrownIndexInBounds` | main.go:64-65 | for `i >= 0`, the lookup `treeArray[i]` after `getGalaxy(i)` is in bounds |
| `Registry.LaterLowerIndexIsMisplaced` | main.go:128-133 | requesting tree 1 and then tree 0 on an empty registry gives `[placeholder, t1, t0]`, so index 0 shows the placeholder |
| `Registry.TreeRegistry.constructor` | main.go:38-40 | the registry starts empty, as the nil global `treeArray` does |
| `Registry.TreeRegistry.GetGalaxy` | main.go:106-135 | a failed fetch leaves the registry unchanged; otherwise the registry becomes `Grown(old, index, tree)` |
| `Render.Scale` | main.go:78-79 | `int(v/2000)` is truncation toward zero: for `v >= 0`, `0 <= r` and `2000r <= v < 2000(r+1)`; for `v < 0`, `r <= 0` and `2000(r-1) < v <= 2000r` |
| `Render.ScaleIsOdd` | main.go:93-95 | scaling is symmetric about zero: `Scale(-v) == -Scale(v)` |
| `Render.StarMarks` | main.go:77-81 | the star pass output has one entry per star, and entry `k` is the radius-1 circle at star `k`'s scaled position |
| `Render.DrawStars` | src/main.go:51-59 | the loop emits exactly one radius-1 circle per star, in list order, at `(Scale(X), Scale(Y))` |
| `Render.DrawBox` | main.go:91-104 | the recursive method with its slot loop emits exactly `Walk(node)`: the node's outline unless its boundary is the zero box, then the walks of its non-nil children in slot order |
| `Render.BoxPassExact` | src/main.go:67-80 | the box pass emits one outline per reached node with a non-zero boundary, in pre-order; each outline is `CenterRect(cx, cy, w, w)` of that node and is a square |
| `Render.DrawnMembers` | main.go:92-97 | the drawn nodes are exactly the reached nodes whose boundary is not the zero box; when no node has the zero box, every node is drawn |
| `Render.WalkIsBoxPass` | main.go:92-103 | for every tree, the walk `drawBox` performs equals the reference `BoxPass`, the outlines of the non-zero nodes of the pre-order |
| `Render.ZeroNodeDrawsOnlyChildren` | src/main.go:68-79 | a node with the zero boundary draws no outline, but the walks of its non-nil children are still drawn, in slot order |
| `Render.LeafDrawsOwnRect` | src/main.go:75-79 | a node whose slots are all nil draws only its own outline, or nothing if its boundary is the zero box |
| `Render.ChildSubtreeVisited` | main.go:99-103 | every node of a present child's subtree is reached from the parent, whatever the parent's boundary |
| `Render.DescendantDrawn` | main.go:91-104 | any descendant with a non-zero boundary has its outline drawn, even under zero-boundary ancestors |
| `Render.SingleCellScenario` | main.go:75-104 | a single cell centred on (4000,-5000), width 100000, one star at (50,50), and four nil slots draws `CenterRect(2,-2,50,50)` and `Circle(0,0,1)` |
| `IndexParam.ScanDigits` | main.go:52-53 | the digit loop can only report a syntax error when a non-digit is present; on all-digit input it yields a value or a range error; a value never exceeds 2^64-1 |
| `IndexParam.ParseIndex` | main.go:52-53 | the index is always a 64-bit integer; an empty segment, a lone sign or a leading non-digit gives 0, because the parse error is discarded |
| `IndexParam.SyntaxErrorGivesZero` | main.go:52-53 | a non-digit after one or more digits, with or without a sign, also gives 0, whatever follows it (`"3x"`, `"1.5"`) |
| `IndexParam.SignedDigitsParse` | main.go:52-53 | a run of digits that reads as `n`, leading zeros included, after no sign or `+` gives `n` clamped to 2^63-1, and after `-` gives `-n` clamped to -2^63 |
| `IndexParam.NonCanonicalSegments` | src/main.go:32 | segments `%d` never prints still parse: `"+7"` and `"007"` give 7, `"-007"` gives -7, and `"3x"`, `"1.5"`, `"12abc"` give 0 |
| `IndexParam.Decimal` | main.go:109 | `%d` writes one or more characters, all decimal digits |
| `IndexParam.ParseFormatRoundTrip` | main.go:109 | every 64-bit index that `%d` prints, as in the request URL, parses back to itself |
| `IndexParam.OverflowBeatsSyntaxError` | src/main.go:32 | a number past 2^64-1 becomes the nearest int64 bound, even when non-digits follow it |
| `Viewer.Preamble` | main.go:58-61 | the canvas is 15360×15360 with a full-canvas background rectangle, and the origin is moved to (7680, 7680) |
| `Viewer.DrawBoxes` | main.go:85-89 | `drawBoxes` emits the box pass of the registry entry at the index |
| `Viewer.DrawTree` | main.go:47-73 | the handler grows the registry as `Grown`; it completes exactly when the fetch succeeds and the index is non-negative; on completion it draws the entry at the index, which is the fetched tree only if the old registry was no longer than the index; the output is preamble, star markers, outlines and closing |

## Left out

- HTTP routing, `indexHandler`, `main`, `ListenAndServe`, the `Content-Type` header and all logging. These are network plumbing with no logic to model.
- `http.Get`, `ioutil.ReadAll` and `json.Unmarshal` become the parameter `fetch`, which returns `None` where any of them fails. The JSON field names are not modelled, so neither is the `Boundary`/`Boundry` spelling that selects the wire field.
- The `structs` package is not part of this model. `GetAllStars` is the parameter `getAllStars`. `NewNode` is taken to build a node with four nil slots and no stars. `NewBoundingBox` and `NewVec2` are plain constructors.
- svgo is modelled only as the primitives it receives. The style strings and colours are not recorded.
- Floating point: reals are exact. The model does not cover the rounding of `v / 2000` in float64, NaN and infinities, or Go's `int` conversion of out-of-range floats. It also does not cover `-0.0`, which Go's `==` treats as the zero box.
- Concurrency: simultaneous requests mutating `treeArray` without a lock are out of scope. One sequential caller is assumed.
- Resources: the padding loop can run for an index close to 2^63. The model's sequence grows without bound, so memory exhaustion is not modelled.
- Pointer identity: registry entries are values. In Go each placeholder is a separate heap object; nodes are never mutated, so only aliasing is lost.
- Panics: `DrawTree` reports a panic as `completed == false` with the primitives written so far. How much of that reaches the client depends on net/http's buffering and its recovery of handler panics. That is not modelled.
- Child slots: `Node.subtrees` is a sequence of any length. The traversal in the source uses `len(node.Subtrees)` and the model does the same, so the fixed arity of the external type is not enforced.
