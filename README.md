# Palmer grid plugin: a verified model

This is a Dafny model of the jsPsych `palmer` plugin (`plugins/jspsych-palmer.js`).
The plugin draws an N×N lattice of nodes, numbered row-major. It generates every
candidate segment between neighbouring nodes in a fixed order, and keeps one 0/1
visibility entry per segment. It runs in one of two modes:

- **Display mode**: it shows a target configuration for a fixed time.
- **Construction mode**: the participant toggles segments by clicking two nodes
  in a row, then submits.

When the trial ends, it records the visible configuration and a `correct` flag. The
flag says whether the target configuration is a prefix of the visibility array.

Modules:

- `Arith` (arith.dfy): helper facts about row-major cell numbers, using division and modulo.
- `Geometry` (geometry.dfy): node layout (`LayoutNodes`, `NodeCentre`) and canvas size.
- `Connectors` (connectors.dfy): segment generation. `Lines(n)` is the reference
  definition, built one pass at a time. `GenerateLines` is the plugin's four-list
  scan. There are lemmas on count, order, shape and distinctness. It also holds
  lookup by unordered node pair (`LineIndex`, `GetLineIndex`) and the theorem that
  lookup succeeds exactly for neighbouring nodes.
- `Session` (session.dfy): the `Trial` class. It holds the visibility array
  (`visible`, the plugin's `lineIsVisible`) and the shared selection variables
  (`lineStarted`, `startCircle`, `endCircle`). Its methods are `ToggleLine`,
  `ShowConfiguration`, `DrawConnection`, `Click` and `SaveData`. Each one is specified
  against pure functions (`Toggled`, `Shown`, `Clicked`), and lemmas prove the
  properties of those functions.
- `Factory` (factory.dfy): `plugin.create`.

For N = 3 the code generates 6 + 6 + 4 + 4 = 20 segments; for N = 2 it generates six.

The general formula 2N(N-1) + 2(N-1)² holds for every N ≥ 1. It does not hold for
N = 0, where there are no segments at all.

## Model

| member | source | states |
|---|---|---|
| Connectors.GenerateLines | plugins/jspsych-palmer.js:117-145 | The nested row-major scan, pushing into four lists and concatenating them, yields exactly the canonical list `Lines(n)`: all horizontal, then vertical, backslash and forward-slash segments. |
| Connectors.LinesCount | plugins/jspsych-palmer.js:123-145 | For N ≥ 1 there are N(N-1) horizontal, N(N-1) vertical, (N-1)² backslash and (N-1)² forward-slash segments, 2N(N-1)+2(N-1)² in all. |
| Connectors.LinesShape | plugins/jspsych-palmer.js:125-141 | Each entry in each block of the list is the segment of that block's kind at its start node's row and column. The column and row guards hold, and the far end is start+1, start+N, start+N+1 or start+N-1. |
| Connectors.LinesOrdered | plugins/jspsych-palmer.js:123-145 | Inside each of the four blocks, start nodes strictly increase, so the entries are in row-major order of their start cell. |
| Connectors.LinesWellFormed | plugins/jspsych-palmer.js:123-143 | Every segment `[a, b]` satisfies 0 ≤ a < b < N·N, so there are no self-pairs and every endpoint is a drawn node. |
| Connectors.LinesDistinct | plugins/jspsych-palmer.js:123-145 | No two positions of the list join the same unordered pair of nodes. |
| Connectors.LineIndex | plugins/jspsych-palmer.js:161-170 | Returns -1 exactly when no segment joins s and e in either order. Otherwise it returns the smallest position whose segment joins them. |
| Connectors.GetLineIndex | plugins/jspsych-palmer.js:161-170 | The linear search with early exit returns `LineIndex(lines, s, e)`. |
| Connectors.LineIndexSymmetric | plugins/jspsych-palmer.js:164 | Lookup gives the same answer for (s, e) and (e, s). |
| Connectors.LineIndexSelf | plugins/jspsych-palmer.js:164 | If no segment is a self-pair, looking up (s, s) gives -1. |
| Connectors.GridLookup | plugins/jspsych-palmer.js:161-170 | On the generated list, lookup finds a segment exactly for two distinct nodes of the grid whose rows and columns each differ by at most one. |
| Connectors.FirstHorizontal | plugins/jspsych-palmer.js:127-128 | For N ≥ 2, nodes 0 and 1 are joined by the segment at position 0. |
| Connectors.ThreeByThreeCount | plugins/jspsych-palmer.js:123-145 | The default 3×3 grid has 20 segments. |
| Connectors.TwoByTwoCount | plugins/jspsych-palmer.js:123-145 | The 2×2 grid has 6 segments. |
| Geometry.LayoutNodes | plugins/jspsych-palmer.js:64-100 | The circle loop yields N·N centres, and node k's centre is (spacing·(k mod N + 1), spacing·(k div N + 1)). |
| Geometry.NodeOnCanvas | plugins/jspsych-palmer.js:53-69 | With a positive spacing, every node centre lies strictly inside the square canvas of side spacing·(N+1). |
| Geometry.CentresDistinct | plugins/jspsych-palmer.js:66-69 | With a non-zero spacing, distinct nodes have distinct centres. |
| Session.ToggleChangesExactly | plugins/jspsych-palmer.js:173-186 | A toggle of entry k changes entry k and no other. On a 0/1 array it turns 0 into 1 and 1 into 0, and the array stays 0/1. |
| Session.ToggleTwice | plugins/jspsych-palmer.js:173-186 | Toggling the same k twice restores a 0/1 array. This includes k = -1, which changes nothing. |
| Session.ShowFromZeros | plugins/jspsych-palmer.js:190-196 | On an all-zero array, showing a 0/1 configuration of the array's length leaves the array equal to that configuration. |
| Session.DisplayCorrect | plugins/jspsych-palmer.js:215-240 | After a display-mode start, `correct` is true exactly when the target is 0/1 and no longer than the segment list. |
| Session.ArrayEqual | plugins/jspsych-palmer.js:222-229 | `arrayEqual(arr1, arr2)` is true exactly when arr1 is a prefix of arr2. Entries of arr2 past arr1's length are ignored; a shorter arr2 reads as undefined and gives false. |
| Session.ClickPairEffect | plugins/jspsych-palmer.js:85-115 | From idle, clicking x then y on the generated grid ends idle. It changes the visibility vector exactly when x and y are neighbours, and then only at the entry of the segment joining them. |
| Session.ClickSameNodeTwice | plugins/jspsych-palmer.js:85-115 | Clicking the same node twice leaves every visibility entry unchanged and returns to idle. |
| Session.ClickPairSymmetric | plugins/jspsych-palmer.js:102-106 | Clicking x then y has the same effect as clicking y then x. |
| Session.ClickPairTwice | plugins/jspsych-palmer.js:102-106 | Repeating the same pair of clicks restores a 0/1 visibility vector. |
| Session.ClickFirstSegment | plugins/jspsych-palmer.js:85-115 | On a fresh grid with N ≥ 2, clicking node 0 then node 1 makes exactly the first segment visible. |
| Session.Trial.constructor | plugins/jspsych-palmer.js:46-220 | Setup lays out the nodes, generates the segments and sets every visibility entry to 0. In display mode it then shows the target. The selection starts idle. |
| Session.Trial.ToggleLine | plugins/jspsych-palmer.js:173-186 | The new array is `Toggled(old array, k)`, and the array stays 0/1. |
| Session.Trial.ShowConfiguration | plugins/jspsych-palmer.js:190-196 | The new array is `Shown(old array, c)`: each entry whose configuration value is 1 is toggled once. |
| Session.Trial.DrawConnection | plugins/jspsych-palmer.js:102-115 | Toggles the looked-up segment if there is one and clears `line_started`. The shared start and end nodes keep their values, because the parameters shadow them. |
| Session.Trial.Click | plugins/jspsych-palmer.js:85-95 | The new visibility and selection are `Clicked(lines, old state, node)`. The first click records the start node; the second records the end node and calls `DrawConnection`. |
| Session.Trial.SaveData | plugins/jspsych-palmer.js:232-248 | The record has type "palmer", the host's trial index, the visibility array as its configuration, and rt = end − start. `correct` holds exactly when the target is a prefix of the visibility array. |
| Session.RunDisplayTrial | plugins/jspsych-palmer.js:212-248 | A display-mode trial with a 0/1 target as long as the segment list records that target as its configuration and scores it correct. |
| Factory.Create | plugins/jspsych-palmer.js:22-44 | Returns one trial per configuration, in order, with type "palmer" and the shared `editable`. A numeric override that is absent or 0 falls back to 75/3/20/1000/1000, so no created trial has a zero number. Trials differ only in their configuration, and none carries the `data` payload. |

## Left out

- Drawing and DOM: Raphael circles and paths, fill and stroke colours, hover emphasis, showing, hiding and `toBack` of segment elements, highlight reset of every circle, the submit button and clearing the display. These are foreign rendering calls. A toggle's effect on element k is the visibility entry k.
- Timers and host: `setTimeout` for the display duration and post-trial delay, and `block.next` / `block.data`. The clock (`new Date()`) becomes the `startTime` and `endTime` parameters of `SaveData`.
- Loose equality: configuration entries are integers, so `==` and `!=` compare integers. Non-numeric entries and coercion are not modelled.
- Session.Trial.ToggleLine: requires -1 ≤ k < |lines|. For a k past the end of the segment list, `lineIsVisible[k] === 0` is false, so the source calls `hide()` on the missing element `lineElements[k]`. That throws before the visibility array is written, and the model does not represent the exception. Indices below -1 are no-ops in the source, and the segment lookup never produces one.
- Session.Trial.ShowConfiguration: requires that no configuration entry past the end of the segment list is 1. Such an entry makes the inner `toggle_line` throw, as above; entries past the end that are not 1 are skipped, as in the model.
- Session.Trial.constructor: the same requirement in display mode. With such a target the source throws inside `showConfiguration`, before the display timer is set, so `save_data` never runs and the host is never advanced; the model does not represent that aborted trial. Numbers are integers. A negative square size runs the loops zero times, so it is treated as 0; the canvas size still uses the raw value.
- Session.Trial.SaveData: the record holds a snapshot of the visibility array, while the source stores a reference to the live array. Nothing changes the array afterwards, because the display is cleared. The merge of `trial.data` into the record is left out: `create` never attaches `data`, so the merge adds nothing to trials it builds.
- Factory.Create: `editable` is a boolean. An absent flag is the same as false. NaN and non-numeric overrides are not modelled. `Option` has no null: a `data` parameter that is `null` passes the `!== undefined` test, and the source then throws on `null[i]`. The model does not represent that failure.
