# Day-timeline layout and interaction engine

A Dafny model of the engine inside `src/index.js` of bloom-day-timeline, a
React day-planner component. The component draws a column of time slices and
a positioned block for each item `{id, start, end, …}`, and lets the user
drag a block to a new time or resize it from either edge. The model covers
the parts of that file that compute something:

- **Time rounding** (`rounding.dfy`, module `TimeRounding`):
  - the zoom table and zoom-to-minutes mapping;
  - `nearestMinutesDown` and `nearestMinutesUp`, which round only the
    minute-of-hour field.
- **Range widening** (`range.dfy`, module `RangeResolver`): `findStartEndTime`
  as a loop over the items, together with the left fold that specifies it
  and a closed form of its result.
- **Overlap forest** (`forest.dfy`, module `OverlapForest`): the pairwise
  loop of `render` that hangs each item below the closest-starting item whose
  span contains its start, and the cycle guard `isNodeAlreadyInChain`. The
  nodes live in an arena:
  - `parent[x]` is `-1` where the source leaves `parent` undefined;
  - `children[x]` is the node's children array;
  - a ghost `depth` sequence witnesses that the parent links are acyclic.
- **Margins** (`margins.dfy`, module `OverlapMargins`):
  `accumulatedRightMargin` and `accumulatedLeftMargin`, and the two passes
  that store them on every node.
- **Slice layout** (`layout.dfy`, module `SliceLayout`): `render`'s slice
  loop, producing a header row, the time slices with their separator,
  yesterday and tomorrow flags, and one block descriptor per placed item
  with its top, height, margins and key version.
- **Gestures** (`gestures.dfy`, module `Gestures`):
  - the `Timeline` drag session (`onMouseDown`, `onMouseMove`, `onMouseUp`,
    `componentDidUpdate`);
  - the resize commits `onBlockStartResize` and `onBlockEndResize`;
  - the `ResizeHandle` press state;
  - `TimeBlock.onLiveResize`.

Times are whole minutes since an hour-aligned epoch, so the minute-of-hour
field of `t` is `t % 60`. Pixels are integers, except a block's top and the
live preview's top and height, which are exact `real`s. DOM geometry enters as plain inputs: the id and top of
the block under the pointer, the timeline's top, the pointer's y and a
handle's height.

The parts of the source that change state are modelled as state: classes
`Timeline`, `ResizeHandle` and `TimeBlock`, methods with loops for
`findStartEndTime`, the pairwise loop, the margin passes and the slice loop.
Each method is proved equal to a pure function (`Resolve`, `Up`,
`AllBlocks`, …). The pairwise loop's three levels are proved equal to
`PairStep`, `OfferFold` and `BuildFold`. The lemmas state the properties of
those functions.

Two behaviours of the code are worth noting:
- `accumulatedLeftMargin(n, 0)` counts the descendants of `n`, which the
  comment at src/index.js:695-696 calls the aggregated children count. It is
  not the height of `n`'s subtree. `OverlapMargins.LeftMarginCounts` proves
  the count.
- `Timeline.onMouseDown` does not look at `canDrag`; any block under the
  pointer starts a drag session. Only the resize handle checks `canDrag`.

## Model

| member | source | states |
|---|---|---|
| TimeRounding.ZoomMinutes | src/index.js:505 | the granularity is one of the six zoom table entries and divides the hour; it is 1 exactly when the zoom is outside levels 0 to 4 |
| TimeRounding.RoundDown | src/index.js:66-69 | the result is at most t and within g minutes of it, and stays in t's hour |
| TimeRounding.RoundUp | src/index.js:77-80 | the result is at least t and less than g minutes above it |
| TimeRounding.RoundDownIsFloor | src/index.js:66-69 | for g dividing 60, rounding down is `t - t % g`, the floor onto the grid of multiples of g, and the result is on that grid |
| TimeRounding.RoundUpIsCeiling | src/index.js:77-80 | for g dividing 60, rounding up is t when t is on the grid and otherwise the next grid point; the result is on the grid |
| TimeRounding.RoundingFixesAligned | src/index.js:66-80 | both roundings leave a time already on the grid unchanged |
| TimeRounding.RoundDownGreatest | src/index.js:66-69 | no grid point at or below t lies above the rounded-down time |
| TimeRounding.RoundUpLeast | src/index.js:77-80 | no grid point at or above t lies below the rounded-up time |
| TimeRounding.RoundDownMonotone | src/index.js:66-69 | rounding down preserves order |
| TimeRounding.RoundUpMonotone | src/index.js:77-80 | rounding up preserves order |
| TimeRounding.RoundUpRollsOver | src/index.js:77-80 | at interval 60, minute 59 rounds up to the start of the next hour and down to the start of its own hour |
| RangeResolver.FindStartEndTime | src/index.js:91-117 | the loop's result is the left fold `Resolve` of one widening step per item, in list order |
| RangeResolver.ResolveWidens | src/index.js:97-114 | the resolved start is at or before the requested start and the resolved end at or after the requested end |
| RangeResolver.ResolveContains | src/index.js:97-114 | every item starts at or after the resolved start, and its sizing end (its end, plus two slices when short at 30 minutes or more) is at or before the resolved end |
| RangeResolver.ResolveKeepsFitting | src/index.js:97-114 | a range every item already fits is returned unchanged |
| RangeResolver.ResolveIdempotent | src/index.js:91-117 | resolving the resolved range again changes nothing |
| RangeResolver.MinStart | src/index.js:98-100 | the earliest start of a non-empty list: attained by some item and at or before every start |
| RangeResolver.MaxSizingEnd | src/index.js:105-111 | the latest sizing end: attained by some item and at or after every sizing end |
| RangeResolver.ResolveClosedForm | src/index.js:91-117 | the resolved start is the requested start unless an item starts earlier, then the earliest start rounded down; the end likewise, with the latest sizing end rounded up |
| RangeResolver.ResolveOrderFree | src/index.js:671-674 | item lists with the same elements resolve to the same range, so `render` (sorted copy) and `onMouseUp` (props order) agree |
| Items.FindIndex | src/index.js:511 | the position of the first item with the id: that item has the id and no earlier one does |
| Items.Find | src/index.js:511 | the item found is in the list and has the id; with distinct ids it is the only such item |
| Items.Reverse | src/index.js:764 | the reversed list has the same length and position k holds the element at `n - 1 - k` |
| Items.ReverseDescends | src/index.js:764 | reversing the start-sorted copy gives items in descending start order |
| Items.ReverseDistinct | src/index.js:764 | reversing keeps ids distinct |
| Items.ReversePermutes | src/index.js:764 | reversing keeps the same multiset of items |
| Items.PermutationKeepsDistinct | src/index.js:671 | the sorted copy of items with distinct ids has distinct ids |
| OverlapForest.Ancestors | src/index.js:727-733 | the ancestors of x, nearest first, one per level up: as many as x's depth, each strictly shallower |
| OverlapForest.NoSelfAncestor | src/index.js:751-760 | in a ranked forest no node is its own ancestor |
| OverlapForest.DepthBelowSize | src/index.js:751-760 | a walk up the parent links takes fewer steps than there are nodes, so the walk ends |
| OverlapForest.InChainMeaning | src/index.js:751-760 | the cycle guard fires exactly when the would-be child is the parent or one of its ancestors, or the child's current parent is the parent or one of its ancestors |
| OverlapForest.Remove | src/index.js:779 | filtering a child out of a children array keeps every other entry and drops that child; distinct entries stay distinct |
| OverlapForest.AttachKeepsForest | src/index.js:777-787 | a re-parent the cycle guard lets through leaves an acyclic forest whose children arrays list exactly each node's children, once each |
| OverlapForest.PairStep | src/index.js:768-789 | one pair's step re-parents the child exactly when the ids differ, the child starts inside the parent's span, the new parent starts strictly closer (or there was none) and the cycle guard passes; the result is again a well-formed forest of valid edges |
| OverlapForest.ConsiderPair | src/index.js:768-789 | the new arena is `PairStep` of the old: the child's link changes exactly when the pair qualifies and then becomes that parent; nothing else changes and an existing link is never dropped |
| OverlapForest.OfferFold | src/index.js:767-792 | offering one candidate parent to the first k items, in list order, keeps a well-formed forest of valid edges |
| OverlapForest.FreshNodes | src/index.js:703-710 | new nodes have no parent and no children |
| OverlapForest.FreshForest | src/index.js:703-710 | the fresh arena is a well-formed forest with no edges |
| OverlapForest.BuildFold | src/index.js:763-793 | the first k passes of the outer loop, from the fresh arena, leave a well-formed forest of valid edges |
| OverlapForest.AncestorsStartEarlier | src/index.js:771 | along edges that join a child starting inside its parent, every ancestor starts no later than its descendant |
| OverlapForest.PairStepParents | src/index.js:768-789 | a step never removes a parent link, and after offering p to c, an item c starting strictly inside p's span has a parent: the cycle guard cannot block it, since c starts after p and all of p's ancestors |
| OverlapForest.OfferFoldKeeps | src/index.js:767-792 | the inner loop never removes a parent link |
| OverlapForest.OfferFoldParents | src/index.js:767-792 | after the inner loop for p, every item starting strictly inside p's span has a parent |
| OverlapForest.BuildFoldParents | src/index.js:763-793 | after k outer passes, every item starting strictly inside one of the first k items' spans has a parent (with the proof helpers `KeepsParentsTrans` and `KeepsParentsAt`: parent links, once set, survive later steps) |
| OverlapForest.NestedHaveParents | src/index.js:763-793 | when the pairwise loop ends, every item starting strictly inside another item's span has a parent, and no node is its own ancestor |
| OverlapForest.OfferAsParent | src/index.js:767-792 | the inner loop's result is `OfferFold` over all items |
| OverlapForest.BuildForest | src/index.js:763-793 | the pairwise loop's result is `BuildFold` over all items, so it has the properties `NestedHaveParents` proves |
| OverlapMargins.RightMargin | src/index.js:727-733 | the right margin of a node is its number of ancestors |
| OverlapMargins.LeftMarginCounts | src/index.js:739-745 | `accumulatedLeftMargin(x, m)` is m plus the number of descendants of x |
| OverlapMargins.LeftMarginFoldCounts | src/index.js:741-743 | folding over distinct children adds the sizes of their subtrees to the accumulator |
| OverlapMargins.DescendantsAreChildSubtrees | src/index.js:739-745 | the descendants of a node are the union of its children's subtrees |
| OverlapMargins.SiblingSubtreesDisjoint | src/index.js:739-745 | subtrees of different children do not share nodes |
| OverlapMargins.ChildOccursOnce | src/index.js:779-787 | a node occurs once in its parent's children array and in no other |
| OverlapMargins.ComputeRightMargins | src/index.js:798-800 | the first pass gives each node its ancestor count |
| OverlapMargins.ComputeLeftMargins | src/index.js:801-803 | the second pass gives each node its descendant count |
| SliceLayout.TimeSlices | src/index.js:806-823 | n slices are produced, each a time slice |
| SliceLayout.SliceCountCovers | src/index.js:806 | the loop makes no slice for an empty range; otherwise its last slice starts before the range end and the slices reach at least the range end |
| SliceLayout.TimeSlicesShape | src/index.js:806-811 | slice i is at `rs + i·g`; yesterday slices come first and tomorrow slices last; a slice is a separator exactly when on the hour |
| SliceLayout.UnwidenedRange | src/index.js:806-811 | when the range was not widened no slice is marked yesterday or tomorrow |
| SliceLayout.CountIdAppend | src/index.js:862 | the number of blocks for an id adds up over appended block lists |
| SliceLayout.BlockLengthCovers | src/index.js:838-848 | the drawn length is a whole number of slices and strictly longer than the item's duration |
| SliceLayout.WholeSliceCorrection | src/index.js:843-848 | an item on the grid is drawn exactly one slice longer than it lasts |
| SliceLayout.BlockHeightPositive | src/index.js:847-872 | a block whose item does not end before it starts is at least one slice high, and its height is its drawn length scaled to pixels |
| SliceLayout.BlockTopOnGrid | src/index.js:836-871 | in a slice on the grid, a block's top is the top of its row |
| SliceLayout.SliceBlocksCount | src/index.js:827-829 | a slice shows each item starting inside it once, and no other |
| SliceLayout.SliceBlocksShow | src/index.js:827-877 | every block of a slice is an item starting in the slice, at that slice's top and height, with ten pixels of margin per count at a position holding its item and the item's update counter as its version |
| SliceLayout.AllBlocksCount | src/index.js:806-881 | over n slices from rs each item is shown exactly once when it starts in `[rs, rs + n·g)`, and otherwise not at all |
| SliceLayout.AllBlocksShow | src/index.js:806-881 | every block shows one of the items, from the slice its start falls in; its margins are ten times the counts at a position holding its item, and its version is the item's update counter (0 when none) |
| SliceLayout.AllBlocksOnGrid | src/index.js:860-871 | when the range starts on the grid every block's top is the top of the row its start falls in, counting the header row |
| SliceLayout.PlaceSlice | src/index.js:827-877 | the filter over one slice yields the blocks `SliceBlocks` lists |
| SliceLayout.BuildSlices | src/index.js:806-881 | the slice loop yields the header row and the time slices, and the blocks of all slices in order |
| SliceLayout.RenderPlacement | src/index.js:806-829 | after widening, every item that starts before its sizing end is shown in exactly one block |
| SliceLayout.Render | src/index.js:654-886 | `render` yields the slices `TimeSlices` and the blocks `AllBlocks` describe over the resolved range, from the reversed sorted items with their descendant and ancestor counts as margins; the forest is `BuildFold` of the reversed items, acyclic and well formed; an item starting strictly inside another's span has a parent, so its right margin and its parent's left margin are at least 1; each item starting before its sizing end appears exactly once |
| SliceLayout.LinkedMargins | src/index.js:724-745 | a node with a parent has a right margin of at least 1, and its parent a left margin of at least 1 |
| Gestures.SlicesIn | src/index.js:509-510 | the whole slices in a pixel offset: the floor of offset over slice height |
| Gestures.MovedItem | src/index.js:505-517 | the reported item is the original with only start and end changed, the same duration, and start = resolved range start + whole slices under the drop × g |
| Gestures.Down | src/index.js:467-488 | a press over a block starts a session on it and keeps the recorded top and counters; a press elsewhere changes nothing |
| Gestures.MoveTo | src/index.js:541-550 | during a session the new top is the pressed top plus the pointer's travel minus the timeline's top; without one nothing changes |
| Gestures.Up | src/index.js:494-535 | a release always clears the session; an item is reported exactly when there is a block, a non-zero recorded top and a callback, and it is `MovedItem`; on a commit only the dragged id's counter goes up, by one |
| Gestures.DidUpdate | src/index.js:650-652 | a render drops the selected block and keeps the rest |
| Gestures.MovesWithoutSession | src/index.js:541-550 | without a session any run of moves changes nothing |
| Gestures.ClickEmitsNothing | src/index.js:494-497 | from a state with no recorded top, a press and release without a move reports nothing and changes no counter |
| Gestures.ClickAfterInterruptedDragCommits | src/index.js:481-497 | after a drag that a re-render interrupts, a press on a block and a release without a move report that block moved to the stale recorded top |
| Gestures.CommitsAtMostOnce | src/index.js:519-523 | after a release, whatever moves follow, the next release reports nothing |
| Gestures.DropAtZeroIsClick | src/index.js:497 | a drag ending with its top at pixel 0 is taken for a click |
| Gestures.RerenderCancelsDrag | src/index.js:650-652 | a render during a drag cancels it: the next release reports nothing |
| Gestures.DragCommits | src/index.js:467-550 | press, move, release away from 0 reports the moved item and raises its counter by one |
| Gestures.DropRow | src/index.js:509-510 | a drop on the row of time x, below the header rows, lands on x rounded down |
| Gestures.DropInPlace | src/index.js:505-517 | dropping a block on the row `render` drew it on moves it to its rounded-down start with its duration kept |
| Gestures.StartResized | src/index.js:565-577 | the new start is the old start plus the whole slices of the drag, rounded down, on the grid; the end is kept exactly when the new start is not after it, otherwise one slice after the start; start ≤ end; other fields kept |
| Gestures.EndResized | src/index.js:596-608 | the new end is the old end plus the whole slices of the drag, rounded down, or one slice after the start when that would fall before it; start ≤ end; other fields kept |
| Gestures.EndResizeClamps | src/index.js:600-603 | an end dragged before the start's slice stops one slice after the start |
| Gestures.SmallStartResizeKeeps | src/index.js:565-572 | a start drag of less than a slice on an item on the grid changes nothing |
| Gestures.OnBlockStartResize | src/index.js:558-581 | the start-resized item is reported exactly when there is a callback |
| Gestures.OnBlockEndResize | src/index.js:589-612 | the end-resized item is reported exactly when there is a callback |
| Gestures.Timeline.constructor | src/index.js:457-460 | a new timeline has no session and no counters |
| Gestures.Timeline.OnMouseDown | src/index.js:467-488 | the new drag state is `Down` of the old |
| Gestures.Timeline.OnMouseMove | src/index.js:541-550 | the new drag state is `MoveTo` of the old |
| Gestures.Timeline.OnMouseUp | src/index.js:494-535 | the new drag state and the reported item are `Up` of the old state |
| Gestures.Timeline.ComponentDidUpdate | src/index.js:650-652 | the new drag state is `DidUpdate` of the old |
| Gestures.HandleDown | src/index.js:196-205 | a press on a draggable item starts a press at the handle's top; otherwise nothing changes; the recorded move is untouched |
| Gestures.HandleMove | src/index.js:226-233 | while pressed the pointer's y is recorded and reported with its travel and the handle height when `onMove` is a function; the origin is kept; otherwise nothing changes |
| Gestures.HandleUp | src/index.js:211-220 | a release ends the press, clears the recorded move, keeps the origin, and reports y, travel and handle height exactly when pressed and `onMove` is a function; unpressed, nothing changes |
| Gestures.HandleMoves | src/index.js:226-233 | a run of moves keeps the handle valid: a pressed handle still has an origin (that the press flag and the origin are unchanged is `MovesKeepPress`) |
| Gestures.MovesKeepPress | src/index.js:226-233 | any run of moves leaves the press flag and the origin as they were |
| Gestures.HandleResizeTravel | src/index.js:196-233 | press on a draggable item, any moves, release: the release applies the resize with the pointer's y, its travel from the handle's top at the press, and the handle height, and leaves the handle released with no move recorded |
| Gestures.HandleAppliesOnce | src/index.js:211-233 | after a release the next release and any move report nothing |
| Gestures.HandleNeedsCanDrag | src/index.js:196-205 | a handle on an item that cannot be dragged never reports |
| Gestures.ResizeHandle.constructor | src/index.js:181-189 | a new handle is not pressed and has no origin or move |
| Gestures.ResizeHandle.OnMouseDown | src/index.js:196-205 | the new press state is `HandleDown` of the old |
| Gestures.ResizeHandle.OnMouseUp | src/index.js:211-220 | the new press state and the report are `HandleUp` of the old |
| Gestures.ResizeHandle.OnMouseMove | src/index.js:226-233 | the new press state and the report are `HandleMove` of the old |
| Gestures.LivePreview | src/index.js:338-357 | a start-edge preview moves the top by the travel and keeps the bottom; an end-edge preview keeps the top and sets the height to the block height plus travel minus the handle height |
| Gestures.TimeBlock.constructor | src/index.js:314-325 | a new block has version 0 and its style at its props |
| Gestures.TimeBlock.OnLiveResize | src/index.js:335-359 | an apply bumps the version, lowers the block and reports the start or end resize (end with the handle height added to the travel); a preview raises the block and writes `LivePreview`, reporting nothing |

## Left out

- React rendering, JSX, `TimeLabel` formatting, PropTypes and styles: presentation, not logic. A slice is a descriptor with its time and flags, and a block a descriptor with its geometry.
- DOM plumbing: listener registration and removal, `getBoundingClientRect`, `style` writes other than the preview geometry, `cancelBubble`. The rectangles, the pointer position and the handle's `clientHeight` are inputs.
- `findElementsUnderPoint` and the computed z-index sort in `onMouseDown`: the topmost block under the pointer is an input (`hit`).
- moment.js calendar semantics (time zones, DST, seconds and milliseconds) and the clock-dependent defaults `moment().startOf/endOf("day")`: times are whole minutes and the range is a parameter.
- JavaScript floating point in the pixel-to-minute conversions: `Math.floor(((newY - header) / sliceHeight) * g / g)` and `Math.floor((dy / sliceHeight) * g / g)` are modelled as the exact floor of the pixel offset over the slice height (`Gestures.SlicesIn`), and a block's `y` as an exact rational.
- The library sort in `render` is a foreign call: `SliceLayout.Render` takes the sorted copy as a parameter, required to be sorted by start and to hold the same items.
- `Object.values(margins)` enumeration order: the margin passes walk the arena in index order. Each node's margin does not depend on the order.
- `createNode` and `findNode` are implicit in the arena: node x exists from the start for item x, with no parent and no children (`OverlapForest.FreshNodes`). This does not change the outcome, because a node reached first as a child starts with no parent in the source as well.
- Item ids are integers compared by equality; the source compares their string forms. `SliceLayout.Render` requires distinct ids, as React keys and the id-keyed node dictionary assume.
- Gestures.MovedItem, Gestures.Up, Gestures.Timeline.OnMouseUp: require the dragged id among the items and a positive slice height; the source dereferences the lookup without a check and divides by the slice height.
- Gestures.OnBlockStartResize, Gestures.OnBlockEndResize, Gestures.TimeBlock.OnLiveResize: require the id among the items and a positive slice height, for the same reason.
- Gestures.ResizeHandle.OnMouseDown: takes the item as an argument. `TimeBlock` never passes the `item` prop it reads, so in the source this press throws; the model states what it does when the prop is present.
- Gestures.HandleUp, Gestures.ResizeHandle.OnMouseUp, Gestures.HandleMove, Gestures.ResizeHandle.OnMouseMove: require a pressed handle to have an origin, which every reachable state has (`Valid`). The release handler's extra `originY !== null` test is kept in `HandleUp`'s body. The move handler has no such test, and with a null origin its JavaScript arithmetic would treat the origin as 0; the model does not cover that unreachable state.
- The release handler of `ResizeHandle` tests `onMove` but calls `onApplyResize`. The model reports the apply whenever `onMove` is a function, as written, and the handle's `TimeBlock` always passes both.
- `TimeBlock.onLiveResize`: the unused `y` argument is dropped. The `done` callback's version bump happens inside the resize call before the report, and is modelled as part of the apply. Whether the resize handles are drawn at all (`canResize`) is presentation and not modelled.
- `setState` is asynchronous; `itemUpdates` is modelled as updated at once.
- The compiled build, the demo application and the build and documentation configuration are not part of this model.

Recorded behaviour of the code, modelled as written:
- A drag whose block ends with its top at pixel 0 is taken for a click (`Gestures.DropAtZeroIsClick`).
- `onBlockStartResize` replaces the end only when the new start is strictly after it, so a zero-length item can result (`Gestures.StartResized`).
- An item that does not start before its sizing end can start at or after the range's end and then gets no block. At granularities under 30 minutes this happens to a zero-length item at the range's end when that end lies on the slice grid from the range's start, as it always does at a granularity of 1 minute. `SliceLayout.RenderPlacement` proves that every item starting before its sizing end is drawn exactly once.
- `onMouseDown` does not reset the recorded top and `componentDidUpdate` clears only the selected block. After a drag that a re-render interrupts, a click on a block without a move commits a move of that block to the stale top, despite the intent that clicks do not move blocks (`Gestures.ClickAfterInterruptedDragCommits`; `Gestures.ClickEmitsNothing` holds from a state with no recorded top).
- Counters go up on every committed drag, whether or not a callback is set (`Gestures.Up`).
