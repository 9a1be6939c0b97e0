/** The pointer gestures: moving a block by dragging it (`Timeline.onMouseDown`,
    `onMouseMove`, `onMouseUp`, `componentDidUpdate`, src/index.js:467-550, 650-652),
    resizing it from either edge (`onBlockStartResize`, `onBlockEndResize`,
    src/index.js:558-612), the resize handles' own press state (`ResizeHandle`,
    src/index.js:181-233) and the live preview of a resize
    (`TimeBlock.onLiveResize`, src/index.js:335-359).
    Pixels are whole numbers; the DOM is reduced to the values it supplies:
    the id and top of the block under the pointer, the timeline's top, the
    pointer's y and a handle's height. */
module Gestures {
  import opened Items
  import opened TimeRounding
  import opened RangeResolver
  import opened SliceLayout

  /** The props the gestures read: `hasHeader` is `timeHeader || contentHeader`,
      `hasCallback` whether `onTimeBlockChange` is a function. */
  datatype Props = Props(items: seq<Item>, zoom: int, sliceHeight: int, hasHeader: bool,
                         startTime: int, endTime: int, hasCallback: bool)

  /** `Math.floor(dy / sliceHeight)`: the whole slices in a pixel offset. */
  function SlicesIn(dy: int, sliceHeight: int): (k: int)
    requires 0 < sliceHeight
    ensures k * sliceHeight <= dy < (k + 1) * sliceHeight
  {
    assert dy == sliceHeight * (dy / sliceHeight) + dy % sliceHeight;
    dy / sliceHeight
  }

  /** The pixel height of the header row, when there is one. */
  function HeaderHeight(props: Props): int
  {
    if props.hasHeader then props.sliceHeight else 0
  }

  // Moving a block.

  /** The item `onMouseUp` reports for a drop at `newY`: moved to the start of
      the slice row under `newY`, counted from the resolved range start, with
      its duration and every other field kept. */
  function MovedItem(props: Props, id: Id, newY: int): (r: Item)
    requires HasId(props.items, id) && 0 < props.sliceHeight
    ensures var orig := Find(props.items, id);
      r == orig.(start := r.start, end := r.end) && Duration(r) == Duration(orig)
    ensures r.start == Resolve(TimeRange(props.startTime, props.endTime), props.items, ZoomMinutes(props.zoom)).startTime +
                       SlicesIn(newY - HeaderHeight(props), props.sliceHeight) * ZoomMinutes(props.zoom)
  {
    var g := ZoomMinutes(props.zoom);
    var rs := Resolve(TimeRange(props.startTime, props.endTime), props.items, g).startTime;
    var orig := Find(props.items, id);
    var k := SlicesIn(newY - HeaderHeight(props), props.sliceHeight);
    var start := rs + k * g;
    orig.(start := start, end := start + Duration(orig))
  }

  /** The drag state of a `Timeline`: the block being moved (its `data-id`),
      its top and the pointer's y when pressed, the top it was last dragged
      to, and the per-item update counters. */
  datatype DragState = DragState(moveBlock: Option<Id>, originTop: int, originY: int,
                                 newY: Option<int>, itemUpdates: map<Id, nat>)

  const Idle := DragState(None, 0, 0, None, map[])

  /** `onMouseDown`: a press over a block starts a session on it; a press
      elsewhere changes nothing. */
  function Down(s: DragState, hit: Option<Id>, hitTop: int, clientY: int): (r: DragState)
    ensures hit.Some? ==> r.moveBlock == hit && r.newY == s.newY && r.itemUpdates == s.itemUpdates
    ensures hit.None? ==> r == s
  {
    if hit.Some? then s.(moveBlock := hit, originTop := hitTop, originY := clientY) else s
  }

  /** `onMouseMove`: during a session the block's new top is its top when
      pressed, moved by the pointer's travel, relative to the timeline's top. */
  function MoveTo(s: DragState, clientY: int, timelineTop: int): (r: DragState)
    ensures s.moveBlock.None? ==> r == s
    ensures s.moveBlock.Some? ==> r == s.(newY := Some(s.originTop - timelineTop + (clientY - s.originY)))
  {
    if s.moveBlock.Some? then s.(newY := Some(s.originTop + (clientY - s.originY) - timelineTop)) else s
  }

  /** `this.moveBlock && this.moveBlockNewY`: a selected block and a recorded
      top that is not 0 (0 is falsy). */
  predicate Commits(s: DragState)
  {
    s.moveBlock.Some? && s.newY.Some? && s.newY.value != 0
  }

  /** What a commit needs of the props: the dragged id among the items, and a
      slice height to divide by. */
  predicate CanCommit(s: DragState, props: Props)
  {
    Commits(s) ==> HasId(props.items, s.moveBlock.value) && 0 < props.sliceHeight
  }

  /** `onMouseUp`: the new state and the item passed to `onTimeBlockChange`. */
  function Up(s: DragState, props: Props): (r: (DragState, Option<Item>))
    requires CanCommit(s, props)
    ensures r.0.moveBlock.None? && r.0.newY.None?
    ensures r.0.originTop == s.originTop && r.0.originY == s.originY
    ensures r.1.Some? <==> Commits(s) && props.hasCallback
    ensures r.1.Some? ==> r.1.value == MovedItem(props, s.moveBlock.value, s.newY.value)
    ensures !Commits(s) ==> r.0.itemUpdates == s.itemUpdates
    ensures Commits(s) ==>
      var id := s.moveBlock.value;
      id in r.0.itemUpdates && r.0.itemUpdates[id] == Version(s.itemUpdates, id) + 1 &&
      forall other :: other != id ==> Version(r.0.itemUpdates, other) == Version(s.itemUpdates, other)
  {
    if Commits(s) then
      var item := MovedItem(props, s.moveBlock.value, s.newY.value);
      (s.(moveBlock := None, newY := None,
          itemUpdates := s.itemUpdates[item.id := Version(s.itemUpdates, item.id) + 1]),
       if props.hasCallback then Some(item) else None)
    else (s.(moveBlock := None, newY := None), None)
  }

  /** `componentDidUpdate`: every render drops the selected block. */
  function DidUpdate(s: DragState): (r: DragState)
    ensures r.moveBlock.None? && r.newY == s.newY && r.itemUpdates == s.itemUpdates
  {
    s.(moveBlock := None)
  }

  /** A run of pointer moves, each a pointer y and the timeline's top. */
  function Moves(s: DragState, ms: seq<(int, int)>): DragState
    decreases |ms|
  {
    if ms == [] then s else Moves(MoveTo(s, ms[0].0, ms[0].1), ms[1..])
  }

  /** Without a session, pointer moves change nothing. */
  lemma {:induction false} MovesWithoutSession(s: DragState, ms: seq<(int, int)>)
    requires s.moveBlock.None?
    ensures Moves(s, ms) == s
  {
    if ms != [] {
      MovesWithoutSession(MoveTo(s, ms[0].0, ms[0].1), ms[1..]);
    }
  }

  /** A press and release without a move in between is a click: nothing is
      reported and no counter changes. */
  lemma ClickEmitsNothing(s: DragState, props: Props, hit: Option<Id>, hitTop: int, clientY: int)
    requires s.newY.None?
    ensures var d := Down(s, hit, hitTop, clientY);
      CanCommit(d, props) && Up(d, props).1.None? && Up(d, props).0.itemUpdates == s.itemUpdates
  {
  }

  /** `onMouseDown` does not clear the recorded top, and a re-render clears
      only the selected block. So after a drag interrupted by a re-render, a
      press and release without a move commits a move to the stale top. */
  lemma ClickAfterInterruptedDragCommits(s: DragState, props: Props, clientY: int, timelineTop: int,
                                         id: Id, hitTop: int, clientY': int)
    requires s.moveBlock.Some? && MoveTo(s, clientY, timelineTop).newY.value != 0
    requires HasId(props.items, id) && 0 < props.sliceHeight && props.hasCallback
    ensures var stale := MoveTo(s, clientY, timelineTop).newY.value;
      var d := Down(DidUpdate(MoveTo(s, clientY, timelineTop)), Some(id), hitTop, clientY');
      CanCommit(d, props) && Up(d, props).1 == Some(MovedItem(props, id, stale))
  {
  }

  /** A release clears the session before reporting, so however the pointer
      moves afterwards, the next release reports nothing. */
  lemma CommitsAtMostOnce(s: DragState, props: Props, ms: seq<(int, int)>, props': Props)
    requires CanCommit(s, props)
    ensures var after := Moves(Up(s, props).0, ms);
      after == Up(s, props).0 && CanCommit(after, props') && Up(after, props').1.None?
  {
    MovesWithoutSession(Up(s, props).0, ms);
  }

  /** A drag that ends with the block's top at pixel 0 is taken for a click. */
  lemma DropAtZeroIsClick(s: DragState, props: Props)
    requires s.moveBlock.Some? && s.newY == Some(0)
    ensures CanCommit(s, props) && Up(s, props).1.None? && Up(s, props).0.itemUpdates == s.itemUpdates
  {
  }

  /** A re-render in the middle of a drag cancels it: the release that
      follows reports nothing, however the pointer moved. */
  lemma RerenderCancelsDrag(s: DragState, props: Props, ms: seq<(int, int)>)
    ensures var d := Moves(DidUpdate(s), ms);
      CanCommit(d, props) && Up(d, props).1.None? && Up(d, props).0.itemUpdates == s.itemUpdates
  {
    MovesWithoutSession(DidUpdate(s), ms);
  }

  /** A full drag: press on a block, move, release away from the top. The
      item reported is the dragged one moved to the row under the block's new
      top, and only its counter goes up. */
  lemma DragCommits(s: DragState, props: Props, id: Id, hitTop: int, y0: int, y1: int, timelineTop: int)
    requires HasId(props.items, id) && 0 < props.sliceHeight && props.hasCallback
    requires hitTop - timelineTop + (y1 - y0) != 0
    ensures var d := MoveTo(Down(s, Some(id), hitTop, y0), y1, timelineTop);
      CanCommit(d, props) &&
      Up(d, props).1 == Some(MovedItem(props, id, hitTop - timelineTop + (y1 - y0))) &&
      Version(Up(d, props).0.itemUpdates, id) == Version(s.itemUpdates, id) + 1
  {
  }

  /** A pixel offset of exactly q slices holds q whole slices. */
  lemma SlicesInExact(q: int, sliceHeight: int)
    requires 0 < sliceHeight
    ensures SlicesIn(q * sliceHeight, sliceHeight) == q
  {
    DivModUnique(q * sliceHeight, sliceHeight, q, 0);
  }

  /** Whole slices counted from a grid point land on the grid point below x. */
  lemma GridFloorFrom(rs: int, x: int, g: int)
    requires DividesHour(g) && Aligned(rs, g)
    ensures rs + ((x - rs) / g) * g == RoundDown(x, g)
  {
    assert rs == g * (rs / g);
    assert x - rs == g * (x / g - rs / g) + x % g;
    DivModUnique(x - rs, g, x / g - rs / g, x % g);
    RoundDownIsFloor(x, g);
  }

  /** The arithmetic of a drop on the row of x, below `b` header rows. */
  lemma DropRow(b: int, sliceHeight: int, headerHeight: int, rs: int, x: int, g: int, newY: int)
    requires 0 < sliceHeight && headerHeight == b * sliceHeight && DividesHour(g) && Aligned(rs, g)
    requires newY == (b + (x - rs) / g) * sliceHeight
    ensures rs + SlicesIn(newY - headerHeight, sliceHeight) * g == RoundDown(x, g)
  {
    var q := (x - rs) / g;
    assert (b + q) * sliceHeight - headerHeight == q * sliceHeight;
    SlicesInExact(q, sliceHeight);
    GridFloorFrom(rs, x, g);
  }

  /** A block dropped where `render` drew it (the range starting on the grid)
      lands on its rounded-down start, with its duration kept. */
  lemma DropInPlace(props: Props, id: Id, g: int, rs: int)
    requires HasId(props.items, id) && 0 < props.sliceHeight
    requires g == ZoomMinutes(props.zoom) && rs == Resolve(TimeRange(props.startTime, props.endTime), props.items, g).startTime
    requires Aligned(rs, g)
    ensures var item := Find(props.items, id);
      var moved := MovedItem(props, id, (|HeaderRow(props.hasHeader)| + (item.start - rs) / g) * props.sliceHeight);
      moved.start == RoundDown(item.start, g) && Duration(moved) == Duration(item)
  {
    var item := Find(props.items, id);
    var b := |HeaderRow(props.hasHeader)|;
    var newY := (b + (item.start - rs) / g) * props.sliceHeight;
    DropRow(b, props.sliceHeight, HeaderHeight(props), rs, item.start, g, newY);
  }

  // Resizing a block.

  /** `onBlockStartResize`'s new item: the start moved by the whole slices in
      `dy` and rounded down; the end kept unless the start passed it, in which
      case the block becomes one slice long. */
  function StartResized(item: Item, dy: int, sliceHeight: int, g: int): (r: Item)
    requires 0 < sliceHeight && DividesHour(g)
    ensures r == item.(start := r.start, end := r.end)
    ensures r.start == RoundDown(item.start + SlicesIn(dy, sliceHeight) * g, g) && Aligned(r.start, g)
    ensures r.start <= r.end
    ensures r.end == item.end <==> r.start <= item.end
    ensures r.end != item.end ==> r.end == r.start + g
  {
    var start := RoundDown(item.start + SlicesIn(dy, sliceHeight) * g, g);
    RoundDownIsFloor(item.start + SlicesIn(dy, sliceHeight) * g, g);
    item.(start := start, end := if start > item.end then start + g else item.end)
  }

  /** `onBlockEndResize`'s new item: the end moved by the whole slices in `dy`
      and rounded down, but never before the start; an end that would fall
      before it is put one slice after the start. */
  function EndResized(item: Item, dy: int, sliceHeight: int, g: int): (r: Item)
    requires 0 < sliceHeight && DividesHour(g)
    ensures r == item.(end := r.end)
    ensures r.start <= r.end
    ensures var moved := RoundDown(item.end + SlicesIn(dy, sliceHeight) * g, g);
      r.end == (if moved < item.start then item.start + g else moved)
  {
    var end := RoundDown(item.end + SlicesIn(dy, sliceHeight) * g, g);
    item.(end := if end < item.start then item.start + g else end)
  }

  /** An end dragged before the start stops one slice after it. */
  lemma EndResizeClamps(item: Item, dy: int, sliceHeight: int, g: int)
    requires 0 < sliceHeight && DividesHour(g)
    requires item.end + SlicesIn(dy, sliceHeight) * g < RoundDown(item.start, g)
    ensures EndResized(item, dy, sliceHeight, g).end == item.start + g
  {
    RoundDownMonotone(item.end + SlicesIn(dy, sliceHeight) * g, RoundDown(item.start, g), g);
    RoundDownIsFloor(item.start, g);
    RoundingFixesAligned(RoundDown(item.start, g), g);
    assert RoundDown(item.start, g) <= item.start;
    assert RoundDown(item.end + SlicesIn(dy, sliceHeight) * g, g) <= item.end + SlicesIn(dy, sliceHeight) * g;
  }

  /** A start resize by less than a slice on an item on the grid leaves it
      unchanged. */
  lemma SmallStartResizeKeeps(item: Item, dy: int, sliceHeight: int, g: int)
    requires 0 < sliceHeight && DividesHour(g) && 0 <= dy < sliceHeight
    requires Aligned(item.start, g) && item.start <= item.end
    ensures StartResized(item, dy, sliceHeight, g) == item
  {
    DivModUnique(dy, sliceHeight, 0, dy);
    RoundingFixesAligned(item.start, g);
  }

  /** `onBlockStartResize(id, dy, done)`: the item reported, when there is a callback. */
  function OnBlockStartResize(props: Props, id: Id, dy: int): (r: Option<Item>)
    requires HasId(props.items, id) && 0 < props.sliceHeight
    ensures r.Some? <==> props.hasCallback
    ensures r.Some? ==> r.value == StartResized(Find(props.items, id), dy, props.sliceHeight, ZoomMinutes(props.zoom))
  {
    if props.hasCallback
    then Some(StartResized(Find(props.items, id), dy, props.sliceHeight, ZoomMinutes(props.zoom)))
    else None
  }

  /** `onBlockEndResize(id, dy, done)`: the item reported, when there is a callback. */
  function OnBlockEndResize(props: Props, id: Id, dy: int): (r: Option<Item>)
    requires HasId(props.items, id) && 0 < props.sliceHeight
    ensures r.Some? <==> props.hasCallback
    ensures r.Some? ==> r.value == EndResized(Find(props.items, id), dy, props.sliceHeight, ZoomMinutes(props.zoom))
  {
    if props.hasCallback
    then Some(EndResized(Find(props.items, id), dy, props.sliceHeight, ZoomMinutes(props.zoom)))
    else None
  }

  /** The `Timeline` component's drag fields. */
  class Timeline {
    var moveBlock: Option<Id>
    var moveBlockOriginTop: int
    var mouseMoveOriginY: int
    var moveBlockNewY: Option<int>
    var itemUpdates: map<Id, nat>

    function State(): DragState
      reads this
    {
      DragState(moveBlock, moveBlockOriginTop, mouseMoveOriginY, moveBlockNewY, itemUpdates)
    }

    constructor()
      ensures State() == Idle
    {
      moveBlock, moveBlockOriginTop, mouseMoveOriginY, moveBlockNewY, itemUpdates := None, 0, 0, None, map[];
    }

    /** `hit` is the topmost block under the pointer, `hitTop` its top. */
    method OnMouseDown(hit: Option<Id>, hitTop: int, clientY: int)
      modifies this
      ensures State() == Down(old(State()), hit, hitTop, clientY)
    {
      if hit.Some? {
        moveBlock := hit;
        moveBlockOriginTop := hitTop;
        mouseMoveOriginY := clientY;
      }
    }

    method OnMouseMove(clientY: int, timelineTop: int)
      modifies this
      ensures State() == MoveTo(old(State()), clientY, timelineTop)
    {
      if moveBlock.Some? {
        var dy := clientY - mouseMoveOriginY;
        moveBlockNewY := Some(moveBlockOriginTop + dy - timelineTop);
      }
    }

    method OnMouseUp(props: Props) returns (emitted: Option<Item>)
      requires CanCommit(State(), props)
      modifies this
      ensures (State(), emitted) == Up(old(State()), props)
    {
      if moveBlock.Some? && moveBlockNewY.Some? && moveBlockNewY.value != 0 {
        var g := ZoomMinutes(props.zoom);
        var range := FindStartEndTime(props.startTime, props.endTime, props.items, g);
        var header := if props.hasHeader then props.sliceHeight else 0;
        var start := range.startTime + ((moveBlockNewY.value - header) / props.sliceHeight) * g;
        var origItem := Find(props.items, moveBlock.value);
        var item := origItem.(start := start, end := start + (origItem.end - origItem.start));
        moveBlock := None;
        moveBlockNewY := None;
        emitted := if props.hasCallback then Some(item) else None;
        var count := if item.id in itemUpdates then itemUpdates[item.id] else 0;
        itemUpdates := itemUpdates[item.id := count + 1];
      } else {
        moveBlock := None;
        moveBlockNewY := None;
        emitted := None;
      }
    }

    method ComponentDidUpdate()
      modifies this
      ensures State() == DidUpdate(old(State()))
    {
      moveBlock := None;
    }
  }

  // The resize handles.

  /** A `ResizeHandle`'s press state. */
  datatype HandleState = HandleState(mouseDown: bool, originY: Option<int>, moveY: Option<int>)

  /** The arguments of `onMove` and `onApplyResize`: the pointer's y, its
      travel since the press and the handle's height. */
  datatype HandleEvent = HandleEvent(y: int, dy: int, height: int)

  /** A pressed handle knows where the press started. */
  predicate HandleValid(h: HandleState)
  {
    h.mouseDown ==> h.originY.Some?
  }

  /** `onMouseDown`: only an item that can be dragged starts a press. */
  function HandleDown(h: HandleState, canDrag: bool, handleTop: int): (r: HandleState)
    ensures HandleValid(h) ==> HandleValid(r)
    ensures canDrag ==> r.mouseDown && r.originY == Some(handleTop)
    ensures !canDrag ==> r == h
    ensures r.moveY == h.moveY
  {
    if canDrag then h.(mouseDown := true, originY := Some(handleTop)) else h
  }

  /** `onMouseMove`: while pressed, report the pointer and its travel. */
  function HandleMove(h: HandleState, clientY: int, hasOnMove: bool, clientHeight: int): (r: (HandleState, Option<HandleEvent>))
    requires HandleValid(h)
    ensures HandleValid(r.0) && r.0.mouseDown == h.mouseDown
    ensures r.1.Some? <==> h.mouseDown && hasOnMove
    ensures r.1.Some? ==> r.1.value.y == clientY && r.1.value.dy == clientY - h.originY.value && r.1.value.height == clientHeight
    ensures h.mouseDown ==> r.0.moveY == Some(clientY)
    ensures r.0.originY == h.originY
    ensures !h.mouseDown ==> r.0 == h
  {
    if h.mouseDown then
      var dy := clientY - h.originY.value;
      var y := h.originY.value + dy;
      (h.(moveY := Some(y)), if hasOnMove then Some(HandleEvent(y, dy, clientHeight)) else None)
    else (h, None)
  }

  /** `onMouseUp`: end the press and report it, when `onMove` is a function. */
  function HandleUp(h: HandleState, clientY: int, hasOnMove: bool, clientHeight: int): (r: (HandleState, Option<HandleEvent>))
    requires HandleValid(h)
    ensures HandleValid(r.0) && !r.0.mouseDown
    ensures r.1.Some? <==> h.mouseDown && hasOnMove
    ensures r.1.Some? ==> r.1.value.y == clientY && r.1.value.dy == clientY - h.originY.value && r.1.value.height == clientHeight
    ensures r.0.originY == h.originY
    ensures h.mouseDown ==> r.0.moveY == None
    ensures !h.mouseDown ==> r.0 == h
  {
    if h.mouseDown && h.originY.Some? then
      var dy := clientY - h.originY.value;
      var y := h.originY.value + dy;
      (h.(mouseDown := false, moveY := None), if hasOnMove then Some(HandleEvent(y, dy, clientHeight)) else None)
    else (h, None)
  }

  /** The handle after the pointer moves through the ys in `ms`, in order. */
  function HandleMoves(h: HandleState, ms: seq<int>, hasOnMove: bool, clientHeight: int): (r: HandleState)
    requires HandleValid(h)
    ensures HandleValid(r)
    decreases |ms|
  {
    if ms == [] then h else HandleMoves(HandleMove(h, ms[0], hasOnMove, clientHeight).0, ms[1..], hasOnMove, clientHeight)
  }

  /** Moves neither press nor release the handle, nor shift its origin. */
  lemma {:induction false} MovesKeepPress(h: HandleState, ms: seq<int>, hasOnMove: bool, clientHeight: int)
    requires HandleValid(h)
    ensures HandleMoves(h, ms, hasOnMove, clientHeight).mouseDown == h.mouseDown
    ensures HandleMoves(h, ms, hasOnMove, clientHeight).originY == h.originY
    decreases |ms|
  {
    if ms != [] {
      MovesKeepPress(HandleMove(h, ms[0], hasOnMove, clientHeight).0, ms[1..], hasOnMove, clientHeight);
    }
  }

  /** Press, any moves, release: the release applies the resize with the
      pointer's travel measured from the handle's top at the press, and
      leaves the handle released with no move recorded. */
  lemma HandleResizeTravel(h: HandleState, handleTop: int, ms: seq<int>, clientY: int, clientHeight: int)
    requires HandleValid(h)
    ensures var up := HandleUp(HandleMoves(HandleDown(h, true, handleTop), ms, true, clientHeight), clientY, true, clientHeight);
      up.1 == Some(HandleEvent(clientY, clientY - handleTop, clientHeight)) &&
      !up.0.mouseDown && up.0.moveY == None && up.0.originY == Some(handleTop)
  {
    MovesKeepPress(HandleDown(h, true, handleTop), ms, true, clientHeight);
  }

  /** A release ends the press: the next release and any move report nothing. */
  lemma HandleAppliesOnce(h: HandleState, clientY: int, clientY': int, hasOnMove: bool, clientHeight: int)
    requires HandleValid(h)
    ensures var released := HandleUp(h, clientY, hasOnMove, clientHeight).0;
      HandleUp(released, clientY', hasOnMove, clientHeight).1.None? &&
      HandleMove(released, clientY', hasOnMove, clientHeight).1.None?
  {
  }

  /** On an item that cannot be dragged a handle never reports a resize. */
  lemma HandleNeedsCanDrag(clientY: int, clientHeight: int, handleTop: int)
    ensures var h := HandleDown(HandleState(false, None, None), false, handleTop);
      HandleUp(h, clientY, true, clientHeight).1.None? && HandleMove(h, clientY, true, clientHeight).1.None?
  {
  }

  /** The `ResizeHandle` component's press fields. */
  class ResizeHandle {
    var mouseDown: bool
    var originY: Option<int>
    var moveY: Option<int>

    function State(): HandleState
      reads this
    {
      HandleState(mouseDown, originY, moveY)
    }

    predicate Valid()
      reads this
    {
      HandleValid(State())
    }

    constructor()
      ensures Valid() && State() == HandleState(false, None, None)
    {
      mouseDown, originY, moveY := false, None, None;
    }

    /** The press reads `canDrag` from the handle's `item` prop, which must be passed. */
    method OnMouseDown(item: Item, handleTop: int)
      requires Valid()
      modifies this
      ensures Valid() && State() == HandleDown(old(State()), item.canDrag, handleTop)
    {
      if item.canDrag {
        mouseDown := true;
        originY := Some(handleTop);
      }
    }

    method OnMouseUp(clientY: int, hasOnMove: bool, clientHeight: int) returns (applied: Option<HandleEvent>)
      requires Valid()
      modifies this
      ensures Valid() && (State(), applied) == HandleUp(old(State()), clientY, hasOnMove, clientHeight)
    {
      applied := None;
      if mouseDown && originY.Some? {
        var dy := clientY - originY.value;
        var y := originY.value + dy;
        mouseDown := false;
        moveY := None;
        if hasOnMove {
          applied := Some(HandleEvent(y, dy, clientHeight));
        }
      }
    }

    method OnMouseMove(clientY: int, hasOnMove: bool, clientHeight: int) returns (moved: Option<HandleEvent>)
      requires Valid()
      modifies this
      ensures Valid() && (State(), moved) == HandleMove(old(State()), clientY, hasOnMove, clientHeight)
    {
      moved := None;
      if mouseDown {
        var dy := clientY - originY.value;
        moveY := Some(originY.value + dy);
        if hasOnMove {
          moved := Some(HandleEvent(originY.value + dy, dy, clientHeight));
        }
      }
    }
  }

  // The block's live resize.

  datatype Side = StartEdge | EndEdge

  /** The style a resize preview writes: dragging the top edge moves the top
      and keeps the bottom; dragging the bottom edge keeps the top and puts
      the bottom at the handle's lower side. */
  function LivePreview(side: Side, y: real, height: int, top: real, dy: int, handleHeight: int): (r: (real, real))
    ensures side == StartEdge ==> r.0 == y + dy as real && r.0 + r.1 == y + height as real
    ensures side == EndEdge ==> r.0 == top && r.1 == (height + dy - handleHeight) as real
  {
    match side
    case StartEdge => (y + dy as real, (height - dy) as real)
    case EndEdge => (top, (height + dy - handleHeight) as real)
  }

  /** A `TimeBlock`: the props it is drawn from, the version counter in its
      key, and the top, height and raised z-order the preview writes. */
  class TimeBlock {
    const dataId: Id
    const y: real
    const height: int
    var update: nat
    var top: real
    var styleHeight: real
    var raised: bool

    constructor(dataId: Id, y: real, height: int)
      ensures this.dataId == dataId && this.y == y && this.height == height
      ensures update == 0 && top == y && styleHeight == height as real && !raised
    {
      this.dataId, this.y, this.height := dataId, y, height;
      update, top, styleHeight, raised := 0, y, height as real, false;
    }

    /** `onLiveResize(side, y, dy, height, apply)`: a preview writes the style;
        an apply bumps the version and reports the resize through the
        timeline, the end edge with the handle's height added to `dy`. */
    method OnLiveResize(side: Side, dy: int, handleHeight: int, apply: bool, props: Props) returns (emitted: Option<Item>)
      requires apply ==> HasId(props.items, dataId) && 0 < props.sliceHeight
      modifies this
      ensures apply ==> update == old(update) + 1 && !raised && top == old(top) && styleHeight == old(styleHeight)
      ensures apply && side == StartEdge ==> emitted == OnBlockStartResize(props, dataId, dy)
      ensures apply && side == EndEdge ==> emitted == OnBlockEndResize(props, dataId, dy + handleHeight)
      ensures !apply ==> (update == old(update) && raised && emitted == None &&
                          (top, styleHeight) == LivePreview(side, y, height, old(top), dy, handleHeight))
    {
      if apply {
        update := update + 1;
        emitted := if side == StartEdge then OnBlockStartResize(props, dataId, dy)
                   else OnBlockEndResize(props, dataId, dy + handleHeight);
        raised := false;
      } else {
        if side == StartEdge {
          top := y + dy as real;
          styleHeight := (height - dy) as real;
        } else {
          styleHeight := (height + dy - handleHeight) as real;
        }
        raised := true;
        emitted := None;
      }
    }
  }
}
