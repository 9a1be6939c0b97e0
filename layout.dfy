/** The slice and block layout of `Timeline.render` (src/index.js:655-886):
    one time slice per granularity step across the resolved range, and one
    positioned block per item, placed in the slice its start falls in. */
module SliceLayout {
  import opened Items
  import opened TimeRounding
  import opened RangeResolver
  import opened OverlapForest
  import opened OverlapMargins

  /** A row of the time column: the optional header row, or a time slice with
      its separator (on the hour), yesterday (before the requested start) and
      tomorrow (after the requested end) flags. */
  datatype Slice = Header | TimeSlice(time: int, separator: bool, yesterday: bool, tomorrow: bool)

  /** A `TimeBlock` descriptor: the item it shows, its top offset and height in
      pixels, its margins in pixels and the update version in its key. */
  datatype Block = Block(id: Id, item: Item, y: real, height: int, leftMargin: int, rightMargin: int, version: nat)

  /** What the slice loop reads besides the slice time: the items in the order
      it scans them, their margins by position, the update counters, the
      granularity and the slice height. */
  datatype Layout = Layout(items: seq<Item>, leftMargins: seq<nat>, rightMargins: seq<nat>,
                           versions: map<Id, nat>, g: int, sliceHeight: int)

  predicate WellFormed(l: Layout)
  {
    |l.leftMargins| == |l.items| && |l.rightMargins| == |l.items| && DividesHour(l.g)
  }

  function HeaderRow(hasHeader: bool): seq<Slice>
  {
    if hasHeader then [Header] else []
  }

  function MakeSlice(t: int, origStart: int, origEnd: int): Slice
  {
    TimeSlice(t, MinuteOfHour(t) == 0, t < origStart, t > origEnd)
  }

  /** The key version of an item: its update counter, 0 when it has none. */
  function Version(versions: map<Id, nat>, id: Id): nat
  {
    if id in versions then versions[id] else 0
  }

  /** `blockLegth`: from the rounded-down start to the rounded-up end, plus one
      slice when the duration is a whole number of slices. */
  function BlockLength(item: Item, g: int): int
    requires 0 < g
  {
    var correction := if Duration(item) % g == 0 then g else 0;
    RoundUp(item.end, g) - RoundDown(item.start, g) + correction
  }

  function BlockHeight(item: Item, g: int, sliceHeight: int): int
    requires 0 < g
  {
    (BlockLength(item, g) / g) * sliceHeight
  }

  /** The block's `y`: the row of its slice plus the scaled distance from the
      slice time to the rounded-down start. */
  function BlockTop(item: Item, t: int, idx: int, g: int, sliceHeight: int): real
    requires 0 < g
  {
    (idx * sliceHeight) as real + ((RoundDown(item.start, g) - t) as real / g as real) * sliceHeight as real
  }

  function MakeBlock(l: Layout, k: int, t: int, idx: int): Block
    requires WellFormed(l) && 0 <= k < |l.items|
  {
    var item := l.items[k];
    Block(item.id, item, BlockTop(item, t, idx, l.g, l.sliceHeight), BlockHeight(item, l.g, l.sliceHeight),
          l.leftMargins[k] * 10, l.rightMargins[k] * 10, Version(l.versions, item.id))
  }

  /** The `isBetween(t, t + g, 'minute', '[)')` filter of the slice loop. */
  predicate InSlice(item: Item, t: int, g: int)
  {
    t <= item.start < t + g
  }

  /** The blocks one slice pushes, scanning the first `upTo` items. */
  function SliceBlocks(l: Layout, t: int, idx: int, upTo: nat): seq<Block>
    requires WellFormed(l) && upTo <= |l.items|
  {
    if upTo == 0 then []
    else SliceBlocks(l, t, idx, upTo - 1) +
         (if InSlice(l.items[upTo - 1], t, l.g) then [MakeBlock(l, upTo - 1, t, idx)] else [])
  }

  /** The blocks of the first n slices from `rs`, the first on row `base`. */
  function AllBlocks(l: Layout, rs: int, base: int, n: nat): seq<Block>
    requires WellFormed(l)
  {
    if n == 0 then []
    else AllBlocks(l, rs, base, n - 1) + SliceBlocks(l, rs + (n - 1) * l.g, base + n - 1, |l.items|)
  }

  /** The first n time slices from `rs`. */
  function TimeSlices(rs: int, g: int, n: nat, origStart: int, origEnd: int): (r: seq<Slice>)
    ensures |r| == n && forall i :: 0 <= i < n ==> r[i].TimeSlice?
  {
    if n == 0 then [] else TimeSlices(rs, g, n - 1, origStart, origEnd) + [MakeSlice(rs + (n - 1) * g, origStart, origEnd)]
  }

  /** The number of steps of `for (t = rs; t < re; t += g)`: the last slice
      starts before `re` and the slices end at or after it. */
  function SliceCount(rs: int, re: int, g: int): nat
    requires 0 < g
    decreases re - rs
  {
    if rs < re then 1 + SliceCount(rs + g, re, g) else 0
  }

  lemma {:induction false} SliceCountCovers(rs: int, re: int, g: int)
    requires 0 < g
    ensures var n := SliceCount(rs, re, g);
      (rs < re ==> n > 0 && rs + (n - 1) * g < re <= rs + n * g) && (re <= rs ==> n == 0)
    decreases re - rs
  {
    if rs < re {
      SliceCountCovers(rs + g, re, g);
      var n' := SliceCount(rs + g, re, g);
      assert rs + g + n' * g == rs + (1 + n') * g;
      assert n' > 0 ==> rs + g + (n' - 1) * g == rs + n' * g;
    }
  }

  /** The number of blocks showing the item with the given id. */
  function CountId(blocks: seq<Block>, id: Id): nat
  {
    if blocks == [] then 0
    else CountId(blocks[..|blocks| - 1], id) + (if blocks[|blocks| - 1].id == id then 1 else 0)
  }

  lemma {:induction false} CountIdAppend(a: seq<Block>, b: seq<Block>, id: Id)
    ensures CountId(a + b, id) == CountId(a, id) + CountId(b, id)
    decreases |b|
  {
    if b != [] {
      var ab := a + b;
      assert ab[..|ab| - 1] == a + b[..|b| - 1];
      assert ab[|ab| - 1] == b[|b| - 1];
      CountIdAppend(a, b[..|b| - 1], id);
    } else {
      assert a + b == a;
    }
  }

  // Geometry of one block.

  /** The difference of two grid points is a whole number of slices. */
  lemma GridDifference(a: int, b: int, g: int)
    requires 0 < g && Aligned(a, g) && Aligned(b, g)
    ensures a - b == g * (a / g - b / g)
    ensures Aligned(a - b, g)
  {
    assert a == g * (a / g) && b == g * (b / g);
    assert g * (a / g) - g * (b / g) == g * (a / g - b / g);
    DivModUnique(a - b, g, a / g - b / g, 0);
  }

  /** A positive multiple of g is at least g. */
  lemma PositiveMultiple(x: int, g: int)
    requires 0 < g && Aligned(x, g) && 0 < x
    ensures 1 <= x / g && g <= x
  {
    assert x == g * (x / g);
    if x / g <= 0 {
      assert false;
    }
    MulAtLeast(g, x / g);
  }

  /** The drawn length is a whole number of slices and strictly longer than
      the item: the whole-slice correction always leaves room past its end. */
  lemma BlockLengthCovers(item: Item, g: int)
    requires DividesHour(g)
    ensures Aligned(BlockLength(item, g), g)
    ensures Duration(item) < BlockLength(item, g)
  {
    var lo := RoundDown(item.start, g);
    var hi := RoundUp(item.end, g);
    RoundDownIsFloor(item.start, g);
    RoundUpIsCeiling(item.end, g);
    GridDifference(hi, lo, g);
    if Duration(item) % g == 0 {
      assert BlockLength(item, g) == g * (hi / g - lo / g + 1);
      DivModUnique(BlockLength(item, g), g, hi / g - lo / g + 1, 0);
    } else {
      assert BlockLength(item, g) == hi - lo;
      if hi - lo == Duration(item) {
        assert false;
      }
    }
  }

  /** A positive whole number of slices of g minutes, scaled to pixels. */
  lemma ScaleSlices(len: int, g: int, sliceHeight: int)
    requires 0 < g && 0 < sliceHeight && Aligned(len, g) && 0 < len
    ensures (len / g) * sliceHeight >= sliceHeight
    ensures ((len / g) * sliceHeight) * g == len * sliceHeight
  {
    PositiveMultiple(len, g);
    var q := len / g;
    assert len == g * q;
    MulAtLeast(sliceHeight, q);
    assert (q * sliceHeight) * g == (g * q) * sliceHeight;
  }

  /** A block whose item does not end before it starts is at least one slice
      tall, and its height is its drawn length scaled to pixels. */
  lemma BlockHeightPositive(item: Item, g: int, sliceHeight: int)
    requires DividesHour(g) && 0 < sliceHeight && item.start <= item.end
    ensures BlockHeight(item, g, sliceHeight) >= sliceHeight
    ensures BlockHeight(item, g, sliceHeight) * g == BlockLength(item, g) * sliceHeight
  {
    BlockLengthCovers(item, g);
    ScaleSlices(BlockLength(item, g), g, sliceHeight);
  }

  /** An item on the slice grid is drawn one slice longer than it lasts:
      an item ending at 3:00 at an hourly zoom is drawn down to 4:00. */
  lemma WholeSliceCorrection(item: Item, g: int)
    requires DividesHour(g) && Aligned(item.start, g) && Aligned(item.end, g)
    ensures BlockLength(item, g) == Duration(item) + g
  {
    RoundingFixesAligned(item.start, g);
    RoundingFixesAligned(item.end, g);
    GridDifference(item.end, item.start, g);
  }

  /** Two grid points less than a slice apart coincide. */
  lemma AlignedGap(a: int, b: int, g: int)
    requires 0 < g && Aligned(a, g) && Aligned(b, g) && b <= a < b + g
    ensures a == b
  {
    GridDifference(a, b, g);
    if a != b {
      PositiveMultiple(a - b, g);
      assert false;
    }
  }

  /** In a slice on the grid, a block's top is exactly the top of its row. */
  lemma BlockTopOnGrid(item: Item, t: int, idx: int, g: int, sliceHeight: int)
    requires DividesHour(g) && Aligned(t, g) && InSlice(item, t, g)
    ensures BlockTop(item, t, idx, g, sliceHeight) == (idx * sliceHeight) as real
  {
    RoundDownGreatest(item.start, g, t);
    RoundDownIsFloor(item.start, g);
    AlignedGap(RoundDown(item.start, g), t, g);
  }

  // Placement: which blocks the slice loop produces.

  /** One slice shows each item starting inside it once, and no other. */
  lemma {:induction false} SliceBlocksCount(l: Layout, t: int, idx: int, upTo: nat, j: int)
    requires WellFormed(l) && DistinctIds(l.items) && upTo <= |l.items| && 0 <= j < |l.items|
    ensures CountId(SliceBlocks(l, t, idx, upTo), l.items[j].id) ==
            if j < upTo && InSlice(l.items[j], t, l.g) then 1 else 0
  {
    if upTo > 0 {
      SliceBlocksCount(l, t, idx, upTo - 1, j);
      var extra := if InSlice(l.items[upTo - 1], t, l.g) then [MakeBlock(l, upTo - 1, t, idx)] else [];
      CountIdAppend(SliceBlocks(l, t, idx, upTo - 1), extra, l.items[j].id);
      if extra != [] {
        assert CountId(extra, l.items[j].id) == if j == upTo - 1 then 1 else 0 by {
          assert extra[..0] == [];
        }
      }
    }
  }

  /** Every block of a slice shows one of the items, one starting inside the
      slice, at that slice's row. */
  lemma {:induction false} SliceBlocksShow(l: Layout, t: int, idx: int, upTo: nat)
    requires WellFormed(l) && upTo <= |l.items|
    ensures forall b :: b in SliceBlocks(l, t, idx, upTo) ==>
      b.item in l.items && b.id == b.item.id && InSlice(b.item, t, l.g) &&
      b.y == BlockTop(b.item, t, idx, l.g, l.sliceHeight) && b.height == BlockHeight(b.item, l.g, l.sliceHeight)
    ensures forall b :: b in SliceBlocks(l, t, idx, upTo) ==> Decorated(b, l)
  {
    if upTo > 0 {
      SliceBlocksShow(l, t, idx, upTo - 1);
      assert Decorated(MakeBlock(l, upTo - 1, t, idx), l) by {
        assert l.items[upTo - 1] == MakeBlock(l, upTo - 1, t, idx).item;
      }
    }
  }

  /** Block b carries the margins of a position holding its item, ten pixels
      per count, and its item's update counter as its version. */
  predicate Decorated(b: Block, l: Layout)
    requires WellFormed(l)
  {
    b.version == Version(l.versions, b.id) &&
    exists k :: 0 <= k < |l.items| && l.items[k] == b.item &&
      b.leftMargin == 10 * l.leftMargins[k] && b.rightMargin == 10 * l.rightMargins[k]
  }

  /** The last of n slices from `rs` starts at or after `rs` and ends where the n slices end. */
  lemma LastSlice(rs: int, n: int, g: int)
    requires 0 < g && 0 < n
    ensures rs <= rs + (n - 1) * g && rs + (n - 1) * g + g == rs + n * g
  {
    MulAtLeast(g, n);
    assert (n - 1) * g == n * g - g;
  }

  /** Over n slices from `rs`, each item starting in [rs, rs + n*g) is shown
      exactly once, and no other item is shown. */
  lemma {:induction false} AllBlocksCount(l: Layout, rs: int, base: int, n: nat, j: int)
    requires WellFormed(l) && DistinctIds(l.items) && 0 <= j < |l.items|
    ensures CountId(AllBlocks(l, rs, base, n), l.items[j].id) ==
            if rs <= l.items[j].start < rs + n * l.g then 1 else 0
  {
    if n > 0 {
      var t := rs + (n - 1) * l.g;
      LastSlice(rs, n, l.g);
      AllBlocksCount(l, rs, base, n - 1, j);
      SliceBlocksCount(l, t, base + n - 1, |l.items|, j);
      CountIdAppend(AllBlocks(l, rs, base, n - 1), SliceBlocks(l, t, base + n - 1, |l.items|), l.items[j].id);
    }
  }

  /** Block b is the one slice i pushes for its item: the item starts inside
      slice i and the block sits at that slice's row. */
  predicate ShownAt(b: Block, l: Layout, rs: int, base: int, i: int)
    requires 0 < l.g
  {
    var t := rs + i * l.g;
    InSlice(b.item, t, l.g) &&
    b.y == BlockTop(b.item, t, base + i, l.g, l.sliceHeight) && b.height == BlockHeight(b.item, l.g, l.sliceHeight)
  }

  /** Every block over n slices shows one of the items, from the slice its
      start falls in. */
  lemma {:induction false} AllBlocksShow(l: Layout, rs: int, base: int, n: nat)
    requires WellFormed(l)
    ensures forall b :: b in AllBlocks(l, rs, base, n) ==>
      b.item in l.items && b.id == b.item.id && exists i :: 0 <= i < n && ShownAt(b, l, rs, base, i)
    ensures forall b :: b in AllBlocks(l, rs, base, n) ==> Decorated(b, l)
  {
    if n > 0 {
      var t := rs + (n - 1) * l.g;
      var idx := base + n - 1;
      AllBlocksShow(l, rs, base, n - 1);
      SliceBlocksShow(l, t, idx, |l.items|);
      forall b | b in SliceBlocks(l, t, idx, |l.items|)
        ensures ShownAt(b, l, rs, base, n - 1)
      {
      }
    }
  }

  /** The slice an item starts in is determined by its start. */
  lemma SliceOfStart(item: Item, rs: int, g: int, i: int)
    requires 0 < g && InSlice(item, rs + i * g, g)
    ensures i == (item.start - rs) / g
  {
    DivModUnique(item.start - rs, g, i, item.start - rs - i * g);
  }

  /** A block shown by a slice of a range that starts on the grid sits at the
      top of the row its start falls in. */
  lemma ShownOnGrid(b: Block, l: Layout, rs: int, base: int, i: int)
    requires WellFormed(l) && Aligned(rs, l.g) && ShownAt(b, l, rs, base, i)
    ensures b.y == ((base + (b.item.start - rs) / l.g) * l.sliceHeight) as real
  {
    var t := rs + i * l.g;
    SliceOfStart(b.item, rs, l.g, i);
    GridStep(rs, i, l.g);
    BlockTopOnGrid(b.item, t, base + i, l.g, l.sliceHeight);
  }

  /** Whole steps of g from a grid point stay on the grid. */
  lemma GridStep(rs: int, i: int, g: int)
    requires 0 < g && Aligned(rs, g)
    ensures Aligned(rs + i * g, g)
  {
    assert rs + i * g == g * (rs / g + i) by {
      assert rs == g * (rs / g);
    }
    DivModUnique(rs + i * g, g, rs / g + i, 0);
  }

  /** When the range starts on the grid, every block's top is the top of the
      row its start falls in. */
  lemma AllBlocksOnGrid(l: Layout, rs: int, base: int, n: nat)
    requires WellFormed(l) && Aligned(rs, l.g)
    ensures forall b :: b in AllBlocks(l, rs, base, n) ==>
      b.y == ((base + (b.item.start - rs) / l.g) * l.sliceHeight) as real
  {
    AllBlocksShow(l, rs, base, n);
    forall b | b in AllBlocks(l, rs, base, n)
      ensures b.y == ((base + (b.item.start - rs) / l.g) * l.sliceHeight) as real
    {
      var i :| 0 <= i < n && ShownAt(b, l, rs, base, i);
      ShownOnGrid(b, l, rs, base, i);
    }
  }

  /** The time slices step by the granularity; the yesterday slices come
      first and the tomorrow slices last, and a separator marks each hour. */
  lemma TimeSlicesShape(rs: int, g: int, n: nat, origStart: int, origEnd: int)
    requires 0 < g
    ensures forall i :: 0 <= i < n ==> TimeSlices(rs, g, n, origStart, origEnd)[i] == MakeSlice(rs + i * g, origStart, origEnd)
    ensures forall i, j :: 0 <= i < j < n && TimeSlices(rs, g, n, origStart, origEnd)[j].yesterday ==>
      TimeSlices(rs, g, n, origStart, origEnd)[i].yesterday
    ensures forall i, j :: 0 <= i < j < n && TimeSlices(rs, g, n, origStart, origEnd)[i].tomorrow ==>
      TimeSlices(rs, g, n, origStart, origEnd)[j].tomorrow
    ensures forall i :: 0 <= i < n ==>
      (TimeSlices(rs, g, n, origStart, origEnd)[i].separator <==> (rs + i * g) % 60 == 0)
  {
    TimeSlicesAt(rs, g, n, origStart, origEnd);
    forall i, j | 0 <= i < j < n
      ensures rs + i * g < rs + j * g
    {
      MulAtLeast(g, j - i);
      assert rs + j * g == rs + i * g + g * (j - i);
    }
  }

  lemma {:induction false} TimeSlicesAt(rs: int, g: int, n: nat, origStart: int, origEnd: int)
    ensures forall i :: 0 <= i < n ==> TimeSlices(rs, g, n, origStart, origEnd)[i] == MakeSlice(rs + i * g, origStart, origEnd)
  {
    if n > 0 {
      TimeSlicesAt(rs, g, n - 1, origStart, origEnd);
    }
  }

  /** A range that was not widened has neither yesterday nor tomorrow slices. */
  lemma UnwidenedRange(rs: int, re: int, g: int, n: nat)
    requires 0 < g && n == SliceCount(rs, re, g)
    ensures forall i :: 0 <= i < n ==> !TimeSlices(rs, g, n, rs, re)[i].yesterday && !TimeSlices(rs, g, n, rs, re)[i].tomorrow
  {
    TimeSlicesShape(rs, g, n, rs, re);
    SliceCountCovers(rs, re, g);
    forall i | 0 <= i < n
      ensures rs <= rs + i * g <= rs + (n - 1) * g
    {
      if i > 0 {
        MulAtLeast(g, i);
      }
      if i < n - 1 {
        MulAtLeast(g, n - 1 - i);
        assert rs + (n - 1) * g == rs + i * g + g * (n - 1 - i);
      }
    }
  }

  // The slice loop and `render`.

  /** The `items.filter(...).forEach(...)` of one slice. */
  method PlaceSlice(l: Layout, t: int, idx: int) returns (found: seq<Block>)
    requires WellFormed(l)
    ensures found == SliceBlocks(l, t, idx, |l.items|)
  {
    found := [];
    var k := 0;
    while k < |l.items|
      invariant 0 <= k <= |l.items|
      invariant found == SliceBlocks(l, t, idx, k)
    {
      var item := l.items[k];
      if t <= item.start && item.start < t + l.g {
        found := found + [MakeBlock(l, k, t, idx)];
      }
      k := k + 1;
    }
  }

  /** The slice loop: `t` runs from `rs` in steps of g while before `re`,
      `idx` counts the rows, starting after the header row when there is one. */
  method BuildSlices(l: Layout, rs: int, re: int, origStart: int, origEnd: int, hasHeader: bool)
    returns (slices: seq<Slice>, blocks: seq<Block>)
    requires WellFormed(l)
    ensures slices == HeaderRow(hasHeader) + TimeSlices(rs, l.g, SliceCount(rs, re, l.g), origStart, origEnd)
    ensures blocks == AllBlocks(l, rs, |HeaderRow(hasHeader)|, SliceCount(rs, re, l.g))
  {
    slices := HeaderRow(hasHeader);
    blocks := [];
    var idx := |HeaderRow(hasHeader)|;
    var t := rs;
    ghost var k: nat := 0;
    while t < re
      invariant t == rs + k * l.g && idx == |HeaderRow(hasHeader)| + k
      invariant SliceCount(rs, re, l.g) == k + SliceCount(t, re, l.g)
      invariant slices == HeaderRow(hasHeader) + TimeSlices(rs, l.g, k, origStart, origEnd)
      invariant blocks == AllBlocks(l, rs, |HeaderRow(hasHeader)|, k)
      decreases re - t
    {
      slices := slices + [MakeSlice(t, origStart, origEnd)];
      var found := PlaceSlice(l, t, idx);
      blocks := blocks + found;
      assert t + l.g == rs + (k + 1) * l.g;
      idx, t, k := idx + 1, t + l.g, k + 1;
    }
  }

  /** The left and right margins of every node of the forest. */
  ghost function DescendantCounts(parent: seq<int>, depth: seq<nat>): (r: seq<nat>)
    requires Ranked(parent, depth)
    ensures |r| == |parent|
  {
    seq(|parent|, x requires 0 <= x < |parent| => |Descendants(parent, depth, x)|)
  }

  ghost function AncestorCounts(parent: seq<int>, depth: seq<nat>): (r: seq<nat>)
    requires Ranked(parent, depth)
    ensures |r| == |parent|
  {
    seq(|parent|, x requires 0 <= x < |parent| => |Ancestors(parent, depth, x)|)
  }

  /** A node with a parent has an ancestor, and its parent a descendant. */
  lemma LinkedMargins(parent: seq<int>, depth: seq<nat>, c: int)
    requires Ranked(parent, depth) && 0 <= c < |parent| && parent[c] != NoParent
    ensures 0 <= parent[c] < |parent|
    ensures AncestorCounts(parent, depth)[c] >= 1 && DescendantCounts(parent, depth)[parent[c]] >= 1
  {
    assert parent[c] in Ancestors(parent, depth, c);
    var below := Descendants(parent, depth, parent[c]);
    assert c in below;
    assert {c} <= below;
  }

  /** After resolving the range every item that does not end before it
      starts is shown in exactly one block. */
  lemma RenderPlacement(l: Layout, requested: TimeRange, sorted: seq<Item>, items: seq<Item>, base: int)
    requires WellFormed(l) && DistinctIds(l.items) && l.items == Reverse(sorted)
    requires multiset(sorted) == multiset(items)
    ensures var r := Resolve(requested, sorted, l.g);
      forall x :: x in items && x.start < SizingEnd(x, l.g) ==>
        CountId(AllBlocks(l, r.startTime, base, SliceCount(r.startTime, r.endTime, l.g)), x.id) == 1
  {
    var r := Resolve(requested, sorted, l.g);
    ResolveContains(requested, sorted, l.g);
    var n := SliceCount(r.startTime, r.endTime, l.g);
    SliceCountCovers(r.startTime, r.endTime, l.g);
    forall x | x in items && x.start < SizingEnd(x, l.g)
      ensures CountId(AllBlocks(l, r.startTime, base, n), x.id) == 1
    {
      assert x in multiset(sorted);
      var i :| 0 <= i < |sorted| && sorted[i] == x;
      var j := |sorted| - 1 - i;
      assert l.items[j] == x;
      assert Fits(sorted[i], r, l.g);
      AllBlocksCount(l, r.startTime, base, n, j);
    }
  }

  /** `Timeline.render` from the props: the items as given and, as the
      library sort returns them, the same items in ascending start order. */
  method Render(items: seq<Item>, sorted: seq<Item>, zoom: int, sliceHeight: int, hasHeader: bool,
                startTime: int, endTime: int, itemUpdates: map<Id, nat>)
    returns (slices: seq<Slice>, blocks: seq<Block>,
             ghost parent: seq<int>, ghost children: seq<seq<int>>, ghost depth: seq<nat>)
    requires DistinctIds(items)
    requires SortedByStart(sorted) && multiset(sorted) == multiset(items)
    ensures var g := ZoomMinutes(zoom);
      var r := Resolve(TimeRange(startTime, endTime), items, g);
      var n := SliceCount(r.startTime, r.endTime, g);
      && slices == HeaderRow(hasHeader) + TimeSlices(r.startTime, g, n, startTime, endTime)
      && |parent| == |Reverse(sorted)| && |depth| == |parent|
      && Forest(parent, children, depth) && EdgesValid(Reverse(sorted), parent)
      && blocks == AllBlocks(Layout(Reverse(sorted), DescendantCounts(parent, depth), AncestorCounts(parent, depth),
                                    itemUpdates, g, sliceHeight), r.startTime, |HeaderRow(hasHeader)|, n)
    ensures forall x :: x in items && x.start < SizingEnd(x, ZoomMinutes(zoom)) ==> CountId(blocks, x.id) == 1
    ensures forall x :: 0 <= x < |parent| ==> x !in Ancestors(parent, depth, x)
    ensures DistinctIds(Reverse(sorted)) && (parent, children, depth) == BuildFold(Reverse(sorted), |sorted|)
    // an item starting strictly inside another's span is nested under some
    // item: it has a right margin, and its parent a left margin
    ensures forall p, c :: 0 <= p < |parent| && 0 <= c < |parent| && Nested(Reverse(sorted), p, c) ==>
      parent[c] != NoParent && AncestorCounts(parent, depth)[c] >= 1 && DescendantCounts(parent, depth)[parent[c]] >= 1
  {
    var g := ZoomMinutes(zoom);
    var range := FindStartEndTime(startTime, endTime, sorted, g);
    ResolveOrderFree(TimeRange(startTime, endTime), sorted, items, g);
    var reversed := Reverse(sorted);
    PermutationKeepsDistinct(items, sorted);
    ReverseDistinct(sorted);
    var p, cs, d := BuildForest(reversed);
    parent, children, depth := p, cs, d;
    NestedHaveParents(reversed);
    forall a, c | 0 <= a < |p| && 0 <= c < |p| && Nested(reversed, a, c)
      ensures p[c] != NoParent && AncestorCounts(p, d)[c] >= 1 && DescendantCounts(p, d)[p[c]] >= 1
    {
      LinkedMargins(p, d, c);
    }
    var rightMargins := ComputeRightMargins(p, d);
    var leftMargins := ComputeLeftMargins(p, cs, d);
    assert rightMargins == AncestorCounts(p, d);
    assert leftMargins == DescendantCounts(p, d);
    var layout := Layout(reversed, leftMargins, rightMargins, itemUpdates, g, sliceHeight);
    slices, blocks := BuildSlices(layout, range.startTime, range.endTime, startTime, endTime, hasHeader);
    RenderPlacement(layout, TimeRange(startTime, endTime), sorted, items, |HeaderRow(hasHeader)|);
  }
}
