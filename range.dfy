/** `findStartEndTime` (src/index.js:91-117): widening the requested time range
    so that every item, with a minimum visual length for short ones, fits. */
module RangeResolver {
  import opened Items
  import opened TimeRounding

  /** A half-open time range [startTime, endTime). */
  datatype TimeRange = TimeRange(startTime: int, endTime: int)

  /** The end the resolver compares against the upper bound: at a granularity of
      30 minutes or more, an item shorter than three slices counts two slices longer. */
  function SizingEnd(item: Item, roundTo: int): int
  {
    if roundTo >= 30 && Duration(item) < roundTo * 3 then item.end + roundTo * 2 else item.end
  }

  /** One step of the `forEach`: lower the start bound to the rounded-down item
      start, raise the end bound to the rounded-up sizing end. */
  function Widen(r: TimeRange, item: Item, roundTo: int): TimeRange
    requires 0 < roundTo
  {
    var s := if item.start < r.startTime then RoundDown(item.start, roundTo) else r.startTime;
    var e := SizingEnd(item, roundTo);
    TimeRange(s, if e > r.endTime then RoundUp(e, roundTo) else r.endTime)
  }

  /** The whole `forEach`, as a left fold over the items in list order. */
  function Resolve(r: TimeRange, items: seq<Item>, roundTo: int): TimeRange
    requires 0 < roundTo
    decreases |items|
  {
    if items == [] then r else Resolve(Widen(r, items[0], roundTo), items[1..], roundTo)
  }

  /** `findStartEndTime`: the loop that updates `result` item by item. */
  method FindStartEndTime(startTime: int, endTime: int, items: seq<Item>, roundTo: int)
    returns (result: TimeRange)
    requires 0 < roundTo
    ensures result == Resolve(TimeRange(startTime, endTime), items, roundTo)
  {
    result := TimeRange(startTime, endTime);
    var i := 0;
    while i < |items|
      invariant 0 <= i <= |items|
      invariant Resolve(result, items[i..], roundTo) == Resolve(TimeRange(startTime, endTime), items, roundTo)
    {
      ghost var before := result;
      var item := items[i];
      if item.start < result.startTime {
        result := result.(startTime := RoundDown(item.start, roundTo));
      }
      var end := item.end;
      if roundTo >= 30 && item.end - item.start < roundTo * 3 {
        end := end + roundTo * 2;
      }
      if end > result.endTime {
        result := result.(endTime := RoundUp(end, roundTo));
      }
      assert result == Widen(before, item, roundTo);
      assert items[i..][1..] == items[i + 1..];
      i := i + 1;
    }
    assert items[i..] == [];
  }

  /** An item fits a range when it starts inside it and its sizing end does not pass its end. */
  predicate Fits(item: Item, r: TimeRange, roundTo: int)
  {
    r.startTime <= item.start && SizingEnd(item, roundTo) <= r.endTime
  }

  /** The resolver never narrows the requested range. */
  lemma {:induction false} ResolveWidens(r: TimeRange, items: seq<Item>, roundTo: int)
    requires 0 < roundTo
    ensures Resolve(r, items, roundTo).startTime <= r.startTime
    ensures r.endTime <= Resolve(r, items, roundTo).endTime
    decreases |items|
  {
    if items != [] {
      ResolveWidens(Widen(r, items[0], roundTo), items[1..], roundTo);
    }
  }

  /** Every item fits the resolved range. */
  lemma {:induction false} ResolveContains(r: TimeRange, items: seq<Item>, roundTo: int)
    requires 0 < roundTo
    ensures forall k :: 0 <= k < |items| ==> Fits(items[k], Resolve(r, items, roundTo), roundTo)
    decreases |items|
  {
    if items != [] {
      var w := Widen(r, items[0], roundTo);
      ResolveContains(w, items[1..], roundTo);
      ResolveWidens(w, items[1..], roundTo);
      forall k | 0 <= k < |items|
        ensures Fits(items[k], Resolve(r, items, roundTo), roundTo)
      {
        if k > 0 {
          assert items[k] == items[1..][k - 1];
        }
      }
    }
  }

  /** A range every item already fits is returned unchanged. */
  lemma {:induction false} ResolveKeepsFitting(r: TimeRange, items: seq<Item>, roundTo: int)
    requires 0 < roundTo
    requires forall k :: 0 <= k < |items| ==> Fits(items[k], r, roundTo)
    ensures Resolve(r, items, roundTo) == r
    decreases |items|
  {
    if items != [] {
      assert Widen(r, items[0], roundTo) == r;
      ResolveKeepsFitting(r, items[1..], roundTo);
    }
  }

  /** Resolving the resolved range again changes nothing. */
  lemma ResolveIdempotent(r: TimeRange, items: seq<Item>, roundTo: int)
    requires 0 < roundTo
    ensures Resolve(Resolve(r, items, roundTo), items, roundTo) == Resolve(r, items, roundTo)
  {
    ResolveContains(r, items, roundTo);
    ResolveKeepsFitting(Resolve(r, items, roundTo), items, roundTo);
  }

  // An order-free description of the resolved range, from the earliest start
  // and the latest sizing end of the items.

  function MinStart(items: seq<Item>): (m: int)
    requires items != []
    ensures exists k :: 0 <= k < |items| && items[k].start == m
    ensures forall k :: 0 <= k < |items| ==> m <= items[k].start
  {
    if |items| == 1 then items[0].start
    else
      var rest := MinStart(items[1..]);
      assert forall k :: 1 <= k < |items| ==> items[k] == items[1..][k - 1];
      if items[0].start <= rest then items[0].start else rest
  }

  function MaxSizingEnd(items: seq<Item>, roundTo: int): (m: int)
    requires items != []
    ensures exists k :: 0 <= k < |items| && SizingEnd(items[k], roundTo) == m
    ensures forall k :: 0 <= k < |items| ==> SizingEnd(items[k], roundTo) <= m
  {
    if |items| == 1 then SizingEnd(items[0], roundTo)
    else
      var rest := MaxSizingEnd(items[1..], roundTo);
      assert forall k :: 1 <= k < |items| ==> items[k] == items[1..][k - 1];
      if SizingEnd(items[0], roundTo) >= rest then SizingEnd(items[0], roundTo) else rest
  }

  /** The lower bound the resolver reaches from `s`. */
  function LowBound(s: int, items: seq<Item>, roundTo: int): int
    requires 0 < roundTo
  {
    if items != [] && MinStart(items) < s then RoundDown(MinStart(items), roundTo) else s
  }

  /** The upper bound the resolver reaches from `e`. */
  function HighBound(e: int, items: seq<Item>, roundTo: int): int
    requires 0 < roundTo
  {
    if items != [] && MaxSizingEnd(items, roundTo) > e then RoundUp(MaxSizingEnd(items, roundTo), roundTo) else e
  }

  lemma MinStartCons(items: seq<Item>)
    requires |items| > 1
    ensures MinStart(items) == if items[0].start <= MinStart(items[1..]) then items[0].start else MinStart(items[1..])
  {
  }

  lemma LowBoundStep(s: int, items: seq<Item>, roundTo: int)
    requires DividesHour(roundTo) && items != []
    ensures LowBound(Widen(TimeRange(s, 0), items[0], roundTo).startTime, items[1..], roundTo) == LowBound(s, items, roundTo)
  {
    var x := items[0].start;
    var rest := items[1..];
    if rest != [] {
      var m := MinStart(rest);
      MinStartCons(items);
      if x < s && RoundDown(x, roundTo) <= m && m < x {
        RoundDownIsFloor(x, roundTo);
        RoundDownGreatest(m, roundTo, RoundDown(x, roundTo));
        RoundDownMonotone(m, x, roundTo);
      }
    }
  }

  lemma HighBoundStep(e: int, items: seq<Item>, roundTo: int)
    requires DividesHour(roundTo) && items != []
    ensures HighBound(Widen(TimeRange(0, e), items[0], roundTo).endTime, items[1..], roundTo) == HighBound(e, items, roundTo)
  {
    var x := SizingEnd(items[0], roundTo);
    var rest := items[1..];
    if rest != [] {
      var m := MaxSizingEnd(rest, roundTo);
      assert MaxSizingEnd(items, roundTo) == if x >= m then x else m;
      if x > e && x < m && m <= RoundUp(x, roundTo) {
        RoundUpIsCeiling(x, roundTo);
        RoundUpLeast(m, roundTo, RoundUp(x, roundTo));
        RoundUpMonotone(x, m, roundTo);
      }
    }
  }

  /** The resolved range in closed form: the start is the requested start unless
      some item starts earlier, in which case it is the earliest start rounded
      down; the end likewise with the latest sizing end rounded up. */
  lemma {:induction false} ResolveClosedForm(r: TimeRange, items: seq<Item>, roundTo: int)
    requires DividesHour(roundTo)
    ensures Resolve(r, items, roundTo) == TimeRange(LowBound(r.startTime, items, roundTo), HighBound(r.endTime, items, roundTo))
    decreases |items|
  {
    if items != [] {
      var w := Widen(r, items[0], roundTo);
      ResolveClosedForm(w, items[1..], roundTo);
      LowBoundStep(r.startTime, items, roundTo);
      HighBoundStep(r.endTime, items, roundTo);
    }
  }

  /** The resolved range does not depend on the order of the items: `render`
      resolves over the sorted copy, `onMouseUp` over the props in their own
      order, and both get the same range. */
  lemma ResolveOrderFree(r: TimeRange, a: seq<Item>, b: seq<Item>, roundTo: int)
    requires DividesHour(roundTo)
    requires multiset(a) == multiset(b)
    ensures Resolve(r, a, roundTo) == Resolve(r, b, roundTo)
  {
    ResolveClosedForm(r, a, roundTo);
    ResolveClosedForm(r, b, roundTo);
    if a != [] {
      assert a[0] in multiset(b);
      ExtremesOrderFree(a, b, roundTo);
    }
  }

  /** The earliest start and the latest sizing end depend only on the items' multiset. */
  lemma ExtremesOrderFree(a: seq<Item>, b: seq<Item>, roundTo: int)
    requires a != [] && b != [] && multiset(a) == multiset(b)
    ensures MinStart(a) == MinStart(b) && MaxSizingEnd(a, roundTo) == MaxSizingEnd(b, roundTo)
  {
    var ka :| 0 <= ka < |a| && a[ka].start == MinStart(a);
    var kb :| 0 <= kb < |b| && b[kb].start == MinStart(b);
    assert a[ka] in multiset(b) && b[kb] in multiset(a);
    var ja :| 0 <= ja < |a| && SizingEnd(a[ja], roundTo) == MaxSizingEnd(a, roundTo);
    var jb :| 0 <= jb < |b| && SizingEnd(b[jb], roundTo) == MaxSizingEnd(b, roundTo);
    assert a[ja] in multiset(b) && b[jb] in multiset(a);
  }
}
