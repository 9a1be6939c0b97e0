/** Rounding a time to the zoom granularity (src/index.js:37, 66-80, 505).
    A time is a whole number of minutes since an hour-aligned epoch, so its
    minute-of-hour field is `t % 60` and its seconds are always zero. */
module TimeRounding {

  /** The zoom table: minutes per slice for zoom levels 0 to 5. */
  const ZoomLevels: seq<int> := [60, 30, 15, 10, 5, 1]

  /** A rounding interval whose multiples fall on every hour boundary. */
  predicate DividesHour(g: int)
  {
    0 < g && 60 % g == 0
  }

  /** The granularity of a zoom level; a level outside the table falls back
      to the finest granularity, one minute. */
  function ZoomMinutes(zoom: int): (g: int)
    ensures g in ZoomLevels && DividesHour(g)
    ensures g == 1 <==> !(0 <= zoom < |ZoomLevels| - 1)
  {
    if 0 <= zoom < |ZoomLevels| then ZoomLevels[zoom] else 1
  }

  function MinuteOfHour(t: int): int
  {
    t % 60
  }

  function HourStart(t: int): int
  {
    t - t % 60
  }

  /** `Math.ceil(m / g)` for a non-negative m. */
  function CeilDiv(m: int, g: int): int
    requires 0 < g
  {
    if m % g == 0 then m / g else m / g + 1
  }

  /** `nearestMinutesDown`: the minute field floored to a multiple of g, in the same hour. */
  function RoundDown(t: int, g: int): (r: int)
    requires 0 < g
    ensures r <= t < r + g
    ensures HourStart(r) == HourStart(t)
  {
    RoundDownInHour(t, g);
    HourStart(t) + (MinuteOfHour(t) / g) * g
  }

  lemma RoundDownInHour(t: int, g: int)
    requires 0 < g
    ensures var r := t - t % 60 + ((t % 60) / g) * g;
      r <= t < r + g && r - r % 60 == t - t % 60
  {
    var m := t % 60;
    var q := m / g;
    assert m == g * q + m % g;
    assert 0 <= q * g <= m;
    assert t == 60 * (t / 60) + m;
    DivModUnique(t - m + q * g, 60, t / 60, q * g);
  }

  /** `nearestMinutesUp`: the minute field raised to a multiple of g; setting
      the minute field to 60 carries into the next hour. */
  function RoundUp(t: int, g: int): (r: int)
    requires 0 < g
    ensures r - g < t <= r
  {
    HourStart(t) + CeilDiv(MinuteOfHour(t), g) * g
  }

  predicate Aligned(t: int, g: int)
    requires 0 < g
  {
    t % g == 0
  }

  lemma MulAtLeast(g: int, d: int)
    requires 0 < g && 1 <= d
    ensures g * d >= g
  {
  }

  /** Euclidean division is determined by its quotient/remainder equation. */
  lemma DivModUnique(x: int, g: int, q: int, r: int)
    requires 0 < g && 0 <= r < g && x == g * q + r
    ensures x / g == q && x % g == r
  {
    var q', r' := x / g, x % g;
    if q > q' {
      MulAtLeast(g, q - q');
      assert false;
    } else if q < q' {
      MulAtLeast(g, q' - q);
      assert false;
    }
  }

  /** For an interval dividing the hour, a time's offset from the interval grid
      is the offset of its minute-of-hour field. */
  lemma {:induction false} ModViaMinute(t: int, g: int)
    requires DividesHour(g)
    ensures t % g == MinuteOfHour(t) % g
    ensures HourStart(t) % g == 0
  {
    var k := 60 / g;
    var h := t / 60;
    var m := t % 60;
    assert 60 == g * k;
    assert t == 60 * h + m;
    assert 60 * h == g * (k * h);
    assert t == g * (k * h + m / g) + m % g;
    DivModUnique(t, g, k * h + m / g, m % g);
    DivModUnique(HourStart(t), g, k * h, 0);
  }

  /** Rounding down is the floor onto the grid of multiples of g: an independent
      definition that does not look at the hour. */
  lemma RoundDownIsFloor(t: int, g: int)
    requires DividesHour(g)
    ensures RoundDown(t, g) == t - t % g
    ensures Aligned(RoundDown(t, g), g)
  {
    ModViaMinute(t, g);
    var m := MinuteOfHour(t);
    assert m == g * (m / g) + m % g;
    assert (m / g) * g == m - m % g;
    assert RoundDown(t, g) == t - t % g;
    assert t == g * (t / g) + t % g;
    DivModUnique(t - t % g, g, t / g, 0);
  }

  /** Rounding up is the ceiling onto the grid of multiples of g. */
  lemma RoundUpIsCeiling(t: int, g: int)
    requires DividesHour(g)
    ensures RoundUp(t, g) == if t % g == 0 then t else t - t % g + g
    ensures Aligned(RoundUp(t, g), g)
  {
    ModViaMinute(t, g);
    var m := MinuteOfHour(t);
    assert m == g * (m / g) + m % g;
    assert (m / g + 1) * g == m - m % g + g;
    var r := RoundUp(t, g);
    if t % g == 0 {
      assert r == t;
      DivModUnique(t, g, t / g, 0);
    } else {
      assert r == t - t % g + g;
      DivModUnique(t - t % g, g, t / g, 0);
      DivModUnique(r, g, t / g + 1, 0);
    }
  }

  /** Both roundings leave a time already on the grid where it is. */
  lemma RoundingFixesAligned(t: int, g: int)
    requires DividesHour(g) && Aligned(t, g)
    ensures RoundDown(t, g) == t && RoundUp(t, g) == t
  {
    RoundDownIsFloor(t, g);
    RoundUpIsCeiling(t, g);
  }

  /** The rounded-down time is the latest grid point not after t. */
  lemma RoundDownGreatest(t: int, g: int, a: int)
    requires DividesHour(g) && Aligned(a, g) && a <= t
    ensures a <= RoundDown(t, g)
  {
    RoundDownIsFloor(t, g);
    var r := RoundDown(t, g);
    if a > r {
      DivModUnique(a - r, g, a / g - r / g, 0);
      MulAtLeast(g, a / g - r / g);
      assert false;
    }
  }

  /** The rounded-up time is the earliest grid point not before t. */
  lemma RoundUpLeast(t: int, g: int, a: int)
    requires DividesHour(g) && Aligned(a, g) && t <= a
    ensures RoundUp(t, g) <= a
  {
    RoundUpIsCeiling(t, g);
    var r := RoundUp(t, g);
    if a < r {
      DivModUnique(r - a, g, r / g - a / g, 0);
      MulAtLeast(g, r / g - a / g);
      assert false;
    }
  }

  lemma RoundDownMonotone(s: int, t: int, g: int)
    requires DividesHour(g) && s <= t
    ensures RoundDown(s, g) <= RoundDown(t, g)
  {
    RoundDownIsFloor(s, g);
    RoundDownGreatest(t, g, RoundDown(s, g));
  }

  lemma RoundUpMonotone(s: int, t: int, g: int)
    requires DividesHour(g) && s <= t
    ensures RoundUp(s, g) <= RoundUp(t, g)
  {
    RoundUpIsCeiling(t, g);
    RoundUpLeast(s, g, RoundUp(t, g));
  }

  /** Setting the minute field of hh:59 to a full 60 rolls over to the next hour. */
  lemma RoundUpRollsOver(h: int)
    ensures RoundUp(60 * h + 59, 60) == 60 * (h + 1)
    ensures RoundDown(60 * h + 59, 60) == 60 * h
  {
    DivModUnique(60 * h + 59, 60, h, 59);
  }
}
