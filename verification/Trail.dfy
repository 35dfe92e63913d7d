/** The delta-compressed trail: a bounded, newest-first list of points replicated as diffs. */
module Trail {
  import opened Options
  import opened Vectors

  const MAX_POINTS: nat := 50
  const MOVE_SPEED := 10.0

  type Points = seq<Vec2>

  function Truncate(points: Points): Points {
    if |points| > MAX_POINTS then points[..MAX_POINTS] else points
  }

  function Head(points: Points): Vec2 {
    if points == [] then Vec2(0.0, 0.0) else points[0]
  }

  /** The point comes first, the others follow, and of more than 50 the last ones are gone. */
  ghost predicate Pushed(before: Points, point: Vec2, after: Points) {
    && |after| == (if |before| < 50 then |before| + 1 else 50)
    && after[0] == point
    && forall i :: 0 < i < |after| ==> after[i] == before[i - 1]
  }

  class PlayerTrail {
    var points: Points

    constructor (position: Vec2)
      ensures points == [position]
    {
      points := [position];
    }

    method PushHead(point: Vec2)
      modifies this
      ensures points == Truncate([point] + old(points))
      ensures Pushed(old(points), point, points)
    {
      points := [point] + points;
      if |points| > MAX_POINTS {
        points := points[..MAX_POINTS];
      }
    }

    /** A diff carries the new head. */
    method ApplyDiff(newHead: Vec2)
      modifies this
      ensures points == Truncate([newHead] + old(points))
      ensures Pushed(old(points), newHead, points)
    {
      PushHead(newHead);
    }
  }

  // ----- Replication -----

  /** A replica after the diffs, oldest first. */
  function Applied(initial: Points, diffs: seq<Vec2>): Points {
    if diffs == [] then initial
    else
      var n := |diffs| - 1;
      Truncate([diffs[n]] + Applied(initial, diffs[..n]))
  }

  function Reversed(s: seq<Vec2>): seq<Vec2> {
    seq(|s|, i requires 0 <= i < |s| => s[|s| - 1 - i])
  }

  /** Closed form: the newest 50 of the diffs, newest first, and then the initial trail. */
  lemma {:induction false} AppliedClosedForm(initial: Points, diffs: seq<Vec2>)
    requires diffs != [] || |initial| <= MAX_POINTS
    ensures Applied(initial, diffs) == Truncate(Reversed(diffs) + initial)
  {
    if diffs == [] {
      assert Reversed(diffs) + initial == initial;
    } else {
      var n := |diffs| - 1;
      assert Reversed(diffs) == [diffs[n]] + Reversed(diffs[..n]);
      if n == 0 {
        assert diffs[..n] == [] && Reversed(diffs[..n]) == [];
        assert Reversed(diffs) + initial == [diffs[n]] + initial;
      } else {
        AppliedClosedForm(initial, diffs[..n]);
        assert Reversed(diffs) + initial == [diffs[n]] + (Reversed(diffs[..n]) + initial);
      }
    }
  }

  /** The same place by place: the newest diff first, and 50 points at most. */
  lemma AppliedByIndex(initial: Points, diffs: seq<Vec2>, i: nat)
    requires |initial| <= 50
    ensures |Applied(initial, diffs)| == if |diffs| + |initial| <= 50 then |diffs| + |initial| else 50
    ensures i < |Applied(initial, diffs)| ==>
      Applied(initial, diffs)[i] == if i < |diffs| then diffs[|diffs| - 1 - i] else initial[i - |diffs|]
  {
    AppliedClosedForm(initial, diffs);
  }

  lemma ReversedConcat(a: seq<Vec2>, b: seq<Vec2>)
    ensures Reversed(a + b) == Reversed(b) + Reversed(a)
  {
  }

  lemma LongPrefixDecides(recent: seq<Vec2>, rest: Points)
    requires |recent| >= MAX_POINTS
    ensures Truncate(recent + rest) == recent[..MAX_POINTS]
  {
  }

  /** Replicas heal: whatever they started from and applied before, the same last 50 diffs make them equal. */
  lemma ReplicasConverge(a: Points, b: Points, before: seq<Vec2>, before': seq<Vec2>, diffs: seq<Vec2>)
    requires |diffs| >= MAX_POINTS
    ensures Applied(a, before + diffs) == Applied(b, before' + diffs)
  {
    LastDiffsDecide(a, before, diffs);
    LastDiffsDecide(b, before', diffs);
  }

  lemma LastDiffsDecide(initial: Points, before: seq<Vec2>, diffs: seq<Vec2>)
    requires |diffs| >= MAX_POINTS
    ensures Applied(initial, before + diffs) == Reversed(diffs)[..MAX_POINTS]
  {
    AppliedClosedForm(initial, before + diffs);
    ReversedConcat(before, diffs);
    var recent := Reversed(diffs);
    assert (recent + Reversed(before)) + initial == recent + (Reversed(before) + initial);
    LongPrefixDecides(recent, Reversed(before) + initial);
  }

  // ----- Movement -----

  datatype Keys = Keys(up: bool, down: bool, left: bool, right: bool)

  /** The point to push, unless no key is pressed; opposite keys cancel out. */
  function NextTrailHead(points: Points, keys: Keys): Option<Vec2> {
    if !keys.up && !keys.down && !keys.left && !keys.right then None
    else
      var p0 := Head(points);
      var p1 := if keys.up then Vec2(p0.x, p0.y + MOVE_SPEED) else p0;
      var p2 := if keys.down then Vec2(p1.x, p1.y - MOVE_SPEED) else p1;
      var p3 := if keys.left then Vec2(p2.x - MOVE_SPEED, p2.y) else p2;
      Some(if keys.right then Vec2(p3.x + MOVE_SPEED, p3.y) else p3)
  }

  function Moved(points: Points, keys: Keys): Points {
    match NextTrailHead(points, keys)
    case None => points
    case Some(p) => Truncate([p] + points)
  }

  function MovedOver(points: Points, run: seq<Keys>): Points {
    if run == [] then points else Moved(MovedOver(points, run[..|run| - 1]), run[|run| - 1])
  }

  predicate OneMove(d: real) {
    d == -MOVE_SPEED || d == 0.0 || d == MOVE_SPEED
  }

  predicate Neighbours(p: Vec2, q: Vec2) {
    OneMove(p.x - q.x) && OneMove(p.y - q.y)
  }

  ghost predicate OnGrid(points: Points) {
    forall i :: 0 < i < |points| ==> Neighbours(points[i], points[i - 1])
  }

  function ToReal(b: bool): real {
    if b then 1.0 else 0.0
  }

  /** The head moves by one step of ten units for each key on each axis, opposite keys cancelling out; from the first
      point, or from the origin if there is none. */
  lemma NextHeadIsOneMove(points: Points, keys: Keys)
    ensures var r := NextTrailHead(points, keys);
            var from := if points == [] then Vec2(0.0, 0.0) else points[0];
            && (r.None? <==> keys == Keys(false, false, false, false))
            && (r.Some? ==>
                  && r.value.x - from.x == 10.0 * (ToReal(keys.right) - ToReal(keys.left))
                  && r.value.y - from.y == 10.0 * (ToReal(keys.up) - ToReal(keys.down))
                  && Neighbours(from, r.value))
  {
  }

  /** One tick of movement: without a key nothing changes, otherwise the moved head is pushed. */
  lemma MovedByKeys(points: Points, keys: Keys)
    requires 1 <= |points| <= 50
    ensures keys == Keys(false, false, false, false) ==> Moved(points, keys) == points
    ensures keys != Keys(false, false, false, false) ==>
      Pushed(points, Vec2(points[0].x + 10.0 * (ToReal(keys.right) - ToReal(keys.left)),
                          points[0].y + 10.0 * (ToReal(keys.up) - ToReal(keys.down))), Moved(points, keys))
  {
    NextHeadIsOneMove(points, keys);
  }

  lemma PushStaysOnGrid(points: Points, p: Vec2)
    requires OnGrid(points) && 1 <= |points| <= MAX_POINTS
    requires Neighbours(points[0], p)
    ensures OnGrid(Truncate([p] + points)) && 1 <= |Truncate([p] + points)| <= MAX_POINTS
  {
    var longer := [p] + points;
    forall i | 0 < i < |longer| ensures Neighbours(longer[i], longer[i - 1]) {
      if i > 1 {
        assert longer[i] == points[i - 1] && longer[i - 1] == points[i - 2];
      }
    }
  }

  /** In every run from the spawn, neighbouring points are one move apart on each axis, or not at all, and there are
      between 1 and 50 of them. */
  lemma {:induction false} RunStaysOnGrid(position: Vec2, run: seq<Keys>)
    ensures var points := MovedOver([position], run);
            OnGrid(points) && 1 <= |points| <= MAX_POINTS
  {
    if run != [] {
      var n := |run| - 1;
      RunStaysOnGrid(position, run[..n]);
      var points := MovedOver([position], run[..n]);
      NextHeadIsOneMove(points, run[n]);
      var next := NextTrailHead(points, run[n]);
      if next.Some? {
        PushStaysOnGrid(points, next.value);
      }
    }
  }

  // ----- Interpolation -----

  /** `f32::EPSILON`. */
  const EPSILON := 1.0 / 8388608.0

  function StartPoint(start: Points, i: nat): Vec2
    requires start != []
  {
    if i < |start| then start[i] else start[|start| - 1]
  }

  function Interpolated(start: Points, end: Points, ratio: real): Points {
    var t := if ratio < 0.0 then 0.0 else if ratio > 1.0 then 1.0 else ratio;
    if t <= EPSILON then start
    else if 1.0 - t <= EPSILON then end
    else if start == [] then end
    else if end == [] then start
    else seq(|end|, i requires 0 <= i < |end| => Lerp(StartPoint(start, i), end[i], t))
  }

  /** No neighbours are further apart than one move on either axis. */
  ghost predicate Connected(points: Points) {
    forall i :: 0 < i < |points| ==> Close(points[i], points[i - 1])
  }

  lemma GridIsConnected(points: Points)
    requires OnGrid(points)
    ensures Connected(points)
  {
  }

  lemma MixIsBounded(a: real, b: real, t: real, bound: real)
    requires 0.0 <= t <= 1.0 && Abs(a) <= bound && Abs(b) <= bound
    ensures Abs(a + (b - a) * t) <= bound
  {
    var s := 1.0 - t;
    ProductNonNegative(bound - a, s);
    ProductNonNegative(bound + a, s);
    ProductNonNegative(bound - b, t);
    ProductNonNegative(bound + b, t);
    assert a + (b - a) * t == a * s + b * t;
    assert bound * s + bound * t == bound;
  }

  /** Neighbours on one axis, each interpolated from `p` to `q`. */
  lemma AxisIsBounded(p: real, q: real, p': real, q': real, t: real, bound: real)
    requires 0.0 <= t <= 1.0 && Abs(p - p') <= bound && Abs(q - q') <= bound
    ensures Abs(LerpAxis(p, q, t) - LerpAxis(p', q', t)) <= bound
  {
    MixIsBounded(p - p', q - q', t, bound);
    assert (p + (q - p) * t) - (p' + (q' - p') * t) == (p - p') + ((q - q') - (p - p')) * t;
  }

  /** Two points no further apart than one move on either axis. */
  predicate Close(p: Vec2, q: Vec2) {
    Abs(p.x - q.x) <= MOVE_SPEED && Abs(p.y - q.y) <= MOVE_SPEED
  }

  lemma LerpsAreClose(a: Vec2, b: Vec2, a': Vec2, b': Vec2, t: real)
    requires 0.0 <= t <= 1.0 && Close(a, a') && Close(b, b')
    ensures Close(Lerp(a, b, t), Lerp(a', b', t))
  {
    AxisIsBounded(a.x, b.x, a'.x, b'.x, t, MOVE_SPEED);
    AxisIsBounded(a.y, b.y, a'.y, b'.y, t, MOVE_SPEED);
  }

  /** Interpolating two trails without gaps leaves no gap, for every ratio, even where the older trail is shorter. */
  lemma InterpolationLeavesNoGap(start: Points, end: Points, ratio: real)
    requires Connected(start) && Connected(end)
    ensures Connected(Interpolated(start, end, ratio))
  {
    var t := if ratio < 0.0 then 0.0 else if ratio > 1.0 then 1.0 else ratio;
    if !(t <= EPSILON || 1.0 - t <= EPSILON || start == [] || end == []) {
      var points := Interpolated(start, end, ratio);
      forall i | 0 < i < |points| ensures Close(points[i], points[i - 1]) {
        LerpsAreClose(StartPoint(start, i), end[i], StartPoint(start, i - 1), end[i - 1], t);
      }
    }
  }

  /** End to end: interpolating what any two runs of the movement have left gives a trail without gaps, for every ratio,
      of at least one and at most 50 points. */
  lemma InterpolatedRunsLeaveNoGap(position: Vec2, run: seq<Keys>, position': Vec2, run': seq<Keys>, ratio: real)
    ensures var points := Interpolated(MovedOver([position], run), MovedOver([position'], run'), ratio);
            Connected(points) && 1 <= |points| <= MAX_POINTS
  {
    RunStaysOnGrid(position, run);
    RunStaysOnGrid(position', run');
    GridIsConnected(MovedOver([position], run));
    GridIsConnected(MovedOver([position'], run'));
    InterpolationLeavesNoGap(MovedOver([position], run), MovedOver([position'], run'), ratio);
  }

  /** Within a rounding error of the ends of the range, or without the other trail, the result is the older or the newer
      trail; in between every point is the mean, weighted by the ratio, of the newer point and the older one at the same
      place, or the older trail's last. */
  lemma InterpolatedPoint(start: Points, end: Points, t: real, i: nat)
    ensures t <= 1.0 / 8388608.0 ==> Interpolated(start, end, t) == start
    ensures t >= 1.0 - 1.0 / 8388608.0 ==> Interpolated(start, end, t) == end
    ensures 1.0 / 8388608.0 < t < 1.0 - 1.0 / 8388608.0 ==>
      && (start == [] ==> Interpolated(start, end, t) == end)
      && (start != [] && end == [] ==> Interpolated(start, end, t) == start)
      && (start != [] && end != [] ==> |Interpolated(start, end, t)| == |end|)
    ensures 1.0 / 8388608.0 < t < 1.0 - 1.0 / 8388608.0 && start != [] && i < |end| ==>
      var p := if i < |start| then start[i] else start[|start| - 1];
      && Interpolated(start, end, t)[i].x == (1.0 - t) * p.x + t * end[i].x
      && Interpolated(start, end, t)[i].y == (1.0 - t) * p.y + t * end[i].y
  {
    if start != [] && i < |end| {
      var p := if i < |start| then start[i] else start[|start| - 1];
      LerpIsMean(p.x, end[i].x, t);
      LerpIsMean(p.y, end[i].y, t);
    }
  }

  lemma LerpIsMean(a: real, b: real, t: real)
    ensures LerpAxis(a, b, t) == (1.0 - t) * a + t * b
  {
  }
}
