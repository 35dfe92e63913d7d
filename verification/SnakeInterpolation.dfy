/** Rebuilding a snake between two confirmed snapshots by walking along the newer tail. */
module SnakeInterpolation {
  import opened Options
  import opened Vectors
  import opened SnakeGeometry
  import opened SnakeChain
  import opened SnakeTail
  import opened SnakeRun

  /** `1000.0 * f32::EPSILON`. */
  const CUTOFF := 1000.0 / 8388608.0

  class PlayerPosition {
    var value: Vec2

    constructor (value: Vec2)
      ensures this.value == value
    {
      this.value := value;
    }
  }

  // ----- The code -----

  /** Where the old head was found on the newer tail: on the segment from `points[index - 1]` to `points[index]`,
      `distance` behind the newer head, and whether exactly at `points[index]`. On a segment without length, the
      distance is not a number; a diagonal segment is `Impassable` and panics. */
  datatype Located = NotFound | Found(index: nat, distance: real, onPoint: bool) | FoundNowhere | Impassable

  function Locate(from: Vec2, pts: seq<Inflection>, i: nat, walked: real): (r: Located)
    requires i >= 1
    ensures r.Found? ==> i <= r.index < |pts|
    decreases |pts| - i
  {
    if i >= |pts| then NotFound
    else
      var segment := SegmentLength(pts[i].pos, pts[i - 1].pos);
      match IsBetween(from, pts[i].pos, pts[i - 1].pos)
      case Ratio(ratio) => Found(i, walked + Uncovered(ratio, segment), ratio == 0.0)
      case NotANumber => FoundNowhere
      case Outside => Locate(from, pts, i + 1, walked + segment)
      case Unreachable => Impassable
  }

  /** Moves the head by `todo` through the points before index `i` of the newer tail. */
  function Walk(head: Vec2, tail: seq<Inflection>, end: Snake, i: nat, todo: real, length: real): Snake
    requires tail != [] && end.points != [] && i <= |end.points|
    decreases i
  {
    if i == 0 then
      var dist := SegmentLength(end.head, end.points[0].pos);
      var h := GetTail(tail[0].dir, end.head, dist - todo);
      Snake(h, Shorten(h, tail, length))
    else
      var corner := end.points[i - 1];
      var dist := SegmentLength(head, corner.pos);
      if todo < CUTOFF then Snake(head, tail)
      else if dist < todo then Walk(corner.pos, [corner] + tail, end, i - 1, todo - dist, length)
      else
        var h := GetTail(tail[0].dir, corner.pos, dist - todo);
        Snake(h, Shorten(h, tail, length))
  }

  /** The distance to move for the interpolation ratio `t`. */
  function Share(t: real, distance: real): real {
    t * distance
  }

  /** What becomes of a tail and its head. A distance that is not a number passes every comparison of the second loop
      and of the cut by: the head is not a number then, and the tail is the older one. */
  datatype Outcome = Rebuilt(snake: Snake) | HeadNotANumber(points: seq<Inflection>) | Crashed

  function Interpolated(start: Snake, end: Snake, length: real, t: real): Outcome
    requires start.points != [] && end.points != []
  {
    match IsBetween(start.head, end.points[0].pos, end.head)
    case Unreachable => Crashed
    case Outside =>
      (match Locate(start.head, end.points, 1, SegmentLength(end.head, end.points[0].pos))
       case Impassable => Crashed
       case FoundNowhere => HeadNotANumber(start.points)
       case NotFound => Rebuilt(Walk(start.head, start.points, end, 0, 0.0, length))
       case Found(i, distance, onPoint) =>
         var tail := if onPoint then [end.points[i]] + start.points else start.points;
         Rebuilt(Walk(start.head, tail, end, i, Share(t, distance), length)))
    case _ =>
      var tail := if end.points[0].pos != start.points[0].pos then [end.points[0]] + start.points else start.points;
      var head := Lerp(start.head, end.head, t);
      Rebuilt(Snake(head, Shorten(head, tail, length)))
  }

  predicate IsDiagonal(pts: seq<Inflection>, k: nat)
    requires 0 < k < |pts|
  {
    !Aligned(pts[k].pos, pts[k - 1].pos)
  }

  /** Segment `k` has no length and is where the older head is. */
  predicate IsPoint(from: Vec2, pts: seq<Inflection>, k: nat)
    requires 0 < k < |pts|
  {
    from == pts[k].pos == pts[k - 1].pos
  }

  /** Segments `i` up to `k` are aligned and do not hold the older head. */
  predicate Missed(from: Vec2, pts: seq<Inflection>, i: nat, k: nat)
    requires 0 < i <= k <= |pts|
    decreases k - i
  {
    i == k || (MissedAt(from, pts, i) && Missed(from, pts, i + 1, k))
  }

  predicate MissedAt(from: Vec2, pts: seq<Inflection>, i: nat)
    requires 0 < i < |pts|
  {
    !IsDiagonal(pts, i) && !Within(from, pts[i].pos, pts[i - 1].pos)
  }

  /** The loop panics exactly on a diagonal segment, and divides zero by zero exactly on a segment without length at the
      older head, if all segments before are aligned and do not hold the older head. */
  lemma {:induction false} LocateFails(from: Vec2, pts: seq<Inflection>, i: nat, walked: real)
    requires i >= 1
    ensures Locate(from, pts, i, walked).Impassable? <==>
            exists k :: i <= k < |pts| && IsDiagonal(pts, k) && Missed(from, pts, i, k)
    ensures Locate(from, pts, i, walked).FoundNowhere? <==>
            exists k :: i <= k < |pts| && IsPoint(from, pts, k) && Missed(from, pts, i, k)
    decreases |pts| - i
  {
    if i < |pts| {
      IsBetweenCases(from, pts[i].pos, pts[i - 1].pos);
      assert Missed(from, pts, i, i);
      if MissedAt(from, pts, i) {
        LocateFails(from, pts, i + 1, walked + SegmentLength(pts[i].pos, pts[i - 1].pos));
        forall k | i < k < |pts| ensures Missed(from, pts, i, k) <==> Missed(from, pts, i + 1, k) {
        }
      } else {
        forall k | i < k < |pts| ensures !Missed(from, pts, i, k) {
        }
      }
    }
  }

  /** How an iteration ends other than by a rebuilt snake: with a panic exactly on a diagonal segment, and with a head
      that is not a number, the tail being the older one, exactly on a segment after the first without length at the
      older head; if the segments before do not hold the older head. */
  lemma OutcomeCases(start: Snake, end: Snake, length: real, t: real)
    requires start.points != [] && end.points != []
    ensures var pts := end.points;
            var r := Interpolated(start, end, length, t);
            var firstMissed := Aligned(pts[0].pos, end.head) && !Within(start.head, pts[0].pos, end.head);
            && (r.Crashed? <==>
                  || !Aligned(pts[0].pos, end.head)
                  || (firstMissed && exists k :: 1 <= k < |pts| && IsDiagonal(pts, k) && Missed(start.head, pts, 1, k)))
            && (r.HeadNotANumber? <==>
                  && firstMissed
                  && exists k :: 1 <= k < |pts| && IsPoint(start.head, pts, k) && Missed(start.head, pts, 1, k))
            && (r.HeadNotANumber? ==> r.points == start.points)
  {
    IsBetweenCases(start.head, end.points[0].pos, end.head);
    LocateFails(start.head, end.points, 1, SegmentLength(end.head, end.points[0].pos));
  }

  /** First loop of `interpolate`: finds the segment of the newer tail that holds the old head. */
  method FindOldHead(from: Vec2, pts: seq<Inflection>, firstSegment: real) returns (located: Located)
    requires pts != []
    ensures located == Locate(from, pts, 1, firstSegment)
  {
    var tailDiffLength := firstSegment;
    for i := 1 to |pts|
      invariant Locate(from, pts, 1, firstSegment) == Locate(from, pts, i, tailDiffLength)
    {
      var segment := SegmentLength(pts[i].pos, pts[i - 1].pos);
      match IsBetween(from, pts[i].pos, pts[i - 1].pos)
      case Ratio(ratio) =>
        tailDiffLength := tailDiffLength + Uncovered(ratio, segment);
        return Found(i, tailDiffLength, ratio == 0.0);
      case NotANumber => return FoundNowhere;
      case Unreachable => return Impassable;
      case Outside => tailDiffLength := tailDiffLength + segment;
    }
    return NotFound;
  }

  /** Second loop of `interpolate`: moves the head by `todo` along the newer tail, marking the points it passes. */
  method WalkAlong(tail: TailPoints, position: PlayerPosition, end: Snake, segmentIdx: nat, todo: real, length: real)
    requires tail.points != [] && end.points != [] && segmentIdx <= |end.points|
    modifies tail, position
    ensures Snake(position.value, tail.points)
         == Walk(old(position.value), old(tail.points), end, segmentIdx, todo, length)
  {
    var distanceToDo := todo;
    var i := segmentIdx;
    while i > 0
      invariant 0 <= i <= segmentIdx && tail.points != []
      invariant Walk(old(position.value), old(tail.points), end, segmentIdx, todo, length)
             == Walk(position.value, tail.points, end, i, distanceToDo, length)
    {
      i := i - 1;
      var dist := SegmentLength(position.value, end.points[i].pos);
      if distanceToDo < CUTOFF {
        return;
      }
      if dist < distanceToDo {
        position.value := end.points[i].pos;
        tail.points := [end.points[i]] + tail.points;
        distanceToDo := distanceToDo - dist;
      } else {
        position.value := GetTail(tail.points[0].dir, end.points[i].pos, dist - distanceToDo);
        tail.ShortenBack(position.value, length);
        return;
      }
    }
    var dist := SegmentLength(end.head, end.points[0].pos);
    position.value := GetTail(tail.points[0].dir, end.head, dist - distanceToDo);
    tail.ShortenBack(position.value, length);
  }

  /** One iteration of `interpolate`, once both snapshots are known. The code unwraps the first point of each. */
  method InterpolatePair(tail: TailPoints, position: PlayerPosition, start: Snake, end: Snake, length: real, t: real)
    returns (outcome: Outcome)
    requires start.points != [] && end.points != []
    modifies tail, position
    ensures outcome == Interpolated(start, end, length, t)
    ensures outcome.Rebuilt? ==> Snake(position.value, tail.points) == outcome.snake
    ensures outcome.HeadNotANumber? ==> tail.points == outcome.points
  {
    tail.points := start.points;
    position.value := start.head;
    var first := end.points[0];
    var between := IsBetween(start.head, first.pos, end.head);
    if between.Unreachable? {
      return Crashed;
    }
    if !between.Outside? {
      if first.pos != start.points[0].pos {
        tail.points := [first] + tail.points;
      }
      position.value := Lerp(start.head, end.head, t);
      tail.ShortenBack(position.value, length);
      return Rebuilt(Snake(position.value, tail.points));
    }
    var located := FindOldHead(start.head, end.points, SegmentLength(end.head, first.pos));
    var distanceToDo, segmentIdx := 0.0, 0;
    match located {
      case Impassable => return Crashed;
      case FoundNowhere => return HeadNotANumber(tail.points);
      case NotFound =>
      case Found(index, distance, onPoint) =>
        if onPoint {
          tail.points := [end.points[index]] + tail.points;
        }
        distanceToDo, segmentIdx := Share(t, distance), index;
    }
    WalkAlong(tail, position, end, segmentIdx, distanceToDo, length);
    return Rebuilt(Snake(position.value, tail.points));
  }

  // ----- Confirmed histories -----

  datatype HistoryState<+C> = Present(value: C) | Removed

  datatype Entry<+C> = Entry(tick: nat, state: HistoryState<C>)

  /** Confirmed states, oldest first, unchanged markers already resolved. */
  type History<+C> = seq<Entry<C>>

  predicate Sorted<C>(history: History<C>) {
    forall i, j :: 0 <= i < j < |history| ==> history[i].tick < history[j].tick
  }

  /** Number of leading entries not after `tick`. */
  function Leading<C>(history: History<C>, tick: nat): (n: nat)
    ensures n <= |history|
    ensures forall i :: 0 <= i < n ==> history[i].tick <= tick
    ensures n < |history| ==> history[n].tick > tick
  {
    if history == [] || history[0].tick > tick then 0 else 1 + Leading(history[1..], tick)
  }

  datatype Window<+C> = Single(tick: nat, value: C) | Pair(startTick: nat, start: C, endTick: nat, end: C)

  function ConfirmedWindow<C>(history: History<C>, tick: nat): Option<Window<C>> {
    var n := Leading(history, tick);
    if n == 0 then None
    else
      var first := history[n - 1];
      if first.state.Removed? then None
      else if n < |history| && history[n].state.Present?
      then Some(Pair(first.tick, first.state.value, history[n].tick, history[n].state.value))
      else Some(Single(first.tick, first.state.value))
  }

  /** The value confirmed last at or before `tick`. */
  function GetPresent<C>(history: History<C>, tick: nat): Option<C> {
    var n := Leading(history, tick);
    if n > 0 && history[n - 1].state.Present? then Some(history[n - 1].state.value) else None
  }

  function InterpolationFraction(startTick: nat, endTick: nat, tick: nat, overstep: real): real
    requires startTick < endTick
  {
    ((tick - startTick) as real + overstep) / (endTick - startTick) as real
  }

  function Clamp01(r: real): real {
    if r < 0.0 then 0.0 else if r > 1.0 then 1.0 else r
  }

  /** Entries `n - 1` and `n` are neighbours around the tick, and both are present. */
  predicate Brackets<C>(history: History<C>, n: nat, tick: nat) {
    && 0 < n < |history| && history[n - 1].tick <= tick < history[n].tick
    && history[n - 1].state.Present? && history[n].state.Present?
  }

  /** A sorted history gives a pair exactly when two neighbouring present entries bracket the tick, and
      then the ratio needs no clamping; the value at the start of any window is the one in force at the tick. */
  lemma WindowBrackets<C>(history: History<C>, tick: nat, overstep: real)
    requires Sorted(history) && 0.0 <= overstep <= 1.0
    ensures var w := ConfirmedWindow(history, tick);
            && (w.Some? <==> GetPresent(history, tick).Some?)
            && (w.Some? && w.value.Single? ==> GetPresent(history, tick) == Some(w.value.value))
            && (w.Some? && w.value.Pair? <==> exists n: nat :: Brackets(history, n, tick))
            && (forall n: nat :: Brackets(history, n, tick) ==>
                  w == Some(Pair(history[n - 1].tick, history[n - 1].state.value,
                                 history[n].tick, history[n].state.value)))
            && (w.Some? && w.value.Pair? ==>
                  && GetPresent(history, tick) == Some(w.value.start)
                  && w.value.startTick <= tick < w.value.endTick
                  && GetPresent(history, w.value.endTick) == Some(w.value.end)
                  && 0.0 <= InterpolationFraction(w.value.startTick, w.value.endTick, tick, overstep) <= 1.0)
  {
    var w := ConfirmedWindow(history, tick);
    forall n: nat | Brackets(history, n, tick) ensures Leading(history, tick) == n {
      LeadingBetween(history, n, tick);
    }
    if w.Some? && w.value.Pair? {
      var n := Leading(history, tick);
      assert Brackets(history, n, tick);
      LeadingBetween(history, n + 1, w.value.endTick);
      FractionIsShare(w.value.startTick, w.value.endTick, tick, overstep);
    }
  }

  /** The share of the way to the end tick: at the start tick it is nothing, it grows by the same amount each tick, and
      the end of the last tick before the end tick is the whole. */
  lemma FractionAdvances(startTick: nat, endTick: nat, tick: nat, overstep: real)
    requires startTick < endTick
    ensures InterpolationFraction(startTick, endTick, tick, overstep) * (endTick - startTick) as real
         == (tick - startTick) as real + overstep
    ensures InterpolationFraction(startTick, endTick, startTick, 0.0) == 0.0
    ensures InterpolationFraction(startTick, endTick, endTick - 1, 1.0) == 1.0
  {
    var span := (endTick - startTick) as real;
    QuotientTimes((tick - startTick) as real + overstep, span);
    QuotientEnds(span);
    assert (startTick - startTick) as real + 0.0 == 0.0;
    assert (endTick - 1 - startTick) as real + 1.0 == span;
  }

  lemma QuotientTimes(num: real, den: real)
    requires den > 0.0
    ensures (num / den) * den == num
  {
  }

  lemma QuotientEnds(den: real)
    requires den > 0.0
    ensures 0.0 / den == 0.0 && den / den == 1.0
  {
  }

  /** Of the distance, `d` is the same share as the time passed is of the span. */
  predicate Proportional(d: real, distance: real, passed: real, span: real) {
    d * span == passed * distance
  }

  /** The distance shown: the share of the ticks is the share of the way. */
  lemma ShareOfTicks(startTick: nat, endTick: nat, tick: nat, overstep: real, distance: real, d: real)
    requires startTick < endTick
    requires Proportional(d, distance, (tick - startTick) as real + overstep, (endTick - startTick) as real)
    ensures Share(InterpolationFraction(startTick, endTick, tick, overstep), distance) == d
  {
    FractionAdvances(startTick, endTick, tick, overstep);
    SameQuotient(InterpolationFraction(startTick, endTick, tick, overstep), (endTick - startTick) as real,
                 (tick - startTick) as real + overstep, distance, d);
  }

  lemma SameQuotient(f: real, span: real, passed: real, distance: real, d: real)
    requires span > 0.0 && f * span == passed && d * span == passed * distance
    ensures Share(f, distance) == d
  {
    assert (f * distance) * span == (f * span) * distance;
    assert ((f * distance) - d) * span == 0.0;
  }

  lemma FractionIsShare(startTick: nat, endTick: nat, tick: nat, overstep: real)
    requires startTick <= tick < endTick && 0.0 <= overstep <= 1.0
    ensures 0.0 <= InterpolationFraction(startTick, endTick, tick, overstep) <= 1.0
  {
    FractionBounds((tick - startTick) as real + overstep, (endTick - startTick) as real);
  }

  lemma FractionBounds(num: real, den: real)
    requires 0.0 <= num <= den && den > 0.0
    ensures 0.0 <= num / den <= 1.0
  {
  }

  lemma LeadingBetween<C>(history: History<C>, n: nat, tick: nat)
    requires Sorted(history) && 0 < n <= |history| && history[n - 1].tick <= tick
    requires n < |history| ==> tick < history[n].tick
    ensures Leading(history, tick) == n
  {
  }

  /** Entry `n` is the last one at or before the tick. */
  predicate InForce<C>(history: History<C>, n: nat, tick: nat) {
    && n < |history| && history[n].tick <= tick
    && forall k :: n < k < |history| ==> history[k].tick > tick
  }

  /** A value is present at a tick exactly if the last entry at or before it is, and then it is that one's. */
  lemma PresentIff<C>(history: History<C>, tick: nat)
    requires Sorted(history)
    ensures forall n: nat :: InForce(history, n, tick) ==>
      GetPresent(history, tick)
      == if history[n].state.Present? then Some(history[n].state.value) else None
    ensures (forall n: nat :: !InForce(history, n, tick)) ==> GetPresent(history, tick).None?
  {
    forall n: nat | InForce(history, n, tick) ensures Leading(history, tick) == n + 1 {
      LeadingBetween(history, n + 1, tick);
    }
    var m := Leading(history, tick);
    if m > 0 {
      assert forall k :: m - 1 < k < |history| ==> history[k].tick >= history[m].tick;
      assert InForce(history, m - 1, tick);
    }
  }

  /** What the system shows for one tail and its head at an interpolation tick. */
  function Shown(before: Snake, tails: History<seq<Inflection>>, heads: History<Vec2>, tick: nat, overstep: real,
                 length: real): Outcome
    requires Sorted(tails)
    requires forall e :: e in tails && e.state.Present? ==> e.state.value != []
  {
    var window := ConfirmedWindow(tails, tick);
    if window.None? then Rebuilt(before)
    else
      match window.value
      case Single(at, points) =>
        var head := GetPresent(heads, at);
        Rebuilt(if head.None? then before else Snake(head.value, points))
      case Pair(startTick, startPoints, endTick, endPoints) =>
        var startHead, endHead := GetPresent(heads, startTick), GetPresent(heads, endTick);
        if startHead.None? || endHead.None? then Rebuilt(before)
        else
          WindowBrackets(tails, tick, 0.0);
          Interpolated(Snake(startHead.value, startPoints), Snake(endHead.value, endPoints), length,
                       Clamp01(InterpolationFraction(startTick, endTick, tick, overstep)))
  }

  /** Between two neighbouring confirmed tails with their heads, they are interpolated at the share of the ticks. */
  lemma ShownPair(before: Snake, tails: History<seq<Inflection>>, heads: History<Vec2>, tick: nat, overstep: real,
                  length: real, n: nat, start: Snake, end: Snake)
    requires Sorted(tails) && (forall e :: e in tails && e.state.Present? ==> e.state.value != [])
    requires 0.0 <= overstep <= 1.0 && start.points != [] && end.points != []
    requires 0 < n < |tails| && tails[n - 1].tick <= tick < tails[n].tick
    requires tails[n - 1].state == Present(start.points) && tails[n].state == Present(end.points)
    requires GetPresent(heads, tails[n - 1].tick) == Some(start.head)
    requires GetPresent(heads, tails[n].tick) == Some(end.head)
    ensures var t := InterpolationFraction(tails[n - 1].tick, tails[n].tick, tick, overstep);
            && 0.0 <= t <= 1.0
            && Shown(before, tails, heads, tick, overstep, length) == Interpolated(start, end, length, t)
  {
    assert Brackets(tails, n, tick);
    WindowBrackets(tails, tick, overstep);
  }

  /** Before the first confirmed tail, or once it is removed, or without its head, nothing changes. With nothing present
      after the tail in force, it is shown as it was confirmed, with the head confirmed for its tick. */
  lemma ShownWithoutPair(before: Snake, tails: History<seq<Inflection>>, heads: History<Vec2>, tick: nat,
                         overstep: real, length: real, n: nat)
    requires Sorted(tails) && Sorted(heads)
    requires forall e :: e in tails && e.state.Present? ==> e.state.value != []
    ensures (forall k: nat :: !InForce(tails, k, tick)) ==>
      Shown(before, tails, heads, tick, overstep, length) == Rebuilt(before)
    ensures InForce(tails, n, tick) && tails[n].state.Removed? ==>
      Shown(before, tails, heads, tick, overstep, length) == Rebuilt(before)
    ensures InForce(tails, n, tick) && tails[n].state.Present? && (n + 1 < |tails| ==> tails[n + 1].state.Removed?) ==>
      forall m: nat :: InForce(heads, m, tails[n].tick) ==>
        Shown(before, tails, heads, tick, overstep, length)
        == Rebuilt(if heads[m].state.Present? then Snake(heads[m].state.value, tails[n].state.value) else before)
  {
    PresentIff(tails, tick);
    WindowBrackets(tails, tick, 0.0);
    if InForce(tails, n, tick) {
      LeadingBetween(tails, n + 1, tick);
      PresentIff(heads, tails[n].tick);
    }
  }

  /** One iteration of the `interpolate` system. */
  method InterpolateEntity(tail: TailPoints, position: PlayerPosition, tails: History<seq<Inflection>>,
                           heads: History<Vec2>, tick: nat, overstep: real, length: real) returns (outcome: Outcome)
    requires Sorted(tails)
    requires forall e :: e in tails && e.state.Present? ==> e.state.value != []
    modifies tail, position
    ensures outcome == Shown(old(Snake(position.value, tail.points)), tails, heads, tick, overstep, length)
    ensures outcome.Rebuilt? ==> Snake(position.value, tail.points) == outcome.snake
    ensures outcome.HeadNotANumber? ==> tail.points == outcome.points
  {
    outcome := Rebuilt(Snake(position.value, tail.points));
    var window := ConfirmedWindow(tails, tick);
    if window.None? {
      return;
    }
    match window.value
    case Single(at, points) =>
      var head := GetPresent(heads, at);
      if head.Some? {
        tail.points := points;
        position.value := head.value;
        outcome := Rebuilt(Snake(position.value, tail.points));
      }
    case Pair(startTick, startPoints, endTick, endPoints) =>
      var startHead := GetPresent(heads, startTick);
      if startHead.None? {
        return;
      }
      var endHead := GetPresent(heads, endTick);
      if endHead.None? {
        return;
      }
      WindowBrackets(tails, tick, 0.0);
      var t := Clamp01(InterpolationFraction(startTick, endTick, tick, overstep));
      outcome := InterpolatePair(tail, position, Snake(startHead.value, startPoints), Snake(endHead.value, endPoints),
                                 length, t);
  }
}
