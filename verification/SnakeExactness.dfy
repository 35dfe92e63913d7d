/** Interpolation between two snapshots of one run is exact: it is the snake that travelled part of the way. */
module SnakeExactness {
  import opened Options
  import opened Vectors
  import opened SnakeGeometry
  import opened SnakeChain
  import opened SnakeTail
  import opened SnakeRun
  import opened SnakeInterpolation
  import opened SnakeJourney

  /** The path behind the final head: the newer snake, then the older one. */
  function Track(j: Journey, u: real): Vec2 {
    if u <= j.distance then At(j.end.head, j.end.points, u) else At(j.start.head, j.start.points, u - j.distance)
  }

  // ----- Curves along the track -----

  /** A chain that draws the track from `done` beyond the older head, not yet cut. */
  ghost predicate Drawn(j: Journey, done: real, h: Vec2, pts: seq<Inflection>) {
    && pts != [] && Chain(h, pts)
    && Length(h, pts) == j.length + done
    && forall s :: 0.0 <= s <= j.length + done ==> At(h, pts, s) == Track(j, j.distance - done + s)
  }

  /** The real snake `done` further than the older snapshot: `length` units of the track. */
  ghost predicate Exact(j: Journey, done: real, snake: Snake) {
    && Chain(snake.head, snake.points)
    && Length(snake.head, snake.points) == j.length
    && forall s :: 0.0 <= s <= j.length ==> At(snake.head, snake.points, s) == Track(j, j.distance - done + s)
  }

  lemma CutIsExact(j: Journey, done: real, h: Vec2, pts: seq<Inflection>)
    requires j.length > 0.0 && done >= 0.0 && Drawn(j, done, h, pts)
    ensures Exact(j, done, Snake(h, Shorten(h, pts, j.length)))
  {
    ShortenTakesPrefix(h, pts, j.length);
  }

  /** What moving the head draws anew: the last `x` units, on segment `i`. */
  lemma NewlyDrawn(j: Journey, done: real, i: nat, y: real, x: real, s: real)
    requires i < |j.end.points| && Chain(j.end.head, j.end.points)
    requires 0.0 <= s <= x <= y <= Segment(j, i) && done >= 0.0
    requires j.distance - done == CornerDistance(j, i) + y
    ensures GetTail(j.end.points[i].dir, Corner(j, i), y - x + s) == Track(j, j.distance - (done + x) + s)
  {
    var onSegment := y - x + s;
    SegmentOnCurve(j, i, onSegment);
    assert j.distance - (done + x) + s == CornerDistance(j, i) + onSegment;
  }

  /** And what was drawn before. */
  lemma DrawnBefore(j: Journey, done: real, h: Vec2, pts: seq<Inflection>, h2: Vec2, x: real, s: real)
    requires Drawn(j, done, h, pts) && x < s <= j.length + done + x
    requires forall s :: 0.0 <= s ==> At(h2, pts, x + s) == At(h, pts, s)
    ensures At(h2, pts, s) == Track(j, j.distance - (done + x) + s)
  {
    var behind := s - x;
    assert At(h2, pts, x + behind) == At(h, pts, behind) == Track(j, j.distance - done + behind);
    assert x + behind == s && j.distance - done + behind == j.distance - (done + x) + s;
  }

  /** Moving a drawn chain's head along segment `i` of the newer tail keeps it drawn. */
  lemma AdvanceDrawn(j: Journey, done: real, h: Vec2, pts: seq<Inflection>, i: nat, y: real, x: real)
    requires Drawn(j, done, h, pts) && done >= 0.0
    requires i < |j.end.points| && Chain(j.end.head, j.end.points)
    requires pts[0].dir == j.end.points[i].dir
    requires 0.0 <= x <= y <= Segment(j, i)
    requires h == GetTail(j.end.points[i].dir, Corner(j, i), y)
    requires j.distance - done == CornerDistance(j, i) + y
    ensures Drawn(j, done + x, GetTail(j.end.points[i].dir, Corner(j, i), y - x), pts)
  {
    var h2 := GetTail(pts[0].dir, Corner(j, i), y - x);
    Advance(h, pts, x, h2);
    forall s | 0.0 <= s <= j.length + done + x
      ensures At(h2, pts, s) == Track(j, j.distance - (done + x) + s)
    {
      if s <= x {
        NewlyDrawn(j, done, i, y, x, s);
      } else {
        DrawnBefore(j, done, h, pts, h2, x, s);
      }
    }
  }

  lemma MarkDrawn(j: Journey, done: real, h: Vec2, pts: seq<Inflection>, d: Direction)
    requires Drawn(j, done, h, pts)
    ensures Drawn(j, done, h, [Inflection(h, d)] + pts)
  {
    MarkHead(h, pts, d);
  }

  lemma StartOnSegment(j: Journey, i: nat, y: real)
    requires Follows(j, i, y)
    ensures CornerDistance(j, i) + y == j.distance && 0.0 <= y <= Segment(j, i)
    ensures j.start.head == GetTail(j.end.points[i].dir, Corner(j, i), y)
    ensures At(j.end.head, j.end.points, j.distance) == j.start.head
  {
    assert End(j.end.head, j.end.points[..i]) == Corner(j, i);
    SegmentOnCurve(j, i, y);
  }

  lemma StartIsDrawn(j: Journey, i: nat, y: real)
    requires Follows(j, i, y)
    ensures Drawn(j, 0.0, j.start.head, j.start.points)
  {
    StartOnSegment(j, i, y);
    AtHead(j.start.head, j.start.points);
  }

  /** The newer snake does not run through the older head again. */
  ghost predicate NoReturn(j: Journey) {
    NoneBefore(j, j.distance)
  }

  // ----- The straight case -----

  /** A point of the first segment can be marked without changing the curve. */
  lemma MarkOnFirst(h: Vec2, pts: seq<Inflection>, p: Inflection, x: real)
    requires pts != [] && Chain(h, pts) && 0.0 <= x <= SegmentLength(h, pts[0].pos)
    requires p == Inflection(GetTail(pts[0].dir, h, x), pts[0].dir)
    ensures Chain(h, [p] + pts) && Length(h, [p] + pts) == Length(h, pts)
    ensures forall s :: 0.0 <= s ==> At(h, [p] + pts, s) == At(h, pts, s)
  {
    assert ([p] + pts)[1..] == pts;
  }

  lemma StraightTailIsDrawn(j: Journey, y: real)
    requires Follows(j, 0, y)
    ensures Drawn(j, 0.0, j.start.head, StraightTail(j))
    ensures StraightTail(j)[0].dir == j.end.points[0].dir
  {
    StartIsDrawn(j, 0, y);
    FirstPoint(j, y);
    var first := j.end.points[0];
    if y < Segment(j, 0) {
      MarkOnFirst(j.start.head, j.start.points, first, Segment(j, 0) - y);
    } else {
      MarkDrawn(j, 0.0, j.start.head, j.start.points, first.dir);
    }
  }

  /** Where the first point of the newer tail is, seen from the older head. */
  lemma FirstPoint(j: Journey, y: real)
    requires Follows(j, 0, y)
    ensures j.end.points[0].pos == GetTail(j.end.points[0].dir, j.start.head, Segment(j, 0) - y)
    ensures y == Segment(j, 0) ==> j.end.points[0].pos == j.start.head != j.start.points[0].pos
  {
    StartOnSegment(j, 0, y);
    CornerStep(j, 0);
  }

  lemma StraightStart(j: Journey, y: real)
    requires Follows(j, 0, y)
    ensures j.start.head == GetTail(j.end.points[0].dir, j.end.head, j.distance)
    ensures j.distance <= Segment(j, 0) && CornerDistance(j, 0) == 0.0
  {
    StartOnSegment(j, 0, y);
    AllSegments(j);
  }

  lemma LerpOnSegment(d: Direction, far: Vec2, near: Vec2, distance: real, t: real)
    requires far == GetTail(d, near, distance)
    ensures Lerp(far, near, t) == GetTail(d, near, distance - Share(t, distance))
  {
    var dx, dy := near.x - far.x, near.y - far.y;
    assert Lerp(far, near, t) == Vec2(far.x + dx * t, far.y + dy * t);
    match d
    case Up => assert dx == 0.0 && dy == distance;
    case Down => assert dx == 0.0 && dy == -distance;
    case Left => assert dx == -distance && dy == 0.0;
    case Right => assert dx == distance && dy == 0.0;
  }

  lemma ShareIsBounded(t: real, distance: real)
    requires 0.0 <= t <= 1.0 && distance >= 0.0
    ensures 0.0 <= Share(t, distance) <= distance
  {
    ProductNonNegative(t, distance);
    ProductNonNegative(1.0 - t, distance);
    assert (1.0 - t) * distance == distance - t * distance;
  }

  lemma StraightResult(j: Journey, u: real, t: real)
    requires j.start.points != [] && j.end.points != []
    requires j.start.head == GetTail(j.end.points[0].dir, j.end.head, j.distance)
    ensures var h := GetTail(j.end.points[0].dir, j.end.head, j.distance - Share(t, j.distance));
            FromSegment(j, 0, u, t) == Snake(h, Shorten(h, StraightTail(j), j.length))
  {
    LerpOnSegment(j.end.points[0].dir, j.start.head, j.end.head, j.distance, t);
  }

  /** On a straight way the result is exact for every ratio. */
  lemma StraightExact(j: Journey, y: real, t: real)
    requires Follows(j, 0, y) && j.length > 0.0 && 0.0 <= t <= 1.0
    ensures Exact(j, Share(t, j.distance), FromSegment(j, 0, j.distance, t))
  {
    StraightStart(j, y);
    StraightResult(j, j.distance, t);
    ShareIsBounded(t, j.distance);
    StraightAdvance(j, y, Share(t, j.distance));
  }

  lemma StraightAdvance(j: Journey, y: real, d: real)
    requires Follows(j, 0, y) && j.length > 0.0 && 0.0 <= d <= j.distance
    ensures var h := GetTail(j.end.points[0].dir, j.end.head, j.distance - d);
            Exact(j, d, Snake(h, Shorten(h, StraightTail(j), j.length)))
  {
    StraightTailIsDrawn(j, y);
    StraightStart(j, y);
    AdvanceDrawn(j, 0.0, j.start.head, StraightTail(j), 0, j.distance, d);
    CutIsExact(j, d, GetTail(j.end.points[0].dir, j.end.head, j.distance - d), StraightTail(j));
  }

  // ----- The walk -----

  /** After `d` units of travel the head has just passed corner `i`, by less than the cut-off. */
  predicate JustPassed(j: Journey, d: real, i: nat)
    requires i <= |j.end.points|
  {
    0.0 < d - (j.distance - CornerDistance(j, i)) < CUTOFF
  }

  /** The state of the walk at corner `i`: `done` units are drawn, the head is `y` behind the corner. */
  ghost predicate Walking(j: Journey, d: real, done: real, h: Vec2, tail: seq<Inflection>, i: nat, y: real) {
    && i < |j.end.points| && IsSnake(j.end.head, j.end.points, j.length)
    && 0.0 < j.length && 0.0 <= done <= d <= j.distance <= j.length && (done == 0.0 || done < d)
    && Drawn(j, done, h, tail) && tail[0].dir == j.end.points[i].dir
    && 0.0 <= y <= Segment(j, i) && (i == 0 ==> y == Segment(j, 0))
    && h == GetTail(j.end.points[i].dir, Corner(j, i), y)
    && j.distance - done == CornerDistance(j, i) + y
    && (done == 0.0 ==> h == j.start.head)
  }

  /** Stopping short of the distance is never exact: the head is not where it should be, or the tail is too long. */
  lemma StoppingShort(j: Journey, d: real, done: real, h: Vec2, tail: seq<Inflection>, i: nat, y: real)
    requires Walking(j, d, done, h, tail, i, y) && NoReturn(j)
    ensures Exact(j, d, Snake(h, tail)) <==> d == done
  {
    if d != done && done == 0.0 {
      AtHead(h, tail);
      assert j.distance - d + 0.0 < j.distance;
      assert Track(j, j.distance - d + 0.0) != h;
    }
  }

  lemma PassCorner(j: Journey, d: real, done: real, h: Vec2, tail: seq<Inflection>, i: nat, y: real)
    requires Walking(j, d, done, h, tail, i, y) && i > 0 && y < d - done
    ensures var corner := j.end.points[i - 1];
            Walking(j, d, done + y, corner.pos, [corner] + tail, i - 1, Segment(j, i - 1))
  {
    var corner := j.end.points[i - 1];
    AdvanceDrawn(j, done, h, tail, i, y, y);
    MarkDrawn(j, done + y, corner.pos, tail, corner.dir);
    CornerStep(j, i - 1);
  }

  lemma Arrive(j: Journey, d: real, done: real, h: Vec2, tail: seq<Inflection>, i: nat, y: real)
    requires Walking(j, d, done, h, tail, i, y) && d - done <= y
    ensures var h2 := GetTail(tail[0].dir, Corner(j, i), y - (d - done));
            Exact(j, d, Snake(h2, Shorten(h2, tail, j.length)))
  {
    AdvanceDrawn(j, done, h, tail, i, y, d - done);
    CutIsExact(j, d, GetTail(tail[0].dir, Corner(j, i), y - (d - done)), tail);
  }

  lemma CornersAhead(j: Journey, done: real, i: nat, y: real, c: nat)
    requires i < |j.end.points| && IsSnake(j.end.head, j.end.points, j.length) && c <= i
    requires j.distance - done == CornerDistance(j, i) + y
    ensures j.distance - CornerDistance(j, c) >= done + y
  {
    CornersAreOrdered(j, c, i);
  }

  /** The cut-off stops a walk that still has something to do. */
  ghost predicate CutShort(j: Journey, d: real, done: real, i: nat)
    requires i <= |j.end.points|
  {
    (i > 0 && 0.0 < d - done < CUTOFF) || exists c :: 2 <= c <= i && JustPassed(j, d, c)
  }

  lemma NotCutShort(j: Journey, d: real, done: real, i: nat, y: real)
    requires i < |j.end.points| && IsSnake(j.end.head, j.end.points, j.length)
    requires j.distance - done == CornerDistance(j, i) + y
    requires d - done <= y
    ensures CutShort(j, d, done, i) <==> i > 0 && 0.0 < d - done < CUTOFF
  {
    forall c | 2 <= c <= i ensures !JustPassed(j, d, c) {
      CornersAhead(j, done, i, y, c);
    }
  }

  lemma CutShortPasses(j: Journey, d: real, done: real, i: nat, y: real)
    requires 0 < i < |j.end.points|
    requires j.distance - done == CornerDistance(j, i) + y
    requires CUTOFF <= d - done
    ensures CutShort(j, d, done, i) <==> CutShort(j, d, done + y, i - 1)
  {
    assert JustPassed(j, d, i) <==> 0.0 < d - (done + y) < CUTOFF;
    assert (exists c :: 2 <= c <= i && JustPassed(j, d, c))
      <==> (i >= 2 && JustPassed(j, d, i)) || exists c :: 2 <= c <= i - 1 && JustPassed(j, d, c);
  }

  /** The outcome of the rest of a walk is the real snake exactly when the cut-off does not stop it. */
  ghost predicate ExactUnlessCutShort(j: Journey, d: real, done: real, h: Vec2, tail: seq<Inflection>, i: nat)
    requires tail != [] && i < |j.end.points|
  {
    Exact(j, d, Walk(h, tail, j.end, i, d - done, j.length)) <==> !CutShort(j, d, done, i)
  }

  lemma {:induction false} WalkIsExact(j: Journey, d: real, done: real, h: Vec2, tail: seq<Inflection>, i: nat, y: real)
    requires Walking(j, d, done, h, tail, i, y) && NoReturn(j)
    ensures ExactUnlessCutShort(j, d, done, h, tail, i)
    decreases i, 1
  {
    if i > 0 && d - done < CUTOFF {
      WalkStops(j, d, done, h, tail, i, y);
    } else if i > 0 && y < d - done {
      WalkPassing(j, d, done, h, tail, i, y);
    } else {
      WalkArrives(j, d, done, h, tail, i, y);
    }
  }

  lemma {:induction false} WalkPassing(j: Journey, d: real, done: real, h: Vec2, tail: seq<Inflection>, i: nat, y: real)
    requires Walking(j, d, done, h, tail, i, y) && NoReturn(j) && i > 0 && CUTOFF <= d - done && y < d - done
    ensures ExactUnlessCutShort(j, d, done, h, tail, i)
    decreases i, 0
  {
    var corner := j.end.points[i - 1];
    PassCorner(j, d, done, h, tail, i, y);
    WalkIsExact(j, d, done + y, corner.pos, [corner] + tail, i - 1, Segment(j, i - 1));
    WalkOnward(j, d, done, h, tail, i, y);
  }

  /** Passing a corner changes neither the outcome nor whether the cut-off stops the walk. */
  lemma WalkOnward(j: Journey, d: real, done: real, h: Vec2, tail: seq<Inflection>, i: nat, y: real)
    requires 0 < i < |j.end.points| && tail != [] && 0.0 <= y < d - done && CUTOFF <= d - done
    requires h == GetTail(j.end.points[i].dir, Corner(j, i), y)
    requires j.distance - done == CornerDistance(j, i) + y
    requires ExactUnlessCutShort(j, d, done + y, j.end.points[i - 1].pos, [j.end.points[i - 1]] + tail, i - 1)
    ensures ExactUnlessCutShort(j, d, done, h, tail, i)
  {
    CutShortPasses(j, d, done, i, y);
    WalkPasses(h, tail, j, i, d - done, y, d - (done + y));
  }

  lemma WalkStops(j: Journey, d: real, done: real, h: Vec2, tail: seq<Inflection>, i: nat, y: real)
    requires Walking(j, d, done, h, tail, i, y) && NoReturn(j) && i > 0 && d - done < CUTOFF
    ensures ExactUnlessCutShort(j, d, done, h, tail, i)
  {
    StoppingShort(j, d, done, h, tail, i, y);
    if d == done {
      NotCutShort(j, d, done, i, y);
    }
  }

  lemma WalkArrives(j: Journey, d: real, done: real, h: Vec2, tail: seq<Inflection>, i: nat, y: real)
    requires Walking(j, d, done, h, tail, i, y) && (i == 0 || CUTOFF <= d - done <= y)
    ensures ExactUnlessCutShort(j, d, done, h, tail, i)
  {
    WalkEnds(j, d, done, h, tail, i, y);
    Arrive(j, d, done, h, tail, i, y);
    NotCutShort(j, d, done, i, y);
  }

  lemma WalkPasses(h: Vec2, tail: seq<Inflection>, j: Journey, i: nat, todo: real, y: real, rest: real)
    requires 0 < i < |j.end.points| && tail != [] && rest == todo - y
    requires 0.0 <= y < todo && CUTOFF <= todo && h == GetTail(j.end.points[i].dir, Corner(j, i), y)
    ensures Walk(h, tail, j.end, i, todo, j.length)
         == Walk(j.end.points[i - 1].pos, [j.end.points[i - 1]] + tail, j.end, i - 1, rest, j.length)
  {
    assert SegmentLength(h, j.end.points[i - 1].pos) == y;
  }

  lemma WalkEnds(j: Journey, d: real, done: real, h: Vec2, tail: seq<Inflection>, i: nat, y: real)
    requires Walking(j, d, done, h, tail, i, y) && (i == 0 || d - done <= y)
    requires i == 0 || CUTOFF <= d - done
    ensures d - done <= y
    ensures var h2 := GetTail(tail[0].dir, Corner(j, i), y - (d - done));
            Walk(h, tail, j.end, i, d - done, j.length) == Snake(h2, Shorten(h2, tail, j.length))
  {
    if i > 0 {
      assert SegmentLength(h, j.end.points[i - 1].pos) == y;
    } else {
      assert j.end.points[..0] == [];
    }
  }

  /** The outcome of the rest of a walk is the snake of an earlier moment, `moved` units on and less than the cut-off
      before, and not cut: it is longer by as much as it has moved. */
  ghost predicate StoppedAt(j: Journey, d: real, done: real, h: Vec2, tail: seq<Inflection>, i: nat, moved: real)
    requires tail != [] && i < |j.end.points|
  {
    var r := Walk(h, tail, j.end, i, d - done, j.length);
    0.0 <= moved < d < moved + CUTOFF && Drawn(j, moved, r.head, r.points)
  }

  /** That is what a walk leaves that the cut-off stops. */
  lemma {:induction false} WalkStopsShort(j: Journey, d: real, done: real, h: Vec2, tail: seq<Inflection>, i: nat,
                                          y: real) returns (moved: real)
    requires Walking(j, d, done, h, tail, i, y) && CutShort(j, d, done, i)
    ensures StoppedAt(j, d, done, h, tail, i, moved)
    decreases i, 1
  {
    if i > 0 && d - done < CUTOFF {
      moved := done;
      if d == done {
        NotCutShort(j, d, done, i, y);
      }
    } else if i > 0 && y < d - done {
      moved := PassingStopsShort(j, d, done, h, tail, i, y);
    } else {
      WalkEnds(j, d, done, h, tail, i, y);
      NotCutShort(j, d, done, i, y);
    }
  }

  lemma {:induction false} PassingStopsShort(j: Journey, d: real, done: real, h: Vec2, tail: seq<Inflection>, i: nat,
                                             y: real) returns (moved: real)
    requires Walking(j, d, done, h, tail, i, y) && CutShort(j, d, done, i)
    requires i > 0 && CUTOFF <= d - done && y < d - done
    ensures StoppedAt(j, d, done, h, tail, i, moved)
    decreases i, 0
  {
    var corner := j.end.points[i - 1];
    PassCorner(j, d, done, h, tail, i, y);
    CutShortPasses(j, d, done, i, y);
    moved := WalkStopsShort(j, d, done + y, corner.pos, [corner] + tail, i - 1, Segment(j, i - 1));
    StoppedOnward(j, d, done, h, tail, i, y, moved);
  }

  lemma StoppedOnward(j: Journey, d: real, done: real, h: Vec2, tail: seq<Inflection>, i: nat, y: real, moved: real)
    requires 0 < i < |j.end.points| && tail != [] && 0.0 <= y < d - done && CUTOFF <= d - done
    requires h == GetTail(j.end.points[i].dir, Corner(j, i), y)
    requires StoppedAt(j, d, done + y, j.end.points[i - 1].pos, [j.end.points[i - 1]] + tail, i - 1, moved)
    ensures StoppedAt(j, d, done, h, tail, i, moved)
  {
    WalkPasses(h, tail, j, i, d - done, y, d - (done + y));
  }

  // ----- The theorem -----

  /** The interpolation stops early: the older head is not on the first segment of the newer tail, and the
      distance is past the older head, or past a corner other than the newest, by less than the cut-off. */
  ghost predicate StoppedByCutoff(j: Journey, d: real)
    requires j.end.points != []
  {
    && j.distance > Segment(j, 0)
    && (0.0 < d < CUTOFF ||
        exists c :: 2 <= c < |j.end.points| && CornerDistance(j, c) <= j.distance && JustPassed(j, d, c))
  }

  lemma StraightIffFirstSegment(j: Journey, i: nat, y: real)
    requires Follows(j, i, y)
    ensures i == 0 <==> j.distance <= Segment(j, 0)
  {
    StartOnSegment(j, i, y);
    AllSegments(j);
    CornerStep(j, 0);
    if i > 0 {
      CornersAreOrdered(j, 1, i);
    }
  }

  lemma CutShortIsStoppedByCutoff(j: Journey, i: nat, y: real, d: real)
    requires Follows(j, i, y) && i > 0
    ensures CutShort(j, d, 0.0, i) <==> StoppedByCutoff(j, d)
  {
    StraightIffFirstSegment(j, i, y);
    StartOnSegment(j, i, y);
    forall c | i < c < |j.end.points| && CornerDistance(j, c) <= j.distance ensures CornerDistance(j, c) == j.distance {
      CornerStep(j, i);
      CornersAreOrdered(j, i + 1, c);
    }
    forall c | 2 <= c <= i ensures CornerDistance(j, c) <= j.distance {
      CornersAreOrdered(j, c, i);
    }
    assert forall c :: 2 <= c < |j.end.points| && CornerDistance(j, c) == j.distance && JustPassed(j, d, c) ==>
                       0.0 < d < CUTOFF;
  }

  lemma WalkStart(j: Journey, i: nat, y: real, d: real)
    requires Follows(j, i, y) && j.length > 0.0 && i > 0 && 0.0 <= d <= j.distance
    ensures Walking(j, d, 0.0, j.start.head, WalkTail(j, i, y == Segment(j, i)), i, y)
  {
    StartIsDrawn(j, i, y);
    StartOnSegment(j, i, y);
    CornerStep(j, i);
    if y == Segment(j, i) {
      MarkDrawn(j, 0.0, j.start.head, j.start.points, j.end.points[i].dir);
      assert j.end.points[i] == Inflection(j.start.head, j.end.points[i].dir);
    }
  }

  /** The search finds the older head where the run left it. */
  lemma SearchFindsStart(j: Journey, i: nat, y: real, t: real)
    requires Follows(j, i, y) && NoReturn(j)
    ensures Interpolated(j.start, j.end, j.length, t) == Rebuilt(FromSegment(j, i, j.distance, t))
  {
    StartOnSegment(j, i, y);
    var found, k, u := SearchFindsNearest(j);
    NearestIsUnique(j, u, j.distance);
    if i <= k {
      SameSegment(j, i, k, u);
    } else {
      SameSegment(j, k, i, u);
    }
  }

  /** The result is the real snake after `done`. */
  ghost predicate ExactlyShown(j: Journey, done: real, outcome: Outcome) {
    outcome.Rebuilt? && Exact(j, done, outcome.snake)
  }

  /** Interpolating at ratio `t` between two snapshots gives the real snake after that share of the
      way, unless the cut-off stops it, and then it never does. */
  lemma JourneyIsExact(j: Journey, i: nat, y: real, t: real)
    requires Follows(j, i, y) && NoReturn(j) && j.length > 0.0 && 0.0 <= t <= 1.0
    ensures ExactlyShown(j, Share(t, j.distance), Interpolated(j.start, j.end, j.length, t))
       <==> !StoppedByCutoff(j, Share(t, j.distance))
  {
    var d := Share(t, j.distance);
    StraightIffFirstSegment(j, i, y);
    SearchFindsStart(j, i, y, t);
    if i == 0 {
      StraightExact(j, y, t);
    } else {
      ShareIsBounded(t, j.distance);
      StartOnSegment(j, i, y);
      WalkStart(j, i, y, d);
      WalkIsExact(j, d, 0.0, j.start.head, WalkTail(j, i, y == Segment(j, i)), i, y);
      CutShortIsStoppedByCutoff(j, i, y, d);
      assert d - 0.0 == d;
    }
  }

  /** The snake of an earlier moment, less than the cut-off before `d`, and longer by as much as it has moved. */
  ghost predicate ShownUncut(j: Journey, d: real, moved: real, outcome: Outcome) {
    0.0 <= moved < d < moved + CUTOFF && outcome.Rebuilt? && Drawn(j, moved, outcome.snake.head, outcome.snake.points)
  }

  /** And what the interpolation gives when it is stopped. */
  lemma JourneyStopsShort(j: Journey, i: nat, y: real, t: real) returns (moved: real)
    requires Follows(j, i, y) && NoReturn(j) && j.length > 0.0 && 0.0 <= t <= 1.0
    requires StoppedByCutoff(j, Share(t, j.distance))
    ensures ShownUncut(j, Share(t, j.distance), moved, Interpolated(j.start, j.end, j.length, t))
  {
    StraightIffFirstSegment(j, i, y);
    SearchFindsStart(j, i, y, t);
    ShareIsBounded(t, j.distance);
    StartOnSegment(j, i, y);
    moved := SegmentStopsShort(j, i, y, Share(t, j.distance));
  }

  lemma SegmentStopsShort(j: Journey, i: nat, y: real, d: real) returns (moved: real)
    requires Follows(j, i, y) && j.length > 0.0 && i > 0 && 0.0 <= d <= j.distance && StoppedByCutoff(j, d)
    ensures ShownUncut(j, d, moved,
                       Rebuilt(Walk(j.start.head, WalkTail(j, i, y == Segment(j, i)), j.end, i, d, j.length)))
  {
    WalkStart(j, i, y, d);
    CutShortIsStoppedByCutoff(j, i, y, d);
    moved := WalkStopsShort(j, d, 0.0, j.start.head, WalkTail(j, i, y == Segment(j, i)), i, y);
    assert d - 0.0 == d;
  }

  // ----- Snapshots of one run -----

  /** Further back than the whole run, the path is the initial snake. */
  lemma {:induction false} PathBeyondRun(start: Snake, inputs: seq<Inputs>, s: real)
    requires s >= 0.0
    ensures PathBehind(start, inputs, Travelled(inputs) + s) == At(start.head, start.points, s)
  {
    if inputs != [] {
      var n := |inputs| - 1;
      PathBeyondRun(start, inputs[..n], s);
      if inputs[n].Move? && Travelled(inputs[..n]) + s == 0.0 {
        PathBehindStartsAtHead(start, inputs[..n]);
      }
    }
  }

  /** `snake` is what the simulation would show `behind` units of travel before the end of the run. */
  ghost predicate IsSnakeOfRun(snake: Snake, start: Snake, inputs: seq<Inputs>, length: real, behind: real) {
    && Chain(snake.head, snake.points)
    && Length(snake.head, snake.points) == length
    && forall s :: 0.0 <= s <= length ==> At(snake.head, snake.points, s) == PathBehind(start, inputs, behind + s)
  }

  /** The interpolation shows the snake of the run after the share `t` of the way. */
  ghost predicate ShowsRun(outcome: Outcome, start: Snake, inputs: seq<Inputs>, length: real, t: real) {
    && outcome.Rebuilt?
    && IsSnakeOfRun(outcome.snake, start, inputs, length, Travelled(inputs) - Share(t, Travelled(inputs)))
  }

  /** The run does not take the head through its initial place again. */
  ghost predicate NeverReturns(start: Snake, inputs: seq<Inputs>) {
    forall u :: 0.0 <= u < Travelled(inputs) ==> PathBehind(start, inputs, u) != start.head
  }

  lemma TrackIsPath(j: Journey, inputs: seq<Inputs>, u: real)
    requires u >= 0.0 && j.distance == Travelled(inputs)
    requires u <= j.distance ==> At(j.end.head, j.end.points, u) == PathBehind(j.start, inputs, u)
    ensures Track(j, u) == PathBehind(j.start, inputs, u)
  {
    if u > j.distance {
      var beyond := u - j.distance;
      PathBeyondRun(j.start, inputs, beyond);
      assert j.distance + beyond == u;
    }
  }

  /** The law of the interpolation: between two snapshots of any run without reversal, no longer than the tail and not
      through the older head again, the result at ratio `t` is exactly the snake of that run after `t` of the way --
      head, length and every point of the tail -- if and only if the cut-off does not stop it. */
  lemma InterpolationIsExact(start: Snake, inputs: seq<Inputs>, length: real, t: real)
    requires length > 0.0 && IsSnake(start.head, start.points, length)
    requires NoReversal(start.points[0].dir, inputs) && Travelled(inputs) <= length && NeverReturns(start, inputs)
    requires 0.0 <= t <= 1.0
    ensures Run(start, inputs, length).Some?
    ensures var distance := Travelled(inputs);
            var end := Run(start, inputs, length).value;
            && end.points != []
            && (ShowsRun(Interpolated(start, end, length, t), start, inputs, length, t)
                <==> !StoppedByCutoff(Journey(start, end, distance, length), Share(t, distance)))
  {
    var i, y := RunIsJourney(start, inputs, length);
    var distance, end := Travelled(inputs), Run(start, inputs, length).value;
    JourneyIsExact(Journey(start, end, distance, length), i, y, t);
    ExactlyShownIffShowsRun(start, inputs, length, t, Interpolated(start, end, length, t));
  }

  lemma ExactlyShownIffShowsRun(start: Snake, inputs: seq<Inputs>, length: real, t: real, outcome: Outcome)
    requires length > 0.0 && IsSnake(start.head, start.points, length)
    requires NoReversal(start.points[0].dir, inputs) && Travelled(inputs) <= length && 0.0 <= t <= 1.0
    ensures Run(start, inputs, length).Some?
    ensures var j := Journey(start, Run(start, inputs, length).value, Travelled(inputs), length);
            ExactlyShown(j, Share(t, Travelled(inputs)), outcome) <==> ShowsRun(outcome, start, inputs, length, t)
  {
    ShareIsBounded(t, Travelled(inputs));
    var snake := if outcome.Rebuilt? then outcome.snake else start;
    ExactIsSnakeOfRun(start, inputs, length, Share(t, Travelled(inputs)), snake);
  }

  lemma RunIsJourney(start: Snake, inputs: seq<Inputs>, length: real) returns (i: nat, y: real)
    requires length > 0.0 && IsSnake(start.head, start.points, length)
    requires NoReversal(start.points[0].dir, inputs) && Travelled(inputs) <= length && NeverReturns(start, inputs)
    ensures Run(start, inputs, length).Some?
    ensures var j := Journey(start, Run(start, inputs, length).value, Travelled(inputs), length);
            Follows(j, i, y) && NoReturn(j)
  {
    i, y := RunFollows(start, inputs, length);
    TailTracesHead(start, inputs, length);
  }

  lemma ExactIsSnakeOfRun(start: Snake, inputs: seq<Inputs>, length: real, d: real, snake: Snake)
    requires length > 0.0 && IsSnake(start.head, start.points, length)
    requires NoReversal(start.points[0].dir, inputs) && Travelled(inputs) <= length
    requires 0.0 <= d <= Travelled(inputs)
    ensures Run(start, inputs, length).Some?
    ensures Exact(Journey(start, Run(start, inputs, length).value, Travelled(inputs), length), d, snake)
       <==> IsSnakeOfRun(snake, start, inputs, length, Travelled(inputs) - d)
  {
    TailTracesHead(start, inputs, length);
    var j := Journey(start, Run(start, inputs, length).value, Travelled(inputs), length);
    forall u | u >= 0.0 ensures Track(j, u) == PathBehind(start, inputs, u) {
      TrackIsPath(j, inputs, u);
    }
    SamePath(j, start, inputs, d, snake);
  }

  lemma SamePath(j: Journey, start: Snake, inputs: seq<Inputs>, d: real, snake: Snake)
    requires forall u :: u >= 0.0 ==> Track(j, u) == PathBehind(start, inputs, u)
    requires d <= j.distance
    ensures Exact(j, d, snake) <==> IsSnakeOfRun(snake, start, inputs, j.length, j.distance - d)
  {
  }

  /** End to end: when the confirmed histories hold two snapshots of such a run as neighbours around the interpolation
      tick, what the system shows is the snake of that run `d` units after the older one, the same share of the way as
      the tick and its overstep are of the time between the snapshots; if and only if the cut-off does not stop it. */
  lemma ShownIsExact(before: Snake, tails: History<seq<Inflection>>, heads: History<Vec2>, tick: nat, overstep: real,
                     start: Snake, inputs: seq<Inputs>, length: real, n: nat, d: real)
    requires Sorted(tails) && (forall e :: e in tails && e.state.Present? ==> e.state.value != [])
    requires 0.0 <= overstep <= 1.0
    requires length > 0.0 && IsSnake(start.head, start.points, length)
    requires NoReversal(start.points[0].dir, inputs) && Travelled(inputs) <= length && NeverReturns(start, inputs)
    requires Run(start, inputs, length).Some?
    requires 0 < n < |tails| && tails[n - 1].tick <= tick < tails[n].tick
    requires var end := Run(start, inputs, length).value;
             && tails[n - 1].state == Present(start.points) && tails[n].state == Present(end.points)
             && GetPresent(heads, tails[n - 1].tick) == Some(start.head)
             && GetPresent(heads, tails[n].tick) == Some(end.head)
    requires Proportional(d, Travelled(inputs), (tick - tails[n - 1].tick) as real + overstep,
                          (tails[n].tick - tails[n - 1].tick) as real)
    ensures var shown := Shown(before, tails, heads, tick, overstep, length);
            var end := Run(start, inputs, length).value;
            && 0.0 <= d <= Travelled(inputs) && end.points != []
            && (shown.Rebuilt? && IsSnakeOfRun(shown.snake, start, inputs, length, Travelled(inputs) - d)
                <==> !StoppedByCutoff(Journey(start, end, Travelled(inputs), length), d))
  {
    var t := RatioShown(tails, tick, overstep, inputs, n, d);
    ShareIsBounded(t, Travelled(inputs));
    ShownAtRatio(before, tails, heads, tick, overstep, start, inputs, length, n, t);
    ShowsDistance(Shown(before, tails, heads, tick, overstep, length), start, inputs, length, t, d);
  }

  lemma RatioShown(tails: History<seq<Inflection>>, tick: nat, overstep: real, inputs: seq<Inputs>, n: nat, d: real)
    returns (t: real)
    requires 0.0 <= overstep <= 1.0 && 0 < n < |tails| && tails[n - 1].tick <= tick < tails[n].tick
    requires Proportional(d, Travelled(inputs), (tick - tails[n - 1].tick) as real + overstep,
                          (tails[n].tick - tails[n - 1].tick) as real)
    ensures t == InterpolationFraction(tails[n - 1].tick, tails[n].tick, tick, overstep)
    ensures 0.0 <= t <= 1.0 && Share(t, Travelled(inputs)) == d
  {
    t := InterpolationFraction(tails[n - 1].tick, tails[n].tick, tick, overstep);
    FractionIsShare(tails[n - 1].tick, tails[n].tick, tick, overstep);
    ShareOfTicks(tails[n - 1].tick, tails[n].tick, tick, overstep, Travelled(inputs), d);
  }

  lemma ShowsDistance(outcome: Outcome, start: Snake, inputs: seq<Inputs>, length: real, t: real, d: real)
    requires Share(t, Travelled(inputs)) == d
    ensures ShowsRun(outcome, start, inputs, length, t) <==>
            outcome.Rebuilt? && IsSnakeOfRun(outcome.snake, start, inputs, length, Travelled(inputs) - d)
  {
  }

  lemma ShownAtRatio(before: Snake, tails: History<seq<Inflection>>, heads: History<Vec2>, tick: nat, overstep: real,
                     start: Snake, inputs: seq<Inputs>, length: real, n: nat, t: real)
    requires Sorted(tails) && (forall e :: e in tails && e.state.Present? ==> e.state.value != [])
    requires 0.0 <= overstep <= 1.0
    requires length > 0.0 && IsSnake(start.head, start.points, length)
    requires NoReversal(start.points[0].dir, inputs) && Travelled(inputs) <= length && NeverReturns(start, inputs)
    requires Run(start, inputs, length).Some?
    requires 0 < n < |tails| && tails[n - 1].tick <= tick < tails[n].tick
    requires var end := Run(start, inputs, length).value;
             && tails[n - 1].state == Present(start.points) && tails[n].state == Present(end.points)
             && GetPresent(heads, tails[n - 1].tick) == Some(start.head)
             && GetPresent(heads, tails[n].tick) == Some(end.head)
    requires t == InterpolationFraction(tails[n - 1].tick, tails[n].tick, tick, overstep)
    ensures var end := Run(start, inputs, length).value;
            && 0.0 <= t <= 1.0 && end.points != []
            && (ShowsRun(Shown(before, tails, heads, tick, overstep, length), start, inputs, length, t)
                <==> !StoppedByCutoff(Journey(start, end, Travelled(inputs), length), Share(t, Travelled(inputs))))
  {
    RunIsLong(start, inputs, length);
    ShownPair(before, tails, heads, tick, overstep, length, n, start, Run(start, inputs, length).value);
    InterpolationIsExact(start, inputs, length, t);
  }

  lemma RunIsLong(start: Snake, inputs: seq<Inputs>, length: real)
    requires length > 0.0 && IsSnake(start.head, start.points, length) && NoReversal(start.points[0].dir, inputs)
    ensures Run(start, inputs, length).Some? && Run(start, inputs, length).value.points != []
  {
    TailTracesHead(start, inputs, length);
  }

  // ----- A failing input -----

  function ExampleInputs(): seq<Inputs> {
    [Move(Up), Move(Right)]
  }

  lemma ExampleStep(head: Vec2, pts: seq<Inflection>, d: Direction, length: real)
    requires |pts| == 1 && Chain(head, pts) && length > 10.0
    requires SegmentLength(head, pts[0].pos) == length && !IsOpposite(pts[0].dir, d)
    ensures var r := Step(Snake(head, pts), Move(d), length);
            && r.Some? && r.value.head == MoveHead(head, Move(d))
            && (pts[0].dir == d ==> r.value.points == [Inflection(GetTail(d, r.value.head, length), d)])
            && (pts[0].dir != d ==> |r.value.points| == 2 && r.value.points[0] == Inflection(head, d))
  {
    assert Length(pts[0].pos, pts[1..]) == 0.0;
    UncutMove(head, pts, d, length);
    var uncut := Uncut(head, pts, d);
    if pts[0].dir != d {
      assert uncut[1..] == pts;
    }
  }

  lemma ExampleInputsAreLegal()
    ensures Travelled(ExampleInputs()) == 20.0 && NoReversal(Up, ExampleInputs())
  {
    assert ExampleInputs()[..1] == [Move(Up)] && [Move(Up)][..0] == [];
    assert Travelled([Move(Up)]) == 10.0;
  }

  lemma ExampleUp()
    ensures Run(Spawned(), [Move(Up)], TAIL_LENGTH)
         == Some(Snake(Vec2(0.0, 10.0), [Inflection(Vec2(0.0, -290.0), Up)]))
  {
    assert [Move(Up)][..0] == [];
    var start := Spawned();
    ExampleStep(start.head, start.points, Up, TAIL_LENGTH);
  }

  lemma ExampleRun()
    ensures var r := Run(Spawned(), ExampleInputs(), TAIL_LENGTH);
            && r.Some? && r.value.head == Vec2(10.0, 10.0)
            && |r.value.points| == 2 && r.value.points[0] == Inflection(Vec2(0.0, 10.0), Right)
  {
    ExampleUp();
    assert ExampleInputs()[..1] == [Move(Up)];
    ExampleStep(Vec2(0.0, 10.0), [Inflection(Vec2(0.0, -290.0), Up)], Right, TAIL_LENGTH);
  }

  lemma ExamplePath(u: real)
    requires 0.0 <= u < 20.0
    ensures PathBehind(Spawned(), ExampleInputs(), u) != ORIGIN
  {
    var inputs := ExampleInputs();
    assert inputs[..1] == [Move(Up)] && [Move(Up)][..0] == [];
    assert HeadAfter(ORIGIN, [Move(Up)]) == Vec2(0.0, 10.0) && HeadAfter(ORIGIN, inputs) == Vec2(10.0, 10.0);
    if u > MOVE_SPEED {
      assert PathBehind(Spawned(), inputs, u) == PathBehind(Spawned(), [Move(Up)], u - MOVE_SPEED);
    }
  }

  /** The cut-off does spoil reachable results, and where it lies: after one move up and one to the right, the result is
      wrong for the ratio 0.00000596, 0.0001192 units on, and right for 0.000005965, 0.0001193 units on. */
  lemma CutoffExample()
    ensures var r := Run(Spawned(), ExampleInputs(), TAIL_LENGTH);
            && r.Some? && r.value.points != []
            && !ShowsRun(Interpolated(Spawned(), r.value, TAIL_LENGTH, 0.00000596), Spawned(), ExampleInputs(),
                         TAIL_LENGTH, 0.00000596)
            && ShowsRun(Interpolated(Spawned(), r.value, TAIL_LENGTH, 0.000005965), Spawned(), ExampleInputs(),
                        TAIL_LENGTH, 0.000005965)
  {
    ExampleRun();
    ExampleInputsAreLegal();
    ExampleNeverReturns();
    assert Length(Spawned().points[0].pos, Spawned().points[1..]) == 0.0;
    InterpolationIsExact(Spawned(), ExampleInputs(), TAIL_LENGTH, 0.00000596);
    InterpolationIsExact(Spawned(), ExampleInputs(), TAIL_LENGTH, 0.000005965);
  }

  lemma ExampleNeverReturns()
    ensures NeverReturns(Spawned(), ExampleInputs())
  {
    ExampleInputsAreLegal();
    forall u | 0.0 <= u < 20.0 ensures PathBehind(Spawned(), ExampleInputs(), u) != ORIGIN {
      ExamplePath(u);
    }
  }
}
