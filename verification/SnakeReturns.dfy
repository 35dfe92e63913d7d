/** Runs that come back through the older head, or leave the whole older snake behind: there the interpolation fails. */
module SnakeReturns {
  import opened Options
  import opened Vectors
  import opened SnakeGeometry
  import opened SnakeChain
  import opened SnakeTail
  import opened SnakeRun
  import opened SnakeInterpolation
  import opened SnakeJourney
  import opened SnakeExactness

  // ----- Turns are moves apart -----

  /** How far the head had travelled when it passed the beginning of segment `c`. */
  function PassedAt(h: Vec2, pts: seq<Inflection>, distance: real, c: nat): real
    requires c <= |pts|
  {
    distance - Length(h, pts[..c])
  }

  /** All corners passed during the run were passed after whole moves. */
  ghost predicate TurnsAfterMoves(h: Vec2, pts: seq<Inflection>, distance: real) {
    forall c :: 0 <= c < |pts| ==> NotWithinFirstMove(PassedAt(h, pts, distance, c))
  }

  predicate NotWithinFirstMove(travelled: real) {
    travelled <= 0.0 || travelled >= MOVE_SPEED
  }

  lemma {:induction false} ShortenRestIsPrefix(prev: Vec2, pts: seq<Inflection>, rest: real, c: nat)
    requires c < |ShortenRest(prev, pts, rest)|
    ensures c < |pts| && ShortenRest(prev, pts, rest)[..c] == pts[..c]
    decreases |pts|
  {
    if c > 0 {
      var rest' := rest - SegmentLength(prev, pts[0].pos);
      ShortenRestIsPrefix(pts[0].pos, pts[1..], rest', c - 1);
      assert pts[..c] == [pts[0]] + pts[1..][..c - 1];
    }
  }

  /** A cut changes no point but the last. */
  lemma ShortenIsPrefix(head: Vec2, pts: seq<Inflection>, length: real, c: nat)
    requires pts != [] && c < |Shorten(head, pts, length)|
    ensures c < |pts| && Shorten(head, pts, length)[..c] == pts[..c]
  {
    if c > 0 {
      var rest := length - SegmentLength(head, pts[0].pos);
      var cut := ShortenRest(pts[0].pos, pts[1..], rest);
      assert Shorten(head, pts, length) == [pts[0]] + cut;
      ShortenRestIsPrefix(pts[0].pos, pts[1..], rest, c - 1);
      PrefixCons(pts[0], cut, pts[1..], c);
    }
  }

  lemma PrefixCons<T>(x: T, a: seq<T>, b: seq<T>, c: nat)
    requires 0 < c <= |a| && c <= |b| && a[..c - 1] == b[..c - 1]
    ensures ([x] + a)[..c] == ([x] + b)[..c]
  {
    assert ([x] + a)[..c] == [x] + a[..c - 1];
    assert ([x] + b)[..c] == [x] + b[..c - 1];
  }

  lemma UncutPassedAt(h: Vec2, pts: seq<Inflection>, d: Direction, distance: real, c: nat)
    requires pts != [] && Chain(h, pts) && 0 < c <= |Uncut(h, pts, d)|
    ensures var c' := if pts[0].dir == d then c else c - 1;
            PassedAt(MoveHead(h, Move(d)), Uncut(h, pts, d), distance + MOVE_SPEED, c) == PassedAt(h, pts, distance, c')
  {
    if pts[0].dir == d {
      PrefixGrows(h, pts, c);
    } else {
      assert Uncut(h, pts, d)[..c] == [Inflection(h, d)] + pts[..c - 1];
      assert Uncut(h, pts, d)[..c][1..] == pts[..c - 1];
    }
  }

  lemma MoveTurnsAfterMoves(h: Vec2, pts: seq<Inflection>, d: Direction, length: real, distance: real)
    requires pts != [] && Chain(h, pts) && distance >= 0.0 && TurnsAfterMoves(h, pts, distance)
    ensures TurnsAfterMoves(MoveHead(h, Move(d)), Shorten(MoveHead(h, Move(d)), Uncut(h, pts, d), length),
                            distance + MOVE_SPEED)
  {
    var h2, uncut, further := MoveHead(h, Move(d)), Uncut(h, pts, d), distance + MOVE_SPEED;
    var cut := Shorten(h2, uncut, length);
    forall c | 0 <= c < |cut| ensures NotWithinFirstMove(PassedAt(h2, cut, further, c)) {
      ShortenIsPrefix(h2, uncut, length, c);
      if c == 0 {
        assert cut[..0] == [];
      } else {
        UncutPassedAt(h, pts, d, distance, c);
      }
    }
  }

  lemma RunIsSnake(start: Snake, inputs: seq<Inputs>, length: real)
    requires length > 0.0 && IsSnake(start.head, start.points, length) && NoReversal(start.points[0].dir, inputs)
    ensures var r := Run(start, inputs, length);
            && r.Some? && r.value.head == HeadAfter(start.head, inputs)
            && IsSnake(r.value.head, r.value.points, length)
            && r.value.points[0].dir == LastDirection(start.points[0].dir, inputs)
  {
    TailTracesHead(start, inputs, length);
  }

  lemma MoveIsCut(h: Vec2, pts: seq<Inflection>, d: Direction, length: real)
    requires length > 0.0 && IsSnake(h, pts, length) && !IsOpposite(pts[0].dir, d)
    ensures TailUpdate(MoveHead(h, Move(d)), pts, length)
         == Updated(Shorten(MoveHead(h, Move(d)), Uncut(h, pts, d), length))
  {
    UncutMove(h, pts, d, length);
  }

  lemma StepTurnsAfterMoves(snake: Snake, d: Direction, length: real, distance: real)
    requires length > 0.0 && IsSnake(snake.head, snake.points, length) && !IsOpposite(snake.points[0].dir, d)
    requires distance >= 0.0 && TurnsAfterMoves(snake.head, snake.points, distance)
    ensures var r := Step(snake, Move(d), length);
            r.Some? && TurnsAfterMoves(r.value.head, r.value.points, distance + MOVE_SPEED)
  {
    MoveIsCut(snake.head, snake.points, d, length);
    MoveTurnsAfterMoves(snake.head, snake.points, d, length, distance);
  }

  lemma LastMove(start: Snake, inputs: seq<Inputs>, length: real)
    requires length > 0.0 && IsSnake(start.head, start.points, length) && NoReversal(start.points[0].dir, inputs)
    requires inputs != [] && inputs[|inputs| - 1].Move?
    ensures var before, last := Run(start, inputs[..|inputs| - 1], length), inputs[|inputs| - 1];
            && before.Some? && IsSnake(before.value.head, before.value.points, length)
            && !IsOpposite(before.value.points[0].dir, last.direction)
            && Run(start, inputs, length) == Step(before.value, last, length)
  {
    RunIsSnake(start, inputs[..|inputs| - 1], length);
  }

  lemma {:induction false} RunTurnsAfterMoves(start: Snake, inputs: seq<Inputs>, length: real)
    requires length > 0.0 && IsSnake(start.head, start.points, length) && NoReversal(start.points[0].dir, inputs)
    ensures Run(start, inputs, length).Some?
    ensures var end := Run(start, inputs, length).value; TurnsAfterMoves(end.head, end.points, Travelled(inputs))
  {
    if inputs != [] {
      var n := |inputs| - 1;
      RunTurnsAfterMoves(start, inputs[..n], length);
      if inputs[n].Move? {
        LastMove(start, inputs, length);
        StepTurnsAfterMoves(Run(start, inputs[..n], length).value, inputs[n].direction, length, Travelled(inputs[..n]));
      }
    }
  }

  /** So the cut-off stops nothing during the first move, once that has begun. */
  lemma FirstMoveIsNotStopped(j: Journey, d: real)
    requires j.end.points != [] && TurnsAfterMoves(j.end.head, j.end.points, j.distance) && CUTOFF <= d <= MOVE_SPEED
    ensures !StoppedByCutoff(j, d)
  {
    forall c | 2 <= c < |j.end.points| ensures !JustPassed(j, d, c) {
      assert PassedAt(j.end.head, j.end.points, j.distance, c) == j.distance - CornerDistance(j, c);
    }
  }

  // ----- The first move -----

  /** The first direction taken, `none` if there is no move. */
  function FirstMove(none: Direction, inputs: seq<Inputs>): Direction {
    if inputs == [] then none
    else
      var n := |inputs| - 1;
      if Travelled(inputs[..n]) == 0.0 && inputs[n].Move? then inputs[n].direction else FirstMove(none, inputs[..n])
  }

  lemma {:induction false} BeforeFirstMove(h: Vec2, first: Direction, inputs: seq<Inputs>)
    ensures Travelled(inputs) == 0.0 || Travelled(inputs) >= MOVE_SPEED
    ensures Travelled(inputs) == 0.0 ==> HeadAfter(h, inputs) == h && LastDirection(first, inputs) == first
  {
    if inputs != [] {
      BeforeFirstMove(h, first, inputs[..|inputs| - 1]);
    }
  }

  lemma {:induction false} FirstMoveIsNoReversal(first: Direction, inputs: seq<Inputs>)
    requires NoReversal(first, inputs)
    ensures !IsOpposite(first, FirstMove(first, inputs))
  {
    if inputs != [] {
      var before := inputs[..|inputs| - 1];
      FirstMoveIsNoReversal(first, before);
      BeforeFirstMove(Vec2(0.0, 0.0), first, before);
    }
  }

  /** The path begins straight from the older head. */
  lemma {:induction false} PathBeginsWithFirstMove(start: Snake, inputs: seq<Inputs>, none: Direction, x: real)
    requires Travelled(inputs) > 0.0 && 0.0 <= x <= MOVE_SPEED
    ensures PathBehind(start, inputs, Travelled(inputs) - x) == GetTail(FirstMove(none, inputs), start.head, -x)
  {
    var n := |inputs| - 1;
    var before := inputs[..n];
    BeforeFirstMove(start.head, none, before);
    if Travelled(before) > 0.0 {
      PathBeginsWithFirstMove(start, before, none, x);
      PathBehindStartsAtHead(start, before);
    }
  }

  // ----- The head lags behind -----

  lemma ShareIsMonotone(t: real, u: real, v: real)
    requires t > 0.0 && 0.0 <= u < v
    ensures 0.0 <= Share(t, u) < Share(t, v)
  {
    ProductNonNegative(t, u);
    assert t * (v - u) > 0.0;
    assert t * v == t * u + t * (v - u);
  }

  lemma SegmentTriangle(a: Vec2, b: Vec2, c: Vec2)
    ensures SegmentLength(a, c) <= SegmentLength(a, b) + SegmentLength(b, c)
  {
  }

  /** Every segment of the newer tail leads back from its corner along its label. */
  ghost predicate Proper(j: Journey) {
    forall i :: 0 <= i < |j.end.points| ==> ProperSegment(j, i)
  }

  ghost predicate ProperSegment(j: Journey, i: nat)
    requires i < |j.end.points|
  {
    Segment(j, i) > 0.0 && j.end.points[i].pos == GetTail(j.end.points[i].dir, Corner(j, i), Segment(j, i))
  }

  lemma SnakeIsProper(j: Journey)
    requires IsSnake(j.end.head, j.end.points, j.length)
    ensures Proper(j)
  {
    forall i | 0 <= i < |j.end.points| ensures ProperSegment(j, i) {
      SegmentIsProper(j, i);
    }
  }

  /** A walk in the right direction takes the head no further than it is told to. */
  lemma {:induction false} WalkStaysNear(j: Journey, h: Vec2, tail: seq<Inflection>, i: nat, y: real, todo: real)
    requires Proper(j) && i < |j.end.points| && tail != []
    requires y >= 0.0 && h == GetTail(j.end.points[i].dir, Corner(j, i), y) && (i == 0 ==> y == Segment(j, 0))
    requires tail[0].dir == j.end.points[i].dir && todo >= 0.0
    ensures SegmentLength(h, Walk(h, tail, j.end, i, todo, j.length).head) <= todo
    decreases i
  {
    if i > 0 && CUTOFF <= todo && y < todo {
      var corner := j.end.points[i - 1];
      assert ProperSegment(j, i - 1);
      WalkStaysNear(j, corner.pos, [corner] + tail, i - 1, Segment(j, i - 1), todo - y);
      PassingStaysNear(j, h, tail, i, y, todo);
    } else {
      LastSteps(j, h, tail, i, y, todo);
    }
  }

  lemma PassingStaysNear(j: Journey, h: Vec2, tail: seq<Inflection>, i: nat, y: real, todo: real)
    requires 0 < i < |j.end.points| && tail != [] && h == GetTail(j.end.points[i].dir, Corner(j, i), y)
    requires 0.0 <= y < todo && CUTOFF <= todo
    requires var corner := j.end.points[i - 1];
             SegmentLength(corner.pos, Walk(corner.pos, [corner] + tail, j.end, i - 1, todo - y, j.length).head)
             <= todo - y
    ensures SegmentLength(h, Walk(h, tail, j.end, i, todo, j.length).head) <= todo
  {
    WalkPasses(h, tail, j, i, todo, y, todo - y);
    SegmentTriangle(h, j.end.points[i - 1].pos, Walk(h, tail, j.end, i, todo, j.length).head);
  }

  lemma LastSteps(j: Journey, h: Vec2, tail: seq<Inflection>, i: nat, y: real, todo: real)
    requires Proper(j) && i < |j.end.points| && tail != []
    requires y >= 0.0 && h == GetTail(j.end.points[i].dir, Corner(j, i), y) && (i == 0 ==> y == Segment(j, 0))
    requires tail[0].dir == j.end.points[i].dir && todo >= 0.0 && (i == 0 || todo < CUTOFF || todo <= y)
    ensures SegmentLength(h, Walk(h, tail, j.end, i, todo, j.length).head) <= todo
  {
    if i > 0 {
      assert SegmentLength(h, j.end.points[i - 1].pos) == y;
    }
  }

  /** The place reached by going along `m` for `x` is not reached by less. */
  lemma NearIsElsewhere(p: Vec2, h: Vec2, m: Direction, x: real)
    requires x > 0.0 && SegmentLength(p, h) < x
    ensures h != GetTail(m, p, -x)
  {
  }

  /** Nor by going back from the corner ahead along another direction than that of the segment. */
  lemma AsideIsElsewhere(p: Vec2, corner: Vec2, d: Direction, y: real, aside: Direction, todo: real, m: Direction,
                         x: real)
    requires p == GetTail(d, corner, y) && 0.0 < todo <= y && todo < x
    requires aside != d && !IsOpposite(aside, m)
    ensures GetTail(aside, corner, y - todo) != GetTail(m, p, -x)
  {
  }

  /** The walk begins on a segment whose direction the older tail does not have. */
  lemma AsideWalk(j: Journey, i: nat, y: real, todo: real, m: Direction, x: real)
    requires Proper(j) && 0 < i < |j.end.points| && j.start.points != []
    requires y >= 0.0 && j.start.head == GetTail(j.end.points[i].dir, Corner(j, i), y)
    requires j.start.points[0].dir != j.end.points[i].dir && !IsOpposite(j.start.points[0].dir, m)
    requires 0.0 <= todo < x
    ensures Walk(j.start.head, j.start.points, j.end, i, todo, j.length).head != GetTail(m, j.start.head, -x)
  {
    var corner := j.end.points[i - 1];
    var h := Walk(j.start.head, j.start.points, j.end, i, todo, j.length).head;
    assert SegmentLength(j.start.head, corner.pos) == y;
    if todo < CUTOFF {
      NearIsElsewhere(j.start.head, h, m, x);
    } else if y < todo {
      assert ProperSegment(j, i - 1);
      WalkStaysNear(j, corner.pos, [corner] + j.start.points, i - 1, Segment(j, i - 1), todo - y);
      SegmentTriangle(j.start.head, corner.pos, h);
      NearIsElsewhere(j.start.head, h, m, x);
    } else {
      AsideIsElsewhere(j.start.head, corner.pos, j.end.points[i].dir, y, j.start.points[0].dir, todo, m, x);
    }
  }

  lemma StraightLagsBehind(j: Journey, u: real, t: real, m: Direction, x: real)
    requires IsSnake(j.end.head, j.end.points, j.length) && j.start.points != [] && IsOn(j, 0, u)
    requires 0.0 <= Share(t, u) < x
    ensures FromSegment(j, 0, u, t).head != GetTail(m, j.start.head, -x)
  {
    AllSegments(j);
    LerpOnSegment(j.end.points[0].dir, j.start.head, j.end.head, u, t);
    NearIsElsewhere(j.start.head, FromSegment(j, 0, u, t).head, m, x);
  }

  lemma WalkLagsBehind(j: Journey, i: nat, y: real, onPoint: bool, todo: real, m: Direction, x: real)
    requires Proper(j) && 0 < i < |j.end.points| && j.start.points != []
    requires y >= 0.0 && j.start.head == GetTail(j.end.points[i].dir, Corner(j, i), y)
    requires !IsOpposite(j.start.points[0].dir, m) && 0.0 <= todo < x
    ensures Walk(j.start.head, WalkTail(j, i, onPoint), j.end, i, todo, j.length).head != GetTail(m, j.start.head, -x)
  {
    var tail := WalkTail(j, i, onPoint);
    if tail[0].dir == j.end.points[i].dir {
      WalkStaysNear(j, j.start.head, tail, i, y, todo);
      NearIsElsewhere(j.start.head, Walk(j.start.head, tail, j.end, i, todo, j.length).head, m, x);
    } else {
      AsideWalk(j, i, y, todo, m, x);
    }
  }

  /** Found nearer than it really is, the older head is not moved far enough along the first move. */
  lemma HeadLagsBehind(j: Journey, i: nat, u: real, t: real, m: Direction)
    requires IsSnake(j.end.head, j.end.points, j.length) && j.start.points != [] && IsOn(j, i, u)
    requires u < j.distance && t > 0.0 && !IsOpposite(j.start.points[0].dir, m)
    ensures FromSegment(j, i, u, t).head != GetTail(m, j.start.head, -Share(t, j.distance))
  {
    var x, todo := Share(t, j.distance), Share(t, u);
    ShareIsMonotone(t, u, j.distance);
    if i == 0 {
      StraightLagsBehind(j, u, t, m, x);
    } else {
      var y := u - CornerDistance(j, i);
      SnakeIsProper(j);
      WalkLagsBehind(j, i, y, y == Segment(j, i), todo, m, x);
    }
  }

  /** With the older head nowhere on the newer tail, the head is put as far behind the newer one as the first point of
      its tail, but straight behind along the direction of the older tail, which is then cut from there; whatever the
      ratio. */
  lemma LostHeadIsPut(j: Journey, t: real)
    requires IsSnake(j.end.head, j.end.points, j.length) && j.start.points != [] && IsNowhere(j)
    ensures var h := GetTail(j.start.points[0].dir, j.end.head, SegmentLength(j.end.head, j.end.points[0].pos));
            Interpolated(j.start, j.end, j.length, t) == Rebuilt(Snake(h, Shorten(h, j.start.points, j.length)))
  {
    var found, i, u := SearchFindsNearest(j);
  }

  // ----- The condition is exact -----

  function JourneyOf(start: Snake, inputs: seq<Inputs>, length: real): Journey
    requires Run(start, inputs, length).Some?
  {
    Journey(start, Run(start, inputs, length).value, Travelled(inputs), length)
  }

  /** Whenever the cut-off does not stop it, the interpolation shows the snake of the run. */
  ghost predicate AlwaysExact(start: Snake, inputs: seq<Inputs>, length: real)
    requires start.points != [] && Run(start, inputs, length).Some? && Run(start, inputs, length).value.points != []
  {
    forall t :: 0.0 <= t <= 1.0 && !StoppedByCutoff(JourneyOf(start, inputs, length), Share(t, Travelled(inputs))) ==>
      ShowsRun(Interpolated(start, Run(start, inputs, length).value, length, t), start, inputs, length, t)
  }

  /** What is shown of the run during its first move has its head on that move. */
  lemma ShownHead(snake: Snake, start: Snake, inputs: seq<Inputs>, length: real, t: real, none: Direction)
    requires length > 0.0 && Travelled(inputs) > 0.0 && 0.0 <= Share(t, Travelled(inputs)) <= MOVE_SPEED
    requires ShowsRun(Rebuilt(snake), start, inputs, length, t)
    ensures snake.head == GetTail(FirstMove(none, inputs), start.head, -Share(t, Travelled(inputs)))
  {
    var x := Share(t, Travelled(inputs));
    PathBeginsWithFirstMove(start, inputs, none, x);
    AtHead(snake.head, snake.points);
    assert At(snake.head, snake.points, 0.0) == PathBehind(start, inputs, Travelled(inputs) - x + 0.0);
    assert Travelled(inputs) - x + 0.0 == Travelled(inputs) - x;
  }

  /** The ratio at which the head has travelled `x`. */
  lemma RatioAt(x: real, distance: real) returns (t: real)
    requires 0.0 < x <= distance
    ensures 0.0 < t <= 1.0 && Share(t, distance) == x
  {
    t := x / distance;
  }

  /** The search finds the older head nearer than it is: wrong all along the first move. */
  lemma NearerIsInexact(j: Journey, inputs: seq<Inputs>, i: nat, u: real, t: real)
    requires j.length > 0.0 && j.distance == Travelled(inputs) && IsSnake(j.end.head, j.end.points, j.length)
    requires j.start.points != [] && NoReversal(j.start.points[0].dir, inputs)
    requires IsOn(j, i, u) && u < j.distance && 0.0 < t && Share(t, j.distance) <= MOVE_SPEED
    ensures !ShowsRun(Rebuilt(FromSegment(j, i, u, t)), j.start, inputs, j.length, t)
  {
    var first := j.start.points[0].dir;
    FirstMoveIsNoReversal(first, inputs);
    HeadLagsBehind(j, i, u, t, FirstMove(first, inputs));
    ShareIsMonotone(t, u, j.distance);
    WrongHeadIsInexact(FromSegment(j, i, u, t), j.start, inputs, j.length, t, first);
  }

  lemma WrongHeadIsInexact(snake: Snake, start: Snake, inputs: seq<Inputs>, length: real, t: real, none: Direction)
    requires length > 0.0 && Travelled(inputs) > 0.0 && 0.0 <= Share(t, Travelled(inputs)) <= MOVE_SPEED
    requires snake.head != GetTail(FirstMove(none, inputs), start.head, -Share(t, Travelled(inputs)))
    ensures !ShowsRun(Rebuilt(snake), start, inputs, length, t)
  {
    if ShowsRun(Rebuilt(snake), start, inputs, length, t) {
      ShownHead(snake, start, inputs, length, t, none);
    }
  }

  /** A head that does not depend on the ratio cannot be right twice. */
  lemma ConstantIsInexact(snake: Snake, start: Snake, inputs: seq<Inputs>, length: real, t: real, t': real)
    requires length > 0.0 && Travelled(inputs) > 0.0
    requires Share(t, Travelled(inputs)) == 5.0 && Share(t', Travelled(inputs)) == 6.0
    ensures !ShowsRun(Rebuilt(snake), start, inputs, length, t) || !ShowsRun(Rebuilt(snake), start, inputs, length, t')
  {
    if ShowsRun(Rebuilt(snake), start, inputs, length, t) && ShowsRun(Rebuilt(snake), start, inputs, length, t') {
      ShownHead(snake, start, inputs, length, t, Up);
      ShownHead(snake, start, inputs, length, t', Up);
    }
  }

  /** Neither a run longer than the tail nor one through the older head again is always shown exactly. */
  lemma LostHeadIsInexact(start: Snake, inputs: seq<Inputs>, length: real)
    requires length > 0.0 && IsSnake(start.head, start.points, length) && NoReversal(start.points[0].dir, inputs)
    requires Travelled(inputs) > length || !NeverReturns(start, inputs)
    ensures Run(start, inputs, length).Some? && Run(start, inputs, length).value.points != []
    ensures !AlwaysExact(start, inputs, length)
  {
    RunIsSnake(start, inputs, length);
    RunTurnsAfterMoves(start, inputs, length);
    BeforeFirstMove(start.head, Up, inputs);
    var j := JourneyOf(start, inputs, length);
    var t := RatioAt(5.0, j.distance);
    var t' := RatioAt(6.0, j.distance);
    FirstMoveIsNotStopped(j, 5.0);
    FirstMoveIsNotStopped(j, 6.0);
    var found, i, u := SearchFindsNearest(j);
    if found {
      FoundTooNear(start, inputs, length, i, u);
      NearerIsInexact(j, inputs, i, u, t);
    } else {
      ConstantIsInexact(FromNowhere(j), start, inputs, length, t, t');
    }
  }

  lemma FoundTooNear(start: Snake, inputs: seq<Inputs>, length: real, i: nat, u: real)
    requires length > 0.0 && IsSnake(start.head, start.points, length) && NoReversal(start.points[0].dir, inputs)
    requires Travelled(inputs) > length || !NeverReturns(start, inputs)
    requires Run(start, inputs, length).Some? && IsOn(JourneyOf(start, inputs, length), i, u)
    ensures u < Travelled(inputs)
  {
    if Travelled(inputs) <= length {
      TailTracesHead(start, inputs, length);
      var v :| 0.0 <= v < Travelled(inputs) && PathBehind(start, inputs, v) == start.head;
      var end := Run(start, inputs, length).value;
      assert At(end.head, end.points, v) == start.head;
    }
  }

  /** Exactly which runs the interpolation can show: for every run without reversal, it shows the real snake at every
      ratio at which the cut-off does not stop it, if and only if the run is no longer than the tail and does not take
      the head through its initial place again. */
  lemma AlwaysExactIff(start: Snake, inputs: seq<Inputs>, length: real)
    requires length > 0.0 && IsSnake(start.head, start.points, length) && NoReversal(start.points[0].dir, inputs)
    ensures Run(start, inputs, length).Some? && Run(start, inputs, length).value.points != []
    ensures AlwaysExact(start, inputs, length) <==> Travelled(inputs) <= length && NeverReturns(start, inputs)
  {
    RunIsSnake(start, inputs, length);
    if Travelled(inputs) <= length && NeverReturns(start, inputs) {
      forall t | 0.0 <= t <= 1.0 && !StoppedByCutoff(JourneyOf(start, inputs, length), Share(t, Travelled(inputs)))
        ensures ShowsRun(Interpolated(start, Run(start, inputs, length).value, length, t), start, inputs, length, t)
      {
        InterpolationIsExact(start, inputs, length, t);
      }
    } else {
      LostHeadIsInexact(start, inputs, length);
    }
  }

  // ----- A failing input -----

  /** Once round a square. */
  function Loop(): seq<Inputs> {
    [Move(Right), Move(Up), Move(Left), Move(Down)]
  }

  lemma LoopIsLegal()
    ensures Travelled(Loop()) == 40.0 && NoReversal(Up, Loop()) && HeadAfter(ORIGIN, Loop()) == ORIGIN
  {
    var one, two, three := Loop()[..1], Loop()[..2], Loop()[..3];
    assert one[..0] == [] && two[..1] == one && three[..2] == two;
    assert Travelled(one) == 10.0 && NoReversal(Up, one) && HeadAfter(ORIGIN, one) == Vec2(10.0, 0.0);
    assert Travelled(two) == 20.0 && NoReversal(Up, two) && HeadAfter(ORIGIN, two) == Vec2(10.0, 10.0);
    assert Travelled(three) == 30.0 && NoReversal(Up, three) && HeadAfter(ORIGIN, three) == Vec2(0.0, 10.0);
  }

  /** After any run that ends where it began, the interpolated head stands still for every ratio. */
  lemma ClosedRunStandsStill(start: Snake, inputs: seq<Inputs>, length: real, t: real)
    requires length > 0.0 && IsSnake(start.head, start.points, length) && NoReversal(start.points[0].dir, inputs)
    requires HeadAfter(start.head, inputs) == start.head
    ensures Run(start, inputs, length).Some? && Run(start, inputs, length).value.points != []
    ensures var r := Interpolated(start, Run(start, inputs, length).value, length, t);
            r.Rebuilt? && r.snake.head == start.head
  {
    RunIsSnake(start, inputs, length);
    var j := JourneyOf(start, inputs, length);
    AllSegments(j);
    SegmentIsProper(j, 0);
    IsBetweenFinds(start.head, j.end.points[0].dir, j.end.head, Segment(j, 0), 0.0);
  }

  /** From the spawn state, right, up, left and down: the head is shown at the origin at every ratio, although it goes
      round a square of 40 units. */
  lemma LoopExample(t: real)
    ensures NoReversal(Up, Loop()) && Travelled(Loop()) == 40.0
    ensures var r := Run(Spawned(), Loop(), TAIL_LENGTH);
            && r.Some? && r.value.points != []
            && Interpolated(Spawned(), r.value, TAIL_LENGTH, t).Rebuilt?
            && Interpolated(Spawned(), r.value, TAIL_LENGTH, t).snake.head == ORIGIN
            && !AlwaysExact(Spawned(), Loop(), TAIL_LENGTH)
  {
    LoopIsLegal();
    assert Length(Spawned().points[0].pos, Spawned().points[1..]) == 0.0;
    ClosedRunStandsStill(Spawned(), Loop(), TAIL_LENGTH, t);
    PathBehindStartsAtHead(Spawned(), Loop());
    AlwaysExactIff(Spawned(), Loop(), TAIL_LENGTH);
  }
}
