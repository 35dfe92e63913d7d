/** Two snapshots of one run: how the newer tail holds the older head, and where the search finds it. */
module SnakeJourney {
  import opened Options
  import opened Vectors
  import opened SnakeGeometry
  import opened SnakeChain
  import opened SnakeTail
  import opened SnakeRun
  import opened SnakeInterpolation

  /** Two snapshots, the second one `distance` further on. */
  datatype Journey = Journey(start: Snake, end: Snake, distance: real, length: real)

  // ----- Corners and segments of the newer tail -----

  /** Point `i` of the newer tail, or its head for `i == 0`: the corner where segment `i` begins. */
  function Corner(j: Journey, i: nat): Vec2
    requires i <= |j.end.points|
  {
    if i == 0 then j.end.head else j.end.points[i - 1].pos
  }

  /** How far behind the newer head corner `i` is. */
  function CornerDistance(j: Journey, i: nat): real
    requires i <= |j.end.points|
  {
    Length(j.end.head, j.end.points[..i])
  }

  function Segment(j: Journey, i: nat): real
    requires i < |j.end.points|
  {
    SegmentLength(Corner(j, i), j.end.points[i].pos)
  }

  lemma CornerStep(j: Journey, i: nat)
    requires i < |j.end.points| && Chain(j.end.head, j.end.points)
    ensures CornerDistance(j, i + 1) == CornerDistance(j, i) + Segment(j, i)
    ensures j.end.points[i].pos == GetTail(j.end.points[i].dir, Corner(j, i), Segment(j, i))
  {
    var h, pts := j.end.head, j.end.points;
    var pre, post := pts[..i], pts[i..];
    assert pre + post == pts;
    ChainConcat(h, pre, post);
    assert pts[..i + 1] == pre + [pts[i]];
    ChainConcat(h, pre, [pts[i]]);
    assert Length(Corner(j, i), [pts[i]]) == Segment(j, i) + Length(pts[i].pos, [pts[i]][1..]);
  }

  lemma SegmentOnCurve(j: Journey, i: nat, s: real)
    requires i < |j.end.points| && Chain(j.end.head, j.end.points) && 0.0 <= s <= Segment(j, i)
    ensures At(j.end.head, j.end.points, CornerDistance(j, i) + s) == GetTail(j.end.points[i].dir, Corner(j, i), s)
  {
    var h, pts := j.end.head, j.end.points;
    var pre, post := pts[..i], pts[i..];
    assert pre + post == pts;
    AtConcat(h, pre, post, s);
  }

  lemma {:induction false} SpacedSegment(h: Vec2, pts: seq<Inflection>, i: nat)
    requires Spaced(h, pts) && i < |pts|
    ensures SegmentLength(if i == 0 then h else pts[i - 1].pos, pts[i].pos) > 0.0
    decreases i
  {
    if i > 0 {
      SpacedSegment(pts[0].pos, pts[1..], i - 1);
    }
  }

  lemma {:induction false} CornersAreOrdered(j: Journey, i: nat, k: nat)
    requires i <= k <= |j.end.points| && IsSnake(j.end.head, j.end.points, j.length)
    ensures CornerDistance(j, i) <= CornerDistance(j, k)
    ensures i < k ==> CornerDistance(j, i) < CornerDistance(j, k)
    decreases k
  {
    if i < k {
      CornersAreOrdered(j, i, k - 1);
      CornerStep(j, k - 1);
      SpacedSegment(j.end.head, j.end.points, k - 1);
    }
  }

  lemma AllSegments(j: Journey)
    requires IsSnake(j.end.head, j.end.points, j.length)
    ensures CornerDistance(j, 0) == 0.0 && CornerDistance(j, |j.end.points|) == j.length
  {
    assert j.end.points[..0] == [] && j.end.points[..|j.end.points|] == j.end.points;
  }

  // ----- Following a run -----

  /** On the chain from `h`, the head of `start` lies `distance` back, `y` behind the beginning of segment `i`: at the
      far end of the segment, or short of it on a segment that does not reach beyond the first one of `start`. */
  ghost predicate Holds(h: Vec2, pts: seq<Inflection>, start: Snake, distance: real, i: nat, y: real) {
    && i < |pts| && start.points != [] && (i > 0 ==> y > 0.0)
    && var corner := End(h, pts[..i]);
    && var segment := SegmentLength(corner, pts[i].pos);
    && 0.0 <= y <= segment && start.head == GetTail(pts[i].dir, corner, y)
    && distance == Length(h, pts[..i]) + y
    && (y < segment ==> pts[i].dir == start.points[0].dir
                        && segment - y <= SegmentLength(start.head, start.points[0].pos))
  }

  /** The newer snake still holds the older head. */
  ghost predicate Follows(j: Journey, i: nat, y: real) {
    && 0.0 <= j.distance <= j.length
    && IsSnake(j.start.head, j.start.points, j.length) && IsSnake(j.end.head, j.end.points, j.length)
    && Holds(j.end.head, j.end.points, j.start, j.distance, i, y)
  }

  lemma {:induction false} ShortenRestKeepsPrefix(prev: Vec2, pts: seq<Inflection>, rest: real, k: nat)
    requires k < |pts| && Length(prev, pts[..k]) < rest
    ensures var cut := ShortenRest(prev, pts, rest);
            && k < |cut| && cut[..k] == pts[..k] && cut[k].dir == pts[k].dir
            && var corner := End(prev, pts[..k]);
            && var segment := SegmentLength(corner, pts[k].pos);
            && var free := rest - Length(prev, pts[..k]);
            && cut[k].pos == if segment <= free then pts[k].pos else GetTail(pts[k].dir, corner, free)
    decreases |pts|
  {
    var segment := SegmentLength(prev, pts[0].pos);
    var cut := ShortenRest(prev, pts, rest);
    if k > 0 {
      assert pts[..k][1..] == pts[1..][..k - 1];
      ShortenRestKeepsPrefix(pts[0].pos, pts[1..], rest - segment, k - 1);
      var cutRest := ShortenRest(pts[0].pos, pts[1..], rest - segment);
      assert cut[..k] == [cut[0]] + cutRest[..k - 1];
      assert pts[..k] == [pts[0]] + pts[1..][..k - 1];
      assert End(prev, pts[..k]) == End(pts[0].pos, pts[1..][..k - 1]);
    }
  }

  /** Cutting the tail further back than the first `k` points keeps them, and shortens point `k` at most. */
  lemma ShortenKeepsPrefix(head: Vec2, pts: seq<Inflection>, length: real, k: nat)
    requires Chain(head, pts) && k < |pts| && Length(head, pts[..k]) < length
    ensures var cut := Shorten(head, pts, length);
            && k < |cut| && cut[..k] == pts[..k] && cut[k].dir == pts[k].dir
            && var corner := End(head, pts[..k]);
            && SegmentLength(corner, cut[k].pos)
               == Min(SegmentLength(corner, pts[k].pos), length - Length(head, pts[..k]))
  {
    var segment := SegmentLength(head, pts[0].pos);
    if segment < length {
      ShortenRestKeepsPrefix(head, pts, length, k);
      assert ShortenRest(head, pts, length) == Shorten(head, pts, length);
    }
  }

  /** After any run without reversal, no longer than the tail, the newer snapshot holds the older head. */
  lemma {:induction false} RunFollows(start: Snake, inputs: seq<Inputs>, length: real) returns (i: nat, y: real)
    requires length > 0.0 && IsSnake(start.head, start.points, length)
    requires NoReversal(start.points[0].dir, inputs) && Travelled(inputs) <= length
    ensures Run(start, inputs, length).Some?
    ensures Follows(Journey(start, Run(start, inputs, length).value, Travelled(inputs), length), i, y)
  {
    TailTracesHead(start, inputs, length);
    if inputs == [] {
      i, y := 0, 0.0;
      assert start.points[..0] == [];
    } else {
      var n := |inputs| - 1;
      var before := inputs[..n];
      i, y := RunFollows(start, before, length);
      TailTracesHead(start, before, length);
      var snake := Run(start, before, length).value;
      if inputs[n].Move? {
        i, y := MoveFollows(Journey(start, snake, Travelled(before), length), inputs[n].direction, i, y);
      }
    }
  }

  lemma MoveFollows(j: Journey, d: Direction, i: nat, y: real) returns (i': nat, y': real)
    requires Follows(j, i, y) && j.distance + MOVE_SPEED <= j.length
    requires !IsOpposite(j.end.points[0].dir, d)
    ensures var r := Step(j.end, Move(d), j.length);
            r.Some? && Follows(Journey(j.start, r.value, j.distance + MOVE_SPEED, j.length), i', y')
  {
    var h, pts := j.end.head, j.end.points;
    MoveTracesHead(h, pts, d, j.length);
    UncutMove(h, pts, d, j.length);
    i', y' := UncutHolds(h, pts, j.start, j.distance, d, i, y);
    CutHolds(MoveHead(h, Move(d)), Uncut(h, pts, d), j.start, j.distance + MOVE_SPEED, j.length, i', y');
  }

  /** Moving on, before the cut. */
  lemma UncutHolds(h: Vec2, pts: seq<Inflection>, start: Snake, distance: real, d: Direction, i: nat, y: real)
    returns (i': nat, y': real)
    requires Holds(h, pts, start, distance, i, y) && Chain(h, pts)
    ensures Holds(MoveHead(h, Move(d)), Uncut(h, pts, d), start, distance + MOVE_SPEED, i', y') && y' > 0.0
  {
    if pts[0].dir != d {
      i', y' := TurnHolds(h, pts, start, distance, d, i, y);
    } else {
      i', y' := StraightHolds(h, pts, start, distance, i, y);
    }
  }

  lemma StraightHolds(h: Vec2, pts: seq<Inflection>, start: Snake, distance: real, i: nat, y: real)
    returns (i': nat, y': real)
    requires Holds(h, pts, start, distance, i, y) && Chain(h, pts)
    ensures Holds(MoveHead(h, Move(pts[0].dir)), pts, start, distance + MOVE_SPEED, i', y') && y' > 0.0
  {
    FirstSegmentGrows(h, pts[0]);
    assert pts[..0] == [];
    if i == 0 {
      i', y' := 0, y + MOVE_SPEED;
    } else {
      i', y' := i, y;
      PrefixGrows(h, pts, i);
    }
  }

  lemma FirstSegmentGrows(h: Vec2, first: Inflection)
    requires Linked(h, first)
    ensures SegmentLength(MoveHead(h, Move(first.dir)), first.pos) == SegmentLength(h, first.pos) + MOVE_SPEED
    ensures forall y :: GetTail(first.dir, h, y) == GetTail(first.dir, MoveHead(h, Move(first.dir)), y + MOVE_SPEED)
  {
  }

  lemma PrefixGrows(h: Vec2, pts: seq<Inflection>, i: nat)
    requires Chain(h, pts) && 0 < i <= |pts|
    ensures Length(MoveHead(h, Move(pts[0].dir)), pts[..i]) == Length(h, pts[..i]) + MOVE_SPEED
  {
    FirstSegmentGrows(h, pts[0]);
    assert pts[..i][0] == pts[0];
  }

  lemma TurnHolds(h: Vec2, pts: seq<Inflection>, start: Snake, distance: real, d: Direction, i: nat, y: real)
    returns (i': nat, y': real)
    requires Holds(h, pts, start, distance, i, y)
    ensures Holds(MoveHead(h, Move(d)), [Inflection(h, d)] + pts, start, distance + MOVE_SPEED, i', y') && y' > 0.0
  {
    var h2 := MoveHead(h, Move(d));
    var uncut := [Inflection(h, d)] + pts;
    assert h == GetTail(d, h2, MOVE_SPEED);
    if y == 0.0 {
      i', y' := 0, MOVE_SPEED;
      assert uncut[..0] == [] && pts[..0] == [];
    } else {
      i', y' := i + 1, y;
      assert uncut[..i'] == [Inflection(h, d)] + pts[..i];
      assert uncut[..i'][1..] == pts[..i];
    }
  }

  /** The cut goes no further than the older head. */
  lemma CutHolds(h: Vec2, pts: seq<Inflection>, start: Snake, distance: real, length: real, i: nat, y: real)
    requires Holds(h, pts, start, distance, i, y) && Chain(h, pts) && y > 0.0 && distance <= length
    ensures Holds(h, Shorten(h, pts, length), start, distance, i, y)
  {
    ShortenKeepsPrefix(h, pts, length, i);
  }

  // ----- Finding the older head on the newer tail -----

  /** The newer snake does not run through the older head within the first `u` units. */
  ghost predicate NoneBefore(j: Journey, u: real) {
    forall v :: 0.0 <= v < u ==> At(j.end.head, j.end.points, v) != j.start.head
  }

  /** Of all places where the newer snake runs through the older head, `u` is the one nearest to its own head. */
  ghost predicate Nearest(j: Journey, u: real) {
    0.0 <= u <= j.length && At(j.end.head, j.end.points, u) == j.start.head && NoneBefore(j, u)
  }

  lemma NearestIsUnique(j: Journey, u: real, v: real)
    requires Nearest(j, u) && Nearest(j, v)
    ensures u == v
  {
  }

  function Hit(j: Journey, i: nat): Between
    requires i < |j.end.points|
  {
    IsBetween(j.start.head, j.end.points[i].pos, Corner(j, i))
  }

  lemma SegmentIsProper(j: Journey, i: nat)
    requires IsSnake(j.end.head, j.end.points, j.length) && i < |j.end.points|
    ensures Segment(j, i) > 0.0 && CornerDistance(j, i + 1) == CornerDistance(j, i) + Segment(j, i)
    ensures j.end.points[i].pos == GetTail(j.end.points[i].dir, Corner(j, i), Segment(j, i))
  {
    CornerStep(j, i);
    SpacedSegment(j.end.head, j.end.points, i);
  }

  /** Either the test finds the only place where the segment holds the older head, or there is none. */
  lemma SegmentIsSearched(j: Journey, i: nat) returns (s: real)
    requires IsSnake(j.end.head, j.end.points, j.length) && i < |j.end.points|
    ensures Hit(j, i).Ratio? ==>
      && 0.0 <= s <= Segment(j, i) && j.start.head == GetTail(j.end.points[i].dir, Corner(j, i), s)
      && Uncovered(Hit(j, i).ratio, Segment(j, i)) == s && (Hit(j, i).ratio == 0.0 <==> s == Segment(j, i))
    ensures !Hit(j, i).Ratio? ==>
      && Hit(j, i).Outside?
      && forall s' :: 0.0 <= s' <= Segment(j, i) ==> j.start.head != GetTail(j.end.points[i].dir, Corner(j, i), s')
  {
    SegmentIsProper(j, i);
    var d, corner, segment := j.end.points[i].dir, Corner(j, i), Segment(j, i);
    s := IsBetweenOnlyFinds(j.start.head, d, corner, segment);
    if Hit(j, i).Ratio? {
      IsBetweenFinds(j.start.head, d, corner, segment, s);
    } else {
      forall s' | 0.0 <= s' <= segment ensures j.start.head != GetTail(d, corner, s') {
        if j.start.head == GetTail(d, corner, s') {
          IsBetweenFinds(j.start.head, d, corner, segment, s');
        }
      }
    }
  }

  /** Nothing on the segment before `s`, the whole of it if `s` is beyond. */
  lemma NoneOnSegment(j: Journey, i: nat, s: real)
    requires IsSnake(j.end.head, j.end.points, j.length) && i < |j.end.points| && NoneBefore(j, CornerDistance(j, i))
    requires forall s' :: 0.0 <= s' < s && s' <= Segment(j, i) ==>
               j.start.head != GetTail(j.end.points[i].dir, Corner(j, i), s')
    requires s <= Segment(j, i)
    ensures NoneBefore(j, CornerDistance(j, i) + s)
  {
    forall v | 0.0 <= v < CornerDistance(j, i) + s ensures At(j.end.head, j.end.points, v) != j.start.head {
      if v >= CornerDistance(j, i) {
        var s' := v - CornerDistance(j, i);
        SegmentOnCurve(j, i, s');
      }
    }
  }

  /** The older head is on segment `i`, `u` behind the newer head, and nowhere nearer. */
  ghost predicate IsOn(j: Journey, i: nat, u: real) {
    && i < |j.end.points| && Nearest(j, u)
    && 0.0 <= u - CornerDistance(j, i) <= Segment(j, i) && (i > 0 ==> u > CornerDistance(j, i))
    && j.start.head == GetTail(j.end.points[i].dir, Corner(j, i), u - CornerDistance(j, i))
  }

  ghost predicate IsNowhere(j: Journey) {
    forall v :: 0.0 <= v <= j.length ==> At(j.end.head, j.end.points, v) != j.start.head
  }

  /** The segment is the first one, from the front, that holds the older head. */
  lemma FoundOnSegment(j: Journey, i: nat, s: real)
    requires IsSnake(j.end.head, j.end.points, j.length) && i < |j.end.points| && NoneBefore(j, CornerDistance(j, i))
    requires i > 0 ==> At(j.end.head, j.end.points, CornerDistance(j, i)) != j.start.head
    requires 0.0 <= s <= Segment(j, i) && j.start.head == GetTail(j.end.points[i].dir, Corner(j, i), s)
    ensures IsOn(j, i, CornerDistance(j, i) + s)
  {
    SegmentOnCurve(j, i, s);
    NoneOnSegment(j, i, s);
    SegmentIsProper(j, i);
    CornersAreOrdered(j, i + 1, |j.end.points|);
    AllSegments(j);
    CornersAreOrdered(j, 0, i);
  }

  lemma MissedOnSegment(j: Journey, i: nat)
    requires IsSnake(j.end.head, j.end.points, j.length) && i < |j.end.points| && NoneBefore(j, CornerDistance(j, i))
    requires forall s' :: 0.0 <= s' <= Segment(j, i) ==>
               j.start.head != GetTail(j.end.points[i].dir, Corner(j, i), s')
    ensures NoneBefore(j, CornerDistance(j, i + 1))
    ensures At(j.end.head, j.end.points, CornerDistance(j, i + 1)) != j.start.head
  {
    SegmentIsProper(j, i);
    NoneOnSegment(j, i, Segment(j, i));
    SegmentOnCurve(j, i, Segment(j, i));
  }

  /** The loop finds the place nearest to the newer head, its segment and its distance, or that there is none. */
  lemma {:induction false} LocateIsNearest(j: Journey, i: nat)
    requires IsSnake(j.end.head, j.end.points, j.length) && 1 <= i <= |j.end.points|
    requires NoneBefore(j, CornerDistance(j, i))
    requires At(j.end.head, j.end.points, CornerDistance(j, i)) != j.start.head
    ensures var r := Locate(j.start.head, j.end.points, i, CornerDistance(j, i));
            || (r.NotFound? && IsNowhere(j))
            || (r.Found? && r.index >= i && IsOn(j, r.index, r.distance)
                && (r.onPoint <==> r.distance - CornerDistance(j, r.index) == Segment(j, r.index)))
    decreases |j.end.points| - i
  {
    if i == |j.end.points| {
      AllSegments(j);
    } else {
      var s := SegmentIsSearched(j, i);
      if Hit(j, i).Ratio? {
        FoundOnSegment(j, i, s);
        LocateStops(j, i, s);
      } else {
        MissedOnSegment(j, i);
        SegmentIsProper(j, i);
        LocateGoesOn(j, i);
        LocateIsNearest(j, i + 1);
      }
    }
  }

  lemma LocateStops(j: Journey, i: nat, s: real)
    requires 1 <= i < |j.end.points| && Hit(j, i).Ratio? && Uncovered(Hit(j, i).ratio, Segment(j, i)) == s
    ensures Locate(j.start.head, j.end.points, i, CornerDistance(j, i))
         == Found(i, CornerDistance(j, i) + s, Hit(j, i).ratio == 0.0)
  {
  }

  lemma LocateGoesOn(j: Journey, i: nat)
    requires 1 <= i < |j.end.points| && Hit(j, i).Outside?
    requires CornerDistance(j, i + 1) == CornerDistance(j, i) + Segment(j, i)
    ensures Locate(j.start.head, j.end.points, i, CornerDistance(j, i))
         == Locate(j.start.head, j.end.points, i + 1, CornerDistance(j, i + 1))
  {
  }

  // ----- What the interpolation makes of it -----

  function StraightTail(j: Journey): seq<Inflection>
    requires j.start.points != [] && j.end.points != []
  {
    if j.end.points[0].pos != j.start.points[0].pos then [j.end.points[0]] + j.start.points else j.start.points
  }

  /** The older tail, its head marked if that is a point of the newer tail. */
  function WalkTail(j: Journey, i: nat, onPoint: bool): seq<Inflection>
    requires i < |j.end.points|
  {
    if onPoint then [j.end.points[i]] + j.start.points else j.start.points
  }

  /** The result when the older head is found on segment `i`, `u` behind the newer head. */
  function FromSegment(j: Journey, i: nat, u: real, t: real): Snake
    requires j.start.points != [] && i < |j.end.points|
  {
    if i == 0 then
      var head := Lerp(j.start.head, j.end.head, t);
      Snake(head, Shorten(head, StraightTail(j), j.length))
    else
      Walk(j.start.head, WalkTail(j, i, u - CornerDistance(j, i) == Segment(j, i)), j.end, i, Share(t, u), j.length)
  }

  /** Without the older head on the newer tail, the ratio does not matter. */
  function FromNowhere(j: Journey): Snake
    requires j.start.points != [] && j.end.points != []
  {
    Walk(j.start.head, j.start.points, j.end, 0, 0.0, j.length)
  }

  /** The search by segments: for any two snakes, and every ratio, the result starts from the place nearest to the newer
      head where the newer snake runs through the older head, if there is one. */
  lemma SearchFindsNearest(j: Journey) returns (found: bool, i: nat, u: real)
    requires IsSnake(j.end.head, j.end.points, j.length) && j.start.points != []
    ensures !found ==> IsNowhere(j)
    ensures found ==> IsOn(j, i, u)
    ensures forall t :: Interpolated(j.start, j.end, j.length, t)
                     == Rebuilt(if found then FromSegment(j, i, u, t) else FromNowhere(j))
  {
    AllSegments(j);
    var s := SegmentIsSearched(j, 0);
    if Hit(j, 0).Ratio? {
      found, i, u := true, 0, CornerDistance(j, 0) + s;
      FoundOnSegment(j, 0, s);
    } else {
      MissedOnSegment(j, 0);
      found, i, u := LoopFindsNearest(j);
    }
  }

  lemma LoopFindsNearest(j: Journey) returns (found: bool, i: nat, u: real)
    requires IsSnake(j.end.head, j.end.points, j.length) && j.start.points != [] && Hit(j, 0).Outside?
    requires NoneBefore(j, CornerDistance(j, 1))
    requires At(j.end.head, j.end.points, CornerDistance(j, 1)) != j.start.head
    ensures !found ==> IsNowhere(j)
    ensures found ==> IsOn(j, i, u)
    ensures forall t :: Interpolated(j.start, j.end, j.length, t)
                     == Rebuilt(if found then FromSegment(j, i, u, t) else FromNowhere(j))
  {
    AllSegments(j);
    SegmentIsProper(j, 0);
    LocateIsNearest(j, 1);
    var r := Locate(j.start.head, j.end.points, 1, CornerDistance(j, 1));
    if r.Found? {
      found, i, u := true, r.index, r.distance;
    } else {
      found, i, u := false, 0, 0.0;
    }
  }

  /** The nearest place is on one segment only. */
  lemma SameSegment(j: Journey, i: nat, k: nat, u: real)
    requires IsSnake(j.end.head, j.end.points, j.length) && i <= k < |j.end.points|
    requires 0.0 <= u - CornerDistance(j, i) <= Segment(j, i)
    requires u >= CornerDistance(j, k) && (k > 0 ==> u > CornerDistance(j, k))
    ensures i == k
  {
    if i < k {
      SegmentIsProper(j, i);
      CornersAreOrdered(j, i + 1, k);
    }
  }
}
