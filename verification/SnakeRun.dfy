/** Movement, tail update and the client's reversal filter, run tick after tick. */
module SnakeRun {
  import opened Options
  import opened Vectors
  import opened SnakeGeometry
  import opened SnakeChain
  import opened SnakeTail

  const MOVE_SPEED := 10.0

  datatype Inputs = Move(direction: Direction) | Delete | Spawn | Empty

  function MoveHead(position: Vec2, input: Inputs): Vec2 {
    match input
    case Move(Up) => Vec2(position.x, position.y + MOVE_SPEED)
    case Move(Down) => Vec2(position.x, position.y - MOVE_SPEED)
    case Move(Left) => Vec2(position.x - MOVE_SPEED, position.y)
    case Move(Right) => Vec2(position.x + MOVE_SPEED, position.y)
    case _ => position
  }

  /** `Panicked` is the `unwrap` of a missing direction. */
  datatype TailResult = Panicked | Updated(points: seq<Inflection>)

  /** The corner between the line of the front segment and the head. */
  function TurningPoint(front: Inflection, head: Vec2): Vec2 {
    if front.dir.Up? || front.dir.Down? then Vec2(front.pos.x, head.y) else Vec2(head.x, front.pos.y)
  }

  /** What one iteration of `shared_tail_behaviour` makes of a tail whose head has changed. */
  function TailUpdate(head: Vec2, pts: seq<Inflection>, length: real): TailResult
    requires pts != []
  {
    var front := pts[0];
    if FromPoints(front.pos, head) == Some(front.dir) then Updated(Shorten(head, pts, length))
    else
      var corner := TurningPoint(front, head);
      match FromPoints(corner, head)
      case None => Panicked
      case Some(d) => Updated(Shorten(head, [Inflection(corner, d)] + pts, length))
  }

  datatype Parent = Parent(position: Vec2, changed: bool)

  class TailEntity {
    const parent: nat
    const length: real
    const tail: TailPoints

    constructor (parent: nat, length: real, tail: TailPoints)
      ensures this.parent == parent && this.length == length && this.tail == tail
    {
      this.parent, this.length, this.tail := parent, length, tail;
    }
  }

  /** A tail without a parent, or whose parent did not move, is left alone. */
  function TailAfter(parents: map<nat, Parent>, parent: nat, length: real, pts: seq<Inflection>): TailResult
    requires pts != []
  {
    if parent in parents && parents[parent].changed
    then TailUpdate(parents[parent].position, pts, length)
    else Updated(pts)
  }

  /** The parent of the tail has just made the move `d`, which is no reversal, from `h`. */
  ghost predicate JustMoved(parents: map<nat, Parent>, parent: nat, length: real, pts: seq<Inflection>, h: Vec2,
                            d: Direction) {
    && parent in parents && parents[parent].changed && parents[parent].position == MoveHead(h, Move(d))
    && length > 0.0 && IsSnake(h, pts, length) && !IsOpposite(pts[0].dir, d)
  }

  /** What the system is for: a tail whose parent has moved is the tail of that snake, led through the old head to the
      new one; one whose parent has not moved, or is not there, stays as it is. */
  ghost predicate FollowsParent(parents: map<nat, Parent>, parent: nat, length: real, before: seq<Inflection>,
                                after: seq<Inflection>) {
    && (parent !in parents || !parents[parent].changed ==> after == before)
    && forall h, d :: JustMoved(parents, parent, length, before, h, d) ==>
         && IsSnake(parents[parent].position, after, length) && after[0].dir == d
         && TracesMove(h, before, d, parents[parent].position, after, length)
  }

  /** The last move of the curve is the straight line of that move, the rest is the old curve. */
  ghost predicate TracesMove(h: Vec2, before: seq<Inflection>, d: Direction, head: Vec2, after: seq<Inflection>,
                             length: real) {
    forall s :: 0.0 <= s <= length ==>
      At(head, after, s) == if s <= MOVE_SPEED then GetTail(d, head, s) else At(h, before, s - MOVE_SPEED)
  }

  lemma TailAfterFollows(parents: map<nat, Parent>, parent: nat, length: real, pts: seq<Inflection>)
    requires pts != []
    ensures var r := TailAfter(parents, parent, length, pts);
            && (r.Updated? ==> FollowsParent(parents, parent, length, pts, r.points))
            && (r.Panicked? ==> forall h, d :: !JustMoved(parents, parent, length, pts, h, d))
  {
    forall h, d | JustMoved(parents, parent, length, pts, h, d)
      ensures TailAfter(parents, parent, length, pts).Updated?
      ensures var after := TailAfter(parents, parent, length, pts).points;
              && IsSnake(parents[parent].position, after, length) && after[0].dir == d
              && TracesMove(h, pts, d, parents[parent].position, after, length)
    {
      MoveTracesHead(h, pts, d, length);
    }
  }

  /** The system: every tail in turn, stopping where the code would panic, which is never a tail whose parent has made a
      move that is no reversal. */
  method SharedTailBehaviour(tails: seq<TailEntity>, parents: map<nat, Parent>) returns (done: nat)
    requires forall i, j :: 0 <= i < j < |tails| ==> tails[i].tail != tails[j].tail
    requires forall i :: 0 <= i < |tails| ==> tails[i].tail.points != []
    modifies set i | 0 <= i < |tails| :: tails[i].tail
    ensures done <= |tails|
    ensures forall i :: 0 <= i < done ==>
      Updated(tails[i].tail.points) == TailAfter(parents, tails[i].parent, tails[i].length, old(tails[i].tail.points))
    ensures done < |tails| ==>
      TailAfter(parents, tails[done].parent, tails[done].length, old(tails[done].tail.points)).Panicked?
    ensures forall i :: 0 <= i < done ==>
      FollowsParent(parents, tails[i].parent, tails[i].length, old(tails[i].tail.points), tails[i].tail.points)
    ensures done < |tails| ==> forall h, d ::
      !JustMoved(parents, tails[done].parent, tails[done].length, old(tails[done].tail.points), h, d)
    ensures forall i :: done <= i < |tails| ==> tails[i].tail.points == old(tails[i].tail.points)
  {
    done := UpdateTails(tails, parents);
    forall i | 0 <= i < done
      ensures FollowsParent(parents, tails[i].parent, tails[i].length, old(tails[i].tail.points), tails[i].tail.points)
    {
      TailAfterFollows(parents, tails[i].parent, tails[i].length, old(tails[i].tail.points));
    }
    if done < |tails| {
      TailAfterFollows(parents, tails[done].parent, tails[done].length, old(tails[done].tail.points));
    }
  }

  /** The loop over the tails. */
  method UpdateTails(tails: seq<TailEntity>, parents: map<nat, Parent>) returns (done: nat)
    requires forall i, j :: 0 <= i < j < |tails| ==> tails[i].tail != tails[j].tail
    requires forall i :: 0 <= i < |tails| ==> tails[i].tail.points != []
    modifies set i | 0 <= i < |tails| :: tails[i].tail
    ensures done <= |tails|
    ensures forall i :: 0 <= i < done ==>
      Updated(tails[i].tail.points) == TailAfter(parents, tails[i].parent, tails[i].length, old(tails[i].tail.points))
    ensures done < |tails| ==>
      TailAfter(parents, tails[done].parent, tails[done].length, old(tails[done].tail.points)).Panicked?
    ensures forall i :: done <= i < |tails| ==> tails[i].tail.points == old(tails[i].tail.points)
  {
    done := 0;
    while done < |tails|
      invariant done <= |tails|
      invariant forall i :: 0 <= i < done ==>
        Updated(tails[i].tail.points) == TailAfter(parents, tails[i].parent, tails[i].length, old(tails[i].tail.points))
      invariant forall i :: done <= i < |tails| ==> tails[i].tail.points == old(tails[i].tail.points)
    {
      var entity := tails[done];
      if entity.parent in parents && parents[entity.parent].changed {
        var head := parents[entity.parent].position;
        var front := entity.tail.points[0];
        if FromPoints(front.pos, head) != Some(front.dir) {
          var corner := TurningPoint(front, head);
          var direction := FromPoints(corner, head);
          if direction.None? {
            return;
          }
          entity.tail.points := [Inflection(corner, direction.value)] + entity.tail.points;
        }
        entity.tail.ShortenBack(head, entity.length);
      }
      done := done + 1;
    }
  }

  // ----- One move -----

  /** Every segment has positive length, and all but the last are at least one move long. */
  ghost predicate Spaced(h: Vec2, pts: seq<Inflection>)
    decreases |pts|
  {
    && pts != []
    && SegmentLength(h, pts[0].pos) > 0.0
    && (|pts| > 1 ==> SegmentLength(h, pts[0].pos) >= MOVE_SPEED && Spaced(pts[0].pos, pts[1..]))
  }

  /** The snakes the simulation can produce: a chain of length exactly `length`. */
  ghost predicate IsSnake(h: Vec2, pts: seq<Inflection>, length: real) {
    Chain(h, pts) && Spaced(h, pts) && Length(h, pts) == length
  }

  lemma {:induction false} ShortenRestKeepsSpacing(prev: Vec2, pts: seq<Inflection>, rest: real)
    requires Spaced(prev, pts) && Chain(prev, pts) && rest > 0.0
    ensures Spaced(prev, ShortenRest(prev, pts, rest))
    decreases |pts|
  {
    var segment := SegmentLength(prev, pts[0].pos);
    var cut := ShortenRest(prev, pts, rest);
    if segment <= rest {
      assert cut[1..] == ShortenRest(pts[0].pos, pts[1..], rest - segment);
      if |pts| > 1 && segment < rest {
        ShortenRestKeepsSpacing(pts[0].pos, pts[1..], rest - segment);
      }
    }
  }

  lemma ShortenKeepsSpacing(head: Vec2, pts: seq<Inflection>, length: real)
    requires Spaced(head, pts) && Chain(head, pts) && length > 0.0
    ensures Spaced(head, Shorten(head, pts, length))
  {
    var segment := SegmentLength(head, pts[0].pos);
    if segment < length {
      assert Shorten(head, pts, length)[1..] == ShortenRest(pts[0].pos, pts[1..], length - segment);
      if |pts| > 1 {
        ShortenRestKeepsSpacing(pts[0].pos, pts[1..], length - segment);
      }
    }
  }

  /** The tail before it is cut: the old one, with the old head marked if the snake turned. */
  function Uncut(h: Vec2, pts: seq<Inflection>, d: Direction): seq<Inflection>
    requires pts != []
  {
    if pts[0].dir == d then pts else [Inflection(h, d)] + pts
  }

  lemma UncutMove(h: Vec2, pts: seq<Inflection>, d: Direction, length: real)
    requires length > 0.0 && IsSnake(h, pts, length) && !IsOpposite(pts[0].dir, d)
    ensures var h2 := MoveHead(h, Move(d));
            var uncut := Uncut(h, pts, d);
            && uncut[0].dir == d
            && TailUpdate(h2, pts, length) == Updated(Shorten(h2, uncut, length))
            && Chain(h2, uncut) && Spaced(h2, uncut)
            && Length(h2, uncut) == length + MOVE_SPEED
            && (forall s :: 0.0 <= s <= MOVE_SPEED ==> At(h2, uncut, s) == GetTail(d, h2, s))
            && (forall s :: 0.0 <= s ==> At(h2, uncut, MOVE_SPEED + s) == At(h, pts, s))
  {
    var h2 := MoveHead(h, Move(d));
    assert h == GetTail(d, h2, MOVE_SPEED);
    if pts[0].dir == d {
      Advance(h, pts, MOVE_SPEED, h2);
    } else {
      MarkHead(h, pts, d);
      Advance(h, [Inflection(h, d)] + pts, MOVE_SPEED, h2);
      assert ([Inflection(h, d)] + pts)[1..] == pts;
    }
  }

  /** One accepted move: the tail grows by the move at the front, loses as much at the back, and every
      point of it is where the head or the tail was one move earlier. */
  lemma MoveTracesHead(h: Vec2, pts: seq<Inflection>, d: Direction, length: real)
    requires length > 0.0 && IsSnake(h, pts, length) && !IsOpposite(pts[0].dir, d)
    ensures var h2 := MoveHead(h, Move(d));
            var r := TailUpdate(h2, pts, length);
            && r.Updated? && IsSnake(h2, r.points, length) && r.points[0].dir == d
            && forall s :: 0.0 <= s <= length ==>
                 At(h2, r.points, s) == if s <= MOVE_SPEED then GetTail(d, h2, s) else At(h, pts, s - MOVE_SPEED)
  {
    var h2 := MoveHead(h, Move(d));
    var uncut := Uncut(h, pts, d);
    UncutMove(h, pts, d, length);
    ShortenTakesPrefix(h2, uncut, length);
    ShortenKeepsSpacing(h2, uncut, length);
    var cut := Shorten(h2, uncut, length);
    forall s | 0.0 <= s <= length
      ensures At(h2, cut, s) == if s <= MOVE_SPEED then GetTail(d, h2, s) else At(h, pts, s - MOVE_SPEED)
    {
      if s > MOVE_SPEED {
        assert s == MOVE_SPEED + (s - MOVE_SPEED);
      }
    }
  }

  /** A reversal either panics or leaves the snake one move too short. */
  lemma ReversalBreaksTail(h: Vec2, pts: seq<Inflection>, d: Direction, length: real)
    requires length > 0.0 && IsSnake(h, pts, length) && IsOpposite(pts[0].dir, d)
    ensures var h2 := MoveHead(h, Move(d));
            var r := TailUpdate(h2, pts, length);
            && (r.Panicked? <==> SegmentLength(h, pts[0].pos) <= MOVE_SPEED)
            && (r.Updated? ==> r.points == pts && Length(h2, r.points) == length - MOVE_SPEED)
  {
    var h2 := MoveHead(h, Move(d));
    if SegmentLength(h, pts[0].pos) > MOVE_SPEED {
      ShortenKeepsShort(h2, pts, length);
    }
  }

  // ----- Runs -----

  datatype Snake = Snake(head: Vec2, points: seq<Inflection>)

  function Step(snake: Snake, input: Inputs, length: real): Option<Snake> {
    if input.Move? && snake.points != [] then
      var head := MoveHead(snake.head, input);
      match TailUpdate(head, snake.points, length)
      case Panicked => None
      case Updated(points) => Some(Snake(head, points))
    else Some(snake)
  }

  /** The snake after `inputs`, or `None` if the run panicked on the way. */
  function Run(start: Snake, inputs: seq<Inputs>, length: real): Option<Snake> {
    if inputs == [] then Some(start)
    else
      var n := |inputs| - 1;
      match Run(start, inputs[..n], length)
      case None => None
      case Some(snake) => Step(snake, inputs[n], length)
  }

  /** The last direction taken, `first` before any. */
  function LastDirection(first: Direction, inputs: seq<Inputs>): Direction {
    if inputs == [] then first
    else
      var n := |inputs| - 1;
      if inputs[n].Move? then inputs[n].direction else LastDirection(first, inputs[..n])
  }

  /** No input asks for the opposite of the direction taken last. */
  predicate NoReversal(first: Direction, inputs: seq<Inputs>) {
    inputs == [] ||
    var n := |inputs| - 1;
    && NoReversal(first, inputs[..n])
    && (inputs[n].Move? ==> !IsOpposite(LastDirection(first, inputs[..n]), inputs[n].direction))
  }

  function HeadAfter(h: Vec2, inputs: seq<Inputs>): Vec2 {
    if inputs == [] then h
    else MoveHead(HeadAfter(h, inputs[..|inputs| - 1]), inputs[|inputs| - 1])
  }

  /** How often the direction was taken. */
  function Taken(inputs: seq<Inputs>, d: Direction): nat {
    if inputs == [] then 0
    else Taken(inputs[..|inputs| - 1], d) + if inputs[|inputs| - 1] == Move(d) then 1 else 0
  }

  /** Over every run the head is ten units further for each move, on the axis and to the side of its direction; inputs
      that are no move leave it. */
  lemma {:induction false} HeadAfterMoves(h: Vec2, inputs: seq<Inputs>)
    ensures HeadAfter(h, inputs).x == h.x + 10.0 * (Taken(inputs, Right) - Taken(inputs, Left)) as real
    ensures HeadAfter(h, inputs).y == h.y + 10.0 * (Taken(inputs, Up) - Taken(inputs, Down)) as real
  {
    if inputs != [] {
      HeadAfterMoves(h, inputs[..|inputs| - 1]);
    }
  }

  /** Where the head was `s` units of travel before the end of `inputs`; further back than the whole
      run, the point of the initial snake. */
  function PathBehind(start: Snake, inputs: seq<Inputs>, s: real): Vec2 {
    if inputs == [] then At(start.head, start.points, s)
    else
      var n := |inputs| - 1;
      if !inputs[n].Move? then PathBehind(start, inputs[..n], s)
      else if s <= MOVE_SPEED then GetTail(inputs[n].direction, HeadAfter(start.head, inputs), s)
      else PathBehind(start, inputs[..n], s - MOVE_SPEED)
  }

  function Travelled(inputs: seq<Inputs>): (r: real)
    ensures r >= 0.0
  {
    if inputs == [] then 0.0
    else Travelled(inputs[..|inputs| - 1]) + if inputs[|inputs| - 1].Move? then MOVE_SPEED else 0.0
  }

  lemma {:induction false} PathBehindStartsAtHead(start: Snake, inputs: seq<Inputs>)
    ensures PathBehind(start, inputs, 0.0) == HeadAfter(start.head, inputs)
  {
    if inputs == [] {
      AtHead(start.head, start.points);
    } else {
      PathBehindStartsAtHead(start, inputs[..|inputs| - 1]);
    }
  }

  /** `PathBehind` is the history of the head: at the distance travelled since an earlier tick, it is
      the position of the head at that tick. */
  lemma {:induction false} PathBehindIsHistory(start: Snake, inputs: seq<Inputs>, k: nat)
    requires k <= |inputs|
    ensures Travelled(inputs) >= Travelled(inputs[..k])
    ensures PathBehind(start, inputs, Travelled(inputs) - Travelled(inputs[..k])) == HeadAfter(start.head, inputs[..k])
    decreases |inputs|
  {
    if k == |inputs| {
      assert inputs[..k] == inputs;
      PathBehindStartsAtHead(start, inputs);
    } else {
      var n := |inputs| - 1;
      var before := inputs[..n];
      assert before[..k] == inputs[..k];
      PathBehindIsHistory(start, before, k);
      PathBehindStartsAtHead(start, before);
    }
  }

  /** The tail traces the head: in every run without a reversal, from any snake, nothing panics, the
      length stays exact, the front label is the last direction, and the curve is the head's own path. */
  lemma {:induction false} TailTracesHead(start: Snake, inputs: seq<Inputs>, length: real)
    requires length > 0.0 && IsSnake(start.head, start.points, length)
    requires NoReversal(start.points[0].dir, inputs)
    ensures var r := Run(start, inputs, length);
            && r.Some?
            && r.value.head == HeadAfter(start.head, inputs)
            && IsSnake(r.value.head, r.value.points, length)
            && r.value.points[0].dir == LastDirection(start.points[0].dir, inputs)
            && forall s :: 0.0 <= s <= length ==>
                 At(r.value.head, r.value.points, s) == PathBehind(start, inputs, s)
  {
    if inputs != [] {
      var n := |inputs| - 1;
      TailTracesHead(start, inputs[..n], length);
      var before := Run(start, inputs[..n], length).value;
      if inputs[n].Move? {
        MoveTracesHead(before.head, before.points, inputs[n].direction, length);
      }
    }
  }

  /** The run did not panic and left the tail `length` long. */
  ghost predicate Whole(start: Snake, inputs: seq<Inputs>, length: real) {
    var r := Run(start, inputs, length);
    r.Some? && Length(r.value.head, r.value.points) == length
  }

  /** A run keeps the snake whole at every tick exactly when it holds no reversal. */
  lemma {:induction false} WholeIffNoReversal(start: Snake, inputs: seq<Inputs>, length: real)
    requires length > 0.0 && IsSnake(start.head, start.points, length)
    ensures NoReversal(start.points[0].dir, inputs) <==>
            forall k :: 0 <= k <= |inputs| ==> Whole(start, inputs[..k], length)
  {
    var first := start.points[0].dir;
    if NoReversal(first, inputs) {
      forall k | 0 <= k <= |inputs| ensures Whole(start, inputs[..k], length) {
        NoReversalPrefix(first, inputs, k);
        TailTracesHead(start, inputs[..k], length);
      }
    } else {
      var k := FirstReversal(first, inputs);
      TailTracesHead(start, inputs[..k], length);
      var before := Run(start, inputs[..k], length).value;
      assert inputs[..k + 1][..k] == inputs[..k];
      ReversalBreaksTail(before.head, before.points, inputs[k].direction, length);
      assert !Whole(start, inputs[..k + 1], length);
    }
  }

  lemma {:induction false} NoReversalPrefix(first: Direction, inputs: seq<Inputs>, k: nat)
    requires k <= |inputs| && NoReversal(first, inputs)
    ensures NoReversal(first, inputs[..k])
    decreases |inputs|
  {
    if k == |inputs| {
      assert inputs[..k] == inputs;
    } else {
      var before := inputs[..|inputs| - 1];
      NoReversalPrefix(first, before, k);
      assert before[..k] == inputs[..k];
    }
  }

  lemma {:induction false} FirstReversal(first: Direction, inputs: seq<Inputs>) returns (k: nat)
    requires !NoReversal(first, inputs)
    ensures k < |inputs| && NoReversal(first, inputs[..k])
    ensures inputs[k].Move? && IsOpposite(LastDirection(first, inputs[..k]), inputs[k].direction)
  {
    var before := inputs[..|inputs| - 1];
    if NoReversal(first, before) {
      k := |inputs| - 1;
    } else {
      k := FirstReversal(first, before);
      assert before[..k] == inputs[..k];
    }
  }

  // ----- Number of points -----

  lemma {:induction false} SpacedIsSparse(h: Vec2, pts: seq<Inflection>)
    requires Spaced(h, pts)
    ensures MOVE_SPEED * (|pts| - 1) as real < Length(h, pts)
    decreases |pts|
  {
    if |pts| > 1 {
      SpacedIsSparse(pts[0].pos, pts[1..]);
    }
  }

  // ----- The server's spawn state -----

  const TAIL_LENGTH := 300.0
  const ORIGIN := Vec2(0.0, 0.0)

  /** The head at the origin, the tail straight below it. */
  function Spawned(): Snake {
    Snake(ORIGIN, [Inflection(GetTail(Up, ORIGIN, TAIL_LENGTH), Up)])
  }

  /** In every run without reversal from the spawn state: the tail is 300 long, is the path of the head
      (prolonged straight down before the first move), and never has more than 30 points. */
  lemma SpawnedTailTracesHead(inputs: seq<Inputs>)
    requires NoReversal(Up, inputs)
    ensures var r := Run(Spawned(), inputs, TAIL_LENGTH);
            && r.Some?
            && r.value.head == HeadAfter(ORIGIN, inputs)
            && Chain(r.value.head, r.value.points)
            && Length(r.value.head, r.value.points) == 300.0
            && 1 <= |r.value.points| <= 30
            && (forall s :: 0.0 <= s <= TAIL_LENGTH ==>
                 At(r.value.head, r.value.points, s) == PathBehind(Spawned(), inputs, s))
            && (forall s :: 0.0 <= s <= TAIL_LENGTH ==> PathBehind(Spawned(), [], s) == Vec2(0.0, -s))
  {
    var start := Spawned();
    assert start.points[1..] == [];
    TailTracesHead(start, inputs, TAIL_LENGTH);
    var r := Run(start, inputs, TAIL_LENGTH).value;
    SpacedIsSparse(r.head, r.points);
  }

  // ----- The client's filter -----

  datatype Key = KeyW | KeyA | KeyS | KeyD | ArrowUp | ArrowDown | ArrowLeft | ArrowRight | OtherKey

  function Requested(pressed: set<Key>): Option<Direction> {
    if KeyW in pressed || ArrowUp in pressed then Some(Up)
    else if KeyS in pressed || ArrowDown in pressed then Some(Down)
    else if KeyA in pressed || ArrowLeft in pressed then Some(Left)
    else if KeyD in pressed || ArrowRight in pressed then Some(Right)
    else None
  }

  function OrUp(last: Option<Direction>): Direction {
    if last.Some? then last.value else Up
  }

  /** The action sent for a request, given the last direction accepted. */
  function Accept(last: Option<Direction>, requested: Option<Direction>): Inputs {
    if requested.Some? && !IsOpposite(OrUp(last), requested.value) then Move(requested.value) else Empty
  }

  class InputSystem {
    var lastDirection: Option<Direction>

    constructor ()
      ensures lastDirection == None
    {
      lastDirection := None;
    }

    method BufferInput(pressed: set<Key>) returns (action: Inputs)
      modifies this
      ensures action == Accept(old(lastDirection), Requested(pressed))
      ensures lastDirection == if action.Move? then Some(action.direction) else old(lastDirection)
    {
      var requested := Requested(pressed);
      if requested.Some? {
        var current := OrUp(lastDirection);
        if IsOpposite(current, requested.value) {
          action := Empty;
        } else {
          lastDirection := Some(requested.value);
          action := Move(requested.value);
        }
      } else {
        action := Empty;
      }
    }
  }

  /** The actions a client sends over a run, one for each tick's set of pressed keys. */
  function Sent(keys: seq<set<Key>>): seq<Inputs> {
    if keys == [] then []
    else
      var n := |keys| - 1;
      var before := Sent(keys[..n]);
      before + [Accept(LastAccepted(keys[..n]), Requested(keys[n]))]
  }

  function LastAccepted(keys: seq<set<Key>>): Option<Direction> {
    if keys == [] then None
    else
      var n := |keys| - 1;
      var last := LastAccepted(keys[..n]);
      var action := Accept(last, Requested(keys[n]));
      if action.Move? then Some(action.direction) else last
  }

  /** Whatever keys are pressed, the filter lets no reversal through. */
  lemma {:induction false} FilterIsSound(keys: seq<set<Key>>)
    ensures |Sent(keys)| == |keys|
    ensures NoReversal(Up, Sent(keys))
    ensures LastDirection(Up, Sent(keys)) == OrUp(LastAccepted(keys))
  {
    if keys != [] {
      var n := |keys| - 1;
      FilterIsSound(keys[..n]);
      assert Sent(keys)[..n] == Sent(keys[..n]);
    }
  }

  /** And it drops nothing else: every request goes out unless it reverses the direction sent last. */
  lemma FilterDropsOnlyReversals(keys: seq<set<Key>>, n: nat)
    requires n < |keys|
    ensures |Sent(keys)| == |keys|
    ensures forall d :: Sent(keys)[n] == Move(d) <==>
      Requested(keys[n]) == Some(d) && !IsOpposite(LastDirection(Up, Sent(keys)[..n]), d)
    ensures Sent(keys)[n].Move? || Sent(keys)[n].Empty?
  {
    FilterIsSound(keys);
    SentPrefix(keys, n);
    FilterIsSound(keys[..n]);
  }

  lemma {:induction false} SentPrefix(keys: seq<set<Key>>, n: nat)
    requires n < |keys|
    ensures |Sent(keys)| == |keys| && Sent(keys)[..n] == Sent(keys[..n])
    ensures Sent(keys)[n] == Accept(LastAccepted(keys[..n]), Requested(keys[n]))
  {
    var before := keys[..|keys| - 1];
    SentLength(keys);
    SentLength(before);
    if n < |before| {
      SentPrefix(before, n);
      assert before[..n] == keys[..n];
      SameStart(Sent(before), Accept(LastAccepted(before), Requested(keys[|before|])), n);
    }
  }

  lemma SameStart(sent: seq<Inputs>, last: Inputs, n: nat)
    requires n < |sent|
    ensures (sent + [last])[..n] == sent[..n] && (sent + [last])[n] == sent[n]
  {
  }

  lemma {:induction false} SentLength(keys: seq<set<Key>>)
    ensures |Sent(keys)| == |keys|
  {
    if keys != [] {
      SentLength(keys[..|keys| - 1]);
    }
  }

  /** Which way each key leads: a key pressed alone moves the head ten units, W and the arrow up upwards, and so on;
      unless it reverses the direction accepted last, and then the head stays. */
  lemma KeyMovesHead(key: Key, last: Option<Direction>, p: Vec2)
    ensures var after := MoveHead(p, Accept(last, Requested({key})));
            match key
            case KeyW => after == (if last == Some(Down) then p else Vec2(p.x, p.y + 10.0))
            case ArrowUp => after == (if last == Some(Down) then p else Vec2(p.x, p.y + 10.0))
            case KeyS => after == (if last == Some(Up) || last.None? then p else Vec2(p.x, p.y - 10.0))
            case ArrowDown => after == (if last == Some(Up) || last.None? then p else Vec2(p.x, p.y - 10.0))
            case KeyA => after == (if last == Some(Right) then p else Vec2(p.x - 10.0, p.y))
            case ArrowLeft => after == (if last == Some(Right) then p else Vec2(p.x - 10.0, p.y))
            case KeyD => after == (if last == Some(Left) then p else Vec2(p.x + 10.0, p.y))
            case ArrowRight => after == (if last == Some(Left) then p else Vec2(p.x + 10.0, p.y))
            case OtherKey => after == p
  {
  }

  /** With several keys pressed, up goes before down, down before left and left before right. */
  lemma KeyPriority(pressed: set<Key>)
    ensures Requested(pressed) == Requested({KeyW}) <==> KeyW in pressed || ArrowUp in pressed
    ensures KeyW !in pressed && ArrowUp !in pressed ==>
      && (Requested(pressed) == Requested({KeyS}) <==> KeyS in pressed || ArrowDown in pressed)
      && (KeyS !in pressed && ArrowDown !in pressed ==>
            && (Requested(pressed) == Requested({KeyA}) <==> KeyA in pressed || ArrowLeft in pressed)
            && (KeyA !in pressed && ArrowLeft !in pressed ==>
                  (Requested(pressed) == Requested({KeyD}) <==> KeyD in pressed || ArrowRight in pressed)))
    ensures Requested(pressed).None? <==> pressed <= {OtherKey}
  {
    assert KeyW in {KeyW} && KeyS in {KeyS} && KeyA in {KeyA} && KeyD in {KeyD};
    if Requested(pressed).None? {
      forall k | k in pressed ensures k == OtherKey {
        match k
        case OtherKey =>
        case _ =>
      }
    }
  }

  /** So no key pattern makes the tail update panic, and the front label is the direction accepted last. */
  lemma EveryKeyPatternIsSafe(keys: seq<set<Key>>)
    ensures var r := Run(Spawned(), Sent(keys), TAIL_LENGTH);
            && r.Some?
            && IsSnake(r.value.head, r.value.points, TAIL_LENGTH)
            && r.value.points[0].dir == OrUp(LastAccepted(keys))
            && SegmentLength(r.value.head, r.value.points[0].pos) >= MOVE_SPEED
            && NoDiagonal(r.value.head, r.value.points)
  {
    FilterIsSound(keys);
    var start, inputs := Spawned(), Sent(keys);
    assert start.points[1..] == [];
    TailTracesHead(start, inputs, TAIL_LENGTH);
    SnakeHasNoDiagonal(Run(start, inputs, TAIL_LENGTH).value);
  }

  ghost predicate NoDiagonal(h: Vec2, pts: seq<Inflection>) {
    && (pts != [] ==> Aligned(h, pts[0].pos))
    && forall i :: 0 < i < |pts| ==> Aligned(pts[i - 1].pos, pts[i].pos)
  }

  lemma SnakeHasNoDiagonal(snake: Snake)
    requires IsSnake(snake.head, snake.points, TAIL_LENGTH)
    ensures SegmentLength(snake.head, snake.points[0].pos) >= MOVE_SPEED
    ensures NoDiagonal(snake.head, snake.points)
  {
    if |snake.points| == 1 {
      assert Length(snake.points[0].pos, snake.points[1..]) == 0.0;
    }
    ChainIsAligned(snake.head, snake.points);
  }

  lemma {:induction false} ChainIsAligned(h: Vec2, pts: seq<Inflection>)
    requires Chain(h, pts)
    ensures NoDiagonal(h, pts)
    decreases |pts|
  {
    if pts != [] {
      ChainIsAligned(pts[0].pos, pts[1..]);
      forall i | 0 < i < |pts| ensures Aligned(pts[i - 1].pos, pts[i].pos) {
        if i > 1 {
          assert pts[1..][i - 1] == pts[i] && pts[1..][i - 2] == pts[i - 1];
        }
      }
    }
  }

  /** The filter only protects a run that arrives whole: drop the first of two accepted inputs and the
      server's snake shrinks. */
  lemma LostInputBreaksTail()
    ensures NoReversal(Up, [Move(Right), Move(Down)])
    ensures !NoReversal(Up, [Move(Down)])
    ensures var r := Run(Spawned(), [Move(Down)], TAIL_LENGTH);
            r.Some? && Length(r.value.head, r.value.points) == TAIL_LENGTH - MOVE_SPEED
  {
    var inputs := [Move(Right), Move(Down)];
    assert inputs[..1] == [Move(Right)] && inputs[..1][..0] == [] && [Move(Down)][..0] == [];
    var start := Spawned();
    assert start.points[1..] == [];
    ReversalBreaksTail(start.head, start.points, Down, TAIL_LENGTH);
    assert Run(start, [Move(Down)], TAIL_LENGTH) == Step(start, Move(Down), TAIL_LENGTH);
  }
}
