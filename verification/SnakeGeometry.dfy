/** Directions and axis-aligned segments of the snake example. */
module SnakeGeometry {
  import opened Options
  import opened Vectors

  datatype Direction = Up | Down | Left | Right

  predicate Aligned(a: Vec2, b: Vec2) {
    a.x == b.x || a.y == b.y
  }

  /** Every segment the example builds is aligned with an axis; on those, and on no other, this is
      the Euclidean length (`SegmentLengthIsEuclidean`). */
  function SegmentLength(from: Vec2, to: Vec2): real {
    Abs(from.x - to.x) + Abs(from.y - to.y)
  }

  predicate IsOpposite(a: Direction, b: Direction) {
    match (a, b)
    case (Up, Down) => true
    case (Down, Up) => true
    case (Left, Right) => true
    case (Right, Left) => true
    case _ => false
  }

  function FromPoints(from: Vec2, to: Vec2): Option<Direction> {
    if from.x != to.x && from.y != to.y then None
    else if from.y < to.y then Some(Up)
    else if from.y > to.y then Some(Down)
    else if from.x > to.x then Some(Left)
    else if from.x < to.x then Some(Right)
    else None
  }

  /** The point that becomes `head` after travelling `length` in direction `d`. */
  function GetTail(d: Direction, head: Vec2, length: real): Vec2 {
    match d
    case Up => Vec2(head.x, head.y - length)
    case Down => Vec2(head.x, head.y + length)
    case Left => Vec2(head.x + length, head.y)
    case Right => Vec2(head.x - length, head.y)
  }

  /** Result of `is_between`: the two last cases are the `0.0 / 0.0` and the `unreachable!` of the code. */
  datatype Between = Outside | Ratio(ratio: real) | NotANumber | Unreachable

  function Fraction(num: real, den: real): Between {
    if den == 0.0 then NotANumber else Ratio(num / den)
  }

  function IsBetween(p: Vec2, a: Vec2, b: Vec2): Between {
    if a.x == b.x then
      if p.x != a.x then Outside
      else if a.y < b.y then
        if a.y <= p.y <= b.y then Fraction(p.y - a.y, b.y - a.y) else Outside
      else
        if b.y <= p.y <= a.y then Fraction(a.y - p.y, a.y - b.y) else Outside
    else if a.y == b.y then
      if p.y != a.y then Outside
      else if a.x < b.x then
        if a.x <= p.x <= b.x then Fraction(p.x - a.x, b.x - a.x) else Outside
      else
        if b.x <= p.x <= a.x then Fraction(a.x - p.x, a.x - b.x) else Outside
    else Unreachable
  }

  lemma SquareOfSum(u: real, v: real)
    ensures (u + v) * (u + v) == u * u + v * v + 2.0 * (u * v)
  {
  }

  lemma SegmentLengthIsEuclidean(a: Vec2, b: Vec2)
    ensures SegmentLength(a, b) >= 0.0
    ensures SegmentLength(a, b) * SegmentLength(a, b)
            == (a.x - b.x) * (a.x - b.x) + (a.y - b.y) * (a.y - b.y)
            <==> Aligned(a, b)
  {
    var u, v := Abs(a.x - b.x), Abs(a.y - b.y);
    SquareOfSum(u, v);
    assert u * u == (a.x - b.x) * (a.x - b.x);
    assert v * v == (a.y - b.y) * (a.y - b.y);
    assert u * v == 0.0 <==> u == 0.0 || v == 0.0;
  }

  /** Travelling back `length` along `d` and asking for the direction again gives `d`. */
  lemma FromPointsInvertsGetTail(d: Direction, head: Vec2, length: real)
    ensures Aligned(head, GetTail(d, head, length))
    ensures SegmentLength(head, GetTail(d, head, length)) == Abs(length)
    ensures FromPoints(GetTail(d, head, length), head) == Some(d) <==> length > 0.0
  {
  }

  /** There is a direction from one point to another exactly if the first one lies straight behind the second one. */
  lemma FromPointsIff(from: Vec2, to: Vec2, d: Direction)
    ensures FromPoints(from, to) == Some(d) <==> from != to && from == GetTail(d, to, SegmentLength(from, to))
  {
  }

  /** Going back along one direction and then along the other leads nowhere exactly if they are opposite. */
  lemma OppositeIff(a: Direction, b: Direction, p: Vec2, length: real)
    requires length > 0.0
    ensures IsOpposite(a, b) <==> GetTail(a, GetTail(b, p, length), length) == p
  {
  }

  predicate Among(r: real, s: real, t: real) {
    s <= r <= t || t <= r <= s
  }

  /** The point lies in the rectangle that the segment spans. */
  predicate Within(p: Vec2, a: Vec2, b: Vec2) {
    Among(p.x, a.x, b.x) && Among(p.y, a.y, b.y)
  }

  /** When `is_between` finds, misses, divides zero by zero and panics, for any three points. */
  lemma IsBetweenCases(p: Vec2, a: Vec2, b: Vec2)
    ensures IsBetween(p, a, b).Unreachable? <==> !Aligned(a, b)
    ensures IsBetween(p, a, b).Outside? <==> Aligned(a, b) && !Within(p, a, b)
    ensures IsBetween(p, a, b).NotANumber? <==> p == a == b
    ensures IsBetween(p, a, b).Ratio? <==> Aligned(a, b) && a != b && Within(p, a, b)
  {
  }

  /** The part of a segment not yet covered at `ratio`. */
  function Uncovered(ratio: real, segment: real): real {
    (1.0 - ratio) * segment
  }

  /** On a proper segment `IsBetween` finds every point, and its ratio is the share of the segment
      covered when coming from the far end. */
  lemma IsBetweenFinds(p: Vec2, d: Direction, near: Vec2, length: real, s: real)
    requires 0.0 <= s <= length && length > 0.0 && p == GetTail(d, near, s)
    ensures var r := IsBetween(p, GetTail(d, near, length), near);
            && r.Ratio? && 0.0 <= r.ratio <= 1.0
            && Uncovered(r.ratio, length) == s
            && (r.ratio == 0.0 <==> s == length)
  {
    var r := IsBetween(p, GetTail(d, near, length), near);
    assert r == Ratio((length - s) / length);
    RatioArithmetic(s, length);
  }

  /** And it finds nothing else. */
  lemma IsBetweenOnlyFinds(p: Vec2, d: Direction, near: Vec2, length: real) returns (s: real)
    requires length > 0.0
    ensures var r := IsBetween(p, GetTail(d, near, length), near);
            && (r.Ratio? || r.Outside?)
            && (r.Ratio? ==> 0.0 <= s <= length && p == GetTail(d, near, s))
  {
    s := match d case Up => near.y - p.y case Down => p.y - near.y case Left => p.x - near.x case Right => near.x - p.x;
  }

  lemma RatioArithmetic(s: real, length: real)
    requires 0.0 <= s <= length && length > 0.0
    ensures Uncovered((length - s) / length, length) == s
    ensures 0.0 <= (length - s) / length <= 1.0
    ensures (length - s) / length == 0.0 <==> s == length
  {
    var q := (length - s) / length;
    assert q * length == length - s;
    assert (1.0 - q) * length == length - q * length;
  }
}
