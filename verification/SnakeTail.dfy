/** The tail of a snake, and cutting it back to a fixed arc length. */
module SnakeTail {
  import opened Vectors
  import opened SnakeGeometry
  import opened SnakeChain

  /** What `shorten_back` leaves of the points after the first one, `rest` units being still free. */
  function ShortenRest(prev: Vec2, pts: seq<Inflection>, rest: real): seq<Inflection>
    decreases |pts|
  {
    if pts == [] then []
    else
      var segment := SegmentLength(prev, pts[0].pos);
      if segment <= rest then [pts[0]] + ShortenRest(pts[0].pos, pts[1..], rest - segment)
      else if rest > 0.0 then [Inflection(GetTail(pts[0].dir, prev, rest), pts[0].dir)]
      else []
  }

  function Shorten(head: Vec2, pts: seq<Inflection>, length: real): seq<Inflection>
    requires pts != []
  {
    var segment := SegmentLength(head, pts[0].pos);
    if segment >= length then [Inflection(GetTail(pts[0].dir, head, length), pts[0].dir)]
    else [pts[0]] + ShortenRest(pts[0].pos, pts[1..], length - segment)
  }

  class TailPoints {
    var points: seq<Inflection>

    constructor (points: seq<Inflection>)
      ensures this.points == points
    {
      this.points := points;
    }

    /** Keeps the first `length` units of the tail. The front point must exist: the code unwraps it. */
    method ShortenBack(head: Vec2, length: real)
      requires points != []
      modifies this
      ensures points == Shorten(head, old(points), length)
    {
      var currentLength := SegmentLength(head, points[0].pos);
      if currentLength >= length {
        var direction := points[0].dir;
        points := [Inflection(GetTail(direction, head, length), direction)];
        return;
      }
      ghost var before := points;
      assert points[..1] == [points[0]];
      for i := 1 to |points|
        invariant points == before
        invariant Shorten(head, before, length)
               == before[..i] + ShortenRest(before[i - 1].pos, before[i..], length - currentLength)
      {
        var segment := SegmentLength(points[i - 1].pos, points[i].pos);
        ShortenStep(before, i, length - currentLength);
        currentLength := currentLength + segment;
        if currentLength > length {
          var direction := points[i].dir;
          var newSegment := segment - (currentLength - length);
          if newSegment > 0.0 {
            var newPoint := GetTail(direction, points[i - 1].pos, newSegment);
            points := points[..i] + [Inflection(newPoint, direction)];
          } else {
            points := points[..i];
          }
          return;
        }
      }
    }
  }

  /** One iteration of the loop. */
  lemma ShortenStep(pts: seq<Inflection>, i: nat, rest: real)
    requires 0 < i < |pts|
    ensures var segment := SegmentLength(pts[i - 1].pos, pts[i].pos);
            var cut := pts[..i] + ShortenRest(pts[i - 1].pos, pts[i..], rest);
            if segment <= rest then cut == pts[..i + 1] + ShortenRest(pts[i].pos, pts[i + 1..], rest - segment)
            else if rest > 0.0
            then cut == pts[..i] + [Inflection(GetTail(pts[i].dir, pts[i - 1].pos, rest), pts[i].dir)]
            else cut == pts[..i]
  {
    assert pts[i..][0] == pts[i] && pts[i..][1..] == pts[i + 1..];
    assert pts[..i] + [pts[i]] == pts[..i + 1];
    assert pts[..i] + [] == pts[..i];
  }

  function Min(a: real, b: real): real {
    if a < b then a else b
  }

  /** The chain `cut` is the first part of the curve of `pts`. */
  ghost predicate IsStart(h: Vec2, cut: seq<Inflection>, pts: seq<Inflection>) {
    Chain(h, cut) && forall s :: 0.0 <= s <= Length(h, cut) ==> At(h, cut, s) == At(h, pts, s)
  }

  lemma StartCons(h: Vec2, p: Inflection, cut: seq<Inflection>, pts: seq<Inflection>)
    requires Linked(h, p) && IsStart(p.pos, cut, pts)
    ensures IsStart(h, [p] + cut, [p] + pts)
    ensures Length(h, [p] + cut) == SegmentLength(h, p.pos) + Length(p.pos, cut)
  {
    assert ([p] + cut)[1..] == cut && ([p] + pts)[1..] == pts;
  }

  lemma StartOfSegment(h: Vec2, pts: seq<Inflection>, x: real)
    requires pts != [] && 0.0 <= x <= SegmentLength(h, pts[0].pos)
    ensures var cut := [Inflection(GetTail(pts[0].dir, h, x), pts[0].dir)]; IsStart(h, cut, pts) && Length(h, cut) == x
  {
    var cut := [Inflection(GetTail(pts[0].dir, h, x), pts[0].dir)];
    assert cut[1..] == [];
  }

  lemma {:induction false} ShortenRestTakesPrefix(prev: Vec2, pts: seq<Inflection>, rest: real)
    requires Chain(prev, pts) && rest >= 0.0
    ensures var cut := ShortenRest(prev, pts, rest);
            IsStart(prev, cut, pts) && Length(prev, cut) == Min(rest, Length(prev, pts))
    decreases |pts|
  {
    AtHead(prev, pts);
    if pts != [] {
      var segment := SegmentLength(prev, pts[0].pos);
      if segment <= rest {
        ShortenRestTakesPrefix(pts[0].pos, pts[1..], rest - segment);
        StartCons(prev, pts[0], ShortenRest(pts[0].pos, pts[1..], rest - segment), pts[1..]);
        assert pts == [pts[0]] + pts[1..];
      } else if rest > 0.0 {
        StartOfSegment(prev, pts, rest);
      }
    }
  }

  /** `shorten_back` is "the first `length` units of the polyline": the result has exactly that length,
      or the whole length of a shorter chain, and is the same curve as the old chain as far as it goes. */
  lemma ShortenTakesPrefix(head: Vec2, pts: seq<Inflection>, length: real)
    requires pts != [] && Chain(head, pts) && length >= 0.0
    ensures var cut := Shorten(head, pts, length);
            && cut != [] && cut[0].dir == pts[0].dir
            && Chain(head, cut)
            && Length(head, cut) == Min(length, Length(head, pts))
            && forall s :: 0.0 <= s <= Length(head, cut) ==> At(head, cut, s) == At(head, pts, s)
  {
    var segment := SegmentLength(head, pts[0].pos);
    if segment >= length {
      StartOfSegment(head, pts, length);
    } else {
      ShortenRestTakesPrefix(pts[0].pos, pts[1..], length - segment);
      StartCons(head, pts[0], ShortenRest(pts[0].pos, pts[1..], length - segment), pts[1..]);
      assert pts == [pts[0]] + pts[1..];
    }
  }

  lemma {:induction false} ShortenRestKeepsPoints(prev: Vec2, pts: seq<Inflection>, rest: real)
    requires rest >= 0.0
    ensures var cut := ShortenRest(prev, pts, rest);
            && |cut| <= |pts|
            && (cut != [] ==>
                  var last := |cut| - 1;
                  && cut[..last] == pts[..last] && cut[last].dir == pts[last].dir
                  && Length(prev, pts[..last]) <= rest)
    decreases |pts|
  {
    if pts != [] && SegmentLength(prev, pts[0].pos) <= rest {
      var left := rest - SegmentLength(prev, pts[0].pos);
      ShortenRestKeepsPoints(pts[0].pos, pts[1..], left);
      KeptCons(prev, pts[0], ShortenRest(pts[0].pos, pts[1..], left), pts[1..], left);
    }
  }

  lemma KeptCons(prev: Vec2, p: Inflection, cut: seq<Inflection>, pts: seq<Inflection>, rest: real)
    requires |cut| <= |pts| && rest >= 0.0
    requires cut != [] ==>
      var last := |cut| - 1;
      cut[..last] == pts[..last] && cut[last].dir == pts[last].dir && Length(p.pos, pts[..last]) <= rest
    ensures var longer, all, last := [p] + cut, [p] + pts, |cut|;
            && longer[..last] == all[..last] && longer[last].dir == all[last].dir
            && Length(prev, all[..last]) <= rest + SegmentLength(prev, p.pos)
  {
    if cut != [] {
      assert ([p] + cut)[..|cut|] == [p] + cut[..|cut| - 1];
      assert ([p] + pts)[..|cut|] == [p] + pts[..|cut| - 1];
      assert ([p] + pts)[..|cut|][1..] == pts[..|cut| - 1];
    }
  }

  /** The cut keeps the points of the tail but for the last one kept, whose label stays, and none that lies further back
      than the length: it adds no point. */
  lemma ShortenKeepsPoints(head: Vec2, pts: seq<Inflection>, length: real)
    requires pts != [] && length > 0.0
    ensures var cut := Shorten(head, pts, length);
            && 0 < |cut| <= |pts|
            && var last := |cut| - 1;
            && cut[..last] == pts[..last] && cut[last].dir == pts[last].dir
            && Length(head, pts[..last]) <= length
  {
    var segment := SegmentLength(head, pts[0].pos);
    if segment < length {
      ShortenRestKeepsPoints(pts[0].pos, pts[1..], length - segment);
      KeptCons(head, pts[0], ShortenRest(pts[0].pos, pts[1..], length - segment), pts[1..], length - segment);
      assert pts == [pts[0]] + pts[1..];
    } else {
      assert Shorten(head, pts, length)[..0] == pts[..0] == [];
    }
  }

  lemma {:induction false} ShortenRestKeepsShort(prev: Vec2, pts: seq<Inflection>, rest: real)
    requires Length(prev, pts) <= rest
    ensures ShortenRest(prev, pts, rest) == pts
    decreases |pts|
  {
    if pts != [] {
      ShortenRestKeepsShort(pts[0].pos, pts[1..], rest - SegmentLength(prev, pts[0].pos));
    }
  }

  /** A chain that already fits is not touched: the cut is idempotent. */
  lemma ShortenKeepsShort(head: Vec2, pts: seq<Inflection>, length: real)
    requires pts != [] && Chain(head, pts) && Length(head, pts) <= length
    requires |pts| > 1 ==> SegmentLength(head, pts[0].pos) < length
    ensures Shorten(head, pts, length) == pts
  {
    var segment := SegmentLength(head, pts[0].pos);
    if segment < length {
      ShortenRestKeepsShort(pts[0].pos, pts[1..], length - segment);
    }
  }

  lemma ShortenIdempotent(head: Vec2, pts: seq<Inflection>, length: real)
    requires pts != [] && Chain(head, pts) && length >= 0.0
    ensures Shorten(head, Shorten(head, pts, length), length) == Shorten(head, pts, length)
  {
    ShortenTakesPrefix(head, pts, length);
    ShortenKeepsShort(head, Shorten(head, pts, length), length);
  }
}
