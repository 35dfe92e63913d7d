/** A snake as a curve: a head followed by inflection points, walked from the head to the tail end. */
module SnakeChain {
  import opened Vectors
  import opened SnakeGeometry

  /** An inflection point and the direction of travel from it towards the previous point. */
  datatype Inflection = Inflection(pos: Vec2, dir: Direction)

  /** `p` lies straight behind `h`, and its label is the direction from `p` to `h`. */
  ghost predicate Linked(h: Vec2, p: Inflection) {
    p.pos == GetTail(p.dir, h, SegmentLength(h, p.pos))
  }

  ghost predicate Chain(h: Vec2, pts: seq<Inflection>)
    decreases |pts|
  {
    pts == [] || (Linked(h, pts[0]) && Chain(pts[0].pos, pts[1..]))
  }

  function Length(h: Vec2, pts: seq<Inflection>): (r: real)
    ensures r >= 0.0
    decreases |pts|
  {
    if pts == [] then 0.0 else SegmentLength(h, pts[0].pos) + Length(pts[0].pos, pts[1..])
  }

  /** The point of the curve at arc length `s` behind the head. */
  function At(h: Vec2, pts: seq<Inflection>, s: real): Vec2
    decreases |pts|
  {
    if pts == [] then h
    else
      var first := SegmentLength(h, pts[0].pos);
      if s <= first then GetTail(pts[0].dir, h, s) else At(pts[0].pos, pts[1..], s - first)
  }

  /** The last inflection point, or the head of an empty chain. */
  function End(h: Vec2, pts: seq<Inflection>): Vec2 {
    if pts == [] then h else pts[|pts| - 1].pos
  }

  lemma {:induction false} AtHead(h: Vec2, pts: seq<Inflection>)
    ensures At(h, pts, 0.0) == h
  {
  }

  lemma {:induction false} ChainConcat(h: Vec2, pre: seq<Inflection>, post: seq<Inflection>)
    ensures Chain(h, pre + post) <==> Chain(h, pre) && Chain(End(h, pre), post)
    ensures Length(h, pre + post) == Length(h, pre) + Length(End(h, pre), post)
    decreases |pre|
  {
    if pre == [] {
      assert pre + post == post;
    } else {
      assert (pre + post)[1..] == pre[1..] + post;
      ChainConcat(pre[0].pos, pre[1..], post);
    }
  }

  lemma AtCons(h: Vec2, p: Inflection, pts: seq<Inflection>, s: real)
    requires s >= 0.0 && Linked(h, p)
    ensures At(h, [p] + pts, SegmentLength(h, p.pos) + s) == At(p.pos, pts, s)
  {
    assert ([p] + pts)[1..] == pts;
    if s == 0.0 {
      AtHead(p.pos, pts);
    }
  }

  /** Past the first points, the curve of a chain is the curve of what follows them. */
  lemma {:induction false} AtConcat(h: Vec2, pre: seq<Inflection>, post: seq<Inflection>, s: real)
    requires s >= 0.0
    requires Chain(h, pre + post)
    ensures At(h, pre + post, Length(h, pre) + s) == At(End(h, pre), post, s)
    decreases |pre|
  {
    if pre == [] {
      assert pre + post == post;
    } else {
      assert (pre + post)[1..] == pre[1..] + post && pre + post == [pre[0]] + (pre[1..] + post);
      var rest := Length(pre[0].pos, pre[1..]) + s;
      AtConcat(pre[0].pos, pre[1..], post, s);
      AtCons(h, pre[0], pre[1..] + post, rest);
      assert Length(h, pre) + s == SegmentLength(h, pre[0].pos) + rest;
    }
  }

  /** Up to the length of its first points, the curve only depends on those. */
  lemma {:induction false} AtPrefix(h: Vec2, pre: seq<Inflection>, post: seq<Inflection>, s: real)
    requires pre != []
    requires 0.0 <= s <= Length(h, pre)
    ensures At(h, pre + post, s) == At(h, pre, s)
    decreases |pre|
  {
    assert (pre + post)[1..] == pre[1..] + post;
    var first := SegmentLength(h, pre[0].pos);
    if s > first {
      AtPrefix(pre[0].pos, pre[1..], post, s - first);
    }
  }

  /** Moving the head of a chain forward in the direction of its first segment prolongs the curve. */
  lemma Advance(h: Vec2, pts: seq<Inflection>, x: real, h2: Vec2)
    requires pts != [] && Chain(h, pts)
    requires x >= 0.0 && h == GetTail(pts[0].dir, h2, x)
    ensures Chain(h2, pts)
    ensures SegmentLength(h2, pts[0].pos) == SegmentLength(h, pts[0].pos) + x
    ensures Length(h2, pts) == Length(h, pts) + x
    ensures forall s :: 0.0 <= s <= x ==> At(h2, pts, s) == GetTail(pts[0].dir, h2, s)
    ensures forall s :: 0.0 <= s ==> At(h2, pts, x + s) == At(h, pts, s)
  {
  }

  /** Marking the head itself as an inflection point does not change the curve. */
  lemma MarkHead(h: Vec2, pts: seq<Inflection>, d: Direction)
    requires Chain(h, pts)
    ensures Chain(h, [Inflection(h, d)] + pts)
    ensures Length(h, [Inflection(h, d)] + pts) == Length(h, pts)
    ensures forall s :: 0.0 <= s ==> At(h, [Inflection(h, d)] + pts, s) == At(h, pts, s)
  {
    var marked := [Inflection(h, d)] + pts;
    assert marked[1..] == pts;
    AtHead(h, pts);
  }
}
