/**
  `contour_to_commands`: turn one contour (a list of grid points) into a
  drawing program. The program lowers the pen, walks from the first point
  to every later point that is a unit 4-step away from the current cursor
  (turning to face the step, then driving `F step`), and lifts the pen.
  A point that is not a unit step from the cursor is skipped and the cursor
  stays where it was. The heading starts at 0 for every contour.
 */
module Translate {
  import opened Commands
  import opened Compass

  /** One accepted step of the walk: the point reached and the heading
      of the step that reaches it. */
  datatype Move = Move(to: Point, heading: int)

  /** Where the walk stands before taking move `i` of `ms`. */
  function Before(cursor: Point, ms: seq<Move>, i: int): Point
    requires 0 <= i < |ms|
  {
    if i == 0 then cursor else ms[i - 1].to
  }

  /** Every move of `ms` is a unit step from where the walk stood, and its
      heading is the `DIRS` entry of that step. */
  predicate Chained(cursor: Point, ms: seq<Move>) {
    forall i :: 0 <= i < |ms| ==> Dirs(Sub(ms[i].to, Before(cursor, ms, i))) == Some(ms[i].heading)
  }

  /** The steps the walk takes from `cursor` through `pts`, stated without
      reference to commands: a point is taken exactly when it is a unit
      step from the last point taken. */
  function Accepted(cursor: Point, pts: seq<Point>): (r: seq<Move>)
    ensures |r| <= |pts|
    ensures forall i :: 0 <= i < |r| ==> IsHeading(r[i].heading) && r[i].to in pts
    ensures Chained(cursor, r)
    decreases |pts|
  {
    if |pts| == 0 then []
    else if IsUnitStep(Sub(pts[0], cursor)) then
      var m := Move(pts[0], Dirs(Sub(pts[0], cursor)).value);
      var rest := Accepted(pts[0], pts[1..]);
      ChainedCons(cursor, m, rest);
      MovesCons(m, rest, pts);
      [m] + rest
    else
      Accepted(cursor, pts[1..])
  }

  /** The first point that is a unit step from the cursor is always taken,
      whatever came before it, and the walk goes on from that point with
      the points after it, in contour order. */
  lemma {:induction false} AcceptedFirst(cursor: Point, pts: seq<Point>, j: int)
    requires 0 <= j < |pts| && IsUnitStep(Sub(pts[j], cursor))
    requires forall k :: 0 <= k < j ==> !IsUnitStep(Sub(pts[k], cursor))
    ensures |Accepted(cursor, pts)| > 0
    ensures Accepted(cursor, pts)[0] == Move(pts[j], Dirs(Sub(pts[j], cursor)).value)
    ensures Accepted(cursor, pts)[1..] == Accepted(pts[j], pts[j + 1..])
    decreases j
  {
    if j > 0 {
      assert !IsUnitStep(Sub(pts[0], cursor));
      assert pts[1..][j - 1] == pts[j];
      assert pts[1..][j - 1 + 1..] == pts[j + 1..];
      AcceptedFirst(cursor, pts[1..], j - 1);
    }
  }

  /** With no unit step from the cursor left, nothing more is taken. */
  lemma {:induction false} AcceptedNone(cursor: Point, pts: seq<Point>)
    requires forall k :: 0 <= k < |pts| ==> !IsUnitStep(Sub(pts[k], cursor))
    ensures Accepted(cursor, pts) == []
    decreases |pts|
  {
    if |pts| > 0 {
      assert !IsUnitStep(Sub(pts[0], cursor));
      AcceptedNone(cursor, pts[1..]);
    }
  }

  /** A contour in depth-first order loses points. In an all-black 3 by 3
      block with corner `o`, the edge pixels come out in the order below
      (offsets from `o`). From (1, 2) the walk skips (1, 0), (2, 0) and
      (2, 1), which are not unit steps away, so only an L from (0, 0)
      through (0, 2) to (2, 2) is drawn. */
  lemma DepthFirstOrderSkips(o: Point)
    ensures Accepted(o, [Add(o, Point(0, 1)), Add(o, Point(0, 2)), Add(o, Point(1, 2)), Add(o, Point(1, 0)),
                         Add(o, Point(2, 0)), Add(o, Point(2, 1)), Add(o, Point(2, 2))])
            == [Move(Add(o, Point(0, 1)), 90), Move(Add(o, Point(0, 2)), 90),
                Move(Add(o, Point(1, 2)), 0), Move(Add(o, Point(2, 2)), 0)]
  {
    var p0, p1, p2 := Add(o, Point(0, 1)), Add(o, Point(0, 2)), Add(o, Point(1, 2));
    var skipped := [Add(o, Point(1, 0)), Add(o, Point(2, 0)), Add(o, Point(2, 1)), Add(o, Point(2, 2))];
    DepthFirstTail(o);
    var t2 := [p2] + skipped;
    var t1 := [p1] + t2;
    var t0 := [p0] + t1;
    assert Sub(p2, p1) == Point(1, 0) && Sub(p1, p0) == Point(0, 1) && Sub(p0, o) == Point(0, 1);
    assert t2[1..] == skipped && t1[1..] == t2 && t0[1..] == t1;
    assert Accepted(p1, t2) == [Move(p2, 0), Move(skipped[3], 0)];
    assert Accepted(p0, t1) == [Move(p1, 90)] + Accepted(p1, t2);
    assert Accepted(o, t0) == [Move(p0, 90)] + Accepted(p0, t1);
    assert t0 == [p0, p1, p2, skipped[0], skipped[1], skipped[2], skipped[3]];
  }

  /** The last four points of that block: only (2, 2) is a unit step from
      (1, 2). */
  lemma DepthFirstTail(o: Point)
    ensures Accepted(Add(o, Point(1, 2)), [Add(o, Point(1, 0)), Add(o, Point(2, 0)), Add(o, Point(2, 1)), Add(o, Point(2, 2))])
            == [Move(Add(o, Point(2, 2)), 0)]
  {
    var c := Add(o, Point(1, 2));
    var pts := [Add(o, Point(1, 0)), Add(o, Point(2, 0)), Add(o, Point(2, 1)), Add(o, Point(2, 2))];
    AcceptedNone(pts[3], pts[4..]);
    AcceptedFirst(c, pts, 3);
    assert Sub(pts[3], c) == Point(1, 0);
    var a := Accepted(c, pts);
    assert a == [a[0]] + a[1..];
  }

  lemma MovesCons(m: Move, rest: seq<Move>, pts: seq<Point>)
    requires |pts| > 0 && m.to == pts[0] && IsHeading(m.heading)
    requires forall i :: 0 <= i < |rest| ==> IsHeading(rest[i].heading) && rest[i].to in pts[1..]
    ensures forall i :: 0 <= i < |[m] + rest| ==> IsHeading(([m] + rest)[i].heading) && ([m] + rest)[i].to in pts
  {
    var r := [m] + rest;
    forall i | 0 <= i < |r|
      ensures IsHeading(r[i].heading) && r[i].to in pts
    {
      if i > 0 {
        assert r[i] == rest[i - 1];
        var j :| 0 <= j < |pts[1..]| && pts[1..][j] == r[i].to;
        assert pts[j + 1] == r[i].to;
      }
    }
  }

  lemma ChainedCons(cursor: Point, m: Move, rest: seq<Move>)
    requires Dirs(Sub(m.to, cursor)) == Some(m.heading)
    requires Chained(m.to, rest)
    ensures Chained(cursor, [m] + rest)
  {
    var r := [m] + rest;
    forall i | 0 <= i < |r|
      ensures Dirs(Sub(r[i].to, Before(cursor, r, i))) == Some(r[i].heading)
    {
      if i > 0 {
        assert r[i] == rest[i - 1];
        assert Before(cursor, r, i) == Before(m.to, rest, i - 1);
      }
    }
  }

  /** The loop of `contour_to_commands`, from the commands emitted so far,
      the cursor, the tracked heading and the points still to visit. */
  function WalkFrom(commands: seq<Cmd>, cursor: Point, direction: int, pts: seq<Point>, step: int): seq<Cmd>
    decreases |pts|
  {
    if |pts| == 0 then commands
    else
      match Dirs(Sub(pts[0], cursor))
      case None => WalkFrom(commands, cursor, direction, pts[1..], step)
      case Some(target) =>
        var (turned, heading) := Turn(commands, direction, target);
        WalkFrom(turned + [Forward(step)], pts[0], heading, pts[1..], step)
  }

  /** The commands of a walk contain only forward moves of one step and
      quarter turns. */
  predicate MovesAndTurns(s: seq<Cmd>, step: int) {
    forall i :: 0 <= i < |s| ==>
      s[i] == Forward(step) || s[i] == Rotate(90) || s[i] == Rotate(-90)
  }

  /** `contour_to_commands`; Python raises on an empty contour. */
  function ContourToCommands(contour: seq<Point>, step: int): (r: seq<Cmd>)
    requires |contour| > 0
    ensures |r| >= 2 && r[0] == PaintOn && r[|r| - 1] == PaintOff
    ensures MovesAndTurns(r[1..|r| - 1], step)
    ensures ForwardCount(r) == |Accepted(contour[0], contour[1..])|
  {
    var walk := WalkFrom([], contour[0], 0, contour[1..], step);
    WalkFromSplit([PaintOn], contour[0], 0, contour[1..], step);
    WalkFacts(contour[0], 0, contour[1..], step);
    var r := WalkFrom([PaintOn], contour[0], 0, contour[1..], step) + [PaintOff];
    assert r == [PaintOn] + walk + [PaintOff];
    assert r[1..|r| - 1] == walk;
    ForwardCountAppend([PaintOn], walk);
    ForwardCountAppend([PaintOn] + walk, [PaintOff]);
    r
  }

  /** The emitted commands only ever grow: the walk appends to what is
      already there. */
  lemma {:induction false} WalkFromSplit(commands: seq<Cmd>, cursor: Point, direction: int, pts: seq<Point>, step: int)
    ensures WalkFrom(commands, cursor, direction, pts, step)
              == commands + WalkFrom([], cursor, direction, pts, step)
    decreases |pts|
  {
    if |pts| > 0 {
      match Dirs(Sub(pts[0], cursor))
      case None =>
        WalkFromSplit(commands, cursor, direction, pts[1..], step);
      case Some(target) =>
        var (turned, heading) := Turn(commands, direction, target);
        var (turned0, heading0) := Turn([], direction, target);
        assert turned == commands + turned0;
        WalkFromSplit(turned + [Forward(step)], pts[0], heading, pts[1..], step);
        WalkFromSplit(turned0 + [Forward(step)], pts[0], heading, pts[1..], step);
        assert turned + [Forward(step)] == commands + (turned0 + [Forward(step)]);
    }
  }

  lemma {:induction false} WalkFacts(cursor: Point, direction: int, pts: seq<Point>, step: int)
    ensures MovesAndTurns(WalkFrom([], cursor, direction, pts, step), step)
    ensures ForwardCount(WalkFrom([], cursor, direction, pts, step)) == |Accepted(cursor, pts)|
    decreases |pts|
  {
    if |pts| > 0 {
      match Dirs(Sub(pts[0], cursor))
      case None =>
        WalkFacts(cursor, direction, pts[1..], step);
      case Some(target) =>
        var (turned, heading) := Turn([], direction, target);
        var rest := WalkFrom([], pts[0], heading, pts[1..], step);
        WalkFromSplit(turned + [Forward(step)], pts[0], heading, pts[1..], step);
        WalkFacts(pts[0], heading, pts[1..], step);
        var w := turned + [Forward(step)] + rest;
        assert forall i :: |turned| + 1 <= i < |w| ==> w[i] == rest[i - |turned| - 1];
        ForwardCountAppend(turned + [Forward(step)], rest);
        ForwardCountAppend(turned, [Forward(step)]);
        RotationsHaveNoMoves(turned);
    }
  }

  lemma {:induction false} RotationsHaveNoMoves(s: seq<Cmd>)
    requires forall i :: 0 <= i < |s| ==> s[i].Rotate?
    ensures ForwardCount(s) == 0
    decreases |s|
  {
    if |s| > 0 {
      RotationsHaveNoMoves(s[1..]);
    }
  }
}
