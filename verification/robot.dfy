/**
  A reference reading of the instruction list: where a robot that obeys it
  goes. The robot's pose is a position in drive units, a compass heading
  and the pen state. `R deg` adds `deg` to the heading (modulo 360), `F n`
  drives `n` units along the heading's unit vector from `VECT`, and the pen
  commands lower and lift the pen. This is the convention that `DIRS`,
  `VECT` and `turn` encode together; every `F` leaves a mark recording
  where the robot arrived, its heading and whether the pen was down.

  The interpreter lets the translation and the merge be checked against what
  they are for: the robot visits exactly the accepted points of the contour
  (`Accepted`), which need not be all of its points, and merging does not
  change where it ends up.
 */
module Robot {
  import opened Commands
  import opened Compass
  import opened Merge
  import opened Translate

  datatype Pose = Pose(pos: Point, heading: int, pen: bool)

  datatype Mark = Mark(at: Point, heading: int, pen: bool)

  /** Grid point `p` in drive units, one cell being `k` units. */
  function Scale(p: Point, k: int): Point {
    Point(p.x * k, p.y * k)
  }

  /** Every rotation is a whole number of quarter turns. */
  predicate QuarterTurns(s: seq<Cmd>) {
    forall i :: 0 <= i < |s| && s[i].Rotate? ==> s[i].deg % 90 == 0
  }

  lemma QuarterTurnKeepsHeading(h: int, d: int)
    requires IsHeading(h) && d % 90 == 0
    ensures IsHeading((h + d) % 360)
  {
    var a, b := h / 90, d / 90;
    assert h == 90 * a && d == 90 * b;
    var q, r := (h + d) / 360, (h + d) % 360;
    assert h + d == 360 * q + r;
    var k := a + b - 4 * q;
    assert r == 90 * k;
    assert 0 <= k < 4;
  }

  /** One command. */
  function StepPose(p: Pose, c: Cmd): (r: Pose)
    requires IsHeading(p.heading)
    requires c.Rotate? ==> c.deg % 90 == 0
    ensures IsHeading(r.heading)
    ensures c.Forward? ==> r.heading == p.heading && r.pen == p.pen
    ensures c.Rotate? ==> r.pos == p.pos && r.pen == p.pen
    ensures c == PaintOn || c == PaintOff ==> r.pos == p.pos && r.heading == p.heading && r.pen == (c == PaintOn)
  {
    match c
    case PaintOn => p.(pen := true)
    case PaintOff => p.(pen := false)
    case Forward(n) => p.(pos := Add(p.pos, Scale(Vect(p.heading).value, n)))
    case Rotate(deg) =>
      QuarterTurnKeepsHeading(p.heading, deg);
      p.(heading := (p.heading + deg) % 360)
  }

  /** `R 90` turns the robot's drive direction by one quarter turn from the
      x axis towards the y axis, and `R -90` undoes that, whatever the
      heading: the heading arithmetic is a real rotation of `VECT`. */
  lemma QuarterTurnRotates(p: Pose)
    requires IsHeading(p.heading)
    ensures Vect(StepPose(p, Rotate(90)).heading).value == QuarterLeft(Vect(p.heading).value)
    ensures QuarterLeft(Vect(StepPose(p, Rotate(-90)).heading).value) == Vect(p.heading).value
  {
    VectRotates(p.heading);
  }

  /** Run a program from pose `p`: the final pose and the marks of its `F`s. */
  function Exec(s: seq<Cmd>, p: Pose): (r: (Pose, seq<Mark>))
    requires IsHeading(p.heading) && QuarterTurns(s)
    ensures IsHeading(r.0.heading)
    ensures |r.1| == ForwardCount(s)
    decreases |s|
  {
    if |s| == 0 then (p, [])
    else
      var q := StepPose(p, s[0]);
      var mark := if s[0].Forward? then [Mark(q.pos, q.heading, q.pen)] else [];
      assert QuarterTurns(s[1..]) by {
        assert forall i :: 0 <= i < |s[1..]| ==> s[1..][i] == s[i + 1];
      }
      var rest := Exec(s[1..], q);
      (rest.0, mark + rest.1)
  }

  lemma QuarterTurnsSplit(a: seq<Cmd>, b: seq<Cmd>)
    ensures QuarterTurns(a + b) <==> QuarterTurns(a) && QuarterTurns(b)
  {
    if QuarterTurns(a) && QuarterTurns(b) {
      forall i | 0 <= i < |a + b| && (a + b)[i].Rotate?
        ensures (a + b)[i].deg % 90 == 0
      {
        if i >= |a| {
          assert (a + b)[i] == b[i - |a|];
        }
      }
    }
    if QuarterTurns(a + b) {
      assert forall i :: 0 <= i < |a| ==> (a + b)[i] == a[i];
      assert forall i :: 0 <= i < |b| ==> (a + b)[|a| + i] == b[i];
    }
  }

  /** Running `a` then `b` is running `a + b`. */
  lemma {:induction false} ExecAppend(a: seq<Cmd>, b: seq<Cmd>, p: Pose)
    requires IsHeading(p.heading) && QuarterTurns(a) && QuarterTurns(b)
    ensures QuarterTurns(a + b)
    ensures Exec(a + b, p).0 == Exec(b, Exec(a, p).0).0
    ensures Exec(a + b, p).1 == Exec(a, p).1 + Exec(b, Exec(a, p).0).1
    decreases |a|
  {
    QuarterTurnsSplit(a, b);
    if |a| == 0 {
      assert a + b == b;
    } else {
      var q := StepPose(p, a[0]);
      assert (a + b)[0] == a[0];
      assert (a + b)[1..] == a[1..] + b;
      QuarterTurnsSplit(a[..1], a[1..]);
      assert a == a[..1] + a[1..];
      ExecAppend(a[1..], b, q);
    }
  }

  /** A run of quarter turns turns the robot by their sum and does nothing else. */
  lemma {:induction false} ExecRotations(s: seq<Cmd>, p: Pose)
    requires IsHeading(p.heading)
    requires forall i :: 0 <= i < |s| ==> s[i] == Rotate(90) || s[i] == Rotate(-90)
    ensures QuarterTurns(s)
    ensures Exec(s, p).0 == p.(heading := (p.heading + RotationSum(s)) % 360)
    ensures Exec(s, p).1 == []
    decreases |s|
  {
    if |s| > 0 {
      var q := StepPose(p, s[0]);
      var d, t := s[0].deg, RotationSum(s[1..]);
      assert q == p.(heading := (p.heading + d) % 360);
      assert RotationSum(s) == d + t;
      ExecRotations(s[1..], q);
      ModAddCancel(p.heading + d, t);
    }
  }

  lemma ModAddCancel(a: int, t: int)
    ensures ((a % 360) + t) % 360 == (a + t) % 360
  {
    var q := a / 360;
    assert a == 360 * q + a % 360;
    ModMultiple(q, a % 360 + t);
  }

  /** The pen-down marks a robot leaves when it follows the accepted steps. */
  function Marks(ms: seq<Move>, step: int): (r: seq<Mark>)
    ensures |r| == |ms|
  {
    if |ms| == 0 then [] else [Mark(Scale(ms[0].to, step), ms[0].heading, true)] + Marks(ms[1..], step)
  }

  /** Where a walk that accepted `ms` from `cursor` stands at the end. */
  function LastPoint(cursor: Point, ms: seq<Move>): Point {
    if |ms| == 0 then cursor else ms[|ms| - 1].to
  }

  function LastHeading(heading: int, ms: seq<Move>): int {
    if |ms| == 0 then heading else ms[|ms| - 1].heading
  }

  lemma ScaleStep(cursor: Point, next: Point, step: int)
    ensures Add(Scale(cursor, step), Scale(Sub(next, cursor), step)) == Scale(next, step)
  {
    assert cursor.x * step + (next.x - cursor.x) * step == next.x * step;
    assert cursor.y * step + (next.y - cursor.y) * step == next.y * step;
  }

  /** Turning to face a unit step and driving one step lands on its point,
      facing its direction, and leaves one mark there. */
  lemma TurnAndDrive(cursor: Point, next: Point, heading: int, step: int, turned: seq<Cmd>)
    requires IsHeading(heading) && IsUnitStep(Sub(next, cursor))
    requires turned == Turn([], heading, Dirs(Sub(next, cursor)).value).0
    ensures QuarterTurns(turned + [Forward(step)])
    ensures Exec(turned + [Forward(step)], Pose(Scale(cursor, step), heading, true)).0
              == Pose(Scale(next, step), Dirs(Sub(next, cursor)).value, true)
    ensures Exec(turned + [Forward(step)], Pose(Scale(cursor, step), heading, true)).1
              == [Mark(Scale(next, step), Dirs(Sub(next, cursor)).value, true)]
  {
    var d := Sub(next, cursor);
    var target := Dirs(d).value;
    var p := Pose(Scale(cursor, step), heading, true);
    var q := p.(heading := target);
    FaceStep(heading, target, turned, p);
    DirsThenVect(d);
    ScaleStep(cursor, next, step);
    var q' := ExecOne(Forward(step), q);
    assert q'.pos == Add(Scale(cursor, step), Scale(d, step));
    assert q' == Pose(Scale(next, step), target, true);
    assert Exec(turned, p).0 == q && Exec(turned, p).1 == [];
    ExecAppend(turned, [Forward(step)], p);
    assert Exec(turned + [Forward(step)], p).1 == [] + [Mark(q'.pos, q'.heading, q'.pen)];
  }

  lemma FaceStep(heading: int, target: int, turned: seq<Cmd>, p: Pose)
    requires IsHeading(heading) && IsHeading(target) && p.heading == heading
    requires turned == Turn([], heading, target).0
    ensures QuarterTurns(turned)
    ensures Exec(turned, p).0 == p.(heading := target) && Exec(turned, p).1 == []
  {
  }

  /** With the pen down, the walk of `contour_to_commands` leaves one mark
      on every accepted point, facing the direction of the step that reached
      it, and stops on the last accepted point. */
  lemma {:induction false} WalkTraces(cursor: Point, heading: int, pts: seq<Point>, step: int)
    requires IsHeading(heading)
    ensures QuarterTurns(WalkFrom([], cursor, heading, pts, step))
    ensures var ms := Accepted(cursor, pts);
            && Exec(WalkFrom([], cursor, heading, pts, step), Pose(Scale(cursor, step), heading, true)).0
                 == Pose(Scale(LastPoint(cursor, ms), step), LastHeading(heading, ms), true)
            && Exec(WalkFrom([], cursor, heading, pts, step), Pose(Scale(cursor, step), heading, true)).1 == Marks(ms, step)
    decreases |pts|
  {
    WalkFacts(cursor, heading, pts, step);
    if |pts| > 0 {
      if IsUnitStep(Sub(pts[0], cursor)) {
        WalkTracesStep(cursor, heading, pts, step);
      } else {
        WalkTraces(cursor, heading, pts[1..], step);
      }
    }
  }

  lemma {:induction false} WalkTracesStep(cursor: Point, heading: int, pts: seq<Point>, step: int)
    requires IsHeading(heading) && |pts| > 0 && IsUnitStep(Sub(pts[0], cursor))
    requires QuarterTurns(WalkFrom([], cursor, heading, pts, step))
    ensures var ms := Accepted(cursor, pts);
            && Exec(WalkFrom([], cursor, heading, pts, step), Pose(Scale(cursor, step), heading, true)).0
                 == Pose(Scale(LastPoint(cursor, ms), step), LastHeading(heading, ms), true)
            && Exec(WalkFrom([], cursor, heading, pts, step), Pose(Scale(cursor, step), heading, true)).1 == Marks(ms, step)
    decreases |pts|, 0
  {
    var p := Pose(Scale(cursor, step), heading, true);
    var target := Dirs(Sub(pts[0], cursor)).value;
    var turned := Turn([], heading, target).0;
    var go := turned + [Forward(step)];
    var rest := WalkFrom([], pts[0], target, pts[1..], step);
    WalkFromSplit(go, pts[0], target, pts[1..], step);
    assert WalkFrom([], cursor, heading, pts, step) == go + rest;
    TurnAndDrive(cursor, pts[0], heading, step, turned);
    WalkTraces(pts[0], target, pts[1..], step);
    ExecAppend(go, rest, p);
    var ms := Accepted(pts[0], pts[1..]);
    var all := [Move(pts[0], target)] + ms;
    assert Accepted(cursor, pts) == all;
    assert all[1..] == ms;
    assert Marks(all, step) == [Mark(Scale(pts[0], step), target, true)] + Marks(ms, step);
  }

  /** Following the program of a contour from its first point with the pen up
      and heading 0: the robot leaves exactly one pen-down mark per accepted
      step, on that step's point and facing its direction, and finishes on
      the last accepted point with the pen lifted. */
  lemma ContourIsTraced(contour: seq<Point>, step: int)
    requires |contour| > 0
    ensures QuarterTurns(ContourToCommands(contour, step))
    ensures var ms := Accepted(contour[0], contour[1..]);
            && Exec(ContourToCommands(contour, step), Pose(Scale(contour[0], step), 0, false)).0
                 == Pose(Scale(LastPoint(contour[0], ms), step), LastHeading(0, ms), false)
            && Exec(ContourToCommands(contour, step), Pose(Scale(contour[0], step), 0, false)).1 == Marks(ms, step)
  {
    var walk := WalkFrom([], contour[0], 0, contour[1..], step);
    WalkFromSplit([PaintOn], contour[0], 0, contour[1..], step);
    assert ContourToCommands(contour, step) == [PaintOn] + walk + [PaintOff];
    WalkTraces(contour[0], 0, contour[1..], step);
    var p := Pose(Scale(contour[0], step), 0, false);
    var down := ExecOne(PaintOn, p);
    assert down == Pose(Scale(contour[0], step), 0, true);
    ExecAppend([PaintOn], walk, p);
    var ms := Accepted(contour[0], contour[1..]);
    var mid := Pose(Scale(LastPoint(contour[0], ms), step), LastHeading(0, ms), true);
    assert Exec(walk, down).0 == mid && Exec(walk, down).1 == Marks(ms, step);
    assert Exec([PaintOn], p).1 == [];
    assert Exec([PaintOn] + walk, p).0 == mid;
    assert Exec([PaintOn] + walk, p).1 == [] + Marks(ms, step);
    ExecAppend([PaintOn] + walk, [PaintOff], p);
  }

  lemma QuarterTurnsOfOthers(s: seq<Cmd>)
    ensures QuarterTurns(s) <==> QuarterTurns(NonForward(s))
  {
    if |s| > 0 {
      QuarterTurnsOfOthers(s[1..]);
      QuarterTurnsSplit([s[0]], s[1..]);
      QuarterTurnsSplit([s[0]], NonForward(s[1..]));
      assert s == [s[0]] + s[1..];
    }
  }

  /** Two consecutive drives along the same heading are one drive of the
      summed distance. */
  lemma DrivesAdd(a: int, b: int, p: Pose)
    requires IsHeading(p.heading)
    ensures Exec([Forward(a), Forward(b)], p).0 == Exec([Forward(a + b)], p).0
  {
    var q := StepPose(p, Forward(a));
    assert Exec([Forward(a), Forward(b)], p).0 == Exec([Forward(b)], q).0 by {
      assert [Forward(a), Forward(b)][1..] == [Forward(b)];
    }
    assert Exec([Forward(b)], q).0 == StepPose(q, Forward(b)) by {
      assert [Forward(b)][1..] == [];
    }
    assert Exec([Forward(a + b)], p).0 == StepPose(p, Forward(a + b)) by {
      assert [Forward(a + b)][1..] == [];
    }
    StepsAdd(a, b, p);
  }

  lemma StepsAdd(a: int, b: int, p: Pose)
    requires IsHeading(p.heading)
    ensures StepPose(StepPose(p, Forward(a)), Forward(b)) == StepPose(p, Forward(a + b))
  {
    var v := Vect(p.heading).value;
    var q := StepPose(p, Forward(a));
    assert q.heading == p.heading && q.pos == Add(p.pos, Scale(v, a));
    DriveTwice(p.pos, v, a, b);
  }

  lemma DriveTwice(o: Point, v: Point, a: int, b: int)
    ensures Add(Add(o, Scale(v, a)), Scale(v, b)) == Add(o, Scale(v, a + b))
  {
    ScaleAdd(v, a, b);
  }

  lemma ExecOne(c: Cmd, p: Pose) returns (q: Pose)
    requires IsHeading(p.heading) && (c.Rotate? ==> c.deg % 90 == 0)
    ensures QuarterTurns([c])
    ensures q == StepPose(p, c) && Exec([c], p).0 == q
    ensures Exec([c], p).1 == if c.Forward? then [Mark(q.pos, q.heading, q.pen)] else []
  {
    q := StepPose(p, c);
    assert [c][1..] == [];
  }

  lemma ScaleAdd(v: Point, a: int, b: int)
    ensures Add(Scale(v, a), Scale(v, b)) == Scale(v, a + b)
  {
    assert v.x * a + v.x * b == v.x * (a + b);
    assert v.y * a + v.y * b == v.y * (a + b);
  }

  lemma ZeroDrive(p: Pose)
    requires IsHeading(p.heading)
    ensures Exec([Forward(0)], p).0 == p
  {
    var q := ExecOne(Forward(0), p);
  }

  lemma {:induction false} MergeFromEndsAlike(s: seq<Cmd>, acc: int, p: Pose)
    requires acc >= 0 && NonNegativeMoves(s) && IsHeading(p.heading) && QuarterTurns(s)
    ensures QuarterTurns(MergeFrom(s, acc)) && QuarterTurns([Forward(acc)] + s)
    ensures Exec(MergeFrom(s, acc), p).0 == Exec([Forward(acc)] + s, p).0
    decreases |s|
  {
    MergeFromFacts(s, acc);
    QuarterTurnsOfOthers(s);
    QuarterTurnsOfOthers(MergeFrom(s, acc));
    QuarterTurnsSplit([Forward(acc)], s);
    if |s| == 0 {
      assert [Forward(acc)] + s == [Forward(acc)];
      if acc == 0 {
        ZeroDrive(p);
      }
    } else {
      NonNegativeTail(s);
      QuarterTurnsSplit(s[..1], s[1..]);
      assert s == s[..1] + s[1..];
      if s[0].Forward? {
        MergeFromEndsAlikeDrive(s, acc, p);
      } else {
        MergeFromEndsAlikeOther(s, acc, p);
      }
    }
  }

  lemma {:induction false} MergeFromEndsAlikeDrive(s: seq<Cmd>, acc: int, p: Pose)
    requires acc >= 0 && NonNegativeMoves(s) && IsHeading(p.heading) && QuarterTurns(s)
    requires |s| > 0 && s[0].Forward?
    requires NonNegativeMoves(s[1..]) && QuarterTurns(s[1..])
    requires QuarterTurns(MergeFrom(s, acc))
    ensures Exec(MergeFrom(s, acc), p).0 == Exec([Forward(acc)] + s, p).0
    decreases |s|, 0
  {
    var n := s[0].n;
    assert n >= 0;
    MergeFromEndsAlike(s[1..], acc + n, p);
    DrivesAdd(acc, n, p);
    assert QuarterTurns([Forward(acc), Forward(n)]) && QuarterTurns([Forward(acc + n)]);
    ExecAppend([Forward(acc), Forward(n)], s[1..], p);
    ExecAppend([Forward(acc + n)], s[1..], p);
    assert [Forward(acc)] + s == [Forward(acc), Forward(n)] + s[1..];
  }

  lemma {:induction false} MergeFromEndsAlikeOther(s: seq<Cmd>, acc: int, p: Pose)
    requires acc >= 0 && NonNegativeMoves(s) && IsHeading(p.heading) && QuarterTurns(s)
    requires |s| > 0 && !s[0].Forward?
    requires NonNegativeMoves(s[1..]) && QuarterTurns(s[1..]) && QuarterTurns(s[..1])
    requires QuarterTurns(MergeFrom(s, acc))
    ensures Exec(MergeFrom(s, acc), p).0 == Exec([Forward(acc)] + s, p).0
    decreases |s|, 0
  {
    var x, t := s[0], s[1..];
    assert s[..1] == [x];
    var q := Exec([Forward(acc)], p).0;
    var q' := Exec([x], q).0;
    MergeFromEndsAlike(t, 0, q');
    ZeroDrive(q');
    ExecAppend([Forward(0)], t, q');
    // Both sides drive `acc`, obey `x` and then run what follows from q'.
    MergedSide(x, t, acc, p, q, q');
    OriginalSide(x, t, acc, p, q, q');
    assert s == [x] + t;
  }

  lemma MergedSide(x: Cmd, t: seq<Cmd>, acc: int, p: Pose, q: Pose, q': Pose)
    requires acc >= 0 && !x.Forward? && IsHeading(p.heading)
    requires QuarterTurns([x]) && QuarterTurns(MergeFrom(t, 0))
    requires q == Exec([Forward(acc)], p).0 && q' == Exec([x], q).0
    ensures QuarterTurns(Flush(acc) + [x] + MergeFrom(t, 0))
    ensures Exec(Flush(acc) + [x] + MergeFrom(t, 0), p).0 == Exec(MergeFrom(t, 0), q').0
  {
    var rest := MergeFrom(t, 0);
    assert QuarterTurns(Flush(acc));
    if acc == 0 {
      ZeroDrive(p);
    }
    assert Exec(Flush(acc), p).0 == q;
    ExecAppend([x], rest, q);
    ExecAppend(Flush(acc), [x] + rest, p);
    assert Flush(acc) + [x] + rest == Flush(acc) + ([x] + rest);
  }

  lemma OriginalSide(x: Cmd, t: seq<Cmd>, acc: int, p: Pose, q: Pose, q': Pose)
    requires acc >= 0 && IsHeading(p.heading)
    requires QuarterTurns([x]) && QuarterTurns(t)
    requires q == Exec([Forward(acc)], p).0 && q' == Exec([x], q).0
    ensures QuarterTurns([Forward(acc)] + ([x] + t))
    ensures Exec([Forward(acc)] + ([x] + t), p).0 == Exec(t, q').0
  {
    assert QuarterTurns([Forward(acc)]);
    ExecAppend([x], t, q);
    ExecAppend([Forward(acc)], [x] + t, p);
  }

  /** The step length is taken from the user without a sign check. With a
      step that is not positive, merging the program of a contour removes
      every forward move: only the pen commands and the turns are left. */
  lemma NonPositiveStepLosesMoves(contour: seq<Point>, step: int)
    requires |contour| > 0 && step <= 0
    ensures MergeForward(ContourToCommands(contour, step)) == NonForward(ContourToCommands(contour, step))
  {
    var r := ContourToCommands(contour, step);
    var mid := r[1..|r| - 1];
    assert MovesAndTurns(mid, step);
    forall i | 0 <= i < |r| && r[i].Forward?
      ensures r[i].n <= 0
    {
      assert 0 < i < |r| - 1;
      assert r[i] == mid[i - 1];
    }
    MergeDropsNonPositive(r, 0);
  }

  /** Merging forward moves never changes where the robot finishes, which
      way it faces or whether the pen is down, whenever the distances are
      non-negative. */
  lemma MergeEndsAlike(s: seq<Cmd>, p: Pose)
    requires NonNegativeMoves(s) && IsHeading(p.heading) && QuarterTurns(s)
    ensures QuarterTurns(MergeForward(s))
    ensures Exec(MergeForward(s), p).0 == Exec(s, p).0
  {
    MergeFromEndsAlike(s, 0, p);
    ExecAppend([Forward(0)], s, p);
    ZeroDrive(p);
  }
}
