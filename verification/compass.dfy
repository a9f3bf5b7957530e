/**
  Grid geometry of the converter: points, the four unit steps and the two
  lookup tables between unit steps and compass headings (`DIRS` and `VECT`),
  and `turn`, which appends the rotations that bring the robot from one
  heading to another.

  Headings are degrees in {0, 90, 180, 270}; the step (1, 0) is heading 0
  and each further quarter turn of the step is another 90 degrees.
 */
module Compass {
  import opened Commands

  datatype Point = Point(x: int, y: int)

  function Add(p: Point, q: Point): Point {
    Point(p.x + q.x, p.y + q.y)
  }

  function Sub(p: Point, q: Point): Point {
    Point(p.x - q.x, p.y - q.y)
  }

  /** One of the four headings the tables know. */
  predicate IsHeading(h: int) {
    h == 0 || h == 90 || h == 180 || h == 270
  }

  /** A step to one of the four 4-neighbours. */
  predicate IsUnitStep(d: Point) {
    (d.x == 0 && (d.y == 1 || d.y == -1)) || (d.y == 0 && (d.x == 1 || d.x == -1))
  }

  /** The keys of `DIRS`, in the table's iteration order. */
  const Offsets: seq<Point> := [Point(1, 0), Point(0, 1), Point(-1, 0), Point(0, -1)]

  /** The 4-neighbour of `p` in direction `i` of `Offsets`. */
  function Neighbour(p: Point, i: int): Point
    requires 0 <= i < 4
  {
    Add(p, Offsets[i])
  }

  /** `DIRS`: the heading of a unit step, or nothing when the offset is not a key. */
  function Dirs(d: Point): (r: Option<int>)
    ensures r.Some? <==> IsUnitStep(d)
    ensures r.Some? ==> IsHeading(r.value)
  {
    if d == Point(1, 0) then Some(0)
    else if d == Point(0, 1) then Some(90)
    else if d == Point(-1, 0) then Some(180)
    else if d == Point(0, -1) then Some(270)
    else None
  }

  /** `VECT`: the unit step of a heading, or nothing when it is not a key. */
  function Vect(h: int): (r: Option<Point>)
    ensures r.Some? <==> IsHeading(h)
    ensures r.Some? ==> IsUnitStep(r.value) && Dirs(r.value) == Some(h)
  {
    if h == 0 then Some(Point(1, 0))
    else if h == 90 then Some(Point(0, 1))
    else if h == 180 then Some(Point(-1, 0))
    else if h == 270 then Some(Point(0, -1))
    else None
  }

  /** The other direction of the round trip: looking up the heading of a
      unit step and then its vector gives the step back. */
  lemma DirsThenVect(d: Point)
    requires IsUnitStep(d)
    ensures Vect(Dirs(d).value) == Some(d)
  {
  }

  /** `v` turned by a quarter turn from the x axis towards the y axis. */
  function QuarterLeft(v: Point): Point {
    Point(-v.y, v.x)
  }

  /** The tables are a rotation: adding 90 degrees to a heading turns its
      `VECT` vector by one quarter turn, and subtracting 90 turns it back.
      So `R 90` and `R -90` are the same physical rotation from every
      heading. */
  lemma VectRotates(h: int)
    requires IsHeading(h)
    ensures Vect((h + 90) % 360) == Some(QuarterLeft(Vect(h).value))
    ensures Vect((h - 90) % 360).Some? && QuarterLeft(Vect((h - 90) % 360).value) == Vect(h).value
  {
  }

  /** The offsets are exactly the unit steps, and opposite offsets sit two
      places apart, so stepping there and back returns to `p`. */
  lemma NeighbourBack(p: Point, i: int)
    requires 0 <= i < 4
    ensures IsUnitStep(Offsets[i])
    ensures Neighbour(Neighbour(p, i), (i + 2) % 4) == p
  {
  }

  /** `turn`: append the rotations that change the heading from `current`
      to `target` and return the new heading. */
  function Turn(commands: seq<Cmd>, current: int, target: int): (r: (seq<Cmd>, int))
    ensures r.1 == target
    ensures |commands| <= |r.0| <= |commands| + 2 && r.0[..|commands|] == commands
    ensures forall i :: |commands| <= i < |r.0| ==> r.0[i] == Rotate(90) || r.0[i] == Rotate(-90)
    ensures (target - current) % 360 == 0 ==> r.0 == commands
  {
    var diff := (target - current) % 360;
    if diff == 90 then
      (commands + [Rotate(90)], target)
    else if diff == 270 then
      (commands + [Rotate(-90)], target)
    else if diff == 180 then
      var half := [Rotate(90), Rotate(90)];
      assert half[1..] == [Rotate(90)];
      assert (commands + half)[|commands|..] == half;
      (commands + half, target)
    else
      (commands, target)
  }

  /** The appended rotations bring `current` to `target` modulo 360 whenever
      the two differ by a whole number of quarter turns, turning by the
      difference taken into (-180, 180], so a half turn is two `R 90`;
      otherwise nothing is appended. */
  lemma TurnReachesTarget(commands: seq<Cmd>, current: int, target: int)
    ensures (target - current) % 90 != 0 ==> Turn(commands, current, target).0 == commands
    ensures (target - current) % 90 == 0 ==>
              (current + RotationSum(Turn(commands, current, target).0[|commands|..])) % 360 == target % 360
    ensures -180 < RotationSum(Turn(commands, current, target).0[|commands|..]) <= 180
  {
    var d := target - current;
    var q, m := d / 360, d % 360;
    assert d == 360 * q + m;
    var added := Turn(commands, current, target).0[|commands|..];
    if m == 90 || m == 180 || m == 270 {
      var s := if m == 270 then -90 else m;
      assert RotationSum(added) == s by {
        if m == 180 {
          assert added == [Rotate(90), Rotate(90)];
          assert added[1..] == [Rotate(90)];
        } else {
          assert added == [Rotate(s)];
        }
      }
      assert target == current + s + 360 * (if m == 270 then q + 1 else q);
      ModMultiple(if m == 270 then q + 1 else q, current + s);
      ModMultiple90(4 * q + m / 90, 0);
    } else if m == 0 {
      assert added == [];
      ModMultiple(q, current);
      ModMultiple90(4 * q, 0);
    } else {
      assert added == [];
      ModMultiple90(4 * q, m);
      assert m == 90 * (m / 90) + m % 90;
    }
  }

  lemma ModMultiple90(k: int, s: int)
    ensures (90 * k + s) % 90 == s % 90
  {
  }

  /** No shorter list of quarter turns reaches the target heading. */
  lemma TurnIsShortest(current: int, target: int, rs: seq<Cmd>)
    requires forall i :: 0 <= i < |rs| ==> rs[i] == Rotate(90) || rs[i] == Rotate(-90)
    requires (current + RotationSum(rs)) % 360 == target % 360
    ensures |Turn([], current, target).0| <= |rs|
  {
  }

  lemma ModMultiple(k: int, s: int)
    ensures (360 * k + s) % 360 == s % 360
  {
  }
}
