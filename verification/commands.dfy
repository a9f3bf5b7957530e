/**
  The instruction language the converter emits for the drawing robot:
  `paintON`, `paintOFF`, `F <n>` (drive forward n units) and `R <deg>`
  (rotate by deg degrees). The text form is replaced by a datatype; the
  module also holds the few observations about command lists that several
  other modules share.
 */
module Commands {

  datatype Option<+T> = None | Some(value: T)

  datatype Cmd =
    | PaintOn
    | PaintOff
    | Forward(n: int)
    | Rotate(deg: int)

  /** The commands that are not `F` moves, in order. */
  function NonForward(s: seq<Cmd>): (r: seq<Cmd>)
    ensures |r| <= |s|
    ensures forall c :: c in r ==> c in s && !c.Forward?
  {
    if |s| == 0 then []
    else if s[0].Forward? then NonForward(s[1..])
    else [s[0]] + NonForward(s[1..])
  }

  /** Total distance of all `F` moves. */
  function ForwardSum(s: seq<Cmd>): int {
    if |s| == 0 then 0
    else (if s[0].Forward? then s[0].n else 0) + ForwardSum(s[1..])
  }

  /** Number of `F` moves. */
  function ForwardCount(s: seq<Cmd>): nat {
    if |s| == 0 then 0
    else (if s[0].Forward? then 1 else 0) + ForwardCount(s[1..])
  }

  /** Total angle of all `R` commands. */
  function RotationSum(s: seq<Cmd>): int {
    if |s| == 0 then 0
    else (if s[0].Rotate? then s[0].deg else 0) + RotationSum(s[1..])
  }

  /** Every `F` distance is non-negative (what a sensible step length yields). */
  predicate NonNegativeMoves(s: seq<Cmd>) {
    forall i :: 0 <= i < |s| && s[i].Forward? ==> s[i].n >= 0
  }

  lemma {:induction false} NonForwardAppend(a: seq<Cmd>, b: seq<Cmd>)
    ensures NonForward(a + b) == NonForward(a) + NonForward(b)
  {
    if |a| == 0 {
      assert a + b == b;
    } else {
      assert (a + b)[1..] == a[1..] + b;
      NonForwardAppend(a[1..], b);
    }
  }

  lemma {:induction false} ForwardCountAppend(a: seq<Cmd>, b: seq<Cmd>)
    ensures ForwardCount(a + b) == ForwardCount(a) + ForwardCount(b)
  {
    if |a| == 0 {
      assert a + b == b;
    } else {
      assert (a + b)[1..] == a[1..] + b;
      ForwardCountAppend(a[1..], b);
    }
  }
}
