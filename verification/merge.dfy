/**
  `merge_forward_commands`: every maximal run of consecutive `F` moves is
  collapsed into a single `F` carrying the run's total distance.

  The loop keeps a running total `acc` of the current run. At a command that
  is not an `F` it emits `F acc` and resets the total, but only when the
  total is positive; a zero or negative total is neither emitted nor reset
  and so carries into the next run. With non-negative distances the total
  is then zero and the quirk is invisible; with no positive distance at all
  nothing is ever emitted and every `F` disappears.
 */
module Merge {
  import opened Commands

  /** The `F acc` emitted when a run ends (nothing unless `acc` is positive). */
  function Flush(acc: int): seq<Cmd> {
    if acc > 0 then [Forward(acc)] else []
  }

  /** The merging loop started with running total `acc` on the remaining
      commands `s`. */
  function MergeFrom(s: seq<Cmd>, acc: int): seq<Cmd>
    decreases |s|
  {
    if |s| == 0 then Flush(acc)
    else if s[0].Forward? then MergeFrom(s[1..], acc + s[0].n)
    else Flush(acc) + [s[0]] + MergeFrom(s[1..], if acc > 0 then 0 else acc)
  }

  /** A merged list: every `F` is positive and no two `F` are adjacent. */
  predicate Normal(s: seq<Cmd>) {
    && (forall i :: 0 <= i < |s| && s[i].Forward? ==> s[i].n > 0)
    && (forall i :: 0 <= i < |s| - 1 ==> !(s[i].Forward? && s[i + 1].Forward?))
  }

  /** The total `F` distance before each non-`F` command and after the last
      one: entry k is the distance driven between the (k-1)-th and the k-th
      non-`F` command. */
  function Gaps(s: seq<Cmd>): (r: seq<int>)
    ensures |r| > 0
  {
    if |s| == 0 then [0]
    else
      var g := Gaps(s[1..]);
      if s[0].Forward? then [s[0].n + g[0]] + g[1..] else [0] + g
  }

  function AddHead(g: seq<int>, a: int): seq<int>
    requires |g| > 0
  {
    [g[0] + a] + g[1..]
  }

  function Total(g: seq<int>): int {
    if |g| == 0 then 0 else g[0] + Total(g[1..])
  }

  /** `merge_forward_commands`. */
  function MergeForward(s: seq<Cmd>): (r: seq<Cmd>)
    ensures Normal(r)
    ensures NonForward(r) == NonForward(s)
    ensures |r| <= |s|
    ensures NonNegativeMoves(s) ==> Gaps(r) == Gaps(s) && ForwardSum(r) == ForwardSum(s)
  {
    MergeFromFacts(s, 0);
    var r := MergeFrom(s, 0);
    if NonNegativeMoves(s) then
      GapsTotal(r);
      GapsTotal(s);
      assert AddHead(Gaps(s), 0) == Gaps(s);
      r
    else
      r
  }

  /** The loop exactly as the converter writes it. */
  method MergeForwardCommands(commands: seq<Cmd>) returns (merged: seq<Cmd>)
    ensures merged == MergeForward(commands)
    ensures Normal(merged)
    ensures NonForward(merged) == NonForward(commands)
    ensures |merged| <= |commands|
    ensures NonNegativeMoves(commands) ==> ForwardSum(merged) == ForwardSum(commands)
  {
    merged := [];
    var acc := 0;
    var i := 0;
    while i < |commands|
      invariant 0 <= i <= |commands|
      invariant merged + MergeFrom(commands[i..], acc) == MergeFrom(commands, 0)
    {
      var cmd := commands[i];
      ghost var rest := commands[i + 1..];
      assert commands[i..][1..] == rest;
      if cmd.Forward? {
        acc := acc + cmd.n;
      } else {
        ghost var tail := MergeFrom(rest, if acc > 0 then 0 else acc);
        assert merged + MergeFrom(commands[i..], acc) == merged + Flush(acc) + [cmd] + tail;
        if acc > 0 {
          merged := merged + [Forward(acc)];
          acc := 0;
        }
        merged := merged + [cmd];
      }
      i := i + 1;
    }
    if acc > 0 {
      merged := merged + [Forward(acc)];
    }
    assert commands[i..] == [];
    assert merged == MergeForward(commands);
  }

  lemma NormalJoin(a: seq<Cmd>, x: Cmd, b: seq<Cmd>)
    requires Normal(a) && |a| <= 1 && !x.Forward? && Normal(b)
    ensures Normal(a + [x] + b)
  {
    var s := a + [x] + b;
    forall i | 0 <= i < |s| - 1
      ensures !(s[i].Forward? && s[i + 1].Forward?)
    {
      if i >= |a| + 1 {
        assert s[i] == b[i - |a| - 1] && s[i + 1] == b[i - |a|];
      }
    }
  }

  lemma NonNegativeTail(s: seq<Cmd>)
    requires |s| > 0 && NonNegativeMoves(s)
    ensures NonNegativeMoves(s[1..])
  {
    var t := s[1..];
    assert forall i :: 0 <= i < |t| ==> t[i] == s[i + 1];
  }

  lemma MergeFromFacts(s: seq<Cmd>, acc: int)
    ensures Normal(MergeFrom(s, acc))
    ensures NonForward(MergeFrom(s, acc)) == NonForward(s)
    ensures |MergeFrom(s, acc)| <= |s| + (if acc > 0 then 1 else 0)
    ensures acc >= 0 && NonNegativeMoves(s) ==> Gaps(MergeFrom(s, acc)) == AddHead(Gaps(s), acc)
  {
    MergeFromNormal(s, acc);
    MergeFromKeepsOthers(s, acc);
    MergeFromLength(s, acc);
    if acc >= 0 && NonNegativeMoves(s) {
      MergeFromGaps(s, acc);
    }
  }

  /** When no `F` distance is positive the running total never becomes
      positive, so the merge emits no `F` at all: only the other commands
      are left. */
  lemma {:induction false} MergeDropsNonPositive(s: seq<Cmd>, acc: int)
    requires acc <= 0
    requires forall i :: 0 <= i < |s| && s[i].Forward? ==> s[i].n <= 0
    ensures MergeFrom(s, acc) == NonForward(s)
    decreases |s|
  {
    if |s| > 0 {
      var t := s[1..];
      assert forall i :: 0 <= i < |t| ==> t[i] == s[i + 1];
      if s[0].Forward? {
        MergeDropsNonPositive(t, acc + s[0].n);
      } else {
        MergeDropsNonPositive(t, acc);
      }
    }
  }

  lemma {:induction false} MergeFromNormal(s: seq<Cmd>, acc: int)
    ensures Normal(MergeFrom(s, acc))
    decreases |s|
  {
    if |s| == 0 {
    } else if s[0].Forward? {
      MergeFromNormal(s[1..], acc + s[0].n);
    } else {
      var acc' := if acc > 0 then 0 else acc;
      MergeFromNormal(s[1..], acc');
      NormalJoin(Flush(acc), s[0], MergeFrom(s[1..], acc'));
    }
  }

  lemma {:induction false} MergeFromKeepsOthers(s: seq<Cmd>, acc: int)
    ensures NonForward(MergeFrom(s, acc)) == NonForward(s)
    decreases |s|
  {
    if |s| == 0 {
    } else if s[0].Forward? {
      MergeFromKeepsOthers(s[1..], acc + s[0].n);
    } else {
      var acc' := if acc > 0 then 0 else acc;
      var rest := MergeFrom(s[1..], acc');
      MergeFromKeepsOthers(s[1..], acc');
      NonForwardAppend(Flush(acc) + [s[0]], rest);
      NonForwardAppend(Flush(acc), [s[0]]);
      assert NonForward([s[0]]) == [s[0]];
    }
  }

  lemma {:induction false} MergeFromLength(s: seq<Cmd>, acc: int)
    ensures |MergeFrom(s, acc)| <= |s| + (if acc > 0 then 1 else 0)
    decreases |s|
  {
    if |s| == 0 {
    } else if s[0].Forward? {
      MergeFromLength(s[1..], acc + s[0].n);
    } else {
      MergeFromLength(s[1..], if acc > 0 then 0 else acc);
    }
  }

  lemma {:induction false} MergeFromGaps(s: seq<Cmd>, acc: int)
    requires acc >= 0 && NonNegativeMoves(s)
    ensures Gaps(MergeFrom(s, acc)) == AddHead(Gaps(s), acc)
    decreases |s|
  {
    if |s| == 0 {
    } else if s[0].Forward? {
      NonNegativeTail(s);
      MergeFromGaps(s[1..], acc + s[0].n);
      AddHeadTwice(Gaps(s[1..]), s[0].n, acc);
    } else {
      NonNegativeTail(s);
      MergeFromGaps(s[1..], 0);
      AddHeadZero(Gaps(s[1..]));
      AddHeadOfZero(Gaps(s[1..]), acc);
      GapsAfterFlush(acc, s[0], MergeFrom(s[1..], 0));
    }
  }

  lemma AddHeadTwice(g: seq<int>, a: int, b: int)
    requires |g| > 0
    ensures AddHead(AddHead(g, a), b) == AddHead(g, a + b)
  {
    assert AddHead(g, a)[1..] == g[1..];
  }

  lemma AddHeadZero(g: seq<int>)
    requires |g| > 0
    ensures AddHead(g, 0) == g
  {
  }

  lemma AddHeadOfZero(g: seq<int>, a: int)
    ensures AddHead([0] + g, a) == [a] + g
  {
    assert ([0] + g)[1..] == g;
  }

  /** `Gaps` of a list that starts with the command `c`. */
  lemma GapsCons(c: Cmd, t: seq<Cmd>)
    ensures Gaps([c] + t) == if c.Forward? then AddHead(Gaps(t), c.n) else [0] + Gaps(t)
  {
    assert ([c] + t)[1..] == t;
  }

  lemma GapsAfterFlush(acc: int, x: Cmd, rest: seq<Cmd>)
    requires acc >= 0 && !x.Forward?
    ensures Gaps(Flush(acc) + [x] + rest) == [acc] + Gaps(rest)
  {
    GapsCons(x, rest);
    if acc > 0 {
      assert Flush(acc) + [x] + rest == [Forward(acc)] + ([x] + rest);
      GapsCons(Forward(acc), [x] + rest);
      AddHeadOfZero(Gaps(rest), acc);
    } else {
      assert Flush(acc) + [x] + rest == [x] + rest;
    }
  }

  lemma {:induction false} GapsTotal(s: seq<Cmd>)
    ensures Total(Gaps(s)) == ForwardSum(s)
    decreases |s|
  {
    if |s| > 0 {
      GapsTotal(s[1..]);
      var g := Gaps(s[1..]);
      assert g == [g[0]] + g[1..];
      assert Total(g) == g[0] + Total(g[1..]);
      if s[0].Forward? {
        assert ([s[0].n + g[0]] + g[1..])[1..] == g[1..];
      } else {
        assert ([0] + g)[1..] == g;
      }
    }
  }

  lemma NormalTail(s: seq<Cmd>)
    requires Normal(s) && |s| > 0
    ensures Normal(s[1..])
  {
    var t := s[1..];
    assert forall i :: 0 <= i < |t| ==> t[i] == s[i + 1];
  }

  /** A list that is already merged is left unchanged. */
  lemma {:induction false} NormalIsFixed(s: seq<Cmd>)
    requires Normal(s)
    ensures MergeFrom(s, 0) == s
    decreases |s|
  {
    if |s| == 0 {
    } else if !s[0].Forward? {
      NormalTail(s);
      NormalIsFixed(s[1..]);
      assert Flush(0) + [s[0]] + s[1..] == s;
    } else if |s| == 1 {
      assert s[1..] == [];
    } else {
      assert !s[1].Forward?;
      NormalTail(s);
      NormalTail(s[1..]);
      assert s[1..][1..] == s[2..];
      NormalIsFixed(s[2..]);
      assert MergeFrom(s[1..], s[0].n) == [Forward(s[0].n)] + [s[1]] + s[2..];
      assert [Forward(s[0].n)] + [s[1]] + s[2..] == s;
    }
  }

  /** Merging a merged list gives it back, whatever the distances. */
  lemma MergeIdempotent(s: seq<Cmd>)
    ensures MergeForward(MergeForward(s)) == MergeForward(s)
  {
    NormalIsFixed(MergeForward(s));
  }

  lemma GapsHeadOfNonForward(s: seq<Cmd>)
    requires |s| == 0 || !s[0].Forward?
    ensures Gaps(s)[0] == 0
  {
  }

  /** A merged list is determined by its non-`F` commands and its gaps. */
  lemma {:induction false} NormalUnique(a: seq<Cmd>, b: seq<Cmd>)
    requires Normal(a) && Normal(b)
    requires NonForward(a) == NonForward(b) && Gaps(a) == Gaps(b)
    ensures a == b
    decreases |a| + |b|
  {
    if |a| == 0 && |b| == 0 {
    } else if |a| == 0 || |b| == 0 {
      var c := if |a| == 0 then b else a;
      assert NonForward(c) == [];
      AllForwardIsShort(c);
      assert false;
    } else if !a[0].Forward? && !b[0].Forward? {
      NormalTail(a);
      NormalTail(b);
      assert NonForward(a) == [a[0]] + NonForward(a[1..]);
      assert NonForward(b) == [b[0]] + NonForward(b[1..]);
      assert NonForward(a)[1..] == NonForward(a[1..]);
      assert NonForward(b)[1..] == NonForward(b[1..]);
      assert Gaps(a)[1..] == Gaps(a[1..]);
      assert Gaps(b)[1..] == Gaps(b[1..]);
      NormalUnique(a[1..], b[1..]);
      assert a == [a[0]] + a[1..];
      assert b == [b[0]] + b[1..];
    } else if a[0].Forward? && b[0].Forward? {
      NormalTail(a);
      NormalTail(b);
      GapsOfForwardHead(a);
      GapsOfForwardHead(b);
      var ga, gb := Gaps(a[1..]), Gaps(b[1..]);
      assert a[0].n == b[0].n;
      assert ga == [ga[0]] + ga[1..] && gb == [gb[0]] + gb[1..];
      assert ga == gb;
      assert NonForward(a[1..]) == NonForward(a);
      assert NonForward(b[1..]) == NonForward(b);
      NormalUnique(a[1..], b[1..]);
      assert a[0] == b[0];
      assert a == [a[0]] + a[1..];
      assert b == [b[0]] + b[1..];
    } else {
      var f, o := if a[0].Forward? then a else b, if a[0].Forward? then b else a;
      GapsOfForwardHead(f);
      GapsHeadOfNonForward(o);
      assert false;
    }
  }

  lemma GapsOfForwardHead(a: seq<Cmd>)
    requires Normal(a) && |a| > 0 && a[0].Forward?
    ensures Gaps(a[1..])[0] == 0
    ensures Gaps(a)[0] == a[0].n > 0
    ensures Gaps(a)[1..] == Gaps(a[1..])[1..]
  {
    assert |a| == 1 || !a[1].Forward?;
    GapsHeadOfNonForward(a[1..]);
    var g := Gaps(a[1..]);
    assert Gaps(a) == [a[0].n + g[0]] + g[1..];
  }

  lemma AllForwardIsShort(c: seq<Cmd>)
    requires Normal(c) && NonForward(c) == []
    ensures |c| <= 1
  {
    if |c| >= 2 {
      NonForwardHead(c);
      NonForwardHead(c[1..]);
    }
  }

  lemma NonForwardHead(c: seq<Cmd>)
    requires |c| > 0 && NonForward(c) == []
    ensures c[0].Forward? && NonForward(c[1..]) == []
  {
  }

  /** With non-negative distances, the merged list is the one and only merged
      list with the same non-`F` commands and the same distance between each
      pair of them. */
  lemma MergeCharacterised(s: seq<Cmd>, r: seq<Cmd>)
    requires NonNegativeMoves(s)
    ensures r == MergeForward(s) <==>
              Normal(r) && NonForward(r) == NonForward(s) && Gaps(r) == Gaps(s)
  {
    if Normal(r) && NonForward(r) == NonForward(s) && Gaps(r) == Gaps(s) {
      MergeIsOnlyNormalForm(s, r);
    }
  }

  /** The harder direction: any merged list with the input's non-`F`
      commands and distances is the merge of the input. */
  lemma MergeIsOnlyNormalForm(s: seq<Cmd>, r: seq<Cmd>)
    requires NonNegativeMoves(s)
    requires Normal(r) && NonForward(r) == NonForward(s) && Gaps(r) == Gaps(s)
    ensures r == MergeForward(s)
  {
    NormalUnique(r, MergeForward(s));
  }
}
