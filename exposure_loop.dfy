/**
 The arithmetic of the exposure convergence loop started by `setExposure`:
 each firing of the interval moves the closure's current exposure one step
 toward the target, and snaps to the target (cancelling the interval) once
 it is within two steps of it. Exposure values are exact rationals here.
 */
module ExposureLoop {

  /** `exposureSpeedChange`: how far one tick moves the exposure. */
  const Step: real := 0.02

  function Abs(x: real): real
  {
    if x < 0.0 then -x else x
  }

  /** Least integer not below a non-negative real. */
  function Ceil(x: real): (c: nat)
    requires x >= 0.0
    ensures x <= c as real < x + 1.0
  {
    if x.Floor as real == x then x.Floor else x.Floor + 1
  }

  /** The first half of a tick: one step toward the target, no move when they are equal. */
  function Move(current: real, target: real): (m: real)
    ensures current == target ==> m == current
    ensures current != target ==> Abs(m - current) == Step && (current < m <==> current < target)
  {
    if current > target then current - Step
    else if current < target then current + Step
    else current
  }

  /** The done-test of a tick: strictly within two steps of the target. */
  predicate Close(current: real, target: real)
  {
    Abs(current - target) < 2.0 * Step
  }

  /** The interval's closure value `currentExposure` and whether the interval is still scheduled. */
  datatype Loop = Loop(current: real, active: bool)

  /**
   One firing of the interval callback. A cancelled interval does not fire.
   A firing either snaps to the target and stops, or keeps going one step
   nearer without crossing the target and still at least two steps away.
   */
  function TickOnce(s: Loop, target: real): (r: Loop)
    ensures !s.active ==> r == s
    ensures s.active ==> (r.active <==> !Close(Move(s.current, target), target))
    ensures s.active && !r.active ==> r.current == target
    ensures r.active ==> Abs(r.current - target) == Abs(s.current - target) - Step >= 2.0 * Step
                         && (r.current < target <==> s.current < target)
  {
    if !s.active then s
    else
      var m := Move(s.current, target);
      if Close(m, target) then Loop(target, false) else Loop(m, true)
  }

  /** The loop state after `n` further firings of the interval. */
  function Run(s: Loop, target: real, n: nat): Loop
    decreases n
  {
    if n == 0 then s else Run(TickOnce(s, target), target, n - 1)
  }

  /** Firing once more after `n` firings: `Run` unrolled from the back. */
  lemma {:induction false} RunStep(s: Loop, target: real, n: nat)
    ensures Run(s, target, n + 1) == TickOnce(Run(s, target, n), target)
    decreases n
  {
    if n > 0 {
      RunStep(TickOnce(s, target), target, n - 1);
    }
  }

  /** The number of ticks after which a loop started at `start` stops. */
  function TicksToStop(start: real, target: real): nat
  {
    if Abs(start - target) < 3.0 * Step then 1
    else
      assert Abs(start - target) / Step >= 3.0;
      (Abs(start - target) / Step).Floor - 1
  }

  /** A stopped loop stays stopped, and its exposure no longer changes. */
  lemma {:induction false} IdleStaysIdle(s: Loop, target: real, n: nat)
    requires !s.active
    ensures Run(s, target, n) == s
    decreases n
  {
    if n > 0 {
      IdleStaysIdle(TickOnce(s, target), target, n - 1);
    }
  }

  /**
   While at least k + 2 steps away, k ticks leave the loop running and move
   the exposure exactly k steps toward the target.
   */
  lemma {:induction false} StillConverging(start: real, target: real, k: nat)
    requires (k as real + 2.0) * Step <= Abs(start - target)
    ensures Run(Loop(start, true), target, k)
         == Loop(if start < target then start + k as real * Step else start - k as real * Step, true)
    decreases k
  {
    if k > 0 {
      var s := TickOnce(Loop(start, true), target);
      assert s == Loop(if start < target then start + Step else start - Step, true);
      StillConverging(s.current, target, k - 1);
    }
  }

  /** Strictly fewer than n + 2 steps away, n >= 1 ticks bring the loop to rest at the target. */
  lemma {:induction false} Converges(start: real, target: real, n: nat)
    requires 1 <= n
    requires Abs(start - target) < (n as real + 2.0) * Step
    ensures Run(Loop(start, true), target, n) == Loop(target, false)
    decreases n
  {
    var s := TickOnce(Loop(start, true), target);
    if !s.active {
      IdleStaysIdle(s, target, n - 1);
    } else {
      Converges(s.current, target, n - 1);
    }
  }

  /**
   The loop stops on tick `TicksToStop(start, target)` exactly: it is still
   running after every earlier tick and at rest on the target after that one.
   */
  lemma ExactTicks(start: real, target: real)
    ensures Run(Loop(start, true), target, TicksToStop(start, target)) == Loop(target, false)
    ensures forall k: nat :: k < TicksToStop(start, target) ==> Run(Loop(start, true), target, k).active
  {
    var n := TicksToStop(start, target);
    var d := Abs(start - target);
    if d >= 3.0 * Step {
      var f := (d / Step).Floor;
      assert n == f - 1;
      assert f as real * Step <= d < (f as real + 1.0) * Step;
    }
    Converges(start, target, n);
    forall k: nat | k < n
      ensures Run(Loop(start, true), target, k).active
    {
      if k > 0 {
        StillConverging(start, target, k);
      }
    }
  }

  /** The loop always stops within ceil(|start - target| / step) + 1 ticks. */
  lemma StopsWithinBound(start: real, target: real)
    ensures Run(Loop(start, true), target, Ceil(Abs(start - target) / Step) + 1) == Loop(target, false)
  {
    var c := Ceil(Abs(start - target) / Step);
    assert Abs(start - target) <= c as real * Step;
    Converges(start, target, c + 1);
  }

  /** From exposure 0 toward 1 the snap happens on tick 49, not tick 50. */
  lemma ZeroToOneSnapsOnTick49()
    ensures TicksToStop(0.0, 1.0) == 49
    ensures Run(Loop(0.0, true), 1.0, 49) == Loop(1.0, false)
    ensures Run(Loop(0.0, true), 1.0, 48).active
  {
    assert TicksToStop(0.0, 1.0) == 49;
    ExactTicks(0.0, 1.0);
  }
}
