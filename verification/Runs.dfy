/** Runs of a state machine over ticks, and what may be left out of one. */
module Runs {

  /** The state after the first `n` ticks. */
  function StateAfter<S, T, V>(step: (S, T) -> (S, V), s0: S, ticks: seq<T>, n: nat): S
    requires n <= |ticks|
  {
    if n == 0 then s0 else step(StateAfter(step, s0, ticks, n - 1), ticks[n - 1]).0
  }

  /** The verdict of tick `k`. */
  function VerdictAt<S, T, V>(step: (S, T) -> (S, V), s0: S, ticks: seq<T>, k: nat): V
    requires k < |ticks|
  {
    step(StateAfter(step, s0, ticks, k), ticks[k]).1
  }

  /** The verdicts of the first `n` ticks. */
  function Verdicts<S, T, V>(step: (S, T) -> (S, V), s0: S, ticks: seq<T>, n: nat): (vs: seq<V>)
    requires n <= |ticks|
    ensures |vs| == n
  {
    if n == 0 then [] else Verdicts(step, s0, ticks, n - 1) + [VerdictAt(step, s0, ticks, n - 1)]
  }

  /** What a mask keeps of the first `n` elements. */
  function Kept<X>(xs: seq<X>, keep: seq<bool>, n: nat): seq<X>
    requires n <= |xs| && n <= |keep|
  {
    if n == 0 then []
    else if keep[n - 1] then Kept(xs, keep, n - 1) + [xs[n - 1]]
    else Kept(xs, keep, n - 1)
  }

  lemma {:induction false} VerdictsAt<S, T, V>(step: (S, T) -> (S, V), s0: S, ticks: seq<T>, n: nat, k: nat)
    requires k < n <= |ticks|
    ensures Verdicts(step, s0, ticks, n)[k] == VerdictAt(step, s0, ticks, k)
  {
    if k < n - 1 {
      VerdictsAt(step, s0, ticks, n - 1, k);
    }
  }

  /** Later ticks do not change what happened before. */
  lemma {:induction false} EarlierTicksDecide<S, T, V>(step: (S, T) -> (S, V), s0: S, ticks: seq<T>, last: T, n: nat)
    requires n <= |ticks|
    ensures StateAfter(step, s0, ticks + [last], n) == StateAfter(step, s0, ticks, n)
    ensures Verdicts(step, s0, ticks + [last], n) == Verdicts(step, s0, ticks, n)
  {
    if n > 0 {
      EarlierTicksDecide(step, s0, ticks, last, n - 1);
      assert (ticks + [last])[n - 1] == ticks[n - 1];
    }
  }

  /** A run can be cut anywhere and continued from the state reached. */
  lemma {:induction false} ContinueRun<S, T, V>(step: (S, T) -> (S, V), s0: S, before: seq<T>, after: seq<T>, n: nat)
    requires n <= |after|
    ensures StateAfter(step, s0, before + after, |before| + n)
            == StateAfter(step, StateAfter(step, s0, before, |before|), after, n)
  {
    if n == 0 {
      SamePrefix(step, s0, before, after, |before|);
    } else {
      ContinueRun(step, s0, before, after, n - 1);
      assert (before + after)[|before| + n - 1] == after[n - 1];
    }
  }

  /** Two runs in a row are one. */
  lemma {:induction false} Joined<S, T, V>(step: (S, T) -> (S, V), s0: S, before: seq<T>, mid: S, after: seq<T>, end: S)
    requires mid == StateAfter(step, s0, before, |before|) && end == StateAfter(step, mid, after, |after|)
    ensures end == StateAfter(step, s0, before + after, |before + after|)
  {
    ContinueRun(step, s0, before, after, |after|);
  }

  lemma {:induction false} SamePrefix<S, T, V>(step: (S, T) -> (S, V), s0: S, before: seq<T>, after: seq<T>, n: nat)
    requires n <= |before|
    ensures StateAfter(step, s0, before + after, n) == StateAfter(step, s0, before, n)
  {
    if n > 0 {
      SamePrefix(step, s0, before, after, n - 1);
      assert (before + after)[n - 1] == before[n - 1];
    }
  }

  /** The ticks a mask drops all leave the state as it was. */
  ghost predicate DropsStutters<S, T, V>(step: (S, T) -> (S, V), s0: S, ticks: seq<T>, keep: seq<bool>, n: nat)
    requires n <= |ticks| && n <= |keep|
  {
    forall k :: 0 <= k < n && !keep[k] ==>
      StateAfter(step, s0, ticks, k + 1) == StateAfter(step, s0, ticks, k)
  }

  /** Dropping ticks that leave the state as it was changes neither the final state nor the
      verdict of any other tick. */
  lemma {:induction false} DropStutters<S, T, V>(step: (S, T) -> (S, V), s0: S, ticks: seq<T>, keep: seq<bool>, n: nat)
    requires n <= |ticks| && n <= |keep| && DropsStutters(step, s0, ticks, keep, n)
    ensures var kept := Kept(ticks, keep, n);
            StateAfter(step, s0, kept, |kept|) == StateAfter(step, s0, ticks, n)
            && Verdicts(step, s0, kept, |kept|) == Kept(Verdicts(step, s0, ticks, n), keep, n)
  {
    if n > 0 {
      DropStutters(step, s0, ticks, keep, n - 1);
      var before := Kept(ticks, keep, n - 1);
      KeptPrefix(Verdicts(step, s0, ticks, n - 1), VerdictAt(step, s0, ticks, n - 1), keep, n - 1);
      if keep[n - 1] {
        EarlierTicksDecide(step, s0, before, ticks[n - 1], |before|);
        assert Kept(ticks, keep, n) == before + [ticks[n - 1]];
      } else {
        assert StateAfter(step, s0, ticks, n - 1 + 1) == StateAfter(step, s0, ticks, n - 1);
      }
    }
  }

  lemma {:induction false} KeptPrefix<X>(xs: seq<X>, last: X, keep: seq<bool>, n: nat)
    requires n <= |xs| && n <= |keep|
    ensures Kept(xs + [last], keep, n) == Kept(xs, keep, n)
  {
    if n > 0 {
      KeptPrefix(xs, last, keep, n - 1);
    }
  }
}
