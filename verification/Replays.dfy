/** Simulations as folds over their inputs, tick after tick, and what replaying part of one gives. */
module Replays {

  /** The state after running the inputs from tick `start`. */
  function After<S, I>(step: (S, I, nat) -> S, state: S, run: seq<I>, start: nat): S {
    if run == [] then state
    else
      var n := |run| - 1;
      step(After(step, state, run[..n], start), run[n], start + n)
  }

  /** What each tick of the run gives out. */
  function Outputs<S, I, O>(step: (S, I, nat) -> S, out: (S, I, nat) -> O, state: S, run: seq<I>, start: nat)
    : (r: seq<O>)
    ensures |r| == |run|
  {
    if run == [] then []
    else
      var n := |run| - 1;
      Outputs(step, out, state, run[..n], start) + [out(After(step, state, run[..n], start), run[n], start + n)]
  }

  lemma {:induction false} AfterSplits<S, I>(step: (S, I, nat) -> S, state: S, past: seq<I>, rest: seq<I>, start: nat)
    ensures After(step, state, past + rest, start) == After(step, After(step, state, past, start), rest, start + |past|)
    decreases |rest|
  {
    if rest == [] {
      assert past + rest == past;
    } else {
      var n := |rest| - 1;
      AfterSplits(step, state, past, rest[..n], start);
      assert (past + rest)[..|past + rest| - 1] == past + rest[..n];
    }
  }

  lemma {:induction false} OutputsSplit<S, I, O>(step: (S, I, nat) -> S, out: (S, I, nat) -> O, state: S, past: seq<I>,
                                                 rest: seq<I>, start: nat)
    ensures Outputs(step, out, state, past + rest, start)
         == Outputs(step, out, state, past, start)
            + Outputs(step, out, After(step, state, past, start), rest, start + |past|)
    decreases |rest|
  {
    if rest == [] {
      assert past + rest == past;
    } else {
      var n := |rest| - 1;
      OutputsSplit(step, out, state, past, rest[..n], start);
      AfterSplits(step, state, past, rest[..n], start);
      assert (past + rest)[..|past + rest| - 1] == past + rest[..n];
    }
  }

  /** Two inputs are interchangeable at a tick in all states that satisfy `ok`, which the step keeps. */
  ghost predicate Interchangeable<S(!new), I, O>(step: (S, I, nat) -> S, out: (S, I, nat) -> O, ok: S -> bool,
                                                 a: I, b: I, tick: nat) {
    forall s {:trigger step(s, a, tick)} :: ok(s) ==>
      step(s, a, tick) == step(s, b, tick) && out(s, a, tick) == out(s, b, tick) && ok(step(s, a, tick))
  }

  /** Runs of interchangeable inputs end in the same state and give out the same at every tick. */
  lemma {:induction false} SameRuns<S(!new), I, O>(step: (S, I, nat) -> S, out: (S, I, nat) -> O, ok: S -> bool,
                                                   state: S, a: seq<I>, b: seq<I>, start: nat)
    requires ok(state) && |a| == |b|
    requires forall n :: 0 <= n < |a| ==> Interchangeable(step, out, ok, a[n], b[n], start + n)
    ensures After(step, state, a, start) == After(step, state, b, start)
    ensures Outputs(step, out, state, a, start) == Outputs(step, out, state, b, start)
    ensures ok(After(step, state, a, start))
  {
    if a != [] {
      var n := |a| - 1;
      SameRuns(step, out, ok, state, a[..n], b[..n], start);
      assert Interchangeable(step, out, ok, a[n], b[n], start + n);
    }
  }

  /** Having run `past` and then `wrong`, rolling back to the end of `past` and replaying `corrected` equals a run
      that had interchangeable inputs all along. */
  lemma ReplayEqualsRun<S(!new), I, O>(step: (S, I, nat) -> S, out: (S, I, nat) -> O, ok: S -> bool, state: S,
                                       past: seq<I>, wrong: seq<I>, corrected: seq<I>, past': seq<I>, rest': seq<I>,
                                       start: nat)
    requires ok(state) && |past| == |past'| && |corrected| == |rest'|
    requires forall n :: 0 <= n < |past| ==> Interchangeable(step, out, ok, past[n], past'[n], start + n)
    requires forall n :: 0 <= n < |corrected| ==>
      Interchangeable(step, out, ok, corrected[n], rest'[n], start + |past| + n)
    ensures var snapshot := After(step, state, past, start);
            && After(step, snapshot, corrected, start + |past|) == After(step, state, past' + rest', start)
            && Outputs(step, out, state, past + wrong, start)[..|past|]
               + Outputs(step, out, snapshot, corrected, start + |past|)
               == Outputs(step, out, state, past' + rest', start)
  {
    SameRuns(step, out, ok, state, past, past', start);
    SameRuns(step, out, ok, After(step, state, past, start), corrected, rest', start + |past|);
    ReplayFromAgreement(step, out, state, past, wrong, corrected, past', rest', start);
  }

  lemma ReplayFromAgreement<S, I, O>(step: (S, I, nat) -> S, out: (S, I, nat) -> O, state: S,
                                     past: seq<I>, wrong: seq<I>, corrected: seq<I>, past': seq<I>, rest': seq<I>,
                                     start: nat)
    requires |past| == |past'|
    requires After(step, state, past, start) == After(step, state, past', start)
    requires Outputs(step, out, state, past, start) == Outputs(step, out, state, past', start)
    requires var snapshot := After(step, state, past, start);
             && After(step, snapshot, corrected, start + |past|) == After(step, snapshot, rest', start + |past|)
             && Outputs(step, out, snapshot, corrected, start + |past|)
                == Outputs(step, out, snapshot, rest', start + |past|)
    ensures var snapshot := After(step, state, past, start);
            && After(step, snapshot, corrected, start + |past|) == After(step, state, past' + rest', start)
            && Outputs(step, out, state, past + wrong, start)[..|past|]
               + Outputs(step, out, snapshot, corrected, start + |past|)
               == Outputs(step, out, state, past' + rest', start)
  {
    Rejoin(step, out, state, past', rest', start);
    OutputsOfPast(step, out, state, past, wrong, start);
  }

  lemma OutputsOfPast<S, I, O>(step: (S, I, nat) -> S, out: (S, I, nat) -> O, state: S, past: seq<I>, wrong: seq<I>,
                               start: nat)
    ensures Outputs(step, out, state, past + wrong, start)[..|past|] == Outputs(step, out, state, past, start)
  {
    OutputsSplit(step, out, state, past, wrong, start);
  }

  lemma Rejoin<S, I, O>(step: (S, I, nat) -> S, out: (S, I, nat) -> O, state: S, past: seq<I>, rest: seq<I>, start: nat)
    ensures var middle := After(step, state, past, start);
            && After(step, middle, rest, start + |past|) == After(step, state, past + rest, start)
            && Outputs(step, out, state, past, start) + Outputs(step, out, middle, rest, start + |past|)
               == Outputs(step, out, state, past + rest, start)
  {
    AfterSplits(step, state, past, rest, start);
    OutputsSplit(step, out, state, past, rest, start);
  }
}
