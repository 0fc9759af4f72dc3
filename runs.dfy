/**
 * The shape shared by the renamer's and the resizer's `main` loops: walk
 * the image files in order, apply the per-file step, and stop at the first
 * uncaught exception.
 */
module Runs {

  import opened FileSystem

  /**
   * The state of a run after some files: the filesystem, `converted_count`,
   * and whether an uncaught exception has ended the run.
   */
  datatype RunState = RunState(disk: Disk, converted: nat, aborted: bool)

  /** The files of `cs` processed in order by `step` until one aborts. */
  function RunAll<C>(s0: RunState, cs: seq<C>, step: (RunState, C) -> RunState): RunState
  {
    if cs == [] then s0
    else
      var s := RunAll(s0, cs[..|cs| - 1], step);
      if s.aborted then s else step(s, cs[|cs| - 1])
  }

  /** One more file: the step applied to the state so far, unless the run has ended. */
  lemma RunAllSnoc<C>(s0: RunState, cs: seq<C>, i: nat, step: (RunState, C) -> RunState)
    requires i < |cs|
    ensures var s := RunAll(s0, cs[..i], step);
            RunAll(s0, cs[..i + 1], step) == if s.aborted then s else step(s, cs[i])
  {
    assert cs[..i + 1][..i] == cs[..i];
  }

  /** Once aborted, the remaining files change nothing. */
  lemma {:induction false} AbortedStays<C>(s0: RunState, cs: seq<C>, i: nat, step: (RunState, C) -> RunState)
    requires i <= |cs|
    requires RunAll(s0, cs[..i], step).aborted
    ensures RunAll(s0, cs, step) == RunAll(s0, cs[..i], step)
  {
    if i < |cs| {
      assert cs[..|cs| - 1][..i] == cs[..i];
      AbortedStays(s0, cs[..|cs| - 1], i, step);
    } else {
      assert cs[..i] == cs;
    }
  }

  /** A step that counts at most one file keeps the count at most one per file. */
  lemma {:induction false} ConvertedBound<C>(s0: RunState, cs: seq<C>, step: (RunState, C) -> RunState)
    requires forall s, c :: step(s, c).converted <= s.converted + 1
    ensures RunAll(s0, cs, step).converted <= s0.converted + |cs|
  {
    if cs != [] {
      ConvertedBound(s0, cs[..|cs| - 1], step);
    }
  }

  /** Once the state is one that no step changes, the remaining files change nothing. */
  lemma {:induction false} FixedStays<C>(s0: RunState, cs: seq<C>, i: nat, step: (RunState, C) -> RunState)
    requires i <= |cs|
    requires forall c :: step(RunAll(s0, cs[..i], step), c) == RunAll(s0, cs[..i], step)
    ensures RunAll(s0, cs, step) == RunAll(s0, cs[..i], step)
  {
    if i < |cs| {
      assert cs[..|cs| - 1][..i] == cs[..i];
      FixedStays(s0, cs[..|cs| - 1], i, step);
    } else {
      assert cs[..i] == cs;
    }
  }

  /** A step that never lifts the count above `cap` keeps the whole run at most `cap`. */
  lemma {:induction false} CountStaysAtMost<C>(s0: RunState, cs: seq<C>, step: (RunState, C) -> RunState, cap: nat)
    requires s0.converted <= cap
    requires forall s: RunState, c :: s.converted <= cap ==> step(s, c).converted <= cap
    ensures RunAll(s0, cs, step).converted <= cap
  {
    if cs != [] {
      CountStaysAtMost(s0, cs[..|cs| - 1], step, cap);
    }
  }

  /** A step that keeps the disk well formed keeps it so over the whole run. */
  lemma {:induction false} RunKeepsWellFormed<C>(s0: RunState, cs: seq<C>, step: (RunState, C) -> RunState)
    requires WellFormed(s0.disk)
    requires forall s: RunState, c :: WellFormed(s.disk) ==> WellFormed(step(s, c).disk)
    ensures WellFormed(RunAll(s0, cs, step).disk)
  {
    if cs != [] {
      RunKeepsWellFormed(s0, cs[..|cs| - 1], step);
    }
  }
}
