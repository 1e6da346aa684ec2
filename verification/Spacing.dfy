/**
 * When jobs of one image are the interval apart in the whole output of the stage, flushes
 * included, which is what the copy workers see.
 */
module Spacing {
  import opened Jobs
  import opened Interleaver
  import opened Windows
  import opened RoundRobin
  import opened Orders
  import Costs
  import StripTags

  // ---- Every interval ------------------------------------------------------------------------

  /** The window holds nothing back exactly when the input is spaced already. */
  lemma {:induction false} SplitHoldsNothingExactlyWhen(cap: nat, jobs: seq<CopyJob>)
    ensures Split(cap, jobs).held == [] <==> Spaced(cap, jobs)
    ensures Split(cap, jobs).held == [] ==> Split(cap, jobs).out == jobs
  {
    if jobs != [] {
      var before, job := jobs[..|jobs| - 1], jobs[|jobs| - 1];
      SplitHoldsNothingExactlyWhen(cap, before);
      assert jobs == before + [job];
      SpacedAppend(cap, before, job);
    }
  }

  lemma SpacedAppend(cap: nat, jobs: seq<CopyJob>, job: CopyJob)
    ensures Spaced(cap, jobs + [job]) <==> Spaced(cap, jobs) && !InWindow(cap, jobs, ImageOf(job))
  {
    var more := jobs + [job];
    assert forall i :: 0 <= i < |jobs| ==> more[i] == jobs[i];
    if Spaced(cap, more) {
      forall k | 0 <= k < |jobs| && |jobs| < k + cap ensures ImageOf(jobs[k]) != ImageOf(job) {
        assert ImageOf(more[k]) == ImageOf(more[|jobs|]) ==> cap <= |jobs| - k;
      }
    }
  }

  /**
   * A generation holds nothing back exactly when its input is spaced, and then the stage forwards
   * it. So the whole output is spaced exactly when a second stage would hold nothing of it back.
   */
  lemma SpacedInputIsForwarded(cap: uint64, jobs: seq<CopyJob>)
    requires NoWrap(cap, |jobs| - 1)
    ensures Held(cap, jobs) == [] <==> Spaced(cap, jobs)
    ensures Spaced(cap, jobs) ==> Run(cap, jobs) == jobs
    ensures Held(cap, Run(cap, jobs)) == [] <==> Spaced(cap, Run(cap, jobs))
  {
    GenerateIsSplit(cap, jobs);
    SplitHoldsNothingExactlyWhen(cap, jobs);
    assert FlushOut(cap, []) == [];
    var out := Run(cap, jobs);
    RunConserves(cap, jobs);
    assert |out| == |multiset(out)| == |multiset(jobs)| == |jobs|;
    GenerateIsSplit(cap, out);
    SplitHoldsNothingExactlyWhen(cap, out);
  }

  /** Two jobs of one image and one of another come out spaced, though one of them is flushed. */
  lemma FlushedOutputMayBeSpaced(a: CopyJob, held: CopyJob, b: CopyJob)
    requires ImageOf(a) == ImageOf(held) != ImageOf(b)
    ensures var jobs := [a] + [held] + [b];
            Held(2, jobs) == [held] && Run(2, jobs) == [a] + [b] + [held] && Spaced(2, Run(2, jobs))
  {
    SecondOfThreeWaits(2, a, held, b);
    RefusedJobChangesPlaces(2, [a], held, b);
    AlternatingIsSpaced(a, b, held);
  }

  lemma AlternatingIsSpaced(a: CopyJob, b: CopyJob, c: CopyJob)
    requires ImageOf(a) != ImageOf(b) && ImageOf(b) != ImageOf(c)
    ensures Spaced(2, [a] + [b] + [c])
  {
  }

  /**
   * What is kept apart, on the fields of the jobs: two jobs whose destinations are the same
   * reference up to the tag, wherever they are copied from.
   */
  lemma DestinationKeysBuffer(cap: uint64, a: CopyJob, b: CopyJob, x: string, t: string, y: string, u: string)
    requires 2 <= cap && ':' !in t && ':' !in u
    requires a.dst.original == x + ":" + t && b.dst.original == y + ":" + u
    ensures Held(cap, [a] + [b]) == if x == y then [b] else []
  {
    StripTags.StripUndoesTagging(x, t);
    StripTags.StripUndoesTagging(y, u);
    TicksAppend(Fresh(cap), [a], b);
    OneJobComesOut(cap, a);
    Costs.OnlyEmissionRefuses(cap, [a], b);
    ReachableBuffer(cap, [a]);
    if !Admits(Generate(cap, [a]).state, b) {
      RefusedJobIsQueued(Generate(cap, [a]).state, b);
    }
  }

  /** All inputs of at most `n` jobs come out of the whole stage spaced. */
  ghost predicate SpacesAllRuns(cap: uint64, n: nat) {
    forall jobs: seq<CopyJob> :: |jobs| <= n ==> Spaced(cap, Run(cap, jobs))
  }

  /** The stage promises spacing of its whole output only where there is nothing to promise. */
  lemma RunsAreSpacedExactlyWhen(cap: uint64, n: nat)
    ensures SpacesAllRuns(cap, n) <==> cap <= 1 || n <= 1
  {
    if cap <= 1 || n <= 1 {
      forall jobs: seq<CopyJob> | |jobs| <= n ensures Spaced(cap, Run(cap, jobs)) {
        if |jobs| <= 1 {
          ShortInputIsForwarded(cap, jobs);
        }
      }
    } else {
      var jobs := [NamedJob(0, 0), NamedJob(0, 0)];
      ShortInputIsForwarded(cap, jobs);
      assert ImageOf(jobs[0]) == ImageOf(jobs[1]) && !Spaced(cap, jobs);
      assert |jobs| <= n && !Spaced(cap, Run(cap, jobs));
    }
  }

  // ---- Fewer images than the interval --------------------------------------------------------

  /** The second round starts less than the interval after the first job of its image. */
  lemma SecondRoundIsTooClose(cap: nat, jobs: seq<CopyJob>)
    requires |ImagesOf(jobs)| < cap && |ImagesOf(jobs)| < |jobs|
    ensures !Spaced(cap, InRounds(jobs))
  {
    RoundsStartWithFirsts(jobs);
    FirstsCoverImages(jobs);
    RepeatsAreFewer(jobs);
    var firsts, rest := Occurrence(jobs, 0), Repeats(jobs);
    RoundsStartWithFirsts(rest);
    FirstsCoverImages(rest);
    var second := Occurrence(rest, 0);
    assert ImageOf(rest[0]) in ImagesOf(second);
    assert ImageOf(second[0]) in ImagesOf(firsts);
    var i :| 0 <= i < |firsts| && ImageOf(firsts[i]) == ImageOf(second[0]);
    var out := InRounds(jobs);
    assert out[i] == firsts[i] && out[|firsts|] == second[0];
  }

  lemma NoRepeatsAreSpaced(cap: uint64, jobs: seq<CopyJob>)
    requires |ImagesOf(jobs)| < cap && |jobs| == |ImagesOf(jobs)| && |jobs| + cap <= U64
    ensures Spaced(cap, Run(cap, jobs))
  {
    Costs.HeldExact(cap, jobs);
    assert Held(cap, jobs) == [] && FlushOut(cap, []) == [];
    GenerateIsSplit(cap, jobs);
    SplitIsSpaced(cap, jobs);
  }

  /**
   * With a larger interval than images, and no wrapped expiry, the whole output, flushes
   * included, keeps the interval exactly when every image has a single job.
   */
  lemma OutputIsSpacedExactlyWhen(cap: uint64, jobs: seq<CopyJob>)
    requires |ImagesOf(jobs)| < cap && |ImagesOf(jobs)| + cap <= U64
    ensures Spaced(cap, Run(cap, jobs)) <==> |jobs| == |ImagesOf(jobs)|
  {
    ImagesAreFew(jobs);
    if |jobs| == |ImagesOf(jobs)| {
      NoRepeatsAreSpaced(cap, jobs);
    } else {
      RunIsRoundRobin(cap, jobs);
      SecondRoundIsTooClose(cap, jobs);
    }
  }
}
