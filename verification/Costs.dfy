/** What flushing costs: rotations of the queue, and nested FlushBuffer calls. */
module Costs {
  import opened Jobs
  import opened Interleaver
  import opened Windows
  import opened RoundRobin

  // ---- Rotations -----------------------------------------------------------------------------

  /** The rotations of generation after generation, without the short arms of the switch. */
  function AllSpins(cap: uint64, jobs: seq<CopyJob>): nat
    decreases |jobs|
  {
    if jobs == [] then 0
    else
      assert |Held(cap, jobs)| < |jobs| by { HeldIsShorter(cap, jobs); }
      Generate(cap, jobs).spins + AllSpins(cap, Held(cap, jobs))
  }

  lemma OneJobNeverSpins(cap: uint64, job: CopyJob)
    ensures Held(cap, [job]) == [] && Generate(cap, [job]).spins == 0
  {
    HeldIsShorter(cap, [job]);
    ReachableBuffer(cap, [job]);
  }

  lemma {:induction false} FlushSpinsAreAllSpins(cap: uint64, buf: seq<CopyJob>)
    ensures Flush(cap, buf).spins == AllSpins(cap, buf)
    decreases |buf|
  {
    var held := Held(cap, buf);
    if buf != [] {
      HeldIsShorter(cap, buf);
      if |held| == 1 {
        assert held == [held[0]];
        OneJobNeverSpins(cap, held[0]);
        assert AllSpins(cap, []) == 0;
      } else if |held| > 1 {
        FlushSpinsAreAllSpins(cap, held);
      }
    }
  }

  lemma RunSpinsAreAllSpins(cap: uint64, jobs: seq<CopyJob>)
    ensures RunSpins(cap, jobs) == AllSpins(cap, jobs)
  {
    FlushSpinsAreAllSpins(cap, Held(cap, jobs));
  }

  /** Six times the sum of the first n - 1 triangular numbers. */
  function Cubic(n: nat): int {
    (n + 1) * n * (n - 1)
  }

  lemma CubicStep(h: nat)
    ensures Cubic(h + 1) == 3 * (h * (h + 1)) + Cubic(h)
  {
  }

  lemma {:induction false} CubicGrows(a: nat, b: nat)
    requires a <= b
    ensures Cubic(a) <= Cubic(b)
    ensures 1 <= a < b ==> Cubic(a) < Cubic(b)
    decreases b - a
  {
    if a < b {
      CubicStep(a);
      assert 1 <= a ==> 0 < a * (a + 1);
      CubicGrows(a + 1, b);
    }
  }

  lemma CubicAbsorbs(n: nat, held: nat, spins: nat, rest: nat)
    requires held < n && 2 * spins == held * (held + 1) && 6 * rest <= Cubic(held)
    ensures 6 * (spins + rest) <= Cubic(n)
    ensures 6 * (spins + rest) == Cubic(n) <==> held + 1 == n && 6 * rest == Cubic(held)
  {
    CubicStep(held);
    CubicGrows(held + 1, n);
  }

  lemma {:induction false} AllSpinsBound(cap: uint64, jobs: seq<CopyJob>)
    ensures 6 * AllSpins(cap, jobs) <= Cubic(|jobs|)
    decreases |jobs|
  {
    if jobs != [] {
      var held := Held(cap, jobs);
      HeldIsShorter(cap, jobs);
      ReachableBuffer(cap, jobs);
      AllSpinsBound(cap, held);
      CubicAbsorbs(|jobs|, |held|, Generate(cap, jobs).spins, AllSpins(cap, held));
    }
  }

  ghost predicate AreOf(jobs: seq<CopyJob>, image: string) {
    forall i :: 0 <= i < |jobs| ==> ImageOf(jobs[i]) == image
  }

  ghost predicate OneImage(jobs: seq<CopyJob>) {
    jobs != [] ==> AreOf(jobs, ImageOf(jobs[0]))
  }

  lemma OneMoreHeld(cap: uint64, jobs: seq<CopyJob>, job: CopyJob)
    requires !Admits(Generate(cap, jobs).state, job)
    ensures Generate(cap, jobs + [job]).out == Generate(cap, jobs).out
    ensures Held(cap, jobs + [job]) == Held(cap, jobs) + [job]
  {
    ReachableBuffer(cap, jobs);
    RefusedJobIsQueued(Generate(cap, jobs).state, job);
    TicksAppend(Fresh(cap), jobs, job);
    assert Generate(cap, jobs).out + [] == Generate(cap, jobs).out;
  }

  /** Jobs of one image are held back, all but the first. */
  lemma {:induction false} OneImageHoldsAllButFirst(cap: uint64, jobs: seq<CopyJob>)
    requires 2 <= cap && jobs != [] && OneImage(jobs)
    ensures Generate(cap, jobs).out == [jobs[0]] && Held(cap, jobs) == jobs[1..]
  {
    if |jobs| == 1 {
      FirstJobComesOutFirst(cap, jobs);
      ReachableBuffer(cap, jobs);
    } else {
      var before, job := jobs[..|jobs| - 1], jobs[|jobs| - 1];
      assert jobs == before + [job];
      OneImageHoldsAllButFirst(cap, before);
      OnlyEmissionRefuses(cap, before, job);
      OneMoreHeld(cap, before, job);
      assert jobs[1..] == before[1..] + [job];
    }
  }

  /** After a single emission, exactly the jobs of its image are refused, if `cap` exceeds 1. */
  lemma OnlyEmissionRefuses(cap: uint64, jobs: seq<CopyJob>, job: CopyJob)
    requires |Generate(cap, jobs).out| == 1
    ensures Admits(Generate(cap, jobs).state, job) <==>
            cap <= 1 || ImageOf(job) != ImageOf(Generate(cap, jobs).out[0])
  {
    var g, image := Generate(cap, jobs), ImageOf(job);
    ReachableBuffer(cap, jobs);
    FilterHoldsExpiry(cap, jobs);
    assert ImagesOf(g.out) == {ImageOf(g.out[0])};
    if image in g.state.filter {
      assert Expires(cap, g, image);
      LastAtIsLast(g.out, image);
      assert g.state.filter[image] == cap;
    }
  }

  lemma {:induction false} SingleEmissionMeansOneImage(cap: uint64, jobs: seq<CopyJob>)
    requires |Generate(cap, jobs).out| == 1
    ensures OneImage(jobs) && (|jobs| >= 2 ==> 2 <= cap)
  {
    var before, job := jobs[..|jobs| - 1], jobs[|jobs| - 1];
    if before != [] {
      FirstJobComesOutFirst(cap, before);
      SingleEmissionMeansOneImage(cap, before);
      OnlyEmissionRefuses(cap, before, job);
      assert forall i :: 0 <= i < |before| ==> jobs[i] == before[i];
    }
  }

  /** All but one job held back means one image and an interval that tells. */
  lemma HoldsAllButFirstExactlyWhen(cap: uint64, jobs: seq<CopyJob>)
    requires |jobs| >= 2
    ensures |Held(cap, jobs)| + 1 == |jobs| <==> 2 <= cap && OneImage(jobs)
    ensures 2 <= cap && OneImage(jobs) ==> OneImage(Held(cap, jobs))
  {
    ReachableBuffer(cap, jobs);
    if |Held(cap, jobs)| + 1 == |jobs| {
      SingleEmissionMeansOneImage(cap, jobs);
    }
    if 2 <= cap && OneImage(jobs) {
      OneImageHoldsAllButFirst(cap, jobs);
      assert OneImage(jobs[1..]);
    }
  }

  lemma {:induction false} AllSpinsExact(cap: uint64, jobs: seq<CopyJob>)
    ensures 6 * AllSpins(cap, jobs) == Cubic(|jobs|) <==> |jobs| <= 1 || (2 <= cap && OneImage(jobs))
    decreases |jobs|
  {
    if |jobs| >= 2 {
      var held := Held(cap, jobs);
      HeldIsShorter(cap, jobs);
      ReachableBuffer(cap, jobs);
      AllSpinsBound(cap, held);
      CubicAbsorbs(|jobs|, |held|, Generate(cap, jobs).spins, AllSpins(cap, held));
      HoldsAllButFirstExactlyWhen(cap, jobs);
      AllSpinsExact(cap, held);
    } else if |jobs| == 1 {
      assert jobs == [jobs[0]];
      OneJobNeverSpins(cap, jobs[0]);
      assert AllSpins(cap, []) == 0;
    }
  }

  /**
   * Over a whole run on n jobs the rotation loop makes at most (n + 1) n (n - 1) / 6 iterations,
   * and it makes that many exactly when all jobs share one image and the interval exceeds 1.
   */
  lemma RunCost(cap: uint64, jobs: seq<CopyJob>)
    ensures var n := |jobs|;
            && 6 * RunSpins(cap, jobs) <= (n + 1) * n * (n - 1)
            && (6 * RunSpins(cap, jobs) == (n + 1) * n * (n - 1) <==>
                n <= 1 || (2 <= cap && OneImage(jobs)))
  {
    RunSpinsAreAllSpins(cap, jobs);
    AllSpinsBound(cap, jobs);
    AllSpinsExact(cap, jobs);
  }

  // ---- Depth ---------------------------------------------------------------------------------

  /** Every image that enters a generation has a job among those the generation emits. */
  lemma {:induction false} EveryImageEmits(cap: uint64, jobs: seq<CopyJob>)
    ensures ImagesOf(Generate(cap, jobs).out) == ImagesOf(jobs)
  {
    if jobs != [] {
      var before, job := jobs[..|jobs| - 1], jobs[|jobs| - 1];
      EveryImageEmits(cap, before);
      ReachableBuffer(cap, before);
      assert jobs == before + [job];
      ImagesOfAppend(before, job);
      var g := Generate(cap, before);
      if Admits(g.state, job) {
        ImagesOfAppend(g.out, job);
      } else {
        RefusedJobIsQueued(g.state, job);
        assert Generate(cap, jobs).out == g.out;
      }
    }
  }

  lemma {:induction false} GenerationCounts(cap: uint64, jobs: seq<CopyJob>, image: string)
    ensures Count(Generate(cap, jobs).out, image) + Count(Held(cap, jobs), image) == Count(jobs, image)
  {
    if jobs != [] {
      var before, job := jobs[..|jobs| - 1], jobs[|jobs| - 1];
      GenerationCounts(cap, before, image);
      ReachableBuffer(cap, before);
      var g := Generate(cap, before);
      if Admits(g.state, job) {
        CountAppend(g.out, job, image);
      } else {
        RefusedJobIsQueued(g.state, job);
        CountAppend(g.state.buf, job, image);
        assert Generate(cap, jobs).out == g.out;
      }
    }
  }

  /** A generation leaves fewer jobs of every image it was given. */
  lemma HeldHasFewerOfEach(cap: uint64, jobs: seq<CopyJob>, image: string)
    requires Count(jobs, image) > 0
    ensures Count(Held(cap, jobs), image) < Count(jobs, image)
  {
    EveryImageEmits(cap, jobs);
    GenerationCounts(cap, jobs, image);
    CountIsPresence(jobs, image);
    CountIsPresence(Generate(cap, jobs).out, image);
  }

  ghost predicate AtMostEach(jobs: seq<CopyJob>, m: nat) {
    forall image :: Count(jobs, image) <= m
  }

  /** FlushBuffer nests no deeper than the largest number of buffered jobs of one image. */
  lemma {:induction false} FlushDepthBound(cap: uint64, buf: seq<CopyJob>, m: nat)
    requires 1 <= m && AtMostEach(buf, m)
    ensures Flush(cap, buf).depth <= m
    decreases |buf|
  {
    var held := Held(cap, buf);
    if |held| > 1 {
      HeldIsShorter(cap, buf);
      forall image ensures Count(held, image) <= m - 1 {
        GenerationCounts(cap, buf, image);
        if Count(buf, image) > 0 {
          HeldHasFewerOfEach(cap, buf, image);
        }
      }
      var image := ImageOf(held[0]);
      CountIsPresence(held, image);
      assert image in ImagesOf(held);
      FlushDepthBound(cap, held, m - 1);
    }
  }

  // ---- How much is held back -----------------------------------------------------------------

  /** At least one job of every image goes out at once, so at most the others are held back. */
  lemma HeldBound(cap: uint64, jobs: seq<CopyJob>)
    ensures |Held(cap, jobs)| + |ImagesOf(jobs)| <= |jobs|
  {
    EveryImageEmits(cap, jobs);
    ReachableBuffer(cap, jobs);
    ImagesAreFew(Generate(cap, jobs).out);
  }

  /** With more workers than images that many are held back. */
  lemma HeldExact(cap: uint64, jobs: seq<CopyJob>)
    requires |ImagesOf(jobs)| < cap && |ImagesOf(jobs)| + cap <= U64
    ensures |Held(cap, jobs)| + |ImagesOf(jobs)| == |jobs|
  {
    BufferGenerationIsRound(cap, jobs);
    RepeatsAreFewer(jobs);
    FirstsCoverImages(jobs);
  }

  lemma TwoImagesTwoJobs(jobs: seq<CopyJob>, a: string, b: string)
    requires a != b && Count(jobs, a) > 0 && Count(jobs, b) > 0
    ensures |jobs| >= 2
  {
    CountIsPresence(jobs, a);
    CountIsPresence(jobs, b);
  }

  /** The bound is met: two images with `m` jobs each, and more workers than images, need `m` calls. */
  lemma {:induction false} FlushDepthIsReached(cap: uint64, buf: seq<CopyJob>, m: nat, a: string, b: string)
    requires a != b && Count(buf, a) >= m && Count(buf, b) >= m
    requires |ImagesOf(buf)| < cap && |ImagesOf(buf)| + cap <= U64
    ensures m <= Flush(cap, buf).depth
    decreases m
  {
    if m >= 2 {
      BufferGenerationIsRound(cap, buf);
      var held := Repeats(buf);
      CountOfRepeats(buf, a);
      CountOfRepeats(buf, b);
      TwoImagesTwoJobs(held, a, b);
      RepeatsAreFewer(buf);
      SubsetIsNoLarger(ImagesOf(held), ImagesOf(buf));
      FlushDepthIsReached(cap, held, m - 1, a, b);
    }
  }

  /** How many jobs have at least `d` earlier jobs of their image. */
  function LaterThan(jobs: seq<CopyJob>, d: nat): nat {
    if jobs == [] then 0
    else
      var before, job := jobs[..|jobs| - 1], jobs[|jobs| - 1];
      LaterThan(before, d) + if Count(before, ImageOf(job)) >= d then 1 else 0
  }

  lemma LaterThanAppend(jobs: seq<CopyJob>, job: CopyJob, d: nat)
    ensures LaterThan(jobs + [job], d) == LaterThan(jobs, d) + if Count(jobs, ImageOf(job)) >= d then 1 else 0
  {
    assert (jobs + [job])[..|jobs|] == jobs;
  }

  lemma {:induction false} RepeatsAreLater(jobs: seq<CopyJob>, d: nat)
    ensures LaterThan(jobs, 0) == |jobs|
    ensures LaterThan(Repeats(jobs), d) == LaterThan(jobs, d + 1) <= |Repeats(jobs)|
  {
    if jobs != [] {
      var before, job := jobs[..|jobs| - 1], jobs[|jobs| - 1];
      RepeatsAreLater(before, d);
      CountOfRepeats(before, ImageOf(job));
      LaterThanAppend(Repeats(before), job, d);
      assert Repeats(before) + [] == Repeats(before);
    }
  }

  /**
   * With a larger interval than images, `d` nested calls are enough exactly when at most one job
   * has `d` earlier jobs of its image: the depth is the least such `d` of at least 1.
   */
  lemma {:induction false} FlushDepthExactlyWhen(cap: uint64, buf: seq<CopyJob>, d: nat)
    requires 1 <= d && |ImagesOf(buf)| < cap && |ImagesOf(buf)| + cap <= U64
    ensures Flush(cap, buf).depth <= d <==> LaterThan(buf, d) <= 1
    decreases d
  {
    var held := Repeats(buf);
    BufferGenerationIsRound(cap, buf);
    RepeatsAreLater(buf, d - 1);
    RepeatsAreLater(held, 0);
    if d > 1 && |held| > 1 {
      RepeatsAreFewer(buf);
      SubsetIsNoLarger(ImagesOf(held), ImagesOf(buf));
      FlushDepthExactlyWhen(cap, held, d - 1);
    }
  }
}
