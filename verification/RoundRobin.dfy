/**
 * What the stage promises: with more copy workers than images it is a round robin over the
 * images, and jobs of one image leave in the order they came. Orders.dfy says exactly when.
 */
module RoundRobin {
  import opened Jobs
  import opened Interleaver
  import opened Windows

  function Count(jobs: seq<CopyJob>, image: string): nat {
    if jobs == [] then 0
    else Count(jobs[..|jobs| - 1], image) + (if ImageOf(jobs[|jobs| - 1]) == image then 1 else 0)
  }

  /** The jobs with exactly `k` earlier jobs of their image, in order of arrival. */
  function Occurrence(jobs: seq<CopyJob>, k: nat): seq<CopyJob> {
    if jobs == [] then []
    else
      var before, job := jobs[..|jobs| - 1], jobs[|jobs| - 1];
      Occurrence(before, k) + (if Count(before, ImageOf(job)) == k then [job] else [])
  }

  /** Round `k`, then round `k` + 1, and so on, before round `n`. */
  function Rounds(jobs: seq<CopyJob>, k: nat, n: nat): seq<CopyJob>
    decreases n - k
  {
    if n <= k then [] else Occurrence(jobs, k) + Rounds(jobs, k + 1, n)
  }

  /** The first job of every image, then the second of every image, and so on. */
  function InRounds(jobs: seq<CopyJob>): seq<CopyJob> {
    Rounds(jobs, 0, |jobs|)
  }

  /** The jobs that are not the first of their image. */
  function Repeats(jobs: seq<CopyJob>): seq<CopyJob> {
    if jobs == [] then []
    else
      var before, job := jobs[..|jobs| - 1], jobs[|jobs| - 1];
      Repeats(before) + (if Count(before, ImageOf(job)) > 0 then [job] else [])
  }

  function OfImage(jobs: seq<CopyJob>, image: string): seq<CopyJob> {
    if jobs == [] then []
    else
      var before, job := jobs[..|jobs| - 1], jobs[|jobs| - 1];
      OfImage(before, image) + (if ImageOf(job) == image then [job] else [])
  }

  /** The jobs of every image leave in their order of arrival, and none is lost. */
  ghost predicate KeepsOrder(jobs: seq<CopyJob>, out: seq<CopyJob>) {
    forall image :: OfImage(out, image) == OfImage(jobs, image)
  }

  // ---- Counting and appending ----------------------------------------------------------------

  lemma CountAppend(jobs: seq<CopyJob>, job: CopyJob, image: string)
    ensures Count(jobs + [job], image) == Count(jobs, image) + if ImageOf(job) == image then 1 else 0
  {
    assert (jobs + [job])[..|jobs|] == jobs;
  }

  lemma OccurrenceAppend(jobs: seq<CopyJob>, job: CopyJob, k: nat)
    ensures Occurrence(jobs + [job], k) ==
            Occurrence(jobs, k) + if Count(jobs, ImageOf(job)) == k then [job] else []
  {
    assert (jobs + [job])[..|jobs|] == jobs;
  }

  lemma OfImageAppend(jobs: seq<CopyJob>, job: CopyJob, image: string)
    ensures OfImage(jobs + [job], image) == OfImage(jobs, image) + if ImageOf(job) == image then [job] else []
  {
    assert (jobs + [job])[..|jobs|] == jobs;
  }

  lemma {:induction false} OfImageConcat(a: seq<CopyJob>, b: seq<CopyJob>, image: string)
    ensures OfImage(a + b, image) == OfImage(a, image) + OfImage(b, image)
  {
    if b == [] {
      assert a + b == a;
    } else {
      var before, job := b[..|b| - 1], b[|b| - 1];
      assert a + b == (a + before) + [job];
      OfImageAppend(a + before, job, image);
      OfImageConcat(a, before, image);
    }
  }

  lemma {:induction false} CountIsPresence(jobs: seq<CopyJob>, image: string)
    ensures Count(jobs, image) > 0 <==> image in ImagesOf(jobs)
    ensures |OfImage(jobs, image)| == Count(jobs, image) <= |jobs|
  {
    if jobs != [] {
      var before, job := jobs[..|jobs| - 1], jobs[|jobs| - 1];
      CountIsPresence(before, image);
      ImagesOfAppend(before, job);
      assert jobs == before + [job];
    }
  }

  lemma {:induction false} ImagesAreFew(jobs: seq<CopyJob>)
    ensures |ImagesOf(jobs)| <= |jobs|
  {
    if jobs != [] {
      ImagesAreFew(jobs[..|jobs| - 1]);
      ImagesOfAppend(jobs[..|jobs| - 1], jobs[|jobs| - 1]);
      assert jobs == jobs[..|jobs| - 1] + [jobs[|jobs| - 1]];
    }
  }

  lemma SubsetIsNoLarger<T>(a: set<T>, b: set<T>)
    requires a <= b
    ensures |a| <= |b|
  {
    assert b == a + (b - a);
  }

  // ---- One generation is one round -----------------------------------------------------------

  /** The first jobs of the images: one for each image. */
  lemma {:induction false} FirstsCoverImages(jobs: seq<CopyJob>)
    ensures ImagesOf(Occurrence(jobs, 0)) == ImagesOf(jobs)
    ensures |Occurrence(jobs, 0)| == |ImagesOf(jobs)|
  {
    if jobs != [] {
      var before, job := jobs[..|jobs| - 1], jobs[|jobs| - 1];
      FirstsCoverImages(before);
      assert jobs == before + [job];
      ImagesOfAppend(before, job);
      ImagesOfAppend(Occurrence(before, 0), job);
      CountIsPresence(before, ImageOf(job));
      if Count(before, ImageOf(job)) > 0 {
        assert Occurrence(jobs, 0) == Occurrence(before, 0);
        assert ImagesOf(jobs) == ImagesOf(before);
      }
    }
  }

  /** While fewer than `cap` jobs have gone out, the window is all of them. */
  lemma WideWindow(cap: nat, out: seq<CopyJob>, image: string)
    requires |out| < cap
    ensures InWindow(cap, out, image) <==> image in ImagesOf(out)
  {
    if image in ImagesOf(out) {
      var k :| 0 <= k < |out| && ImageOf(out[k]) == image;
      assert |out| < k + cap;
    }
  }

  /** With more workers than images a generation emits the first job of each, and only those. */
  lemma {:induction false} GenerationIsRound(cap: nat, jobs: seq<CopyJob>)
    requires |ImagesOf(jobs)| < cap
    ensures Split(cap, jobs) == Parts(Occurrence(jobs, 0), Repeats(jobs))
  {
    if jobs != [] {
      var before, job := jobs[..|jobs| - 1], jobs[|jobs| - 1];
      FewerImagesBefore(jobs);
      GenerationIsRound(cap, before);
      FirstsCoverImages(before);
      WideWindow(cap, Occurrence(before, 0), ImageOf(job));
      CountIsPresence(before, ImageOf(job));
    }
  }

  lemma FewerImagesBefore(jobs: seq<CopyJob>)
    requires jobs != []
    ensures |ImagesOf(jobs[..|jobs| - 1])| <= |ImagesOf(jobs)|
  {
    var before, job := jobs[..|jobs| - 1], jobs[|jobs| - 1];
    assert jobs == before + [job];
    ImagesOfAppend(before, job);
    SubsetIsNoLarger(ImagesOf(before), ImagesOf(jobs));
  }

  // ---- Rounds of the repeats are the later rounds --------------------------------------------

  lemma {:induction false} CountOfRepeats(jobs: seq<CopyJob>, image: string)
    ensures Count(Repeats(jobs), image) == if Count(jobs, image) == 0 then 0 else Count(jobs, image) - 1
  {
    if jobs != [] {
      var before, job := jobs[..|jobs| - 1], jobs[|jobs| - 1];
      CountOfRepeats(before, image);
      CountAppend(Repeats(before), job, image);
      assert Repeats(before) + [] == Repeats(before);
    }
  }

  lemma {:induction false} OccurrenceOfRepeats(jobs: seq<CopyJob>, k: nat)
    ensures Occurrence(Repeats(jobs), k) == Occurrence(jobs, k + 1)
  {
    if jobs != [] {
      var before, job := jobs[..|jobs| - 1], jobs[|jobs| - 1];
      OccurrenceOfRepeats(before, k);
      CountOfRepeats(before, ImageOf(job));
      OccurrenceAppend(Repeats(before), job, k);
      assert Repeats(before) + [] == Repeats(before);
    }
  }

  lemma {:induction false} RoundsOfRepeats(jobs: seq<CopyJob>, k: nat, n: nat)
    ensures Rounds(Repeats(jobs), k, n) == Rounds(jobs, k + 1, n + 1)
    decreases n - k
  {
    if k < n {
      OccurrenceOfRepeats(jobs, k);
      RoundsOfRepeats(jobs, k + 1, n);
    }
  }

  lemma {:induction false} LateRoundIsEmpty(jobs: seq<CopyJob>, k: nat)
    requires |jobs| <= k
    ensures Occurrence(jobs, k) == []
  {
    if jobs != [] {
      var before, job := jobs[..|jobs| - 1], jobs[|jobs| - 1];
      LateRoundIsEmpty(before, k);
      CountIsPresence(before, ImageOf(job));
    }
  }

  lemma {:induction false} LateRoundsAddNothing(jobs: seq<CopyJob>, k: nat, n: nat)
    requires |jobs| <= n
    ensures Rounds(jobs, k, n) == Rounds(jobs, k, |jobs|)
    decreases n - k
  {
    if k < n {
      LateRoundsAddNothing(jobs, k + 1, n);
      if |jobs| <= k {
        LateRoundIsEmpty(jobs, k);
      }
    }
  }

  lemma {:induction false} RepeatsAreFewer(jobs: seq<CopyJob>)
    ensures |Repeats(jobs)| + |Occurrence(jobs, 0)| == |jobs|
    ensures ImagesOf(Repeats(jobs)) <= ImagesOf(jobs)
  {
    if jobs != [] {
      var before, job := jobs[..|jobs| - 1], jobs[|jobs| - 1];
      RepeatsAreFewer(before);
      assert jobs == before + [job];
      ImagesOfAppend(before, job);
      ImagesOfAppend(Repeats(before), job);
    }
  }

  lemma RepeatsAreStrictlyFewer(jobs: seq<CopyJob>)
    requires jobs != []
    ensures |Repeats(jobs)| < |jobs|
  {
    RepeatsAreFewer(jobs);
    FirstsCoverImages(jobs);
    assert ImageOf(jobs[0]) in ImagesOf(jobs);
  }

  lemma FirstRoundThenRest(jobs: seq<CopyJob>, rest: seq<CopyJob>, n: nat)
    requires n + 1 == |jobs|
    requires Rounds(rest, 0, n) == Rounds(jobs, 1, |jobs|)
    requires Rounds(rest, 0, n) == Rounds(rest, 0, |rest|)
    ensures InRounds(jobs) == Occurrence(jobs, 0) + InRounds(rest)
  {
  }

  lemma RoundsStartWithFirsts(jobs: seq<CopyJob>)
    requires jobs != []
    ensures InRounds(jobs) == Occurrence(jobs, 0) + InRounds(Repeats(jobs))
  {
    RepeatsAreStrictlyFewer(jobs);
    var n := |jobs| - 1;
    RoundsOfRepeats(jobs, 0, n);
    LateRoundsAddNothing(Repeats(jobs), 0, n);
    FirstRoundThenRest(jobs, Repeats(jobs), n);
  }

  lemma {:induction false} SweepIsInRounds(cap: nat, jobs: seq<CopyJob>)
    requires |ImagesOf(jobs)| < cap
    ensures Sweep(cap, jobs) == InRounds(jobs)
    decreases |jobs|
  {
    if jobs != [] {
      GenerationIsRound(cap, jobs);
      RoundsStartWithFirsts(jobs);
      RepeatsAreFewer(jobs);
      FirstsCoverImages(jobs);
      SubsetIsNoLarger(ImagesOf(Repeats(jobs)), ImagesOf(jobs));
      assert Split(cap, jobs).out != [];
      SweepIsInRounds(cap, Repeats(jobs));
    }
  }

  /** A generation of the buffer is a round too; only the expiries of one round must not wrap. */
  lemma {:induction false} BufferGenerationIsRound(cap: uint64, jobs: seq<CopyJob>)
    requires |ImagesOf(jobs)| < cap && |ImagesOf(jobs)| + cap <= U64
    ensures Generate(cap, jobs).out == Occurrence(jobs, 0) && Held(cap, jobs) == Repeats(jobs)
  {
    if jobs != [] {
      var before, job := jobs[..|jobs| - 1], jobs[|jobs| - 1];
      FewerImagesBefore(jobs);
      BufferGenerationIsRound(cap, before);
      FirstsCoverImages(before);
      MapIsWindow(cap, before, job);
      WideWindow(cap, Occurrence(before, 0), ImageOf(job));
      CountIsPresence(before, ImageOf(job));
      ReachableBuffer(cap, before);
      if !Admits(Generate(cap, before).state, job) {
        RefusedJobIsQueued(Generate(cap, before).state, job);
      }
    }
  }

  lemma {:induction false} AllGenerationsAreInRounds(cap: uint64, jobs: seq<CopyJob>)
    requires |ImagesOf(jobs)| < cap && |ImagesOf(jobs)| + cap <= U64
    ensures AllGenerations(cap, jobs) == InRounds(jobs)
    decreases |jobs|
  {
    if jobs != [] {
      BufferGenerationIsRound(cap, jobs);
      RoundsStartWithFirsts(jobs);
      RepeatsAreStrictlyFewer(jobs);
      RepeatsAreFewer(jobs);
      SubsetIsNoLarger(ImagesOf(Repeats(jobs)), ImagesOf(jobs));
      AllGenerationsAreInRounds(cap, Repeats(jobs));
    }
  }

  /**
   * With more copy workers than images the whole stage is a round robin, for inputs of any
   * length; an interval of up to 2^63 meets the second condition by the first.
   */
  lemma RunIsRoundRobin(cap: uint64, jobs: seq<CopyJob>)
    requires |ImagesOf(jobs)| < cap && |ImagesOf(jobs)| + cap <= U64
    ensures Run(cap, jobs) == InRounds(jobs) && KeepsOrder(jobs, Run(cap, jobs))
  {
    RunIsAllGenerations(cap, jobs);
    AllGenerationsAreInRounds(cap, jobs);
    InRoundsKeepsOrder(jobs);
  }

  // ---- Order of arrival ----------------------------------------------------------------------

  lemma NothingRepeatedYet(jobs: seq<CopyJob>, image: string)
    requires Count(jobs, image) == 0
    ensures OfImage(Repeats(jobs), image) == []
  {
    CountOfRepeats(jobs, image);
    CountIsPresence(Repeats(jobs), image);
  }

  lemma {:induction false} FirstsThenRepeats(jobs: seq<CopyJob>, image: string)
    ensures OfImage(Occurrence(jobs, 0), image) + OfImage(Repeats(jobs), image) == OfImage(jobs, image)
  {
    if jobs != [] {
      var before, job := jobs[..|jobs| - 1], jobs[|jobs| - 1];
      FirstsThenRepeats(before, image);
      if Count(before, ImageOf(job)) == 0 {
        OfImageAppend(Occurrence(before, 0), job, image);
        assert Repeats(jobs) == Repeats(before);
        if image == ImageOf(job) {
          NothingRepeatedYet(before, image);
        }
      } else {
        OfImageAppend(Repeats(before), job, image);
        assert Occurrence(jobs, 0) == Occurrence(before, 0);
      }
    }
  }

  lemma {:induction false} SweepKeepsOrder(cap: nat, jobs: seq<CopyJob>, image: string)
    requires |ImagesOf(jobs)| < cap
    ensures OfImage(Sweep(cap, jobs), image) == OfImage(jobs, image)
    decreases |jobs|
  {
    if jobs != [] {
      GenerationIsRound(cap, jobs);
      RepeatsAreFewer(jobs);
      SubsetIsNoLarger(ImagesOf(Repeats(jobs)), ImagesOf(jobs));
      assert Split(cap, jobs).out != [];
      SweepKeepsOrder(cap, Repeats(jobs), image);
      OfImageConcat(Occurrence(jobs, 0), Sweep(cap, Repeats(jobs)), image);
      FirstsThenRepeats(jobs, image);
    }
  }

  /** A round robin never reorders the jobs of one image. */
  lemma InRoundsKeepsOrder(jobs: seq<CopyJob>)
    ensures KeepsOrder(jobs, InRounds(jobs))
  {
    var wide := |ImagesOf(jobs)| + 1;
    SweepIsInRounds(wide, jobs);
    forall image ensures OfImage(InRounds(jobs), image) == OfImage(jobs, image) {
      SweepKeepsOrder(wide, jobs, image);
    }
  }
}
