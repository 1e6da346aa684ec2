/**
 * A second reading of the interleave buffer, without map and epoch: a job goes out unless its
 * image is among the last `cap` - 1 jobs that went out. The buffer does the same until an
 * unsigned addition wraps, and this file says exactly when that is.
 */
module Windows {
  import opened Jobs
  import opened Interleaver

  /** Is `image` among the last `cap` - 1 jobs of `out`? */
  ghost predicate InWindow(cap: nat, out: seq<CopyJob>, image: string) {
    exists k :: 0 <= k < |out| && |out| < k + cap && ImageOf(out[k]) == image
  }

  datatype Parts = Parts(out: seq<CopyJob>, held: seq<CopyJob>)

  /** One generation: the jobs that go out and the jobs kept for the next generation. */
  ghost function Split(cap: nat, jobs: seq<CopyJob>): (p: Parts)
    ensures |p.out| + |p.held| == |jobs|
    ensures jobs != [] ==> p.out != []
  {
    if jobs == [] then Parts([], [])
    else
      var p := Split(cap, jobs[..|jobs| - 1]);
      var job := jobs[|jobs| - 1];
      if InWindow(cap, p.out, ImageOf(job)) then Parts(p.out, p.held + [job])
      else Parts(p.out + [job], p.held)
  }

  /** Generation after generation until nothing is held back. */
  ghost function Sweep(cap: nat, jobs: seq<CopyJob>): seq<CopyJob>
    decreases |jobs|
  {
    if jobs == [] then [] else Split(cap, jobs).out + Sweep(cap, Split(cap, jobs).held)
  }

  // ---- The map agrees with the window --------------------------------------------------------

  /** The last position of `image` in `out`, or -1. */
  ghost function LastAt(out: seq<CopyJob>, image: string): int {
    if out == [] then -1
    else if ImageOf(out[|out| - 1]) == image then |out| - 1
    else LastAt(out[..|out| - 1], image)
  }

  lemma {:induction false} LastAtIsLast(out: seq<CopyJob>, image: string)
    ensures var l := LastAt(out, image);
            && -1 <= l < |out|
            && (l >= 0 ==> ImageOf(out[l]) == image)
            && (forall k :: l < k < |out| ==> ImageOf(out[k]) != image)
  {
    if out != [] && ImageOf(out[|out| - 1]) != image {
      LastAtIsLast(out[..|out| - 1], image);
    }
  }

  lemma LastAtAppend(out: seq<CopyJob>, job: CopyJob, image: string)
    ensures LastAt(out + [job], image) == if ImageOf(job) == image then |out| else LastAt(out, image)
  {
    assert (out + [job])[..|out|] == out;
  }

  ghost predicate Expires(cap: uint64, g: Generation, image: string)
    requires image in g.state.filter
  {
    0 <= LastAt(g.out, image) && g.state.filter[image] == Wrap(LastAt(g.out, image) + cap)
  }

  ghost predicate FilterIsExpiry(cap: uint64, g: Generation) {
    forall image :: image in g.state.filter ==> Expires(cap, g, image)
  }

  lemma OldEntryExpires(cap: uint64, g: Generation, job: CopyJob, image: string)
    requires image in g.state.filter && Expires(cap, g, image) && image != ImageOf(job)
    ensures Expires(cap, Generation(Remember(g.state, job), g.out + [job], g.spins), image)
  {
    LastAtAppend(g.out, job, image);
  }

  lemma NewEntryExpires(cap: uint64, g: Generation, job: CopyJob)
    requires g.state.cap == cap && g.state.epoch == Wrap(|g.out|)
    ensures Expires(cap, Generation(Remember(g.state, job), g.out + [job], g.spins), ImageOf(job))
  {
    LastAtAppend(g.out, job, ImageOf(job));
    WrapWrapped(|g.out|, cap);
  }

  lemma EmissionSetsExpiry(cap: uint64, g: Generation, job: CopyJob)
    requires g.state.cap == cap && g.state.epoch == Wrap(|g.out|) && FilterIsExpiry(cap, g)
    ensures FilterIsExpiry(cap, Generation(Remember(g.state, job), g.out + [job], g.spins))
  {
    var h := Generation(Remember(g.state, job), g.out + [job], g.spins);
    forall image | image in h.state.filter ensures Expires(cap, h, image) {
      if image == ImageOf(job) {
        NewEntryExpires(cap, g, job);
      } else {
        OldEntryExpires(cap, g, job, image);
      }
    }
  }

  lemma TickKeepsExpiry(cap: uint64, g: Generation, job: CopyJob)
    requires g.state.cap == cap && g.state.epoch == Wrap(|g.out|) && Settled(g.state)
    requires FilterIsExpiry(cap, g)
    ensures FilterIsExpiry(cap, Then(g, job))
  {
    if Admits(g.state, job) {
      EmissionSetsExpiry(cap, g, job);
    } else {
      RefusedJobIsQueued(g.state, job);
      assert g.out + [] == g.out;
      RotationKeepsExpiry(cap, g, g.state.buf + [job], g.spins + |g.state.buf| + 1);
    }
  }

  lemma RotationKeepsExpiry(cap: uint64, g: Generation, buf: seq<CopyJob>, spins: nat)
    requires FilterIsExpiry(cap, g)
    ensures FilterIsExpiry(cap, Generation(g.state.(buf := buf), g.out, spins))
  {
    forall image | image in g.state.filter
      ensures Expires(cap, Generation(g.state.(buf := buf), g.out, spins), image)
    {
      assert Expires(cap, g, image);
    }
  }

  /** A filter entry is the last emission of its image plus the interval, modulo 2^64. */
  lemma {:induction false} FilterHoldsExpiry(cap: uint64, jobs: seq<CopyJob>)
    ensures FilterIsExpiry(cap, Generate(cap, jobs))
  {
    if jobs != [] {
      FilterHoldsExpiry(cap, jobs[..|jobs| - 1]);
      ReachableBuffer(cap, jobs[..|jobs| - 1]);
      TickKeepsExpiry(cap, Generate(cap, jobs[..|jobs| - 1]), jobs[|jobs| - 1]);
    }
  }

  /** No addition of the buffer has wrapped when `n` jobs have gone out and it looks at another. */
  predicate NoWrap(cap: nat, n: int) {
    n < U64 && n + cap <= U64
  }

  /** The buffer lets a job through exactly when its image is outside the window. */
  lemma MapIsWindow(cap: uint64, jobs: seq<CopyJob>, job: CopyJob)
    requires NoWrap(cap, |Generate(cap, jobs).out|)
    ensures Admits(Generate(cap, jobs).state, job) <==> !InWindow(cap, Generate(cap, jobs).out, ImageOf(job))
  {
    FilterHoldsExpiry(cap, jobs);
    ReachableBuffer(cap, jobs);
    ExpiryIsWindow(cap, Generate(cap, jobs), job);
  }

  lemma ExpiryIsWindow(cap: uint64, g: Generation, job: CopyJob)
    requires Reaches(cap, g) && FilterIsExpiry(cap, g) && NoWrap(cap, |g.out|)
    ensures Admits(g.state, job) <==> !InWindow(cap, g.out, ImageOf(job))
  {
    var image := ImageOf(job);
    var l := LastAt(g.out, image);
    LastAtIsLast(g.out, image);
    WrapSmall(|g.out|);
    if image in g.state.filter {
      assert Expires(cap, g, image);
      WrapSmall(l + cap);
      assert |g.out| < l + cap ==> InWindow(cap, g.out, image);
    } else {
      assert forall k :: 0 <= k < |g.out| ==> ImageOf(g.out[k]) in ImagesOf(g.out);
    }
  }

  lemma {:induction false} GenerateIsSplit(cap: uint64, jobs: seq<CopyJob>)
    requires NoWrap(cap, |jobs| - 1)
    ensures Parts(Generate(cap, jobs).out, Held(cap, jobs)) == Split(cap, jobs)
  {
    if jobs != [] {
      var before, job := jobs[..|jobs| - 1], jobs[|jobs| - 1];
      GenerateIsSplit(cap, before);
      ReachableBuffer(cap, before);
      MapIsWindow(cap, before, job);
      if !Admits(Generate(cap, before).state, job) {
        RefusedJobIsQueued(Generate(cap, before).state, job);
      }
    }
  }

  /** The whole stage, flushing included, is the sweep of the window reading. */
  lemma {:induction false} RunIsSweep(cap: uint64, jobs: seq<CopyJob>)
    requires NoWrap(cap, |jobs| - 1)
    ensures Run(cap, jobs) == Sweep(cap, jobs)
    decreases |jobs|
  {
    RunIsAllGenerations(cap, jobs);
    if jobs != [] {
      GenerateIsSplit(cap, jobs);
      RunIsAllGenerations(cap, Held(cap, jobs));
      RunIsSweep(cap, Held(cap, jobs));
    }
  }

  // ---- Spacing -------------------------------------------------------------------------------

  /** Jobs of one image are at least `cap` positions apart. */
  ghost predicate Spaced(cap: nat, out: seq<CopyJob>) {
    forall i, j :: 0 <= i < j < |out| && ImageOf(out[i]) == ImageOf(out[j]) ==> cap <= j - i
  }

  lemma {:induction false} SplitIsSpaced(cap: nat, jobs: seq<CopyJob>)
    ensures Spaced(cap, Split(cap, jobs).out)
  {
    if jobs != [] {
      SplitIsSpaced(cap, jobs[..|jobs| - 1]);
    }
  }

  /** `n` jobs of pairwise different images: the image of the i-th is `i` letters long. */
  ghost function DifferentImages(n: nat): (jobs: seq<CopyJob>)
    ensures |jobs| == n
  {
    seq(n, i requires 0 <= i => NamedJob(i, 0))
  }

  ghost function NamedJob(i: nat, size: uint64): CopyJob {
    var tag := TagDetails("", "", seq(i, _ => 'a') + ":t", None, 0);
    CopyJob(TagDetails("", "", "", None, 0), tag, size)
  }

  lemma NamedJobImage(i: nat, size: uint64)
    ensures |ImageOf(NamedJob(i, size))| == i
    ensures ImageOf(NamedJob(i, size)) == ImageOf(NamedJob(i, 0))
  {
    var name := seq(i, _ => 'a');
    assert name + ":t" == name + ":" + "t";
    StripTags.StripUndoesTagging(name, "t");
  }

  lemma NamedJobIsNew(n: nat)
    ensures ImageOf(NamedJob(n, 0)) !in ImagesOf(DifferentImages(n))
  {
    NamedJobImage(n, 0);
    forall i | 0 <= i < n ensures |ImageOf(DifferentImages(n)[i])| == i {
      NamedJobImage(i, 0);
    }
  }

  lemma {:induction false} DifferentImagesAllComeOut(cap: uint64, n: nat)
    ensures Generate(cap, DifferentImages(n)).out == DifferentImages(n)
  {
    if n > 0 {
      DifferentImagesAllComeOut(cap, n - 1);
      assert DifferentImages(n) == DifferentImages(n - 1) + [NamedJob(n - 1, 0)];
      TicksAppend(Fresh(cap), DifferentImages(n - 1), NamedJob(n - 1, 0));
      ReachableBuffer(cap, DifferentImages(n - 1));
      NamedJobIsNew(n - 1);
    }
  }

  lemma RepeatFollowsImmediately(cap: uint64, jobs: seq<CopyJob>, job: CopyJob)
    requires Generate(cap, jobs).out == jobs && jobs != [] && jobs[|jobs| - 1] == job
    requires |jobs| - 1 + cap == U64
    ensures Generate(cap, jobs + [job]).out == jobs + [job]
  {
    FilterHoldsExpiry(cap, jobs);
    ReachableBuffer(cap, jobs);
    WrappedExpiryAdmits(cap, Generate(cap, jobs), job);
    TicksAppend(Fresh(cap), jobs, job);
  }

  /** When the expiry of an emission wraps, the next job of that image follows it immediately. */
  lemma WrappedExpiryBreaksSpacing(cap: uint64)
    requires 2 <= cap
    ensures var jobs := DifferentImages(U64 - cap + 1) + [NamedJob(U64 - cap, 0)];
            |jobs| == U64 - cap + 2 && !Spaced(cap, Generate(cap, jobs).out)
  {
    var last := U64 - cap;
    var before, job := DifferentImages(last + 1), NamedJob(last, 0);
    DifferentImagesAllComeOut(cap, last + 1);
    assert before[last] == job;
    RepeatFollowsImmediately(cap, before, job);
    var out := Generate(cap, before + [job]).out;
    assert ImageOf(out[last]) == ImageOf(out[last + 1]);
  }

  lemma WrappedExpiryAdmits(cap: uint64, g: Generation, job: CopyJob)
    requires Reaches(cap, g) && FilterIsExpiry(cap, g)
    requires 0 < |g.out| && g.out[|g.out| - 1] == job && |g.out| - 1 + cap == U64
    ensures Admits(g.state, job)
  {
    assert ImageOf(job) in ImagesOf(g.out);
    assert Expires(cap, g, ImageOf(job));
    LastAtIsLast(g.out, ImageOf(job));
    assert LastAt(g.out, ImageOf(job)) + cap == U64;
    WrapMultiple(0, 1);
  }

  /** Every input of at most `n` jobs comes out of a generation spaced. */
  ghost predicate SpacesAllInputs(cap: uint64, n: nat) {
    forall jobs: seq<CopyJob> :: |jobs| <= n ==> Spaced(cap, Generate(cap, jobs).out)
  }

  /** Spacing holds for all inputs of a length exactly as long as no expiry can wrap. */
  lemma SpacingHoldsUntilWrap(cap: uint64, n: nat)
    requires 2 <= cap
    ensures SpacesAllInputs(cap, n) <==> n + cap <= U64 + 1
  {
    if n + cap <= U64 + 1 {
      forall jobs: seq<CopyJob> | |jobs| <= n ensures Spaced(cap, Generate(cap, jobs).out) {
        GenerateIsSplit(cap, jobs);
        SplitIsSpaced(cap, jobs);
      }
    } else {
      WrappedExpiryBreaksSpacing(cap);
      var jobs := DifferentImages(U64 - cap + 1) + [NamedJob(U64 - cap, 0)];
      assert |jobs| <= n && !Spaced(cap, Generate(cap, jobs).out);
    }
  }
}
