/**
 * When the whole stage keeps the order of arrival, when it is a round robin, and when it just
 * forwards: exact conditions on the buffer itself, for every interval of 64 bits and inputs of
 * any length.
 */
module Orders {
  import opened Jobs
  import opened Interleaver
  import opened Windows
  import opened RoundRobin
  import Costs

  // ---- Inputs that pass a generation unchanged -----------------------------------------------

  /** Nothing is held back. */
  ghost predicate AllOut(cap: uint64, jobs: seq<CopyJob>) {
    Generate(cap, jobs).out == jobs
  }

  lemma AllOutBefore(cap: uint64, jobs: seq<CopyJob>)
    requires jobs != [] && AllOut(cap, jobs)
    ensures var before, job := jobs[..|jobs| - 1], jobs[|jobs| - 1];
            AllOut(cap, before) && Held(cap, before) == [] && Admits(Generate(cap, before).state, job)
  {
    var before, job := jobs[..|jobs| - 1], jobs[|jobs| - 1];
    ReachableBuffer(cap, before);
    if !Admits(Generate(cap, before).state, job) {
      RefusedJobIsQueued(Generate(cap, before).state, job);
    }
  }

  lemma AllOutAppend(cap: uint64, jobs: seq<CopyJob>, job: CopyJob)
    requires AllOut(cap, jobs) && Admits(Generate(cap, jobs).state, job)
    ensures AllOut(cap, jobs + [job])
  {
    TicksAppend(Fresh(cap), jobs, job);
  }

  lemma AllOutHoldsNothing(cap: uint64, jobs: seq<CopyJob>)
    requires AllOut(cap, jobs)
    ensures Held(cap, jobs) == []
  {
    ReachableBuffer(cap, jobs);
  }

  /** The entry of an image that was last seen at position `l`. */
  lemma EntryOfLast(cap: uint64, jobs: seq<CopyJob>, l: nat)
    requires AllOut(cap, jobs) && l < |jobs|
    requires forall k :: l < k < |jobs| ==> ImageOf(jobs[k]) != ImageOf(jobs[l])
    ensures var s := Generate(cap, jobs).state; var image := ImageOf(jobs[l]);
            image in s.filter && s.filter[image] == Wrap(l + cap) && s.epoch == Wrap(|jobs|)
  {
    FilterHoldsExpiry(cap, jobs);
    ReachableBuffer(cap, jobs);
    ExpiryOfLast(cap, Generate(cap, jobs), l);
  }

  lemma ExpiryOfLast(cap: uint64, g: Generation, l: nat)
    requires Reaches(cap, g) && FilterIsExpiry(cap, g) && l < |g.out|
    requires forall k :: l < k < |g.out| ==> ImageOf(g.out[k]) != ImageOf(g.out[l])
    ensures var image := ImageOf(g.out[l]);
            image in g.state.filter && g.state.filter[image] == Wrap(l + cap)
  {
    var image := ImageOf(g.out[l]);
    LastAtIsLast(g.out, image);
    assert image in ImagesOf(g.out);
    assert Expires(cap, g, image);
  }

  // ---- One job overtaking another ------------------------------------------------------------

  /** `jobs` with `held` put in at position `n`. */
  function With(jobs: seq<CopyJob>, n: nat, held: CopyJob): seq<CopyJob>
    requires n <= |jobs|
  {
    jobs[..n] + [held] + jobs[n..]
  }

  /** A refused job does nothing to the jobs after it. */
  lemma {:induction false} RefusedJobOnlyWaits(cap: uint64, jobs: seq<CopyJob>, n: nat, held: CopyJob)
    requires AllOut(cap, jobs) && n <= |jobs| && !Admits(Generate(cap, jobs[..n]).state, held)
    ensures var g := Generate(cap, With(jobs, n, held));
            g.out == jobs && g.state == Generate(cap, jobs).state.(buf := [held])
  {
    AllOutHoldsNothing(cap, jobs);
    if n == |jobs| {
      assert jobs[..n] == jobs && With(jobs, n, held) == jobs + [held];
      ReachableBuffer(cap, jobs);
      RefusedJobIsQueued(Generate(cap, jobs).state, held);
      TicksAppend(Fresh(cap), jobs, held);
    } else {
      var before, job := jobs[..|jobs| - 1], jobs[|jobs| - 1];
      AllOutBefore(cap, jobs);
      assert before[..n] == jobs[..n];
      RefusedJobOnlyWaits(cap, before, n, held);
      WithBefore(jobs, n, held);
      TicksAppend(Fresh(cap), With(before, n, held), job);
      AdmissionIgnoresQueue(Generate(cap, before), Generate(cap, With(before, n, held)), job, [held]);
    }
  }

  lemma WithBefore(jobs: seq<CopyJob>, n: nat, held: CopyJob)
    requires n < |jobs|
    ensures With(jobs, n, held) == With(jobs[..|jobs| - 1], n, held) + [jobs[|jobs| - 1]]
  {
    assert jobs[..|jobs| - 1][..n] == jobs[..n];
  }

  lemma AdmissionIgnoresQueue(g: Generation, h: Generation, job: CopyJob, queue: seq<CopyJob>)
    requires Admits(g.state, job) && h.out == g.out && h.state == g.state.(buf := queue)
    ensures Then(h, job).out == Then(g, job).out == g.out + [job]
    ensures Then(h, job).state == Then(g, job).state.(buf := queue)
  {
  }

  ghost function Overtaking(jobs: seq<CopyJob>, n: nat, held: CopyJob, late: CopyJob): seq<CopyJob>
    requires n <= |jobs|
  {
    With(jobs, n, held) + [late]
  }

  /** The refused job comes out behind a later one of its image. */
  lemma LateJobOvertakes(cap: uint64, jobs: seq<CopyJob>, n: nat, held: CopyJob, late: CopyJob)
    requires AllOut(cap, jobs) && n <= |jobs| && !Admits(Generate(cap, jobs[..n]).state, held)
    requires ImageOf(held) == ImageOf(late) && Admits(Generate(cap, jobs).state, late)
    ensures Run(cap, Overtaking(jobs, n, held, late)) == jobs + [late] + [held]
  {
    RefusedJobOnlyWaits(cap, jobs, n, held);
    TicksAppend(Fresh(cap), With(jobs, n, held), late);
    var g := Generate(cap, Overtaking(jobs, n, held, late));
    assert g.out == jobs + [late] && g.state.buf == [held];
    FlushOfOne(cap, held);
  }

  lemma FlushOfOne(cap: uint64, job: CopyJob)
    ensures FlushOut(cap, [job]) == [job]
  {
    FirstJobComesOutFirst(cap, [job]);
    ReachableBuffer(cap, [job]);
  }

  lemma OrderIsLost(jobs: seq<CopyJob>, n: nat, held: CopyJob, late: CopyJob)
    requires n <= |jobs| && ImageOf(held) == ImageOf(late) && held != late
    ensures !KeepsOrder(Overtaking(jobs, n, held, late), jobs + [late] + [held])
  {
    var image := ImageOf(held);
    var before, after := OfImage(With(jobs, n, held), image), OfImage(jobs + [late], image);
    OfImageAppend(With(jobs, n, held), late, image);
    OfImageAppend(jobs + [late], held, image);
    DifferentEnds(before, late, after, held);
  }

  lemma DifferentEnds<T>(a: seq<T>, x: T, b: seq<T>, y: T)
    requires x != y
    ensures a + [x] != b + [y]
  {
    var more, others := a + [x], b + [y];
    assert more[|more| - 1] == x && others[|others| - 1] == y;
  }

  lemma OvertakingImages(cap: uint64, jobs: seq<CopyJob>, n: nat, held: CopyJob, late: CopyJob)
    requires n <= |jobs| && !Admits(Generate(cap, jobs[..n]).state, held) && ImageOf(held) == ImageOf(late)
    requires AllOut(cap, jobs)
    ensures |ImagesOf(Overtaking(jobs, n, held, late))| <= |ImagesOf(jobs)|
  {
    ReachableBuffer(cap, jobs[..n]);
    Costs.EveryImageEmits(cap, jobs[..n]);
    assert ImageOf(held) in ImagesOf(jobs[..n]);
    var i :| 0 <= i < n && ImageOf(jobs[..n][i]) == ImageOf(held);
    KnownImagesAddNone(jobs, n, held, late, i);
    SubsetIsNoLarger(ImagesOf(Overtaking(jobs, n, held, late)), ImagesOf(jobs));
  }

  lemma OvertakingAt(jobs: seq<CopyJob>, n: nat, held: CopyJob, late: CopyJob, j: nat)
    requires n <= |jobs| && j <= |jobs| + 1
    ensures |Overtaking(jobs, n, held, late)| == |jobs| + 2
    ensures Overtaking(jobs, n, held, late)[j] ==
            if j < n then jobs[j] else if j == n then held else if j <= |jobs| then jobs[j - 1] else late
  {
  }

  lemma KnownImagesAddNone(jobs: seq<CopyJob>, n: nat, held: CopyJob, late: CopyJob, i: nat)
    requires i < n <= |jobs| && ImageOf(jobs[i]) == ImageOf(held) == ImageOf(late)
    ensures ImagesOf(Overtaking(jobs, n, held, late)) <= ImagesOf(jobs)
  {
    var more := Overtaking(jobs, n, held, late);
    forall j | 0 <= j < |more| ensures ImageOf(more[j]) in ImagesOf(jobs) {
      OvertakingAt(jobs, n, held, late, j);
    }
  }

  // ---- Three ways to be overtaken ------------------------------------------------------------

  /** All inputs of at most so many images leave with the jobs of every image in order. */
  ghost predicate KeepsOrderOfAll(cap: uint64, images: nat) {
    forall jobs: seq<CopyJob> :: |ImagesOf(jobs)| <= images ==> KeepsOrder(jobs, Run(cap, jobs))
  }

  ghost predicate RoundRobinOnAll(cap: uint64, images: nat) {
    forall jobs: seq<CopyJob> :: |ImagesOf(jobs)| <= images ==> Run(cap, jobs) == InRounds(jobs)
  }

  lemma OvertakingRefutes(cap: uint64, jobs: seq<CopyJob>, n: nat, held: CopyJob, late: CopyJob, images: nat)
    requires AllOut(cap, jobs) && n <= |jobs| && !Admits(Generate(cap, jobs[..n]).state, held)
    requires ImageOf(held) == ImageOf(late) && held != late && Admits(Generate(cap, jobs).state, late)
    requires |ImagesOf(jobs)| <= images
    ensures !KeepsOrderOfAll(cap, images)
  {
    LateJobOvertakes(cap, jobs, n, held, late);
    OrderIsLost(jobs, n, held, late);
    OvertakingImages(cap, jobs, n, held, late);
    var more := Overtaking(jobs, n, held, late);
    assert |ImagesOf(more)| <= images && !KeepsOrder(more, Run(cap, more));
  }

  lemma DifferentImagesDiffer(n: nat)
    ensures forall i :: 0 <= i < n ==> |ImageOf(DifferentImages(n)[i])| == i
  {
    forall i | 0 <= i < n ensures |ImageOf(DifferentImages(n)[i])| == i {
      NamedJobImage(i, 0);
    }
  }

  /** With as many images as the interval, the first image is let in again when all have come. */
  lemma OvertakenInACrowd(cap: uint64, images: nat)
    requires 2 <= cap <= images
    ensures !KeepsOrderOfAll(cap, images)
  {
    var jobs, held, late := DifferentImages(cap), NamedJob(0, 1), NamedJob(0, 2);
    DifferentImagesAllComeOut(cap, cap);
    DifferentImagesAllComeOut(cap, 1);
    assert jobs[..1] == DifferentImages(1);
    DifferentImagesDiffer(cap);
    NamedJobImage(0, 1);
    NamedJobImage(0, 2);
    EntryOfLast(cap, jobs[..1], 0);
    EntryOfLast(cap, jobs, 0);
    ImagesAreFew(jobs);
    OvertakingRefutes(cap, jobs, 1, held, late, images);
  }

  ghost function Copies(job: CopyJob, n: nat): (jobs: seq<CopyJob>)
    ensures |jobs| == n
  {
    seq(n, _ => job)
  }

  /** Is the expiry set by emission number `p` reached with the next epoch? */
  predicate Clears(cap: uint64, p: nat) {
    Wrap(p + cap) <= Wrap(p + 1)
  }

  lemma ClearsAfterWrap(cap: uint64, p: nat)
    requires (U64 <= p + cap && p < U64 - 1) || (U64 <= p < 2 * U64 - 1 && cap <= 1)
    ensures Clears(cap, p)
  {
    WrapOnce(p + cap);
    if U64 <= p {
      WrapOnce(p + 1);
    }
  }

  /** After a wrapped expiry the jobs of one image follow each other without hindrance. */
  lemma {:induction false} CopiesComeOut(cap: uint64, jobs: seq<CopyJob>, job: CopyJob, n: nat)
    requires AllOut(cap, jobs) && Admits(Generate(cap, jobs).state, job)
    requires forall p: nat :: |jobs| <= p < |jobs| + n - 1 ==> Clears(cap, p)
    ensures AllOut(cap, jobs + Copies(job, n))
  {
    assert jobs + Copies(job, 0) == jobs;
    if n > 0 {
      CopiesComeOut(cap, jobs, job, n - 1);
      OneMoreCopy(jobs, job, n - 1);
      var before := jobs + Copies(job, n - 1);
      if n > 1 {
        NextCopyIsAdmitted(cap, before, job);
      }
      AllOutAppend(cap, before, job);
    }
  }

  lemma OneMoreCopy(jobs: seq<CopyJob>, job: CopyJob, n: nat)
    ensures jobs + Copies(job, n + 1) == (jobs + Copies(job, n)) + [job]
    ensures n > 0 ==> (jobs + Copies(job, n))[|jobs| + n - 1] == job
  {
  }

  lemma NextCopyIsAdmitted(cap: uint64, jobs: seq<CopyJob>, job: CopyJob)
    requires AllOut(cap, jobs) && jobs != [] && jobs[|jobs| - 1] == job && Clears(cap, |jobs| - 1)
    ensures Admits(Generate(cap, jobs).state, job)
  {
    EntryOfLast(cap, jobs, |jobs| - 1);
  }

  lemma CopiesAddNoImage(jobs: seq<CopyJob>, job: CopyJob, n: nat)
    requires job in jobs
    ensures |ImagesOf(jobs + Copies(job, n))| <= |ImagesOf(jobs)|
  {
    var more := jobs + Copies(job, n);
    var i :| 0 <= i < |jobs| && jobs[i] == job;
    forall image | image in ImagesOf(more) ensures image in ImagesOf(jobs) {
      var j :| 0 <= j < |more| && ImageOf(more[j]) == image;
      assert ImageOf(jobs[if j < |jobs| then j else i]) == image;
    }
    SubsetIsNoLarger(ImagesOf(more), ImagesOf(jobs));
  }

  /** Different images, up to that of `e` letters, then more jobs of the last of them. */
  ghost function ThenTheLast(e: nat, n: nat): (jobs: seq<CopyJob>)
    ensures |jobs| == e + 1 + n
    ensures jobs[..e + 1] == DifferentImages(e + 1)
  {
    DifferentImages(e + 1) + Copies(NamedJob(e, 0), n)
  }

  lemma FirstWaits(cap: uint64, n: nat)
    requires 1 <= n < cap && n <= U64 - cap + 1
    ensures !Admits(Generate(cap, DifferentImages(n)).state, NamedJob(0, 1))
  {
    var jobs := DifferentImages(n);
    DifferentImagesAllComeOut(cap, n);
    DifferentImagesDiffer(n);
    NamedJobImage(0, 1);
    assert jobs[0] == NamedJob(0, 0);
    EntryOfLast(cap, jobs, 0);
  }

  /** The expiry of the last image wraps to 0. */
  lemma LastDoesNotWait(cap: uint64, e: nat)
    requires e + cap == U64 && e < cap
    ensures AllOut(cap, DifferentImages(e + 1))
    ensures Admits(Generate(cap, DifferentImages(e + 1)).state, NamedJob(e, 0))
  {
    DifferentImagesAllComeOut(cap, e + 1);
    ClearsAfterWrap(cap, e);
    NextCopyIsAdmitted(cap, DifferentImages(e + 1), NamedJob(e, 0));
  }

  lemma LastComesOut(cap: uint64, e: nat, n: nat)
    requires e + cap == U64 && e + 1 + n == cap
    ensures AllOut(cap, ThenTheLast(e, n))
  {
    LastDoesNotWait(cap, e);
    forall p: nat | e < p < cap ensures Clears(cap, p) {
      ClearsAfterWrap(cap, p);
    }
    CopiesComeOut(cap, DifferentImages(e + 1), NamedJob(e, 0), n);
  }

  lemma OtherImagesFollow(e: nat, n: nat, k: nat)
    requires 0 < e && k < e + 1 + n
    ensures |ImageOf(ThenTheLast(e, n)[k])| == if k <= e then k else e
  {
    DifferentImagesDiffer(e + 1);
    NamedJobImage(e, 0);
    if k <= e {
      assert ThenTheLast(e, n)[k] == DifferentImages(e + 1)[k];
    }
  }

  lemma FirstReturns(cap: uint64, e: nat, n: nat)
    requires 0 < e && e + cap == U64 && e + 1 + n == cap
    ensures Admits(Generate(cap, ThenTheLast(e, n)).state, NamedJob(0, 2))
  {
    var jobs := ThenTheLast(e, n);
    LastComesOut(cap, e, n);
    NamedJobImage(0, 2);
    assert jobs[0] == DifferentImages(e + 1)[0] == NamedJob(0, 0);
    forall k | 0 <= k < |jobs| ensures |ImageOf(jobs[k])| == if k <= e then k else e {
      OtherImagesFollow(e, n, k);
    }
    EntryOfLast(cap, jobs, 0);
  }

  /** An image whose expiry has wrapped never waits; its jobs carry the epoch past the others. */
  lemma OvertakenAfterWrap(cap: uint64, images: nat)
    requires images < cap && U64 < images + cap
    ensures !KeepsOrderOfAll(cap, images)
  {
    var e, n := U64 - cap, 2 * cap - U64 - 1;
    LastComesOut(cap, e, n);
    FirstWaits(cap, e + 1);
    FirstReturns(cap, e, n);
    NamedJobImage(0, 1);
    NamedJobImage(0, 2);
    ThenTheLastImages(e, n);
    OvertakingRefutes(cap, ThenTheLast(e, n), e + 1, NamedJob(0, 1), NamedJob(0, 2), images);
  }

  lemma ThenTheLastImages(e: nat, n: nat)
    ensures |ImagesOf(ThenTheLast(e, n))| <= e + 1
  {
    var pre := DifferentImages(e + 1);
    ImagesAreFew(pre);
    assert pre[e] == NamedJob(e, 0);
    CopiesAddNoImage(pre, NamedJob(e, 0), n);
  }

  /** `n` jobs of one image, then jobs of another until 2^64 are complete. */
  ghost function TwoImages(n: nat): seq<CopyJob>
    requires n <= U64
  {
    Copies(NamedJob(0, 0), n) + Copies(NamedJob(1, 0), U64 - n)
  }

  /** With an interval of 0 or 1 nothing is held back while the epoch does not wrap. */
  lemma {:induction false} NarrowWindowHoldsNothing(cap: nat, jobs: seq<CopyJob>)
    requires cap <= 1
    ensures Split(cap, jobs) == Parts(jobs, [])
  {
    if jobs != [] {
      NarrowWindowHoldsNothing(cap, jobs[..|jobs| - 1]);
      assert jobs == jobs[..|jobs| - 1] + [jobs[|jobs| - 1]];
    }
  }

  lemma NarrowIsAllOut(cap: uint64, jobs: seq<CopyJob>)
    requires cap <= 1 && |jobs| <= U64
    ensures AllOut(cap, jobs)
  {
    GenerateIsSplit(cap, jobs);
    NarrowWindowHoldsNothing(cap, jobs);
  }

  /** At the wrap the first image waits for the last epoch while the second may go on. */
  lemma NarrowAtTheWrap(cap: uint64)
    requires cap <= 1
    ensures var jobs := TwoImages(U64 - cap);
            && |jobs| == U64 && AllOut(cap, jobs)
            && !Admits(Generate(cap, jobs).state, NamedJob(0, 1))
            && Admits(Generate(cap, jobs).state, NamedJob(1, 0))
  {
    var jobs := TwoImages(U64 - cap);
    NarrowIsAllOut(cap, jobs);
    NamedJobImage(0, 0);
    NamedJobImage(1, 0);
    FirstWaitsAtTheWrap(cap);
    if cap == 1 {
      NextCopyIsAdmitted(cap, jobs, NamedJob(1, 0));
    } else {
      NewImageIsAdmitted(cap, jobs, NamedJob(1, 0));
    }
  }

  lemma FirstWaitsAtTheWrap(cap: uint64)
    requires cap <= 1 && AllOut(cap, TwoImages(U64 - cap))
    ensures !Admits(Generate(cap, TwoImages(U64 - cap)).state, NamedJob(0, 1))
  {
    var jobs := TwoImages(U64 - cap);
    NamedJobImage(0, 0);
    NamedJobImage(0, 1);
    NamedJobImage(1, 0);
    WrapOnce(U64);
    EntryOfLast(cap, jobs, U64 - cap - 1);
  }

  lemma NewImageIsAdmitted(cap: uint64, jobs: seq<CopyJob>, job: CopyJob)
    requires AllOut(cap, jobs) && forall i :: 0 <= i < |jobs| ==> ImageOf(jobs[i]) != ImageOf(job)
    ensures Admits(Generate(cap, jobs).state, job)
  {
    ReachableBuffer(cap, jobs);
  }

  lemma NarrowAfterTheWrap(cap: uint64, n: nat)
    requires cap <= 1 && n < U64
    ensures AllOut(cap, TwoImages(U64 - cap) + Copies(NamedJob(1, 0), n))
  {
    NarrowAtTheWrap(cap);
    forall p: nat | U64 <= p < U64 + n - 1 ensures Clears(cap, p) {
      ClearsAfterWrap(cap, p);
    }
    CopiesComeOut(cap, TwoImages(U64 - cap), NamedJob(1, 0), n);
  }

  lemma TwoImagesAreTwo(cap: uint64, n: nat)
    requires cap <= 1
    ensures |ImagesOf(TwoImages(U64 - cap) + Copies(NamedJob(1, 0), n))| <= 2
  {
    var jobs := TwoImages(U64 - cap) + Copies(NamedJob(1, 0), n);
    assert forall i :: 0 <= i < |jobs| ==> jobs[i] == NamedJob(0, 0) || jobs[i] == NamedJob(1, 0);
    var both := {ImageOf(NamedJob(0, 0)), ImageOf(NamedJob(1, 0))};
    assert ImagesOf(jobs) <= both;
    SubsetIsNoLarger(ImagesOf(jobs), both);
  }

  lemma OnlyTheSecondFollows(cap: uint64, n: nat)
    requires cap <= 1
    ensures var jobs := TwoImages(U64 - cap) + Copies(NamedJob(1, 0), n);
            && jobs[U64 - cap - 1] == NamedJob(0, 0)
            && forall i :: U64 - cap <= i < |jobs| ==> ImageOf(jobs[i]) != ImageOf(NamedJob(0, 0))
  {
    var jobs := TwoImages(U64 - cap) + Copies(NamedJob(1, 0), n);
    assert forall i :: U64 - cap <= i < |jobs| ==> jobs[i] == NamedJob(1, 0);
    NamedJobImage(0, 0);
    NamedJobImage(1, 0);
  }

  lemma NarrowAdmitsAtTheEnd(cap: uint64)
    requires cap <= 1
    ensures var jobs := TwoImages(U64 - cap) + Copies(NamedJob(1, 0), U64 - 1);
            Admits(Generate(cap, jobs).state, NamedJob(0, 2))
  {
    NarrowAfterTheWrap(cap, U64 - 1);
    OnlyTheSecondFollows(cap, U64 - 1);
    NamedJobImage(0, 2);
    WrapOnce(2 * U64 - 1);
    EntryOfLast(cap, TwoImages(U64 - cap) + Copies(NamedJob(1, 0), U64 - 1), U64 - cap - 1);
  }

  /** Even an interval of 0 or 1 reorders two images, once the epoch has wrapped. */
  lemma OvertakenByNarrowInterval(cap: uint64, images: nat)
    requires cap <= 1 && 2 <= images
    ensures !KeepsOrderOfAll(cap, images)
  {
    var pre := TwoImages(U64 - cap);
    var jobs := pre + Copies(NamedJob(1, 0), U64 - 1);
    NarrowAtTheWrap(cap);
    NarrowAfterTheWrap(cap, U64 - 1);
    NarrowAdmitsAtTheEnd(cap);
    TwoImagesAreTwo(cap, U64 - 1);
    NamedJobImage(0, 1);
    NamedJobImage(0, 2);
    assert jobs[..U64] == pre;
    OvertakingRefutes(cap, jobs, U64, NamedJob(0, 1), NamedJob(0, 2), images);
  }

  // ---- One image -----------------------------------------------------------------------------

  lemma SuffixIsOf(a: seq<CopyJob>, b: seq<CopyJob>, image: string)
    requires Costs.AreOf(a + b, image)
    ensures Costs.AreOf(b, image)
  {
    assert forall i :: 0 <= i < |b| ==> (a + b)[|a| + i] == b[i];
  }

  ghost predicate Refuses(s: Buffer, image: string) {
    image in s.filter && s.epoch < s.filter[image]
  }

  /** Once a job is held back, all later ones of its image are. */
  lemma {:induction false} OneImageIsCutInTwo(cap: uint64, jobs: seq<CopyJob>, image: string)
    requires Costs.AreOf(jobs, image)
    ensures var g := Generate(cap, jobs);
            g.out + g.state.buf == jobs && (g.state.buf != [] ==> Refuses(g.state, image))
  {
    if jobs != [] {
      var before, job := jobs[..|jobs| - 1], jobs[|jobs| - 1];
      OneImageIsCutInTwo(cap, before, image);
      ReachableBuffer(cap, before);
      assert jobs == before + [job];
      StaysCutInTwo(Generate(cap, before), job);
    }
  }

  lemma StaysCutInTwo(g: Generation, job: CopyJob)
    requires Settled(g.state) && (g.state.buf != [] ==> Refuses(g.state, ImageOf(job)))
    ensures var h := Then(g, job);
            && h.out + h.state.buf == (g.out + g.state.buf) + [job]
            && (h.state.buf != [] ==> Refuses(h.state, ImageOf(job)))
  {
    if !Admits(g.state, job) {
      RefusedJobIsQueued(g.state, job);
      assert g.out + [] == g.out;
    }
    OneMoreInTwo(g.out, g.state.buf, job);
  }

  lemma OneMoreInTwo(out: seq<CopyJob>, held: seq<CopyJob>, job: CopyJob)
    ensures out + (held + [job]) == (out + held) + [job]
    ensures held == [] ==> (out + [job]) + held == (out + held) + [job]
  {
  }

  lemma {:induction false} OneImageIsForwarded(cap: uint64, jobs: seq<CopyJob>, image: string)
    requires Costs.AreOf(jobs, image)
    ensures AllGenerations(cap, jobs) == jobs
    decreases |jobs|
  {
    if jobs != [] {
      OneImageIsCutInTwo(cap, jobs, image);
      HeldIsShorter(cap, jobs);
      SuffixIsOf(Generate(cap, jobs).out, Held(cap, jobs), image);
      OneImageIsForwarded(cap, Held(cap, jobs), image);
    }
  }

  lemma AtMostOneImage(jobs: seq<CopyJob>)
    requires |ImagesOf(jobs)| <= 1 && jobs != []
    ensures Costs.AreOf(jobs, ImageOf(jobs[0]))
  {
    forall i | 0 <= i < |jobs| ensures ImageOf(jobs[i]) == ImageOf(jobs[0]) {
      var both := {ImageOf(jobs[i]), ImageOf(jobs[0])};
      assert ImageOf(jobs[i]) in ImagesOf(jobs) && ImageOf(jobs[0]) in ImagesOf(jobs);
      SubsetIsNoLarger(both, ImagesOf(jobs));
    }
  }

  /** Jobs of a single image leave in their order of arrival, whatever the interval. */
  lemma OneImageKeepsItsOrder(cap: uint64, jobs: seq<CopyJob>)
    requires |ImagesOf(jobs)| <= 1
    ensures Run(cap, jobs) == jobs
  {
    RunIsAllGenerations(cap, jobs);
    if jobs != [] {
      AtMostOneImage(jobs);
      OneImageIsForwarded(cap, jobs, ImageOf(jobs[0]));
    }
  }

  // ---- The exact bounds ----------------------------------------------------------------------

  /** At most one image, or fewer images than the interval and no wrapped expiry among them. */
  predicate EnoughRoom(cap: uint64, images: nat) {
    images <= 1 || (images < cap && images + cap <= U64)
  }

  lemma RoomMakesRounds(cap: uint64, jobs: seq<CopyJob>)
    requires EnoughRoom(cap, |ImagesOf(jobs)|)
    ensures Run(cap, jobs) == InRounds(jobs)
  {
    if |ImagesOf(jobs)| <= 1 {
      OneImageKeepsItsOrder(cap, jobs);
      OneImageKeepsItsOrder(2, jobs);
      RunIsRoundRobin(2, jobs);
    } else {
      RunIsRoundRobin(cap, jobs);
    }
  }

  lemma NoRoomLosesOrder(cap: uint64, images: nat)
    requires !EnoughRoom(cap, images)
    ensures !KeepsOrderOfAll(cap, images)
  {
    if cap <= 1 {
      OvertakenByNarrowInterval(cap, images);
    } else if cap <= images {
      OvertakenInACrowd(cap, images);
    } else {
      OvertakenAfterWrap(cap, images);
    }
  }

  /**
   * The whole stage keeps the order of arrival per image for all inputs with so many images,
   * and is a round robin for all of them, under one and the same condition.
   */
  lemma OrderIsKeptExactlyWhen(cap: uint64, images: nat)
    ensures KeepsOrderOfAll(cap, images) <==> EnoughRoom(cap, images)
    ensures RoundRobinOnAll(cap, images) <==> EnoughRoom(cap, images)
  {
    if EnoughRoom(cap, images) {
      forall jobs: seq<CopyJob> | |ImagesOf(jobs)| <= images
        ensures Run(cap, jobs) == InRounds(jobs) && KeepsOrder(jobs, Run(cap, jobs))
      {
        RoomMakesRounds(cap, jobs);
        InRoundsKeepsOrder(jobs);
      }
    } else {
      NoRoomLosesOrder(cap, images);
      var jobs: seq<CopyJob> :| |ImagesOf(jobs)| <= images && !KeepsOrder(jobs, Run(cap, jobs));
      InRoundsKeepsOrder(jobs);
    }
  }

  // ---- Forwarding ----------------------------------------------------------------------------

  /** All inputs of at most `n` jobs leave as they came. */
  ghost predicate ForwardsAll(cap: uint64, n: nat) {
    forall jobs: seq<CopyJob> :: |jobs| <= n ==> Run(cap, jobs) == jobs
  }

  /** If at most the last job is held back, the output is the input. */
  lemma LastMayWait(cap: uint64, jobs: seq<CopyJob>, job: CopyJob)
    requires AllOut(cap, jobs)
    ensures Run(cap, jobs + [job]) == jobs + [job]
  {
    TicksAppend(Fresh(cap), jobs, job);
    ReachableBuffer(cap, jobs);
    if Admits(Generate(cap, jobs).state, job) {
      assert FlushOut(cap, []) == [];
    } else {
      RefusedJobIsQueued(Generate(cap, jobs).state, job);
      assert jobs + [] == jobs;
      FlushOfOne(cap, job);
    }
  }

  lemma OneJobComesOut(cap: uint64, job: CopyJob)
    ensures AllOut(cap, [job])
  {
    FirstJobComesOutFirst(cap, [job]);
    ReachableBuffer(cap, [job]);
  }

  lemma ShortInputIsForwarded(cap: uint64, jobs: seq<CopyJob>)
    requires |jobs| <= 2 || (cap <= 1 && |jobs| <= U64 + 1)
    ensures Run(cap, jobs) == jobs
  {
    if jobs == [] {
      assert FlushOut(cap, []) == [];
    } else {
      var before, job := jobs[..|jobs| - 1], jobs[|jobs| - 1];
      assert jobs == before + [job];
      if |jobs| == 2 {
        assert before == [jobs[0]];
        OneJobComesOut(cap, jobs[0]);
      } else if |jobs| > 2 {
        NarrowIsAllOut(cap, before);
      }
      LastMayWait(cap, before, job);
    }
  }

  /** A refused job changes places with a job behind it that is let through. */
  lemma RefusedJobChangesPlaces(cap: uint64, jobs: seq<CopyJob>, held: CopyJob, job: CopyJob)
    requires AllOut(cap, jobs) && AllOut(cap, jobs + [job]) && !Admits(Generate(cap, jobs).state, held)
    ensures var input := jobs + [held] + [job];
            Held(cap, input) == [held] && Run(cap, input) == jobs + [job] + [held]
  {
    var more := jobs + [job];
    assert more[..|jobs|] == jobs && With(more, |jobs|, held) == jobs + [held] + [job];
    RefusedJobOnlyWaits(cap, more, |jobs|, held);
    FlushOfOne(cap, held);
  }

  lemma PlacesRefuteForwarding(cap: uint64, jobs: seq<CopyJob>, held: CopyJob, job: CopyJob, n: nat)
    requires AllOut(cap, jobs) && AllOut(cap, jobs + [job]) && !Admits(Generate(cap, jobs).state, held)
    requires held != job && |jobs| + 2 <= n
    ensures !ForwardsAll(cap, n)
  {
    RefusedJobChangesPlaces(cap, jobs, held, job);
    ChangedPlacesDiffer(jobs, held, job);
    OtherOutputRefutes(cap, jobs + [held] + [job], jobs + [job] + [held], n);
  }

  lemma OtherOutputRefutes(cap: uint64, jobs: seq<CopyJob>, out: seq<CopyJob>, n: nat)
    requires |jobs| <= n && Run(cap, jobs) == out && out != jobs
    ensures !ForwardsAll(cap, n)
  {
  }

  lemma ChangedPlacesDiffer<T>(s: seq<T>, x: T, y: T)
    requires x != y
    ensures s + [x] + [y] != s + [y] + [x]
  {
    assert (s + [x] + [y])[|s|] == x && (s + [y] + [x])[|s|] == y;
  }

  /** Two jobs of one image and one of another: the second job waits, the third does not. */
  lemma SecondOfThreeWaits(cap: uint64, a: CopyJob, held: CopyJob, b: CopyJob)
    requires 2 <= cap && ImageOf(a) == ImageOf(held) != ImageOf(b)
    ensures AllOut(cap, [a]) && AllOut(cap, [a] + [b]) && !Admits(Generate(cap, [a]).state, held)
  {
    OneJobComesOut(cap, a);
    EntryOfLast(cap, [a], 0);
    NewImageIsAdmitted(cap, [a], b);
    AllOutAppend(cap, [a], b);
  }

  lemma TwoOfOneThenAnother(cap: uint64, n: nat)
    requires 2 <= cap && 3 <= n
    ensures !ForwardsAll(cap, n)
  {
    var a, held, b := NamedJob(0, 0), NamedJob(0, 1), NamedJob(1, 0);
    NamedJobImage(0, 0);
    NamedJobImage(0, 1);
    NamedJobImage(1, 0);
    SecondOfThreeWaits(cap, a, held, b);
    PlacesRefuteForwarding(cap, [a], held, b, n);
  }

  lemma TwoImagesChangePlaces(cap: uint64, n: nat)
    requires cap <= 1 && U64 + 2 <= n
    ensures !ForwardsAll(cap, n)
  {
    NarrowAtTheWrap(cap);
    AllOutAppend(cap, TwoImages(U64 - cap), NamedJob(1, 0));
    NamedJobImage(0, 1);
    NamedJobImage(1, 0);
    PlacesRefuteForwarding(cap, TwoImages(U64 - cap), NamedJob(0, 1), NamedJob(1, 0), n);
  }

  /** The stage forwards every input of a length exactly as long as at most its last job can wait. */
  lemma ForwardsExactlyWhen(cap: uint64, n: nat)
    ensures ForwardsAll(cap, n) <==> n <= 2 || (cap <= 1 && n <= U64 + 1)
  {
    if n <= 2 || (cap <= 1 && n <= U64 + 1) {
      forall jobs: seq<CopyJob> | |jobs| <= n ensures Run(cap, jobs) == jobs {
        ShortInputIsForwarded(cap, jobs);
      }
    } else if 2 <= cap {
      TwoOfOneThenAnother(cap, n);
    } else {
      TwoImagesChangePlaces(cap, n);
    }
  }

  // ---- The decrement -------------------------------------------------------------------------

  /** Does the decrement of line 86 meet a positive epoch in every run of at most `n` jobs before it? */
  ghost predicate DecrementIsSafe(cap: uint64, n: nat) {
    forall jobs: seq<CopyJob>, job ::
      |jobs| <= n && !Admits(Generate(cap, jobs).state, job) ==> Generate(cap, jobs).state.epoch >= 1
  }

  /** After 2^64 different images the epoch is 0 again, and an early image waits. */
  lemma EpochComesBack(cap: uint64)
    ensures var s := Generate(cap, DifferentImages(U64)).state;
            s.epoch == 0 && !Admits(s, NamedJob(if cap == 0 then 1 else 0, 0))
  {
    var jobs, l := DifferentImages(U64), if cap == 0 then 1 else 0;
    DifferentImagesAllComeOut(cap, U64);
    DifferentImagesDiffer(U64);
    assert jobs[l] == NamedJob(l, 0);
    WrapOnce(U64);
    EntryOfLast(cap, jobs, l);
  }

  /** The decrement wraps for no input of a length exactly as long as the epoch cannot. */
  lemma DecrementIsSafeExactlyWhen(cap: uint64, n: nat)
    ensures DecrementIsSafe(cap, n) <==> n < U64
  {
    if n < U64 {
      forall jobs: seq<CopyJob>, job | |jobs| <= n && !Admits(Generate(cap, jobs).state, job)
        ensures Generate(cap, jobs).state.epoch >= 1
      {
        DecrementMeetsPositiveEpoch(cap, jobs, job);
      }
    } else {
      EpochComesBack(cap);
    }
  }
}
