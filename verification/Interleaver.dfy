/**
 * The interleave buffer of pkg/cim/interleave_buffer.go as a value: what one Tick does to the
 * buffer's fields, what a sequence of Ticks emits and keeps back, and what FlushBuffer sends.
 * InterleaveBuffers.dfy proves the class, with its channel and its rotation loop, against
 * these functions; the lemmas here hold for every interval, wrap-around included.
 */
module Interleaver {
  import opened Jobs
  import StripTags

  /** The fields of the source's struct; `buf` is the content of the channel. */
  datatype Buffer = Buffer(buf: seq<CopyJob>, filter: map<string, uint64>, cap: uint64, epoch: uint64)

  /** `out` is the job Tick returns, `spins` the iterations of its rotation loop. */
  datatype Ticked = Ticked(state: Buffer, out: Option<CopyJob>, spins: nat)

  /** What a run of Ticks leaves: the buffer, the jobs returned so far and all iterations. */
  datatype Generation = Generation(state: Buffer, out: seq<CopyJob>, spins: nat)

  function ImageOf(job: CopyJob): string {
    StripTags.ImageOf(job.dst.String())
  }

  function Fresh(cap: uint64): Buffer {
    Buffer([], map[], cap, 0)
  }

  predicate Admits(s: Buffer, job: CopyJob) {
    ImageOf(job) !in s.filter || s.filter[ImageOf(job)] <= s.epoch
  }

  /** The first position of `q`, from `i` on, whose image is no key of `filter`, or |q|. */
  function FirstUnknownFrom(q: seq<CopyJob>, filter: map<string, uint64>, i: nat): (k: nat)
    requires i <= |q|
    ensures k <= |q|
    decreases |q| - i
  {
    if i == |q| || ImageOf(q[i]) !in filter then i else FirstUnknownFrom(q, filter, i + 1)
  }

  function FirstUnknown(q: seq<CopyJob>, filter: map<string, uint64>): (k: nat)
    ensures k <= |q|
  {
    FirstUnknownFrom(q, filter, 0)
  }

  lemma {:induction false} FirstUnknownIs(q: seq<CopyJob>, filter: map<string, uint64>, i: nat, k: nat)
    requires i <= k <= |q|
    requires forall l :: i <= l < k ==> ImageOf(q[l]) in filter
    requires k < |q| ==> ImageOf(q[k]) !in filter
    ensures FirstUnknownFrom(q, filter, i) == k
    decreases k - i
  {
    if i < k {
      FirstUnknownIs(q, filter, i + 1, k);
    }
  }

  /** Remember the image until `cap` more jobs have gone out, and count this one. */
  function Remember(s: Buffer, job: CopyJob): Buffer {
    s.(filter := s.filter[ImageOf(job) := Wrap(s.epoch + s.cap)], epoch := Wrap(s.epoch + 1))
  }

  /** Lines 63-87: queue the job, then look for a queued one whose image is unknown. */
  function Rotate(s: Buffer, job: CopyJob): Ticked {
    var q := s.buf + [job];
    var k := FirstUnknown(q, s.filter);
    if k < |q| then Ticked(Remember(s, q[k]).(buf := q[k + 1..] + q[..k]), Some(q[k]), k + 1)
    else Ticked(s.(buf := q, epoch := Wrap(Wrap(s.epoch - 1) + 1)), None, |q|)
  }

  /** Tick in any state, the replacement branch of lines 69-72 included. */
  function Tick(s: Buffer, job: CopyJob): Ticked {
    if Admits(s, job) then Ticked(Remember(s, job), Some(job), 0) else Rotate(s, job)
  }

  function OptionToSeq<T>(o: Option<T>): seq<T> {
    if o.Some? then [o.value] else []
  }

  /** One more Tick. */
  function Then(g: Generation, job: CopyJob): Generation {
    var t := Tick(g.state, job);
    Generation(t.state, g.out + OptionToSeq(t.out), g.spins + t.spins)
  }

  function Ticks(s: Buffer, jobs: seq<CopyJob>): Generation {
    if jobs == [] then Generation(s, [], 0)
    else Then(Ticks(s, jobs[..|jobs| - 1]), jobs[|jobs| - 1])
  }

  /** Ticks on a new buffer. */
  function Generate(cap: uint64, jobs: seq<CopyJob>): Generation {
    Ticks(Fresh(cap), jobs)
  }

  function Held(cap: uint64, jobs: seq<CopyJob>): seq<CopyJob> {
    Generate(cap, jobs).state.buf
  }

  lemma TicksAppend(s: Buffer, jobs: seq<CopyJob>, job: CopyJob)
    ensures Ticks(s, jobs + [job]) == Then(Ticks(s, jobs), job)
  {
    assert (jobs + [job])[..|jobs|] == jobs;
  }

  // ---- What every reachable buffer satisfies -------------------------------------------------

  /** The image of every buffered job is a key of the filter. */
  ghost predicate Settled(s: Buffer) {
    forall i :: 0 <= i < |s.buf| ==> ImageOf(s.buf[i]) in s.filter
  }

  function ImagesOf(jobs: seq<CopyJob>): set<string> {
    set i | 0 <= i < |jobs| :: ImageOf(jobs[i])
  }

  /**
   * When a settled buffer does not admit a job, the loop goes round the whole queue once, the
   * queue ends up as it was with the job behind it, nothing comes out and the epoch stands:
   * the replacement branch is never taken.
   */
  lemma RefusedJobIsQueued(s: Buffer, job: CopyJob)
    requires Settled(s) && !Admits(s, job)
    ensures Tick(s, job) == Ticked(s.(buf := s.buf + [job]), None, |s.buf| + 1)
  {
    var q := s.buf + [job];
    assert forall i :: 0 <= i < |q| ==> q[i] == if i < |s.buf| then s.buf[i] else job;
    FirstUnknownIs(q, s.filter, 0, |q|);
  }

  /**
   * In any other state a refused job lets out the first queued job whose image is no key: it is
   * remembered and counted like every job that leaves, and the queue ends up turned past it.
   */
  lemma FirstUnknownIsReplacement(s: Buffer, job: CopyJob, k: nat)
    requires !Admits(s, job) && k < |s.buf| && ImageOf(s.buf[k]) !in s.filter
    requires forall l :: 0 <= l < k ==> ImageOf(s.buf[l]) in s.filter
    ensures var t := Tick(s, job);
            && t.out == Some(s.buf[k]) && t.state.buf == s.buf[k + 1..] + [job] + s.buf[..k]
            && t.state.filter == s.filter[ImageOf(s.buf[k]) := Wrap(s.epoch + s.cap)]
            && t.state.epoch == Wrap(s.epoch + 1) && t.state.cap == s.cap && t.spins == k + 1
  {
    var q := s.buf + [job];
    assert forall l :: 0 <= l <= k ==> q[l] == s.buf[l];
    FirstUnknownIs(q, s.filter, 0, k);
    assert q[k + 1..] + q[..k] == s.buf[k + 1..] + [job] + s.buf[..k];
  }

  lemma ImagesOfAppend(jobs: seq<CopyJob>, job: CopyJob)
    ensures ImagesOf(jobs + [job]) == ImagesOf(jobs) + {ImageOf(job)}
  {
    var more := jobs + [job];
    assert forall i :: 0 <= i < |jobs| ==> more[i] == jobs[i];
    assert more[|jobs|] == job;
  }

  /** The state after the jobs `out` have been emitted and `spins` rotations made. */
  ghost predicate Reaches(cap: uint64, g: Generation) {
    && g.state.cap == cap
    && g.state.epoch == Wrap(|g.out|)
    && g.state.filter.Keys == ImagesOf(g.out)
    && Settled(g.state)
    && 2 * g.spins == |g.state.buf| * (|g.state.buf| + 1)
  }

  lemma TickReaches(cap: uint64, g: Generation, job: CopyJob)
    requires Reaches(cap, g)
    ensures Reaches(cap, Then(g, job))
  {
    if Admits(g.state, job) {
      ImagesOfAppend(g.out, job);
    } else {
      RefusedJobIsQueued(g.state, job);
      var n := |g.state.buf|;
      assert (n + 1) * (n + 2) == n * (n + 1) + 2 * (n + 1);
      assert g.out + [] == g.out;
    }
  }

  lemma {:induction false} ReachableBuffer(cap: uint64, jobs: seq<CopyJob>)
    ensures var g := Generate(cap, jobs);
            Reaches(cap, g) && |g.out| + |g.state.buf| == |jobs|
  {
    if jobs != [] {
      var before, job := jobs[..|jobs| - 1], jobs[|jobs| - 1];
      ReachableBuffer(cap, before);
      var g := Generate(cap, before);
      TickReaches(cap, g, job);
      if !Admits(g.state, job) {
        RefusedJobIsQueued(g.state, job);
      }
    }
  }

  /** The decrement of line 86 never meets an epoch of zero. */
  lemma DecrementMeetsPositiveEpoch(cap: uint64, jobs: seq<CopyJob>, job: CopyJob)
    requires !Admits(Generate(cap, jobs).state, job)
    requires |jobs| < U64
    ensures Generate(cap, jobs).state.epoch == |Generate(cap, jobs).out| >= 1
  {
    ReachableBuffer(cap, jobs);
    var g := Generate(cap, jobs);
    assert ImageOf(job) in ImagesOf(g.out);
  }

  /** A generation emits something whenever it is given something. */
  lemma HeldIsShorter(cap: uint64, jobs: seq<CopyJob>)
    requires jobs != []
    ensures |Held(cap, jobs)| < |jobs|
  {
    FirstJobComesOutFirst(cap, jobs);
    ReachableBuffer(cap, jobs);
  }

  lemma {:induction false} FirstJobComesOutFirst(cap: uint64, jobs: seq<CopyJob>)
    requires jobs != []
    ensures |Generate(cap, jobs).out| > 0 && Generate(cap, jobs).out[0] == jobs[0]
  {
    if |jobs| == 1 {
      assert Ticks(Fresh(cap), jobs[..0]) == Generation(Fresh(cap), [], 0);
    } else {
      FirstJobComesOutFirst(cap, jobs[..|jobs| - 1]);
    }
  }

  // ---- Flushing ------------------------------------------------------------------------------

  /** What a FlushBuffer call sends, its nested calls (itself included) and their rotations. */
  datatype Flushed = Flushed(out: seq<CopyJob>, depth: nat, spins: nat)

  /** FlushBuffer on a buffer holding `buf`: the switch of lines 102-110 on what is left over. */
  function Flush(cap: uint64, buf: seq<CopyJob>): Flushed
    decreases |buf|
  {
    var g := Generate(cap, buf);
    if |g.state.buf| <= 1 then Flushed(g.out + g.state.buf, 1, g.spins)
    else
      assert |g.state.buf| < |buf| by { HeldIsShorter(cap, buf); }
      var rest := Flush(cap, g.state.buf);
      Flushed(g.out + rest.out, 1 + rest.depth, g.spins + rest.spins)
  }

  /** The arms of the switch alone: an empty or one-element rest, or another FlushBuffer. */
  function Leftover(cap: uint64, held: seq<CopyJob>): Flushed {
    if |held| <= 1 then Flushed(held, 0, 0) else Flush(cap, held)
  }

  lemma FlushIsGenerationAndLeftover(cap: uint64, buf: seq<CopyJob>)
    ensures var g := Generate(cap, buf); var rest := Leftover(cap, g.state.buf);
            Flush(cap, buf) == Flushed(g.out + rest.out, 1 + rest.depth, g.spins + rest.spins)
  {
  }

  function FlushOut(cap: uint64, buf: seq<CopyJob>): seq<CopyJob> {
    Flush(cap, buf).out
  }

  /** The interleave stage: every job through Tick, then FlushBuffer. */
  function Run(cap: uint64, jobs: seq<CopyJob>): seq<CopyJob> {
    var g := Generate(cap, jobs);
    g.out + FlushOut(cap, g.state.buf)
  }

  function RunSpins(cap: uint64, jobs: seq<CopyJob>): nat {
    var g := Generate(cap, jobs);
    g.spins + Flush(cap, g.state.buf).spins
  }

  /** Generation after generation until nothing is held back: no special arms. */
  function AllGenerations(cap: uint64, jobs: seq<CopyJob>): seq<CopyJob>
    decreases |jobs|
  {
    if jobs == [] then []
    else
      assert |Held(cap, jobs)| < |jobs| by { HeldIsShorter(cap, jobs); }
      Generate(cap, jobs).out + AllGenerations(cap, Held(cap, jobs))
  }

  lemma OneJobIsOneGeneration(cap: uint64, jobs: seq<CopyJob>)
    requires |jobs| == 1
    ensures AllGenerations(cap, jobs) == jobs
  {
    FirstJobComesOutFirst(cap, jobs);
    ReachableBuffer(cap, jobs);
    assert Generate(cap, jobs).out == jobs && AllGenerations(cap, []) == [];
  }

  /** What the switch sends is what recursing would send, if that holds of a longer leftover. */
  lemma LeftoverIsAllGenerations(cap: uint64, held: seq<CopyJob>)
    requires |held| > 1 ==> FlushOut(cap, held) == AllGenerations(cap, held)
    ensures Leftover(cap, held).out == AllGenerations(cap, held)
  {
    if |held| == 1 {
      OneJobIsOneGeneration(cap, held);
    }
  }

  /** The arms for no and for one leftover job send what recursing would send. */
  lemma {:induction false} ShortArmsAgreeWithRecursion(cap: uint64, buf: seq<CopyJob>)
    ensures FlushOut(cap, buf) == AllGenerations(cap, buf)
    decreases |buf|
  {
    if buf != [] {
      HeldIsShorter(cap, buf);
      if |Held(cap, buf)| > 1 {
        ShortArmsAgreeWithRecursion(cap, Held(cap, buf));
      }
      FlushIsGenerationAndLeftover(cap, buf);
      LeftoverIsAllGenerations(cap, Held(cap, buf));
    }
  }

  lemma RunIsAllGenerations(cap: uint64, jobs: seq<CopyJob>)
    ensures Run(cap, jobs) == AllGenerations(cap, jobs)
  {
    ShortArmsAgreeWithRecursion(cap, Held(cap, jobs));
  }

  // ---- Conservation --------------------------------------------------------------------------

  /** The elements of `jobs` whose mark is `wanted`, in order. */
  function Pick<T>(jobs: seq<T>, marks: seq<bool>, wanted: bool): seq<T>
    requires |marks| == |jobs|
  {
    if jobs == [] then []
    else
      var n := |jobs| - 1;
      Pick(jobs[..n], marks[..n], wanted) + (if marks[n] == wanted then [jobs[n]] else [])
  }

  /**
   * A generation splits its input in two complementary subsequences: the jobs it emits and the
   * jobs it holds back, each in the order of arrival.
   */
  lemma {:induction false} GenerationSplitsInput(cap: uint64, jobs: seq<CopyJob>) returns (marks: seq<bool>)
    ensures |marks| == |jobs|
    ensures Generate(cap, jobs).out == Pick(jobs, marks, true)
    ensures Held(cap, jobs) == Pick(jobs, marks, false)
  {
    if jobs == [] {
      marks := [];
    } else {
      var before, job := jobs[..|jobs| - 1], jobs[|jobs| - 1];
      var earlier := GenerationSplitsInput(cap, before);
      var s := Generate(cap, before).state;
      ReachableBuffer(cap, before);
      marks := earlier + [Admits(s, job)];
      assert marks[..|before|] == earlier;
      if !Admits(s, job) {
        RefusedJobIsQueued(s, job);
      }
    }
  }

  lemma {:induction false} PicksPartition<T>(jobs: seq<T>, marks: seq<bool>)
    requires |marks| == |jobs|
    ensures multiset(Pick(jobs, marks, true)) + multiset(Pick(jobs, marks, false)) == multiset(jobs)
  {
    if jobs != [] {
      var n := |jobs| - 1;
      PicksPartition(jobs[..n], marks[..n]);
      assert multiset(jobs) == multiset(jobs[..n]) + multiset{jobs[n]} by {
        assert jobs == jobs[..n] + [jobs[n]];
      }
      var picked := Pick(jobs[..n], marks[..n], marks[n]);
      assert multiset(Pick(jobs, marks, marks[n])) == multiset(picked) + multiset{jobs[n]};
      assert Pick(jobs, marks, !marks[n]) == Pick(jobs[..n], marks[..n], !marks[n]);
    }
  }

  lemma GenerationConserves(cap: uint64, jobs: seq<CopyJob>)
    ensures multiset(Generate(cap, jobs).out) + multiset(Held(cap, jobs)) == multiset(jobs)
  {
    var marks := GenerationSplitsInput(cap, jobs);
    PicksPartition(jobs, marks);
  }

  lemma {:induction false} FlushConserves(cap: uint64, buf: seq<CopyJob>)
    ensures multiset(FlushOut(cap, buf)) == multiset(buf)
    decreases |buf|
  {
    GenerationConserves(cap, buf);
    var held := Held(cap, buf);
    if |held| > 1 {
      HeldIsShorter(cap, buf);
      FlushConserves(cap, held);
    }
  }

  /** Every job comes out of the interleave stage exactly as often as it went in. */
  lemma RunConserves(cap: uint64, jobs: seq<CopyJob>)
    ensures multiset(Run(cap, jobs)) == multiset(jobs)
  {
    GenerationConserves(cap, jobs);
    FlushConserves(cap, Held(cap, jobs));
  }

  /** What a prefix of the input holds back stays in front of all that is held back later. */
  lemma {:induction false} HeldGrows(cap: uint64, jobs: seq<CopyJob>, n: nat)
    requires n <= |jobs|
    ensures Held(cap, jobs[..n]) <= Held(cap, jobs)
    ensures Generate(cap, jobs[..n]).out <= Generate(cap, jobs).out
  {
    if n == |jobs| {
      assert jobs[..n] == jobs;
    } else {
      var before, job := jobs[..|jobs| - 1], jobs[|jobs| - 1];
      HeldGrows(cap, before, n);
      assert before[..n] == jobs[..n];
      var s := Generate(cap, before).state;
      ReachableBuffer(cap, before);
      if !Admits(s, job) {
        RefusedJobIsQueued(s, job);
      }
    }
  }
}
