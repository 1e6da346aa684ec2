/**
 * The class of pkg/cim/interleave_buffer.go with its channel, its rotation loop and its
 * recursive flush, and the interleave stage of pkg/cim/run.go that drives it.
 */
module InterleaveBuffers {
  import opened Jobs
  import opened Channels
  import opened Interleaver
  import StripTags
  import Costs

  /** `Blocks`: the send on line 64 never returns. `Panics`: it hits a closed channel. */
  datatype TickOutcome = Emits(job: CopyJob) | Holds | Blocks | Panics

  function Output(r: TickOutcome): seq<CopyJob> {
    if r.Emits? then [r.job] else []
  }

  ghost predicate ClosedOnce(ch: Chan<CopyJob>)
    reads ch
  {
    ch.closed && ch.closings == 1 && ch.buf == []
  }

  ghost predicate AllClosedOnce(made: set<Chan<CopyJob>>)
    reads made
  {
    forall ch :: ch in made ==> ClosedOnce(ch)
  }

  lemma OneMoreMade(ch: Chan<CopyJob>, more: set<Chan<CopyJob>>)
    requires ch !in more && ClosedOnce(ch) && AllClosedOnce(more)
    ensures |{ch} + more| == 1 + |more| && AllClosedOnce({ch} + more)
  {
  }

  class InterleaveBuffer {
    const cap: uint64
    const buf: Chan<CopyJob>
    var filter: map<string, uint64>
    var epoch: uint64
    ghost var emitted: seq<CopyJob>
    ghost var spins: nat

    ghost function Model(): Buffer
      reads this, buf
    {
      Buffer(buf.buf, filter, cap, epoch)
    }

    /** The fields, the jobs returned so far and the iterations of the rotation loop so far. */
    ghost function Log(): Generation
      reads this, buf
    {
      Generation(Model(), emitted, spins)
    }

    ghost predicate Valid()
      reads this, buf
    {
      buf.capacity == CONFIG_BUFFER_SIZE && |buf.buf| <= buf.capacity
    }

    /** Will Tick return for this job? */
    ghost predicate Proceeds(job: CopyJob)
      reads this, buf
    {
      Admits(Model(), job) || (!buf.closed && |buf.buf| < CONFIG_BUFFER_SIZE)
    }

    constructor (interval: uint64)
      ensures Valid() && fresh(buf)
      ensures cap == interval && Log() == Generate(interval, [])
      ensures !buf.closed && buf.closings == 0
    {
      buf := new Chan(CONFIG_BUFFER_SIZE);
      filter := map[];
      cap := interval;
      epoch := 0;
      emitted := [];
      spins := 0;
    }

    method Tick(job: CopyJob) returns (r: TickOutcome)
      requires Valid()
      modifies this, buf
      ensures Valid() && buf.closed == old(buf.closed) && buf.closings == old(buf.closings)
      ensures old(Proceeds(job)) ==> Log() == Then(old(Log()), job)
      ensures old(Proceeds(job)) ==> (r.Emits? || r.Holds?) && emitted == old(emitted) + Output(r)
      ensures !old(Proceeds(job)) && !old(buf.closed) ==> r == Blocks && Log() == old(Log())
      ensures !old(Proceeds(job)) && old(buf.closed) ==>
                r == Panics && Log() == old(Log()).(state := old(Model()).(epoch := Wrap(old(epoch) + 1)))
    {
      var image := StripTags.StripTag(job.dst.String());
      if image !in filter || filter[image] <= epoch {
        Release(job, image);
        ThenAdmits(old(Log()), job);
        return Emits(job);
      }
      r := QueueAndReplace(job);
    }

    /** The second half of Tick (lines 63-87), for a job whose image was emitted recently. */
    method QueueAndReplace(job: CopyJob) returns (r: TickOutcome)
      requires Valid() && !Admits(Model(), job)
      modifies this, buf
      ensures Valid() && buf.closed == old(buf.closed) && buf.closings == old(buf.closings)
      ensures !old(buf.closed) && old(|buf.buf|) < CONFIG_BUFFER_SIZE ==>
                && Log() == Then(old(Log()), job)
                && (r.Emits? || r.Holds?) && emitted == old(emitted) + Output(r)
      ensures !old(buf.closed) && old(|buf.buf|) == CONFIG_BUFFER_SIZE ==> r == Blocks && Log() == old(Log())
      ensures old(buf.closed) ==>
                r == Panics && Log() == old(Log()).(state := old(Model()).(epoch := Wrap(old(epoch) + 1)))
    {
      var sending := buf.Send(job);
      if sending.SendBlocks? {
        return Blocks;
      }
      if sending.SendPanics? {
        epoch := Wrap(epoch + 1);
        return Panics;
      }
      ghost var g, q := old(Log()), buf.buf;
      var found := Cycle();
      ghost var s := Model();
      if found.Some? {
        ThenReplaces(g, job, q, s);
        var image := StripTags.StripTag(found.value.dst.String());
        Release(found.value, image);
        return Emits(found.value);
      }
      ThenHolds(g, job, q, s);
      epoch := Wrap(epoch - 1);
      epoch := Wrap(epoch + 1);
      return Holds;
    }

    /** Remember the image of a job on its way out and count the job. */
    method Release(job: CopyJob, image: string)
      requires image == ImageOf(job)
      modifies this`filter, this`epoch, this`emitted
      ensures Model() == Remember(old(Model()), job) && emitted == old(emitted) + [job]
    {
      filter := filter[image := Wrap(epoch + cap)];
      epoch := Wrap(epoch + 1);
      emitted := emitted + [job];
    }

    /** The loop of Tick (lines 67-83): take out the first queued job whose image is no key. */
    method Cycle() returns (found: Option<CopyJob>)
      requires Valid() && !buf.closed && buf.buf != []
      modifies buf, this`spins
      ensures !buf.closed && buf.closings == old(buf.closings)
      ensures var q := old(buf.buf); var k := FirstUnknown(q, filter);
              if k < |q| then
                found == Some(q[k]) && buf.buf == q[k + 1..] + q[..k] && spins == old(spins) + k + 1
              else
                found == None && buf.buf == q && spins == old(spins) + |q|
    {
      ghost var q := buf.buf;
      ghost var i := 0;
      var lim := |buf.buf|;
      while true
        invariant 0 <= i < |q| <= CONFIG_BUFFER_SIZE && lim == |q| - i
        invariant buf.buf == q[i..] + q[..i]
        invariant !buf.closed && buf.closings == old(buf.closings) && spins == old(spins) + i
        invariant FirstUnknownFrom(q, filter, i) == FirstUnknown(q, filter)
        decreases lim
      {
        RotationStep(q, i);
        var received := buf.Receive();
        var x := received.value;
        spins := spins + 1;
        var image := StripTags.StripTag(x.dst.String());
        if image !in filter {
          return Some(x);
        }
        var sending := buf.Send(x);
        i := i + 1;
        lim := lim - 1;
        if lim == 0 {
          return None;
        }
      }
    }

    /** A Tick that returns, and the send of the job it returns, if any, behind what was sent `before`. */
    method TickInto(job: CopyJob, out: Outlet<CopyJob>, ghost before: seq<CopyJob>)
      requires Valid() && !buf.closed && !out.closed && Proceeds(job)
      requires out.sent == before + emitted
      modifies this, buf, out
      ensures Valid() && !buf.closed && buf.closings == old(buf.closings) && !out.closed
      ensures Log() == Then(old(Log()), job)
      ensures out.sent == before + emitted
    {
      var ticked := Tick(job);
      if ticked.Emits? {
        out.Send(ticked.job);
      }
    }

    /** The drain loop of FlushBuffer (lines 96-100): the whole closed queue through a new buffer. */
    method Drain(flushBuf: InterleaveBuffer, out: Outlet<CopyJob>)
      requires Valid() && buf.closed && !out.closed
      requires flushBuf.Valid() && flushBuf != this && flushBuf.buf != buf && flushBuf.cap == cap
      requires flushBuf.Log() == Generate(cap, []) && !flushBuf.buf.closed
      modifies buf, flushBuf, flushBuf.buf, out
      ensures buf.buf == [] && buf.closed && buf.closings == old(buf.closings) && !out.closed
      ensures flushBuf.Valid() && !flushBuf.buf.closed && flushBuf.buf.closings == old(flushBuf.buf.closings)
      ensures flushBuf.Log() == Generate(cap, old(buf.buf))
      ensures out.sent == old(out.sent) + flushBuf.emitted
    {
      ghost var jobs := buf.buf;
      ghost var n := 0;
      var next := buf.Receive();
      while next.Got?
        invariant flushBuf.Valid() && !flushBuf.buf.closed && flushBuf.buf.closings == old(flushBuf.buf.closings)
        invariant buf.closed && buf.closings == old(buf.closings) && !out.closed
        invariant 0 <= n <= |jobs|
        invariant if next.Got? then n < |jobs| && next.value == jobs[n] && buf.buf == jobs[n + 1..]
                  else n == |jobs| && buf.buf == []
        invariant flushBuf.Log() == Generate(cap, jobs[..n])
        invariant out.sent == old(out.sent) + flushBuf.emitted
        decreases |jobs| - n
      {
        QueueStep(jobs, n);
        RoomForOneMore(cap, jobs, n);
        NextTick(cap, jobs, n);
        flushBuf.TickInto(next.value, out, old(out.sent));
        n := n + 1;
        next := buf.Receive();
      }
      assert jobs[..n] == jobs;
    }

    /**
     * Flushing sends Flush of what the buffer holds. `made` are the channels of the flush
     * buffers created on the way: each is drained and closed once. Only a buffer flushed
     * before panics, and no send or receive blocks.
     */
    method FlushBuffer(out: Outlet<CopyJob>) returns (ok: bool, ghost made: set<Chan<CopyJob>>, ghost rotations: nat)
      requires Valid() && !out.closed
      modifies buf, out
      ensures ok == !old(buf.closed) && !out.closed
      ensures !ok ==> out.sent == old(out.sent) && made == {}
      ensures ok ==> buf.closed && buf.buf == [] && buf.closings == old(buf.closings) + 1
      ensures ok ==> var f := Flush(cap, old(buf.buf));
                     out.sent == old(out.sent) + f.out && |made| == f.depth && rotations == f.spins
      ensures fresh(made) && AllClosedOnce(made)
      decreases 2 * |buf.buf| + 2
    {
      made, rotations := {}, 0;
      var flushBuf := new InterleaveBuffer(cap);
      ok := buf.Close();
      if !ok {
        return;
      }
      Drain(flushBuf, out);
      GenerationIsNoLonger(cap, old(buf.buf));
      FlushIsGenerationAndLeftover(cap, old(buf.buf));
      made, rotations := flushBuf.FlushLeftover(out);
      SentInTwoParts(old(out.sent), flushBuf.emitted, Leftover(cap, Held(cap, old(buf.buf))).out);
    }

    /** The end of the stage: flush, and close the output. */
    method Finish(out: Outlet<CopyJob>) returns (ghost made: set<Chan<CopyJob>>, ghost rotations: nat)
      requires Valid() && !buf.closed && buf.closings == 0 && !out.closed
      modifies buf, out
      ensures out.closed && buf in made && fresh(made - {buf}) && AllClosedOnce(made)
      ensures var f := Flush(cap, old(buf.buf));
              out.sent == old(out.sent) + f.out && |made| == 1 + f.depth && rotations == spins + f.spins
    {
      ghost var ok, more, moreRotations := FlushBuffer(out);
      OneMoreMade(buf, more);
      out.Close();
      made, rotations := {buf} + more, spins + moreRotations;
    }

    /** The switch of FlushBuffer (lines 102-110) on its flush buffer, whose channel counts as made. */
    method FlushLeftover(out: Outlet<CopyJob>) returns (ghost made: set<Chan<CopyJob>>, ghost rotations: nat)
      requires Valid() && !buf.closed && buf.closings == 0 && !out.closed
      modifies buf, out
      ensures !out.closed
      ensures var rest := Leftover(cap, old(buf.buf));
              out.sent == old(out.sent) + rest.out && |made| == 1 + rest.depth && rotations == spins + rest.spins
      ensures buf in made && fresh(made - {buf}) && AllClosedOnce(made)
      decreases if |buf.buf| <= 1 then 0 else 2 * |buf.buf| + 3
    {
      made, rotations := {buf}, spins;
      if |buf.buf| == 0 {
        var _ := buf.Close();
      } else if |buf.buf| == 1 {
        var last := buf.Receive();
        out.Send(last.value);
        var _ := buf.Close();
      } else {
        ghost var ok, more, moreRotations := FlushBuffer(out);
        OneMoreMade(buf, more);
        made, rotations := {buf} + more, spins + moreRotations;
      }
    }
  }

  lemma SentInTwoParts(sent: seq<CopyJob>, first: seq<CopyJob>, second: seq<CopyJob>)
    ensures (sent + first) + second == sent + (first + second)
  {
  }

  /** What is left over is shorter, or there was nothing. */
  lemma GenerationIsNoLonger(cap: uint64, buf: seq<CopyJob>)
    ensures buf != [] ==> |Held(cap, buf)| < |buf|
    ensures buf == [] ==> Held(cap, buf) == []
  {
    if buf != [] {
      HeldIsShorter(cap, buf);
    }
  }

  lemma ThenAdmits(g: Generation, job: CopyJob)
    requires Admits(g.state, job)
    ensures Then(g, job) == Generation(Remember(g.state, job), g.out + [job], g.spins)
  {
  }

  lemma ThenReplaces(g: Generation, job: CopyJob, q: seq<CopyJob>, s: Buffer)
    requires !Admits(g.state, job) && q == g.state.buf + [job]
    requires FirstUnknown(q, g.state.filter) < |q|
    requires var k := FirstUnknown(q, g.state.filter); s == g.state.(buf := q[k + 1..] + q[..k])
    ensures var k := FirstUnknown(q, g.state.filter);
            Then(g, job) == Generation(Remember(s, q[k]), g.out + [q[k]], g.spins + k + 1)
  {
  }

  lemma ThenHolds(g: Generation, job: CopyJob, q: seq<CopyJob>, s: Buffer)
    requires !Admits(g.state, job) && q == g.state.buf + [job] && s == g.state.(buf := q)
    requires FirstUnknown(q, g.state.filter) == |q|
    ensures Then(g, job) == Generation(s.(epoch := Wrap(Wrap(s.epoch - 1) + 1)), g.out, g.spins + |q|)
  {
    assert g.out + [] == g.out;
  }

  lemma QueueStep(q: seq<CopyJob>, i: nat)
    requires i < |q|
    ensures if i + 1 < |q| then q[i + 1..] != [] && q[i + 1..][0] == q[i + 1] && q[i + 1..][1..] == q[i + 2..]
            else q[i + 1..] == []
  {
  }

  lemma RotationStep(q: seq<CopyJob>, i: nat)
    requires i < |q|
    ensures var turned := q[i..] + q[..i];
            && turned != [] && turned[0] == q[i]
            && turned[1..] == q[i + 1..] + q[..i]
            && turned[1..] + [q[i]] == q[i + 1..] + q[..i + 1]
            && (i + 1 == |q| ==> turned[1..] + [q[i]] == q)
  {
  }

  lemma NextTick(cap: uint64, jobs: seq<CopyJob>, n: nat)
    requires n < |jobs|
    ensures Generate(cap, jobs[..n + 1]) == Then(Generate(cap, jobs[..n]), jobs[n])
  {
    TicksAppend(Fresh(cap), jobs[..n], jobs[n]);
    assert jobs[..n + 1] == jobs[..n] + [jobs[n]];
  }

  /** A flush buffer never fills: its first job goes out at once. */
  lemma RoomForOneMore(cap: uint64, jobs: seq<CopyJob>, n: nat)
    requires n < |jobs|
    ensures |Held(cap, jobs[..n])| < |jobs|
  {
    if n > 0 {
      HeldIsShorter(cap, jobs[..n]);
    }
  }

  /**
   * The interleave stage on a finite input. It finishes exactly when its first generation does
   * not hold back more than the channel takes; then it has sent the whole run, made the
   * rotations of the whole run, and closed every channel once. Otherwise it hangs for good at
   * the job `stuckAt`, with a full channel, its output open and only the jobs sent that
   * left the buffer before.
   */
  method Interleave(jobs: seq<CopyJob>, interval: uint64)
    returns (out: Outlet<CopyJob>, finished: bool, ghost made: set<Chan<CopyJob>>, ghost rotations: nat,
      ghost stuckAt: nat)
    ensures fresh(out)
    ensures finished <==> |Held(interval, jobs)| <= CONFIG_BUFFER_SIZE
    ensures finished ==> out.closed && out.sent == Run(interval, jobs)
    ensures finished ==> rotations == RunSpins(interval, jobs)
    ensures finished ==> |made| == 1 + Flush(interval, Held(interval, jobs)).depth
    ensures finished ==> fresh(made) && AllClosedOnce(made)
    ensures !finished ==> !out.closed && stuckAt < |jobs|
    ensures !finished ==> var g := Generate(interval, jobs[..stuckAt]);
                          |g.state.buf| == CONFIG_BUFFER_SIZE && !Admits(g.state, jobs[stuckAt]) && out.sent == g.out
  {
    made, rotations := {}, 0;
    var buf := new InterleaveBuffer(interval);
    out := new Outlet();
    finished, stuckAt := TickAll(buf, jobs, out);
    if finished {
      made, rotations := buf.Finish(out);
    }
  }

  /** The buffer has taken the first `n` jobs and everything it emitted was sent. */
  ghost predicate HasTaken(buf: InterleaveBuffer, jobs: seq<CopyJob>, n: nat, out: Outlet<CopyJob>)
    requires n <= |jobs|
    reads buf, buf.buf, out
  {
    && buf.Valid() && !buf.buf.closed && !out.closed
    && buf.Log() == Generate(buf.cap, jobs[..n]) && out.sent == buf.emitted
  }

  /** The loop of the stage over its input. */
  method TickAll(buf: InterleaveBuffer, jobs: seq<CopyJob>, out: Outlet<CopyJob>)
    returns (finished: bool, ghost stuckAt: nat)
    requires HasTaken(buf, jobs, 0, out)
    modifies buf, buf.buf, out
    ensures buf.buf.closings == old(buf.buf.closings)
    ensures finished <==> |Held(buf.cap, jobs)| <= CONFIG_BUFFER_SIZE
    ensures finished ==> HasTaken(buf, jobs, |jobs|, out) && buf.Log() == Generate(buf.cap, jobs)
    ensures !finished ==> stuckAt < |jobs| && HasTaken(buf, jobs, stuckAt, out)
    ensures !finished ==> |buf.buf.buf| == CONFIG_BUFFER_SIZE && !Admits(buf.Model(), jobs[stuckAt])
  {
    var i := 0;
    while i < |jobs|
      invariant 0 <= i <= |jobs| && HasTaken(buf, jobs, i, out)
      invariant buf.buf.closings == old(buf.buf.closings)
    {
      NextTick(buf.cap, jobs, i);
      var ticked := buf.Tick(jobs[i]);
      if ticked.Blocks? {
        FullMeansTooMany(buf.cap, jobs, i);
        return false, i;
      }
      if ticked.Emits? {
        out.Send(ticked.job);
      }
      i := i + 1;
    }
    assert jobs[..i] == jobs;
    return true, 0;
  }

  lemma FullMeansTooMany(cap: uint64, jobs: seq<CopyJob>, n: nat)
    requires n < |jobs| && |Held(cap, jobs[..n])| == CONFIG_BUFFER_SIZE
    requires !Admits(Generate(cap, jobs[..n]).state, jobs[n])
    ensures |Held(cap, jobs)| > CONFIG_BUFFER_SIZE
  {
    Costs.OneMoreHeld(cap, jobs[..n], jobs[n]);
    assert jobs[..n + 1] == jobs[..n] + [jobs[n]];
    HeldGrows(cap, jobs, n + 1);
  }
}
