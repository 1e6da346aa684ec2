/**
 * The goroutines around the copy stage as a step system: splitJobCh (pkg/cim/concurrency.go)
 * feeds the interleaver and the housekeeping of pkg/cim/run.go over two bounded channels. Copy
 * workers and deletion workers always receive. A schedule is any sequence of enabled actions.
 */
module Pipeline {
  import opened Jobs
  import opened Interleaver
  import Costs

  /** The jobs transform sends, the destination tags housekeeping resolves, the interval. */
  datatype Setup = Setup(jobs: seq<CopyJob>, resolved: seq<string>, cap: uint64)

  datatype Splitter = Fetching | Sending1(job: CopyJob) | Sending2(job: CopyJob) | Closing1 | Closing2 | Split

  /** `Stuck`: the send to a full interleave buffer, which nobody else drains. */
  datatype Interleaving = Ticking | Sending(out: CopyJob) | Flushing(rest: seq<CopyJob>) | Stuck | Interleaved

  datatype Housekeeping = Resolving | Subtracting | Deleting | Cleaned

  /** `ticked`, `copied`, `subtracted` and `deleted` log what has passed through so far. */
  datatype State = State(
    fetched: nat, splitter: Splitter,
    q1: seq<CopyJob>, closed1: bool, q2: seq<CopyJob>, closed2: bool,
    interleaving: Interleaving, buffer: Buffer, ticked: seq<CopyJob>,
    copied: seq<CopyJob>, copiesClosed: bool,
    housekeeping: Housekeeping, taken: nat, delTags: set<string>, subtracted: seq<CopyJob>,
    deleted: seq<string>, deletesClosed: bool)

  datatype Action =
    | Fetch | EndFetch | Send1 | Send2 | Close1 | Close2
    | TickNext | SendCopy | EndTicks | SendFlushed | CloseCopies
    | Resolve | EndResolve | Subtract | EndSubtract | Delete(tag: string) | CloseDeletes

  function Init(c: Setup): State {
    State(0, Fetching, [], false, [], false, Ticking, Fresh(c.cap), [], [], false, Resolving, 0, {}, [], [], false)
  }

  /** Receives of a closed empty channel end a loop; sends wait for room in the channel. */
  predicate Enabled(c: Setup, s: State, a: Action) {
    match a
    case Fetch => s.splitter.Fetching? && s.fetched < |c.jobs|
    case EndFetch => s.splitter.Fetching? && s.fetched == |c.jobs|
    case Send1 => s.splitter.Sending1? && |s.q1| < CONFIG_BUFFER_SIZE
    case Send2 => s.splitter.Sending2? && |s.q2| < CONFIG_BUFFER_SIZE
    case Close1 => s.splitter.Closing1?
    case Close2 => s.splitter.Closing2?
    case TickNext => s.interleaving.Ticking? && s.q1 != []
    case SendCopy => s.interleaving.Sending?
    case EndTicks => s.interleaving.Ticking? && s.q1 == [] && s.closed1
    case SendFlushed => s.interleaving.Flushing? && s.interleaving.rest != []
    case CloseCopies => s.interleaving.Flushing? && s.interleaving.rest == []
    case Resolve => s.housekeeping.Resolving? && s.taken < |c.resolved|
    case EndResolve => s.housekeeping.Resolving? && s.taken == |c.resolved|
    case Subtract => s.housekeeping.Subtracting? && s.q2 != []
    case EndSubtract => s.housekeeping.Subtracting? && s.q2 == [] && s.closed2
    case Delete(tag) => s.housekeeping.Deleting? && tag in s.delTags
    case CloseDeletes => s.housekeeping.Deleting? && s.delTags == {}
  }

  /** The interleaver takes a job from its channel and calls Tick. */
  function TickStep(s: State): State
    requires s.q1 != []
  {
    var job := s.q1[0];
    var stuck, t := !Admits(s.buffer, job) && |s.buffer.buf| >= CONFIG_BUFFER_SIZE, Tick(s.buffer, job);
    s.(q1 := s.q1[1..], ticked := s.ticked + [job], buffer := if stuck then s.buffer else t.state,
    interleaving := if stuck then Stuck else if t.out.Some? then Sending(t.out.value) else Ticking)
  }

  function Step(c: Setup, s: State, a: Action): State
    requires Enabled(c, s, a)
  {
    match a
    case Fetch => s.(fetched := s.fetched + 1, splitter := Sending1(c.jobs[s.fetched]))
    case EndFetch => s.(splitter := Closing1)
    case Send1 => s.(q1 := s.q1 + [s.splitter.job], splitter := Sending2(s.splitter.job))
    case Send2 => s.(q2 := s.q2 + [s.splitter.job], splitter := Fetching)
    case Close1 => s.(closed1 := true, splitter := Closing2)
    case Close2 => s.(closed2 := true, splitter := Split)
    case TickNext => TickStep(s)
    case SendCopy => s.(copied := s.copied + [s.interleaving.out], interleaving := Ticking)
    case EndTicks => s.(interleaving := Flushing(FlushOut(c.cap, s.buffer.buf)))
    case SendFlushed =>
      s.(copied := s.copied + [s.interleaving.rest[0]], interleaving := Flushing(s.interleaving.rest[1..]))
    case CloseCopies => s.(interleaving := Interleaved, copiesClosed := true)
    case Resolve => s.(taken := s.taken + 1, delTags := s.delTags + {c.resolved[s.taken]})
    case EndResolve => s.(housekeeping := Subtracting)
    case Subtract =>
      s.(q2 := s.q2[1..], subtracted := s.subtracted + [s.q2[0]], delTags := s.delTags - {s.q2[0].dst.String()})
    case EndSubtract => s.(housekeeping := Deleting)
    case Delete(tag) => s.(delTags := s.delTags - {tag}, deleted := s.deleted + [tag])
    case CloseDeletes => s.(housekeeping := Cleaned, deletesClosed := true)
  }

  /** The state after a schedule, or nothing if one of its actions was not enabled in its turn. */
  function Exec(c: Setup, schedule: seq<Action>): Option<State> {
    if schedule == [] then Some(Init(c))
    else
      var before, a := Exec(c, schedule[..|schedule| - 1]), schedule[|schedule| - 1];
      if before.Some? && Enabled(c, before.value, a) then Some(Step(c, before.value, a)) else None
  }

  // ---- The invariant -------------------------------------------------------------------------

  function Tags(tags: seq<string>): set<string> {
    set i | 0 <= i < |tags| :: tags[i]
  }

  function Destinations(jobs: seq<CopyJob>): set<string> {
    set i | 0 <= i < |jobs| :: jobs[i].dst.original
  }

  function SentTo1(s: State): int {
    if s.splitter.Sending1? then s.fetched - 1 else s.fetched
  }

  function SentTo2(s: State): int {
    if s.splitter.Sending1? || s.splitter.Sending2? then s.fetched - 1 else s.fetched
  }

  ghost predicate SplitterInv(c: Setup, s: State) {
    && s.fetched <= |c.jobs|
    && (s.splitter.Sending1? || s.splitter.Sending2? ==> 0 < s.fetched && s.splitter.job == c.jobs[s.fetched - 1])
    && (s.splitter.Closing1? || s.splitter.Closing2? || s.splitter.Split? ==> s.fetched == |c.jobs|)
    && (s.closed1 <==> s.splitter.Closing2? || s.splitter.Split?)
    && (s.closed2 <==> s.splitter.Split?)
  }

  /** Each channel carries the input in order; what was taken out and what is in it is what was sent. */
  ghost predicate Queue1Inv(c: Setup, s: State)
    requires SplitterInv(c, s)
  {
    |s.q1| <= CONFIG_BUFFER_SIZE && s.ticked + s.q1 == c.jobs[..SentTo1(s)]
  }

  ghost predicate Queue2Inv(c: Setup, s: State)
    requires SplitterInv(c, s)
  {
    |s.q2| <= CONFIG_BUFFER_SIZE && s.subtracted + s.q2 == c.jobs[..SentTo2(s)]
  }

  ghost predicate QueuesInv(c: Setup, s: State) {
    SplitterInv(c, s) && Queue1Inv(c, s) && Queue2Inv(c, s)
  }

  ghost predicate InterleavingInv(c: Setup, s: State) {
    var g := Generate(c.cap, s.ticked);
    (s.copiesClosed <==> s.interleaving.Interleaved?) &&
    match s.interleaving
    case Ticking => s.buffer == g.state && s.copied == g.out && |s.buffer.buf| <= CONFIG_BUFFER_SIZE
    case Sending(job) => s.buffer == g.state && s.copied + [job] == g.out && |s.buffer.buf| <= CONFIG_BUFFER_SIZE
    case Flushing(rest) =>
      s.ticked == c.jobs && s.closed1 && s.copied + rest == Run(c.cap, c.jobs) && |g.state.buf| <= CONFIG_BUFFER_SIZE
    case Interleaved =>
      s.ticked == c.jobs && s.closed1 && s.copied == Run(c.cap, c.jobs) && |g.state.buf| <= CONFIG_BUFFER_SIZE
    case Stuck => |g.state.buf| == CONFIG_BUFFER_SIZE + 1 && s.copied == g.out
  }

  ghost predicate NoDuplicates(tags: seq<string>) {
    forall i, j :: 0 <= i < j < |tags| ==> tags[i] != tags[j]
  }

  ghost predicate HousekeepingInv(c: Setup, s: State) {
    s.taken <= |c.resolved| && (s.deletesClosed <==> s.housekeeping.Cleaned?) &&
    match s.housekeeping
    case Resolving =>
      s.subtracted == [] && s.deleted == [] && s.delTags == Tags(c.resolved[..s.taken])
    case Subtracting => s.deleted == [] && s.delTags == Tags(c.resolved) - Destinations(s.subtracted)
    case _ =>
      && s.subtracted == c.jobs && s.closed2
      && NoDuplicates(s.deleted) && Tags(s.deleted) !! s.delTags
      && Tags(s.deleted) + s.delTags == Tags(c.resolved) - Destinations(c.jobs)
      && (s.housekeeping.Cleaned? ==> s.delTags == {})
  }

  ghost predicate Inv(c: Setup, s: State) {
    QueuesInv(c, s) && InterleavingInv(c, s) && HousekeepingInv(c, s)
  }

  lemma OneMoreSent(jobs: seq<CopyJob>, taken: seq<CopyJob>, queue: seq<CopyJob>, k: nat)
    requires k < |jobs| && taken + queue == jobs[..k]
    ensures taken + (queue + [jobs[k]]) == jobs[..k + 1]
  {
    assert jobs[..k + 1] == jobs[..k] + [jobs[k]];
    assert taken + (queue + [jobs[k]]) == (taken + queue) + [jobs[k]];
  }

  lemma OneMoreTaken(taken: seq<CopyJob>, queue: seq<CopyJob>)
    requires queue != []
    ensures (taken + [queue[0]]) + queue[1..] == taken + queue
  {
  }

  lemma SplitterStep(c: Setup, s: State, a: Action)
    requires SplitterInv(c, s) && Enabled(c, s, a)
    ensures SplitterInv(c, Step(c, s, a))
  {
  }

  lemma Queue1Step(c: Setup, s: State, a: Action)
    requires QueuesInv(c, s) && Enabled(c, s, a) && SplitterInv(c, Step(c, s, a))
    ensures Queue1Inv(c, Step(c, s, a))
  {
    if a.Send1? {
      OneMoreSent(c.jobs, s.ticked, s.q1, s.fetched - 1);
    } else if a.TickNext? {
      OneMoreTaken(s.ticked, s.q1);
    }
  }

  lemma Queue2Step(c: Setup, s: State, a: Action)
    requires QueuesInv(c, s) && Enabled(c, s, a) && SplitterInv(c, Step(c, s, a))
    ensures Queue2Inv(c, Step(c, s, a))
  {
    if a.Send2? {
      OneMoreSent(c.jobs, s.subtracted, s.q2, s.fetched - 1);
    } else if a.Subtract? {
      OneMoreTaken(s.subtracted, s.q2);
    }
  }

  lemma QueuesStep(c: Setup, s: State, a: Action)
    requires QueuesInv(c, s) && Enabled(c, s, a)
    ensures QueuesInv(c, Step(c, s, a))
  {
    SplitterStep(c, s, a);
    Queue1Step(c, s, a);
    Queue2Step(c, s, a);
  }

  lemma TickStepKeeps(c: Setup, s: State)
    requires Inv(c, s) && Enabled(c, s, TickNext)
    ensures InterleavingInv(c, TickStep(s))
  {
    var job, g := s.q1[0], Generate(c.cap, s.ticked);
    TicksAppend(Fresh(c.cap), s.ticked, job);
    ReachableBuffer(c.cap, s.ticked);
    if !Admits(s.buffer, job) {
      RefusedJobIsQueued(s.buffer, job);
      assert g.out + [] == g.out;
    }
  }

  /** Is this a step of the interleave goroutine? */
  predicate OfInterleaver(a: Action) {
    a.TickNext? || a.SendCopy? || a.EndTicks? || a.SendFlushed? || a.CloseCopies?
  }

  lemma OthersKeepInterleaving(c: Setup, s: State, a: Action)
    requires InterleavingInv(c, s) && Enabled(c, s, a) && !OfInterleaver(a)
    ensures InterleavingInv(c, Step(c, s, a))
  {
    var t := Step(c, s, a);
    assert t.ticked == s.ticked && t.interleaving == s.interleaving && t.buffer == s.buffer && t.copied == s.copied;
    assert s.closed1 ==> t.closed1;
  }

  lemma FlushKeeps(c: Setup, s: State, a: Action)
    requires InterleavingInv(c, s) && Enabled(c, s, a) && (a.SendFlushed? || a.CloseCopies?)
    ensures InterleavingInv(c, Step(c, s, a))
  {
    if a.SendFlushed? {
      var t := Step(c, s, a);
      assert t.copied + t.interleaving.rest == s.copied + s.interleaving.rest;
    } else {
      assert s.copied + [] == s.copied;
    }
  }

  lemma InterleavingStep(c: Setup, s: State, a: Action)
    requires Inv(c, s) && Enabled(c, s, a)
    ensures InterleavingInv(c, Step(c, s, a))
  {
    if !OfInterleaver(a) {
      OthersKeepInterleaving(c, s, a);
    } else if a.SendFlushed? || a.CloseCopies? {
      FlushKeeps(c, s, a);
    } else if a.TickNext? {
      TickStepKeeps(c, s);
    } else if a.EndTicks? {
      assert s.ticked == c.jobs[..|c.jobs|] == c.jobs;
    }
  }

  lemma TagsAppend(tags: seq<string>, tag: string)
    ensures Tags(tags + [tag]) == Tags(tags) + {tag}
  {
    var more := tags + [tag];
    assert forall i :: 0 <= i < |tags| ==> more[i] == tags[i];
    assert more[|tags|] == tag;
  }

  lemma DestinationsAppend(jobs: seq<CopyJob>, job: CopyJob)
    ensures Destinations(jobs + [job]) == Destinations(jobs) + {job.dst.original}
  {
    var more := jobs + [job];
    assert forall i :: 0 <= i < |jobs| ==> more[i] == jobs[i];
    assert more[|jobs|] == job;
  }

  lemma DeleteStep(c: Setup, s: State, tag: string)
    requires HousekeepingInv(c, s) && Enabled(c, s, Delete(tag))
    ensures HousekeepingInv(c, Step(c, s, Delete(tag)))
  {
    TagsAppend(s.deleted, tag);
    assert forall i :: 0 <= i < |s.deleted| ==> s.deleted[i] in Tags(s.deleted);
  }

  lemma HousekeepingStep(c: Setup, s: State, a: Action)
    requires Inv(c, s) && Enabled(c, s, a)
    ensures HousekeepingInv(c, Step(c, s, a))
  {
    match a
    case Resolve =>
      assert c.resolved[..s.taken + 1] == c.resolved[..s.taken] + [c.resolved[s.taken]];
      TagsAppend(c.resolved[..s.taken], c.resolved[s.taken]);
    case EndResolve =>
      assert c.resolved[..s.taken] == c.resolved;
      assert Destinations([]) == {};
    case Subtract => DestinationsAppend(s.subtracted, s.q2[0]);
    case EndSubtract =>
      assert s.subtracted == c.jobs[..|c.jobs|] == c.jobs;
      assert Tags([]) == {};
    case Delete(tag) => DeleteStep(c, s, tag);
    case _ =>
  }

  lemma {:induction false} Reachable(c: Setup, schedule: seq<Action>)
    requires Exec(c, schedule).Some?
    ensures Inv(c, Exec(c, schedule).value)
  {
    if schedule != [] {
      var before, a := schedule[..|schedule| - 1], schedule[|schedule| - 1];
      Reachable(c, before);
      var s := Exec(c, before).value;
      QueuesStep(c, s, a);
      InterleavingStep(c, s, a);
      HousekeepingStep(c, s, a);
    } else {
      assert Tags(c.resolved[..0]) == {};
    }
  }

  // ---- Safety --------------------------------------------------------------------------------

  /**
   * In every state of every schedule: copies are a prefix of the interleaved run, a deleted tag
   * was resolved, is the destination of no job and is deleted once, and none of the four
   * channels is sent to or closed again after its close.
   */
  lemma NoJobIsEverDeleted(c: Setup, schedule: seq<Action>)
    requires Exec(c, schedule).Some?
    ensures var s := Exec(c, schedule).value;
            && s.copied <= Run(c.cap, c.jobs)
            && Tags(s.deleted) <= Tags(c.resolved)
            && Tags(s.deleted) !! Destinations(c.jobs)
            && NoDuplicates(s.deleted)
            && forall a :: Enabled(c, s, a) ==> !HitsClosed(s, a)
  {
    Reachable(c, schedule);
    var s := Exec(c, schedule).value;
    CopiesAreAPrefix(c, s);
    DeletedAreUnwanted(c, s);
    forall a | Enabled(c, s, a) ensures !HitsClosed(s, a) {
      NothingHitsClosed(c, s, a);
    }
  }

  /** Does the action send to, or close, a channel that is closed? */
  predicate HitsClosed(s: State, a: Action) {
    match a
    case Send1 => s.closed1
    case Close1 => s.closed1
    case Send2 => s.closed2
    case Close2 => s.closed2
    case SendCopy => s.copiesClosed
    case SendFlushed => s.copiesClosed
    case CloseCopies => s.copiesClosed
    case Delete(_) => s.deletesClosed
    case CloseDeletes => s.deletesClosed
    case _ => false
  }

  lemma NothingHitsClosed(c: Setup, s: State, a: Action)
    requires SplitterInv(c, s) && Enabled(c, s, a)
    requires (s.copiesClosed <==> s.interleaving.Interleaved?) && (s.deletesClosed <==> s.housekeeping.Cleaned?)
    ensures !HitsClosed(s, a)
  {
  }

  lemma DeletedAreUnwanted(c: Setup, s: State)
    requires HousekeepingInv(c, s)
    ensures Tags(s.deleted) <= Tags(c.resolved) && Tags(s.deleted) !! Destinations(c.jobs) && NoDuplicates(s.deleted)
  {
    if s.deleted == [] {
      assert Tags(s.deleted) == {};
    }
  }

  lemma TickedIsAPrefix(c: Setup, s: State)
    requires QueuesInv(c, s)
    ensures |s.ticked| <= |c.jobs| && s.ticked == c.jobs[..|s.ticked|]
  {
    assert s.ticked == (s.ticked + s.q1)[..|s.ticked|];
  }

  lemma CopiesAreAPrefix(c: Setup, s: State)
    requires Inv(c, s)
    ensures s.copied <= Run(c.cap, c.jobs)
  {
    TickedIsAPrefix(c, s);
    HeldGrows(c.cap, c.jobs, |s.ticked|);
    assert s.interleaving.Sending? || s.interleaving.Ticking? || s.interleaving.Stuck? ==>
             s.copied <= Generate(c.cap, s.ticked).out;
  }

  ghost predicate Final(s: State) {
    s.splitter.Split? && s.interleaving.Interleaved? && s.housekeeping.Cleaned?
  }

  /**
   * When everything has stopped, the jobs copied are the interleaved run, as a multiset the jobs
   * housekeeping subtracted, and the deleted tags are exactly the resolved ones that are no
   * job's destination, each deleted once.
   */
  lemma FinalOutcome(c: Setup, schedule: seq<Action>)
    requires Exec(c, schedule).Some? && Final(Exec(c, schedule).value)
    ensures var s := Exec(c, schedule).value;
            && s.copied == Run(c.cap, c.jobs)
            && s.subtracted == c.jobs
            && multiset(s.copied) == multiset(s.subtracted)
            && Tags(s.deleted) == Tags(c.resolved) - Destinations(c.jobs)
            && NoDuplicates(s.deleted)
  {
    Reachable(c, schedule);
    RunConserves(c.cap, c.jobs);
  }

  // ---- Progress ------------------------------------------------------------------------------

  ghost predicate CanMove(c: Setup, s: State) {
    exists a :: Enabled(c, s, a)
  }

  /** Does the interleave buffer take all the jobs its first generation holds back? */
  predicate Fits(c: Setup) {
    |Held(c.cap, c.jobs)| <= CONFIG_BUFFER_SIZE
  }

  lemma StuckMeansTooMany(c: Setup, s: State)
    requires Inv(c, s) && s.interleaving.Stuck?
    ensures !Fits(c)
  {
    TickedIsAPrefix(c, s);
    HeldGrows(c.cap, c.jobs, |s.ticked|);
  }

  /** An action for every state that is neither final nor waiting on a stuck interleaver. */
  function NextAction(c: Setup, s: State): Action {
    if s.housekeeping.Resolving? then (if s.taken < |c.resolved| then Resolve else EndResolve)
    else if s.housekeeping.Deleting? && s.delTags == {} then CloseDeletes
    else if s.interleaving.Sending? then SendCopy
    else if s.interleaving.Flushing? then (if s.interleaving.rest != [] then SendFlushed else CloseCopies)
    else if s.interleaving.Ticking? && s.q1 != [] then TickNext
    else if s.housekeeping.Subtracting? && s.q2 != [] then Subtract
    else match s.splitter
      case Fetching => if s.fetched < |c.jobs| then Fetch else EndFetch
      case Sending1(_) => Send1
      case Sending2(_) => Send2
      case Closing1 => Close1
      case Closing2 => Close2
      case Split => if s.interleaving.Ticking? then EndTicks else EndSubtract
  }

  lemma SomethingMoves(c: Setup, s: State)
    requires Inv(c, s) && !s.interleaving.Stuck? && !Final(s)
    ensures CanMove(c, s)
  {
    if s.housekeeping.Deleting? && s.delTags != {} {
      var tag :| tag in s.delTags;
      assert Enabled(c, s, Delete(tag));
    } else {
      assert Enabled(c, s, NextAction(c, s));
    }
  }

  /**
   * A schedule that cannot go on has finished everything exactly when the interleave buffer
   * takes all the jobs held back; otherwise the pipeline hangs.
   */
  lemma DeadlockExactlyWhenTooManyHeld(c: Setup, schedule: seq<Action>)
    requires Exec(c, schedule).Some? && !CanMove(c, Exec(c, schedule).value)
    ensures Final(Exec(c, schedule).value) <==> Fits(c)
  {
    Reachable(c, schedule);
    var s := Exec(c, schedule).value;
    if s.interleaving.Stuck? {
      StuckMeansTooMany(c, s);
    } else if !Final(s) {
      SomethingMoves(c, s);
    }
  }

  /** The buffer takes everything if all but the first job of every image fit in it. */
  lemma FewRepeatsFit(c: Setup)
    requires |c.jobs| - |ImagesOf(c.jobs)| <= CONFIG_BUFFER_SIZE
    ensures Fits(c)
  {
    Costs.HeldBound(c.cap, c.jobs);
  }

  /** With a larger interval than images, the buffer takes the jobs exactly when it takes all repeats. */
  lemma RoundRobinFitsExactlyWhen(c: Setup)
    requires |ImagesOf(c.jobs)| < c.cap && |ImagesOf(c.jobs)| + c.cap <= U64
    ensures Fits(c) <==> |c.jobs| - |ImagesOf(c.jobs)| <= CONFIG_BUFFER_SIZE
  {
    Costs.HeldExact(c.cap, c.jobs);
  }

  // ---- What a hang leaves behind -------------------------------------------------------------

  /** The splitter moves, has ended, or waits for room in a channel. */
  lemma SplitterMovesOrWaits(c: Setup, s: State)
    requires SplitterInv(c, s)
    ensures CanMove(c, s) || s.splitter.Split? || (s.splitter.Sending1? && |s.q1| >= CONFIG_BUFFER_SIZE)
         || (s.splitter.Sending2? && |s.q2| >= CONFIG_BUFFER_SIZE)
  {
    match s.splitter
    case Fetching => assert Enabled(c, s, if s.fetched < |c.jobs| then Fetch else EndFetch);
    case Sending1(_) => assert |s.q1| < CONFIG_BUFFER_SIZE ==> Enabled(c, s, Send1);
    case Sending2(_) => assert |s.q2| < CONFIG_BUFFER_SIZE ==> Enabled(c, s, Send2);
    case Closing1 => assert Enabled(c, s, Close1);
    case Closing2 => assert Enabled(c, s, Close2);
    case Split =>
  }

  /** Housekeeping moves, has ended, or waits for a job. */
  lemma HousekeepingMovesOrWaits(c: Setup, s: State)
    requires HousekeepingInv(c, s)
    ensures CanMove(c, s) || s.housekeeping.Cleaned? || (s.housekeeping.Subtracting? && s.q2 == [] && !s.closed2)
  {
    match s.housekeeping
    case Resolving => assert Enabled(c, s, if s.taken < |c.resolved| then Resolve else EndResolve);
    case Subtracting =>
      assert s.q2 != [] ==> Enabled(c, s, Subtract);
      assert s.q2 == [] && s.closed2 ==> Enabled(c, s, EndSubtract);
    case Deleting =>
      if tag :| tag in s.delTags {
        assert Enabled(c, s, Delete(tag));
      } else {
        assert Enabled(c, s, CloseDeletes);
      }
    case Cleaned =>
  }

  lemma StoppedCounts(c: Setup, s: State)
    requires QueuesInv(c, s)
    ensures s.splitter.Split? ==> |c.jobs| - |s.ticked| <= CONFIG_BUFFER_SIZE
    ensures s.splitter.Sending1? && |s.q1| >= CONFIG_BUFFER_SIZE ==> |c.jobs| - |s.ticked| > CONFIG_BUFFER_SIZE
  {
    assert |s.ticked + s.q1| == |s.ticked| + |s.q1|;
  }

  /**
   * When nothing can go on, finished or hanging, housekeeping has done all its deletions or none:
   * all exactly when at most a channel of jobs is left behind those the interleaver took, even
   * if these are never copied.
   */
  lemma DeletionsOfAStoppedPipeline(c: Setup, schedule: seq<Action>)
    requires Exec(c, schedule).Some? && !CanMove(c, Exec(c, schedule).value)
    ensures var s := Exec(c, schedule).value;
            && (s.housekeeping.Cleaned? <==> |c.jobs| - |s.ticked| <= CONFIG_BUFFER_SIZE)
            && (if s.housekeeping.Cleaned? then
                  Tags(s.deleted) == Tags(c.resolved) - Destinations(c.jobs) && NoDuplicates(s.deleted)
                else s.deleted == [])
  {
    Reachable(c, schedule);
    var s := Exec(c, schedule).value;
    SplitterMovesOrWaits(c, s);
    HousekeepingMovesOrWaits(c, s);
    StoppedCounts(c, s);
  }

  /** What a hang has copied, and the job it hangs at: the first that the full buffer has to refuse. */
  lemma CopiesOfAHang(c: Setup, schedule: seq<Action>)
    requires Exec(c, schedule).Some? && Exec(c, schedule).value.interleaving.Stuck?
    ensures var s := Exec(c, schedule).value; var n := |s.ticked| - 1;
            && 0 <= n < |c.jobs| && s.ticked == c.jobs[..n + 1]
            && s.copied == Generate(c.cap, s.ticked).out
            && |Held(c.cap, s.ticked)| == CONFIG_BUFFER_SIZE + 1
  {
    Reachable(c, schedule);
    TickedIsAPrefix(c, Exec(c, schedule).value);
  }

  // ---- In terms of the jobs ------------------------------------------------------------------

  /** In these terms: a schedule that cannot go on has finished exactly when the repeats fit. */
  lemma DeadlockExactlyWhenTooManyRepeats(c: Setup, schedule: seq<Action>)
    requires |ImagesOf(c.jobs)| < c.cap && |ImagesOf(c.jobs)| + c.cap <= U64
    requires Exec(c, schedule).Some? && !CanMove(c, Exec(c, schedule).value)
    ensures Final(Exec(c, schedule).value) <==> |c.jobs| - |ImagesOf(c.jobs)| <= CONFIG_BUFFER_SIZE
  {
    DeadlockExactlyWhenTooManyHeld(c, schedule);
    RoundRobinFitsExactlyWhen(c);
  }

  /** Does the buffer take every input with at most `repeats` jobs that are not the first of their image? */
  ghost predicate FitsAll(cap: uint64, repeats: nat) {
    forall c: Setup :: c.cap == cap && |c.jobs| - |ImagesOf(c.jobs)| <= repeats ==> Fits(c)
  }

  /** `n` jobs of one image. */
  ghost function Alike(n: nat): seq<CopyJob> {
    seq(n, _ => CopyJob(TagDetails("", "", "", None, 0), TagDetails("", "", "", None, 0), 0))
  }

  lemma AlikeAreOneImage(n: nat)
    requires 0 < n
    ensures Costs.OneImage(Alike(n)) && |ImagesOf(Alike(n))| == 1
  {
    assert ImageOf(Alike(n)[0]) in ImagesOf(Alike(n));
    assert ImagesOf(Alike(n)) == {ImageOf(Alike(n)[0])};
  }

  /** For every interval of at least 2 the number of repeats decides, and the bound is the channel's size. */
  lemma FitsAllExactlyWhen(cap: uint64, repeats: nat)
    requires 2 <= cap
    ensures FitsAll(cap, repeats) <==> repeats <= CONFIG_BUFFER_SIZE
  {
    if repeats <= CONFIG_BUFFER_SIZE {
      forall c: Setup | c.cap == cap && |c.jobs| - |ImagesOf(c.jobs)| <= repeats ensures Fits(c) {
        FewRepeatsFit(c);
      }
    } else {
      var c := Setup(Alike(CONFIG_BUFFER_SIZE + 2), [], cap);
      AlikeAreOneImage(CONFIG_BUFFER_SIZE + 2);
      OneImageFitsExactlyWhen(c);
      assert !Fits(c);
    }
  }

  /** Jobs of a single image fit exactly when they are at most one more than the buffer takes. */
  lemma OneImageFitsExactlyWhen(c: Setup)
    requires 2 <= c.cap && Costs.OneImage(c.jobs) && c.jobs != []
    ensures Fits(c) <==> |c.jobs| <= 1025
  {
    Costs.OneImageHoldsAllButFirst(c.cap, c.jobs);
  }

  function SplitterRank(s: State): nat {
    match s.splitter
    case Split => 0
    case Closing2 => 1
    case Closing1 => 2
    case Fetching => 3
    case Sending2(_) => 4
    case Sending1(_) => 5
  }

  function InterleavingRank(s: State): nat {
    match s.interleaving
    case Interleaved => 0
    case Stuck => 0
    case Flushing(rest) => |rest| + 1
    case Ticking => |s.buffer.buf| + 2
    case Sending(_) => |s.buffer.buf| + 3
  }

  function HousekeepingRank(s: State): nat {
    match s.housekeeping
    case Cleaned => 0
    case Deleting => 1
    case Subtracting => 2
    case Resolving => 3
  }

  function SplitterWork(c: Setup, s: State): int {
    4 * (|c.jobs| - s.fetched) + SplitterRank(s)
  }

  function InterleavingWork(c: Setup, s: State): int {
    3 * (|c.jobs| - |s.ticked|) + InterleavingRank(s)
  }

  function HousekeepingWork(c: Setup, s: State): int {
    2 * (|c.resolved| - s.taken) + |s.delTags| + (|c.jobs| - |s.subtracted|) + HousekeepingRank(s)
  }

  /** The steps still to come, at most. */
  function Measure(c: Setup, s: State): int {
    SplitterWork(c, s) + InterleavingWork(c, s) + HousekeepingWork(c, s)
  }

  lemma TickStepShrinks(c: Setup, s: State)
    requires Inv(c, s) && Enabled(c, s, TickNext)
    ensures InterleavingWork(c, TickStep(s)) < InterleavingWork(c, s)
  {
    ReachableBuffer(c.cap, s.ticked);
    if !Admits(s.buffer, s.q1[0]) {
      RefusedJobIsQueued(s.buffer, s.q1[0]);
    }
  }

  lemma FlushKeepsLength(cap: uint64, buf: seq<CopyJob>)
    ensures |FlushOut(cap, buf)| == |buf|
  {
    FlushConserves(cap, buf);
    assert |multiset(FlushOut(cap, buf))| == |FlushOut(cap, buf)|;
    assert |multiset(buf)| == |buf|;
  }

  lemma InterleavingWorkShrinks(c: Setup, s: State, a: Action)
    requires Inv(c, s) && Enabled(c, s, a) && OfInterleaver(a)
    ensures InterleavingWork(c, Step(c, s, a)) < InterleavingWork(c, s)
  {
    if a.TickNext? {
      TickStepShrinks(c, s);
    } else if a.EndTicks? {
      FlushKeepsLength(c.cap, s.buffer.buf);
    }
  }

  lemma InterleavingLeavesOtherWork(c: Setup, s: State, a: Action)
    requires Enabled(c, s, a) && OfInterleaver(a)
    ensures SplitterWork(c, Step(c, s, a)) == SplitterWork(c, s)
    ensures HousekeepingWork(c, Step(c, s, a)) == HousekeepingWork(c, s)
  {
    if a.TickNext? {
      var t := TickStep(s);
      assert t.splitter == s.splitter && t.fetched == s.fetched;
      assert t.housekeeping == s.housekeeping && t.taken == s.taken && t.subtracted == s.subtracted;
    }
  }

  lemma OthersShrink(c: Setup, s: State, a: Action)
    requires Enabled(c, s, a) && !OfInterleaver(a)
    ensures Measure(c, Step(c, s, a)) < Measure(c, s)
  {
    var t := Step(c, s, a);
    assert InterleavingWork(c, t) == InterleavingWork(c, s);
  }

  lemma MeasureIsNatural(c: Setup, s: State)
    requires Inv(c, s)
    ensures 0 <= Measure(c, s)
  {
    assert |s.ticked + s.q1| <= |c.jobs|;
    assert |s.subtracted + s.q2| <= |c.jobs|;
  }

  lemma {:induction false} StepsUseUpMeasure(c: Setup, schedule: seq<Action>)
    requires Exec(c, schedule).Some?
    ensures |schedule| + Measure(c, Exec(c, schedule).value) <= Measure(c, Init(c))
  {
    if schedule != [] {
      var before, a := schedule[..|schedule| - 1], schedule[|schedule| - 1];
      StepsUseUpMeasure(c, before);
      Reachable(c, before);
      if OfInterleaver(a) {
        InterleavingWorkShrinks(c, Exec(c, before).value, a);
        InterleavingLeavesOtherWork(c, Exec(c, before).value, a);
      } else {
        OthersShrink(c, Exec(c, before).value, a);
      }
    }
  }

  /** No schedule goes on for ever: its length is bounded by the numbers of jobs and tags. */
  lemma EveryScheduleEnds(c: Setup, schedule: seq<Action>)
    requires Exec(c, schedule).Some?
    ensures |schedule| <= 8 * |c.jobs| + 2 * |c.resolved| + 8
  {
    StepsUseUpMeasure(c, schedule);
    Reachable(c, schedule);
    MeasureIsNatural(c, Exec(c, schedule).value);
  }

  /** Every schedule goes on to a state in which nothing can: a final one, or a hang. */
  lemma {:induction false} EveryScheduleStops(c: Setup, schedule: seq<Action>) returns (longer: seq<Action>)
    requires Exec(c, schedule).Some?
    ensures schedule <= longer && Exec(c, longer).Some? && !CanMove(c, Exec(c, longer).value)
    decreases 8 * |c.jobs| + 2 * |c.resolved| + 8 - |schedule|
  {
    EveryScheduleEnds(c, schedule);
    var s := Exec(c, schedule).value;
    if CanMove(c, s) {
      var a :| Enabled(c, s, a);
      assert (schedule + [a])[..|schedule|] == schedule;
      assert Exec(c, schedule + [a]) == Some(Step(c, s, a));
      EveryScheduleEnds(c, schedule + [a]);
      longer := EveryScheduleStops(c, schedule + [a]);
    } else {
      longer := schedule;
    }
  }

  /** So every input whose first generation fits has a schedule that finishes, and no other has. */
  lemma SomeScheduleFinishesExactlyWhen(c: Setup)
    ensures (exists schedule :: Exec(c, schedule).Some? && Final(Exec(c, schedule).value)) <==> Fits(c)
  {
    if Fits(c) {
      var schedule := EveryScheduleStops(c, []);
      DeadlockExactlyWhenTooManyHeld(c, schedule);
    }
    if schedule :| Exec(c, schedule).Some? && Final(Exec(c, schedule).value) {
      Reachable(c, schedule);
    }
  }
}
