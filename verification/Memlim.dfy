/**
 * The admission scheduler of pkg/memlim/memlim.go. Every call is one atomic step; the memory in
 * use is an input of each management tick; a wait channel is known by its request's number.
 */
module Memlim {
  import opened Jobs

  datatype Request = Request(id: nat, size: uint64)

  /** What a management tick decides; `Panics` is the default arm of its switch. */
  datatype Verdict = Sheds | Frees | Admits(admitted: Option<Request>) | Panics

  /**
   * The package variables, intervals in milliseconds. `admitted` logs the requests whose wait
   * channel was closed, `shed` those whose cancel function was called.
   */
  datatype State = State(
    queue: seq<Request>, active: seq<Request>, memtrack: uint64, limit: uint64, hints: bool,
    interval: nat, defaultInterval: nat, admitted: seq<Request>, shed: seq<Request>)

  function Enqueue(s: State, r: Request): State {
    s.(queue := s.queue + [r])
  }

  function Freed(s: State, bytes: uint64): State {
    s.(memtrack := Wrap(s.memtrack - bytes), hints := true,
    defaultInterval := if s.hints then s.defaultInterval else 200)
  }

  function Used(s: State, alloc: uint64): uint64 {
    if s.hints && s.memtrack > alloc then s.memtrack else alloc
  }

  function Available(s: State, alloc: uint64): uint64 {
    Wrap(s.limit - Used(s, alloc))
  }

  /** The first queued request smaller than `avail`, from position `i` on, or |q|. */
  function FirstFitFrom(q: seq<Request>, avail: uint64, i: nat): (k: nat)
    requires i <= |q|
    ensures i <= k <= |q|
    decreases |q| - i
  {
    if i == |q| || q[i].size < avail then i else FirstFitFrom(q, avail, i + 1)
  }

  function FirstFit(q: seq<Request>, avail: uint64): (k: nat)
    ensures k <= |q|
  {
    FirstFitFrom(q, avail, 0)
  }

  /** The usage is below 80 percent of the limit. */
  predicate Low(s: State, alloc: uint64) {
    10 * alloc < 8 * s.limit
  }

  function Decide(s: State, alloc: uint64): Verdict {
    if s.limit == 0 && alloc == 0 then Panics
    else if 10 * alloc > 11 * s.limit then Sheds
    else if !Low(s, alloc) then Frees
    else
      var k := FirstFit(s.queue, Available(s, alloc));
      Admits(if k < |s.queue| then Some(s.queue[k]) else None)
  }

  function Manage(s: State, alloc: uint64): State {
    match Decide(s, alloc)
    case Panics => s
    case Sheds => s.(interval := 1000)
    case Frees => s.(interval := 2000)
    case Admits(None) => s.(interval := s.defaultInterval)
    case Admits(Some(r)) =>
      var k := FirstFit(s.queue, Available(s, alloc));
      s.(interval := s.defaultInterval, active := s.active + [r], queue := s.queue[..k] + s.queue[k + 1..],
      memtrack := Wrap(s.memtrack + r.size), admitted := s.admitted + [r])
  }

  function ShedLoad(s: State): State {
    if s.active == [] then s
    else s.(active := s.active[..|s.active| - 1], shed := s.shed + [s.active[|s.active| - 1]])
  }

  // ---- The code ------------------------------------------------------------------------------

  class MemoryManager {
    var running: bool
    var queue: seq<Request>
    var activeGoRoutines: seq<Request>
    var memtrack: uint64
    var memlimit: uint64
    var freedmemhints: bool
    var interval: nat
    var defaultInterval: nat
    ghost var admitted: seq<Request>
    ghost var shed: seq<Request>

    ghost function Model(): State
      reads this
    {
      State(queue, activeGoRoutines, memtrack, memlimit, freedmemhints, interval, defaultInterval, admitted, shed)
    }

    constructor (maxHeapSize: uint64)
      ensures Model() == State([], [], 0, maxHeapSize, false, 4000, 4000, [], []) && running
    {
      running := true;
      queue, activeGoRoutines, memtrack, memlimit := [], [], 0, maxHeapSize;
      freedmemhints, interval, defaultInterval := false, 4000, 4000;
      admitted, shed := [], [];
    }

    /** The part of WaitForFreeMemory before it waits; it panics when nothing manages the memory. */
    method WaitForFreeMemory(r: Request) returns (ok: bool)
      modifies this`queue
      ensures ok == running
      ensures Model() == if running then Enqueue(old(Model()), r) else old(Model())
    {
      if !running {
        return false;
      }
      queue := queue + [r];
      return true;
    }

    /** The goroutine of the timer sees that its context was cancelled. */
    method Stop()
      modifies this`running
      ensures !running && Model() == old(Model())
    {
      running := false;
    }

    method FreedMemHint(bytes: uint64)
      modifies this`memtrack, this`freedmemhints, this`defaultInterval
      ensures Model() == Freed(old(Model()), bytes)
    {
      memtrack := Wrap(memtrack - bytes);
      if !freedmemhints {
        freedmemhints := true;
        defaultInterval := 200;
      }
    }

    method RunMemoryManagement(alloc: uint64) returns (v: Verdict)
      modifies this
      ensures running == old(running)
      ensures v == Decide(old(Model()), alloc)
      ensures Model() == Manage(old(Model()), alloc)
    {
      var used := alloc;
      if freedmemhints && memtrack > alloc {
        used := memtrack;
      }
      var avail := Wrap(memlimit - used);
      if memlimit == 0 && alloc == 0 {
        return Panics;
      }
      if 10 * alloc > 11 * memlimit {
        interval := 1000;
        return Sheds;
      }
      if 10 * alloc >= 8 * memlimit {
        interval := 2000;
        return Frees;
      }
      interval := defaultInterval;
      v := AdmitFirstFit(avail);
    }

    /** The loop over the queue (lines 187-195). */
    method AdmitFirstFit(avail: uint64) returns (v: Verdict)
      modifies this`queue, this`activeGoRoutines, this`memtrack, this`admitted
      ensures var k := FirstFit(old(queue), avail);
              if k < |old(queue)| then
                var r := old(queue)[k];
                && v == Admits(Some(r)) && queue == old(queue)[..k] + old(queue)[k + 1..]
                && activeGoRoutines == old(activeGoRoutines) + [r] && admitted == old(admitted) + [r]
                && memtrack == Wrap(old(memtrack) + r.size)
              else
                v == Admits(None) && unchanged(this)
    {
      var i := 0;
      while i < |queue|
        invariant 0 <= i <= |queue| && unchanged(this)
        invariant FirstFit(queue, avail) == FirstFitFrom(queue, avail, i)
      {
        var r := queue[i];
        if r.size < avail {
          activeGoRoutines := activeGoRoutines + [r];
          queue := queue[..i] + queue[i + 1..];
          memtrack := Wrap(memtrack + r.size);
          admitted := admitted + [r];
          return Admits(Some(r));
        }
        i := i + 1;
      }
      return Admits(None);
    }

    method ShedOne()
      modifies this`activeGoRoutines, this`shed
      ensures Model() == ShedLoad(old(Model()))
    {
      if |activeGoRoutines| > 0 {
        shed := shed + [activeGoRoutines[|activeGoRoutines| - 1]];
        activeGoRoutines := activeGoRoutines[..|activeGoRoutines| - 1];
      }
    }
  }

  // ---- One tick ------------------------------------------------------------------------------

  lemma {:induction false} FirstFitIsFirst(q: seq<Request>, avail: uint64, i: nat)
    requires i <= |q|
    ensures var k := FirstFitFrom(q, avail, i);
            (k < |q| ==> q[k].size < avail) && (forall j :: i <= j < k ==> q[j].size >= avail)
    decreases |q| - i
  {
    if i < |q| && q[i].size >= avail {
      FirstFitIsFirst(q, avail, i + 1);
    }
  }

  /** The request at `k` is the first that fits, and it alone leaves the queue. */
  ghost predicate AdmitsAt(s: State, t: State, avail: uint64, k: nat) {
    && k < |s.queue| && s.queue[k].size < avail
    && (forall j :: 0 <= j < k ==> s.queue[j].size >= avail)
    && t.queue == s.queue[..k] + s.queue[k + 1..] && t.admitted == s.admitted + [s.queue[k]]
  }

  /**
   * A tick takes at most one request out of the queue: the first that is smaller than the memory
   * available, leaving the others in order; and it takes one whenever the usage is low and
   * some request fits.
   */
  lemma TickAdmitsFirstFit(s: State, alloc: uint64)
    ensures var t, avail := Manage(s, alloc), Available(s, alloc);
            if Low(s, alloc) && (exists i :: 0 <= i < |s.queue| && s.queue[i].size < avail) then
              exists k :: AdmitsAt(s, t, avail, k)
            else
              t.queue == s.queue && t.admitted == s.admitted && t.memtrack == s.memtrack
  {
    var t, avail := Manage(s, alloc), Available(s, alloc);
    var k := FirstFit(s.queue, avail);
    FirstFitIsFirst(s.queue, avail, 0);
    if Low(s, alloc) && k < |s.queue| {
      assert Decide(s, alloc) == Admits(Some(s.queue[k]));
      assert AdmitsAt(s, t, avail, k);
    }
  }

  /** The request leaves room below the limit, above the memory in use and, with hints, above what is tracked. */
  predicate HasRoom(s: State, alloc: uint64, r: Request) {
    alloc + r.size < s.limit && (s.hints ==> s.memtrack + r.size < s.limit)
  }

  lemma RoomIsAvailable(s: State, alloc: uint64, r: Request)
    requires (s.hints ==> s.memtrack <= s.limit) && 10 * alloc < 8 * s.limit
    ensures r.size < Available(s, alloc) <==> HasRoom(s, alloc, r)
  {
    WrapSmall(s.limit - Used(s, alloc));
  }

  /** The request at `k` is the first with room, and goes from the queue to the active ones. */
  ghost predicate GoesIn(s: State, t: State, alloc: uint64, k: nat) {
    && k < |s.queue| && HasRoom(s, alloc, s.queue[k])
    && (forall j :: 0 <= j < k ==> !HasRoom(s, alloc, s.queue[j]))
    && t.queue == s.queue[..k] + s.queue[k + 1..]
    && t.active == s.active + [s.queue[k]] && t.admitted == s.admitted + [s.queue[k]]
  }

  /**
   * A tick on the variables themselves: below 80 percent it admits the first request with room,
   * whenever there is one, and otherwise it leaves queue, active requests and tracked memory alone.
   */
  lemma TickAdmitsExactlyWhen(s: State, alloc: uint64)
    requires s.hints ==> s.memtrack <= s.limit
    ensures var t := Manage(s, alloc);
            if 10 * alloc < 8 * s.limit && (exists i :: 0 <= i < |s.queue| && HasRoom(s, alloc, s.queue[i])) then
              exists k: nat :: GoesIn(s, t, alloc, k) && t.memtrack == Wrap(s.memtrack + s.queue[k].size)
            else
              t.queue == s.queue && t.active == s.active && t.admitted == s.admitted && t.memtrack == s.memtrack
  {
    var t, avail := Manage(s, alloc), Available(s, alloc);
    var k := FirstFit(s.queue, avail);
    FirstFitIsFirst(s.queue, avail, 0);
    if 10 * alloc < 8 * s.limit {
      forall i | 0 <= i < |s.queue| ensures s.queue[i].size < avail <==> HasRoom(s, alloc, s.queue[i]) {
        RoomIsAvailable(s, alloc, s.queue[i]);
      }
      if k < |s.queue| {
        assert GoesIn(s, t, alloc, k);
      }
    }
  }

  /** Shedding undoes the last admission: the request admitted by a tick is the next to be cancelled. */
  lemma LastAdmittedIsShedFirst(s: State, alloc: uint64, r: Request)
    requires Decide(s, alloc) == Admits(Some(r))
    ensures var t := ShedLoad(Manage(s, alloc));
            t.active == s.active && t.shed == s.shed + [r] && t.queue == Manage(s, alloc).queue
  {
    assert (s.active + [r])[..|s.active|] == s.active;
  }

  /** The first hint of one byte that nothing was admitted for leaves the largest 64-bit number. */
  lemma FirstStrayHintWraps(s: State)
    requires s.memtrack == 0
    ensures Freed(s, 1).memtrack == 18446744073709551615
  {
    WrapMultiple(-1, 1);
  }

  /** When usage is low, the memory available exceeds the limit exactly when the tracked memory does. */
  lemma AvailableWrapsExactlyWhen(s: State, alloc: uint64)
    requires Low(s, alloc)
    ensures Available(s, alloc) > s.limit <==> s.hints && s.memtrack > s.limit
  {
    var used := Used(s, alloc);
    if used <= s.limit {
      assert Available(s, alloc) == s.limit - used;
    } else {
      WrapMultiple(s.limit - used, 1);
      assert Available(s, alloc) == s.limit - used + U64;
    }
  }

  /** A hint keeps the tracked memory within the limit exactly when it is small, or wraps far enough. */
  lemma HintKeepsLimitExactlyWhen(s: State, bytes: uint64)
    requires s.memtrack <= s.limit
    ensures Freed(s, bytes).memtrack <= s.limit <==> bytes <= s.memtrack || s.memtrack + U64 - s.limit <= bytes
  {
    if s.memtrack < bytes {
      WrapMultiple(s.memtrack - bytes, 1);
      WrapSmall(s.memtrack - bytes + U64);
    }
  }

  /** A hint for more than is tracked makes that much more than the limit available, at any low reading. */
  lemma HintWithoutAdmissionLiftsLimit(s: State, bytes: uint64, alloc: uint64)
    requires s.memtrack < bytes && s.limit + bytes - s.memtrack < U64 && Low(s, alloc)
    ensures Available(Freed(s, bytes), alloc) == s.limit + bytes - s.memtrack
  {
    WrapMultiple(s.memtrack - bytes, 1);
    WrapSmall(s.memtrack - bytes + U64);
    WrapMultiple(s.limit - (s.memtrack - bytes + U64), 1);
    WrapSmall(s.limit + bytes - s.memtrack);
  }
}
