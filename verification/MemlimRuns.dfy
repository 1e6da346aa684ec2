/**
 * Whole runs of the admission scheduler: requests arrive, ticks admit them, admitted requests
 * give their memory back with one hint each, and shedding cancels some.
 */
module MemlimRuns {
  import opened Jobs
  import opened Memlim

  /** `Retire` ends an admitted request, with its hint if callers give hints; `Hint` is any other hint. */
  datatype Event = Arrive(r: Request) | Retire(k: nat) | Hint(bytes: uint64) | Tick(alloc: uint64) | Shed

  /**
   * `outstanding` are the admitted requests not yet retired, `pending` the shedLoad calls to
   * come, `stray` the sum of the hints that belong to no admitted request.
   */
  datatype Run = Run(s: State, outstanding: seq<Request>, pending: nat, arrived: seq<Request>, stray: nat)

  /** A limit is set; Run of pkg/cim/run.go then switches hints on with a hint of 0. */
  function Start(limit: uint64, hints: bool): Run {
    var s := State([], [], 0, limit, false, 4000, 4000, [], []);
    Run(if hints then Freed(s, 0) else s, [], 0, [], 0)
  }

  function Ids(q: seq<Request>): set<nat> {
    set i | 0 <= i < |q| :: q[i].id
  }

  ghost predicate DistinctIds(q: seq<Request>) {
    forall i, j :: 0 <= i < j < |q| ==> q[i].id != q[j].id
  }

  function Without(q: seq<Request>, k: nat): seq<Request>
    requires k < |q|
  {
    q[..k] + q[k + 1..]
  }

  /** Every request has a wait channel of its own; hints come only where callers give them. */
  predicate Allowed(run: Run, e: Event) {
    match e
    case Arrive(r) => r.id !in Ids(run.arrived)
    case Retire(k) => k < |run.outstanding|
    case Hint(_) => run.s.hints
    case Tick(_) => true
    case Shed => run.pending > 0
  }

  function Next(run: Run, e: Event): Run
    requires Allowed(run, e)
  {
    match e
    case Arrive(r) => run.(s := Enqueue(run.s, r), arrived := run.arrived + [r])
    case Retire(k) =>
      run.(s := if run.s.hints then Freed(run.s, run.outstanding[k].size) else run.s,
      outstanding := Without(run.outstanding, k))
    case Hint(bytes) => run.(s := Freed(run.s, bytes), stray := run.stray + bytes)
    case Tick(alloc) =>
      var v := Decide(run.s, alloc);
      run.(s := Manage(run.s, alloc),
      pending := if v.Sheds? then run.pending + 1 else run.pending,
      outstanding := if v.Admits? && v.admitted.Some? then run.outstanding + [v.admitted.value] else run.outstanding)
    case Shed => run.(s := ShedLoad(run.s), pending := run.pending - 1)
  }

  function Exec(limit: uint64, hints: bool, events: seq<Event>): Option<Run> {
    if events == [] then Some(Start(limit, hints))
    else
      var before, e := Exec(limit, hints, events[..|events| - 1]), events[|events| - 1];
      if before.Some? && Allowed(before.value, e) then Some(Next(before.value, e)) else None
  }

  // ---- Memory --------------------------------------------------------------------------------

  function Total(q: seq<Request>): nat {
    if q == [] then 0 else Total(q[..|q| - 1]) + q[|q| - 1].size
  }

  lemma TotalAppend(q: seq<Request>, r: Request)
    ensures Total(q + [r]) == Total(q) + r.size
  {
    assert (q + [r])[..|q|] == q;
  }

  lemma {:induction false} TotalWithout(q: seq<Request>, k: nat)
    requires k < |q|
    ensures Total(Without(q, k)) == Total(q) - q[k].size
  {
    var n := |q| - 1;
    if k == n {
      assert Without(q, k) == q[..n];
    } else {
      TotalWithout(q[..n], k);
      assert Without(q, k) == Without(q[..n], k) + [q[n]];
      TotalAppend(Without(q[..n], k), q[n]);
    }
  }

  /** What is tracked and what bounds it: stray hints take memory off the books. */
  ghost predicate MemoryInv(limit: uint64, run: Run) {
    && run.s.limit == limit
    && (run.s.hints ==> run.s.memtrack == Wrap(Total(run.outstanding) - run.stray) && Bounded(limit, run))
    && (!run.s.hints ==> run.stray == 0)
  }

  ghost predicate Bounded(limit: uint64, run: Run) {
    limit + run.stray <= U64 ==> Total(run.outstanding) == 0 || Total(run.outstanding) < limit + run.stray
  }

  /** An admission meets the limit up to the stray hints, whether the difference has wrapped or not. */
  lemma AdmittedFits(s: State, alloc: uint64, total: nat, stray: nat)
    requires s.hints && s.memtrack == Wrap(total - stray) && s.limit + stray <= U64
    requires total == 0 || total < s.limit + stray
    requires Decide(s, alloc).Admits? && Decide(s, alloc).admitted.Some?
    ensures total + Decide(s, alloc).admitted.value.size < s.limit + stray
  {
    FirstFitIsFirst(s.queue, Available(s, alloc), 0);
    if stray <= total {
      WrapSmall(total - stray);
      WrapSmall(s.limit - Used(s, alloc));
    } else {
      WrapMultiple(total - stray, 1);
      WrapSmall(total - stray + U64);
      WrapMultiple(s.limit - (total - stray + U64), 1);
    }
  }

  lemma TickKeepsMemory(limit: uint64, run: Run, alloc: uint64)
    requires MemoryInv(limit, run)
    ensures MemoryInv(limit, Next(run, Tick(alloc)))
  {
    var v := Decide(run.s, alloc);
    if v.Admits? && v.admitted.Some? {
      AdmissionKeepsMemory(limit, run, alloc);
    }
  }

  lemma AdmissionKeepsMemory(limit: uint64, run: Run, alloc: uint64)
    requires MemoryInv(limit, run)
    requires Decide(run.s, alloc).Admits? && Decide(run.s, alloc).admitted.Some?
    ensures MemoryInv(limit, Next(run, Tick(alloc)))
  {
    var r := Decide(run.s, alloc).admitted.value;
    TotalAppend(run.outstanding, r);
    WrapWrapped(Total(run.outstanding) - run.stray, r.size);
    if run.s.hints && limit + run.stray <= U64 {
      AdmittedFits(run.s, alloc, Total(run.outstanding), run.stray);
    }
  }

  lemma RetireKeepsMemory(limit: uint64, run: Run, k: nat)
    requires MemoryInv(limit, run) && k < |run.outstanding|
    ensures MemoryInv(limit, Next(run, Retire(k)))
  {
    TotalWithout(run.outstanding, k);
    WrapWrapped(Total(run.outstanding) - run.stray, 0 - run.outstanding[k].size);
  }

  lemma MemoryStep(limit: uint64, run: Run, e: Event)
    requires MemoryInv(limit, run) && Allowed(run, e)
    ensures MemoryInv(limit, Next(run, e))
  {
    match e
    case Retire(k) => RetireKeepsMemory(limit, run, k);
    case Hint(bytes) => WrapWrapped(Total(run.outstanding) - run.stray, 0 - bytes);
    case Tick(alloc) => TickKeepsMemory(limit, run, alloc);
    case _ =>
  }

  lemma {:induction false} MemoryReachable(limit: uint64, hints: bool, events: seq<Event>)
    requires Exec(limit, hints, events).Some?
    ensures MemoryInv(limit, Exec(limit, hints, events).value) && Exec(limit, hints, events).value.s.hints == hints
  {
    if events != [] {
      MemoryReachable(limit, hints, events[..|events| - 1]);
      MemoryStep(limit, Exec(limit, hints, events[..|events| - 1]).value, events[|events| - 1]);
    }
  }

  /**
   * With hints, in every run: the tracked memory is the sum of the outstanding requests less the
   * stray hints, modulo 2^64, and the sum stays below the limit and the stray hints together.
   * Without stray hints it is at most the limit, and a tick that admits neither wraps the
   * available memory nor lets the sum reach the limit.
   */
  lemma AdmissionIsSafe(limit: uint64, events: seq<Event>, alloc: uint64)
    requires Exec(limit, true, events).Some?
    ensures var run := Exec(limit, true, events).value; var v := Decide(run.s, alloc);
            && run.s.memtrack == Wrap(Total(run.outstanding) - run.stray)
            && (limit + run.stray <= U64 ==> Total(run.outstanding) == 0 || Total(run.outstanding) < limit + run.stray)
            && (run.stray == 0 ==>
                && run.s.memtrack == Total(run.outstanding) <= limit
                && (Low(run.s, alloc) ==> Available(run.s, alloc) == limit - Used(run.s, alloc))
                && (v.Admits? && v.admitted.Some? ==> Total(run.outstanding) + v.admitted.value.size < limit))
  {
    MemoryReachable(limit, true, events);
    var run := Exec(limit, true, events).value;
    if run.stray == 0 {
      TickIsSafe(run.s, alloc, Total(run.outstanding));
    }
  }

  lemma TickIsSafe(s: State, alloc: uint64, total: nat)
    requires s.hints && s.memtrack == Wrap(total) && (total == 0 || total < s.limit)
    ensures var v := Decide(s, alloc);
            && s.memtrack == total <= s.limit
            && (Low(s, alloc) ==> Available(s, alloc) == s.limit - Used(s, alloc))
            && (v.Admits? && v.admitted.Some? ==> total + v.admitted.value.size < s.limit)
  {
    WrapSmall(total);
    if Low(s, alloc) {
      WrapSmall(s.limit - Used(s, alloc));
      FirstFitIsFirst(s.queue, Available(s, alloc), 0);
    }
  }

  // ---- When the limit is a bound -------------------------------------------------------------

  /** `n` requests of one size. */
  ghost function Same(size: uint64, n: nat): (q: seq<Request>)
    ensures |q| == n
  {
    seq(n, i requires 0 <= i => Request(i, size))
  }

  ghost function Arrivals(size: uint64, n: nat): seq<Event> {
    seq(n, i requires 0 <= i => Arrive(Request(i, size)))
  }

  ghost function Readings(allocs: seq<uint64>): seq<Event> {
    seq(|allocs|, i requires 0 <= i < |allocs| => Tick(allocs[i]))
  }

  lemma ExecAppend(limit: uint64, hints: bool, events: seq<Event>, e: Event)
    requires Exec(limit, hints, events).Some? && Allowed(Exec(limit, hints, events).value, e)
    ensures Exec(limit, hints, events + [e]) == Some(Next(Exec(limit, hints, events).value, e))
  {
    assert (events + [e])[..|events|] == events;
  }

  lemma {:induction false} TotalOfSame(size: uint64, n: nat)
    ensures Total(Same(size, n)) == n * size
  {
    if n > 0 {
      TotalOfSame(size, n - 1);
      assert Same(size, n)[..n - 1] == Same(size, n - 1);
      assert n * size == (n - 1) * size + size;
    }
  }

  lemma {:induction false} AllArrive(limit: uint64, hints: bool, size: uint64, n: nat)
    ensures var start, q := Start(limit, hints), Same(size, n);
            Exec(limit, hints, Arrivals(size, n)) == Some(start.(s := start.s.(queue := q), arrived := q))
  {
    if n > 0 {
      AllArrive(limit, hints, size, n - 1);
      assert Arrivals(size, n) == Arrivals(size, n - 1) + [Arrive(Request(n - 1, size))];
      assert Same(size, n) == Same(size, n - 1) + [Request(n - 1, size)];
      ExecAppend(limit, hints, Arrivals(size, n - 1), Arrive(Request(n - 1, size)));
    }
  }

  /** A request of `size` at the head of the queue goes in at this reading. */
  ghost predicate Fits(limit: uint64, size: uint64, alloc: uint64) {
    10 * alloc < 8 * limit && alloc + size < limit
  }

  lemma FittingHeadGoesIn(run: Run, alloc: uint64)
    requires run.s.queue != [] && Low(run.s, alloc) && run.s.queue[0].size < Available(run.s, alloc)
    ensures var t, head := Next(run, Tick(alloc)), run.s.queue[0];
            && t.s.queue == run.s.queue[1..] && t.outstanding == run.outstanding + [head]
            && t.s.memtrack == Wrap(run.s.memtrack + head.size)
            && t.s.hints == run.s.hints && t.s.limit == run.s.limit && t.stray == run.stray && t.arrived == run.arrived
  {
    assert FirstFit(run.s.queue, Available(run.s, alloc)) == 0;
    assert run.s.queue[..0] + run.s.queue[1..] == run.s.queue[1..];
  }

  lemma HeadFits(run: Run, alloc: uint64)
    requires run.s.queue != [] && Fits(run.s.limit, run.s.queue[0].size, alloc)
    requires run.s.hints ==> run.s.memtrack + run.s.queue[0].size < run.s.limit
    ensures Low(run.s, alloc) && run.s.queue[0].size < Available(run.s, alloc)
  {
    WrapSmall(run.s.limit - Used(run.s, alloc));
  }

  /** `k` of the `n` requests have been admitted. */
  ghost predicate Admitted(limit: uint64, hints: bool, size: uint64, n: nat, k: nat, run: Run)
    requires k <= n
  {
    && run.s.queue == Same(size, n)[k..] && run.outstanding == Same(size, n)[..k] && run.arrived == Same(size, n)
    && run.s.hints == hints && run.s.limit == limit && run.stray == 0
  }

  lemma TakeNext<T>(q: seq<T>, k: nat)
    requires k < |q|
    ensures q[k..] != [] && q[k..][0] == q[k] && q[k..][1..] == q[k + 1..] && q[..k] + [q[k]] == q[..k + 1]
  {
  }

  lemma OneMoreAdmitted(limit: uint64, hints: bool, size: uint64, n: nat, k: nat, run: Run, alloc: uint64)
    requires k < n && Admitted(limit, hints, size, n, k, run) && Fits(limit, size, alloc)
    requires hints ==> run.s.memtrack + size < limit
    ensures Admitted(limit, hints, size, n, k + 1, Next(run, Tick(alloc)))
  {
    TakeNext(Same(size, n), k);
    HeadFits(run, alloc);
    FittingHeadGoesIn(run, alloc);
  }

  lemma SameIsTracked(limit: uint64, size: uint64, n: nat, k: nat, run: Run)
    requires k <= n && Admitted(limit, true, size, n, k, run) && MemoryInv(limit, run)
    requires k * size < limit
    ensures run.s.memtrack == k * size
  {
    assert Same(size, n)[..k] == Same(size, k);
    TotalOfSame(size, k);
    WrapSmall(k * size);
  }

  /**
   * Every tick with such a reading admits one of the requests, without hints for ever, with
   * hints until the limit is near.
   */
  lemma {:induction false} EveryTickAdmits(limit: uint64, hints: bool, size: uint64, n: nat, allocs: seq<uint64>)
    requires |allocs| <= n && forall i :: 0 <= i < |allocs| ==> Fits(limit, size, allocs[i])
    requires hints ==> |allocs| * size < limit
    ensures var r := Exec(limit, hints, Arrivals(size, n) + Readings(allocs));
            r.Some? && Admitted(limit, hints, size, n, |allocs|, r.value)
  {
    if allocs == [] {
      AllArrive(limit, hints, size, n);
      assert Arrivals(size, n) + Readings(allocs) == Arrivals(size, n);
    } else {
      var k := |allocs| - 1;
      OneMoreTimes(k, size);
      EveryTickAdmits(limit, hints, size, n, allocs[..k]);
      var events := Arrivals(size, n) + Readings(allocs[..k]);
      assert Arrivals(size, n) + Readings(allocs) == events + [Tick(allocs[k])];
      ExecAppend(limit, hints, events, Tick(allocs[k]));
      if hints {
        MemoryReachable(limit, hints, events);
        SameIsTracked(limit, size, n, k, Exec(limit, hints, events).value);
      }
      OneMoreAdmitted(limit, hints, size, n, k, Exec(limit, hints, events).value, allocs[k]);
    }
  }

  lemma OneMoreTimes(k: nat, size: nat)
    ensures (k + 1) * size == k * size + size
  {
  }

  /** Without hints the sum of the outstanding requests grows by one request a tick, limit or not. */
  lemma WithoutHintsTheLimitIsExceeded(limit: uint64, size: uint64, allocs: seq<uint64>)
    requires forall i :: 0 <= i < |allocs| ==> Fits(limit, size, allocs[i])
    ensures var r := Exec(limit, false, Arrivals(size, |allocs|) + Readings(allocs));
            r.Some? && Total(r.value.outstanding) == |allocs| * size
  {
    EveryTickAdmits(limit, false, size, |allocs|, allocs);
    TotalOfSame(size, |allocs|);
    assert Same(size, |allocs|)[..|allocs|] == Same(size, |allocs|);
  }

  /** Does every memory reading of the run report at least `floor`? */
  ghost predicate ReadsAtLeast(events: seq<Event>, floor: uint64) {
    forall i :: 0 <= i < |events| && events[i].Tick? ==> floor <= events[i].alloc
  }

  /** In every run with so many stray bytes and such readings the outstanding requests meet the limit. */
  ghost predicate LimitHolds(limit: uint64, hints: bool, strays: nat, floor: uint64) {
    forall events: seq<Event> | Exec(limit, hints, events).Some? && ReadsAtLeast(events, floor) ::
      Exec(limit, hints, events).value.stray <= strays ==> Total(Exec(limit, hints, events).value.outstanding) <= limit
  }

  /** Nothing but an empty request can be admitted. */
  predicate Hopeless(limit: uint64, hints: bool, floor: uint64) {
    10 * floor >= 8 * limit || (!hints && limit <= floor + 1)
  }

  lemma HopelessTick(s: State, floor: uint64, alloc: uint64)
    requires Hopeless(s.limit, s.hints, floor) && floor <= alloc
    requires Decide(s, alloc).Admits? && Decide(s, alloc).admitted.Some?
    ensures Decide(s, alloc).admitted.value.size == 0
  {
    FirstFitIsFirst(s.queue, Available(s, alloc), 0);
    WrapSmall(s.limit - alloc);
  }

  lemma HopelessStep(run: Run, e: Event, floor: uint64)
    requires Hopeless(run.s.limit, run.s.hints, floor) && Total(run.outstanding) == 0 && Allowed(run, e)
    requires e.Tick? ==> floor <= e.alloc
    ensures Total(Next(run, e).outstanding) == 0
  {
    if e.Retire? {
      TotalWithout(run.outstanding, e.k);
    } else if e.Tick? {
      var v := Decide(run.s, e.alloc);
      if v.Admits? && v.admitted.Some? {
        HopelessTick(run.s, floor, e.alloc);
        TotalAppend(run.outstanding, v.admitted.value);
      }
    }
  }

  lemma {:induction false} HopelessRun(limit: uint64, hints: bool, floor: uint64, events: seq<Event>)
    requires Hopeless(limit, hints, floor) && ReadsAtLeast(events, floor) && Exec(limit, hints, events).Some?
    ensures Total(Exec(limit, hints, events).value.outstanding) == 0
  {
    if events != [] {
      var before, e := events[..|events| - 1], events[|events| - 1];
      assert ReadsAtLeast(before, floor);
      HopelessRun(limit, hints, floor, before);
      MemoryReachable(limit, hints, before);
      HopelessStep(Exec(limit, hints, before).value, e, floor);
    }
  }

  /** A run that breaks the limit refutes it. */
  lemma Refutes(limit: uint64, hints: bool, strays: nat, floor: uint64, events: seq<Event>)
    requires ReadsAtLeast(events, floor) && Exec(limit, hints, events).Some?
    requires Exec(limit, hints, events).value.stray <= strays
    requires limit < Total(Exec(limit, hints, events).value.outstanding)
    ensures !LimitHolds(limit, hints, strays, floor)
  {
  }

  lemma ReadsMore(events: seq<Event>, e: Event, floor: uint64)
    requires ReadsAtLeast(events, floor) && (e.Tick? ==> floor <= e.alloc)
    ensures ReadsAtLeast(events + [e], floor)
  {
  }

  lemma SteadyReadings(size: uint64, n: nat, floor: uint64, k: nat)
    ensures ReadsAtLeast(Arrivals(size, n) + Readings(seq(k, _ => floor)), floor)
  {
  }

  lemma ExceededWithoutHints(limit: uint64, strays: nat, floor: uint64)
    requires Fits(limit, 1, floor)
    ensures !LimitHolds(limit, false, strays, floor)
  {
    var allocs := seq(limit + 1, _ => floor);
    WithoutHintsTheLimitIsExceeded(limit, 1, allocs);
    SteadyReadings(1, limit + 1, floor, limit + 1);
    var events := Arrivals(1, |allocs|) + Readings(allocs);
    MemoryReachable(limit, false, events);
    Refutes(limit, false, strays, floor, events);
  }

  /** A stray hint of 2 on a new limiter makes room for one byte more than the limit. */
  lemma ExceededFromTheStart(limit: uint64, strays: nat, floor: uint64)
    requires 2 <= strays && limit + 2 < U64 && 10 * floor < 8 * limit
    ensures !LimitHolds(limit, true, strays, floor)
  {
    var start, r := Start(limit, true), Request(0, limit + 1);
    var e0, e1, e2 := Hint(2), Arrive(r), Tick(floor);
    var r1 := Next(start, e0);
    HintWithoutAdmissionLiftsLimit(start.s, 2, floor);
    var r2 := Next(r1, e1);
    assert r2.s.queue == [r] && Available(r2.s, floor) == limit + 2;
    FittingHeadGoesIn(r2, floor);
    TotalAppend([], r);
    ExecThree(limit, e0, e1, e2);
    Refutes(limit, true, strays, floor, [e0, e1, e2]);
  }

  lemma ExecThree(limit: uint64, e0: Event, e1: Event, e2: Event)
    requires Allowed(Start(limit, true), e0)
    requires Allowed(Next(Start(limit, true), e0), e1)
    requires Allowed(Next(Next(Start(limit, true), e0), e1), e2)
    ensures Exec(limit, true, [e0, e1, e2]) == Some(Next(Next(Next(Start(limit, true), e0), e1), e2))
  {
    ExecAppend(limit, true, [], e0);
    assert [] + [e0] == [e0];
    ExecAppend(limit, true, [e0], e1);
    assert [e0] + [e1] == [e0, e1];
    ExecAppend(limit, true, [e0, e1], e2);
    assert [e0, e1] + [e2] == [e0, e1, e2];
  }

  /** A stray hint of 2 on a limiter that is full lets two more bytes in. */
  lemma TwoMoreGoIn(limit: uint64, run: Run, floor: uint64, n: nat)
    requires Fits(limit, 1, floor) && 3 <= limit && n == limit + 1
    requires Admitted(limit, true, 1, n, limit - 1, run) && run.s.memtrack == limit - 1
    ensures var t := Next(Next(Next(run, Hint(2)), Tick(floor)), Tick(floor));
            t.stray == 2 && t.outstanding == Same(1, n)
  {
    var q := Same(1, n);
    var r1 := Next(run, Hint(2));
    WrapSmall(limit - 3);
    assert r1.s.queue == [q[limit - 1], q[limit]];
    HeadFits(r1, floor);
    FittingHeadGoesIn(r1, floor);
    var r2 := Next(r1, Tick(floor));
    WrapSmall(limit - 2);
    assert r2.s.queue == [q[limit]];
    HeadFits(r2, floor);
    FittingHeadGoesIn(r2, floor);
    assert q[..limit - 1] + [q[limit - 1]] + [q[limit]] == q;
  }

  lemma ExceededWhenFull(limit: uint64, strays: nat, floor: uint64)
    requires 2 <= strays && Fits(limit, 1, floor) && 3 <= limit
    ensures !LimitHolds(limit, true, strays, floor)
  {
    var n := limit + 1;
    var full := Arrivals(1, n) + Readings(seq(limit - 1, _ => floor));
    EveryTickAdmits(limit, true, 1, n, seq(limit - 1, _ => floor));
    SteadyReadings(1, n, floor, limit - 1);
    MemoryReachable(limit, true, full);
    SameIsTracked(limit, 1, n, limit - 1, Exec(limit, true, full).value);
    TwoMoreGoIn(limit, Exec(limit, true, full).value, floor, n);
    ExecAppend(limit, true, full, Hint(2));
    ReadsMore(full, Hint(2), floor);
    ExecAppend(limit, true, full + [Hint(2)], Tick(floor));
    ReadsMore(full + [Hint(2)], Tick(floor), floor);
    ExecAppend(limit, true, full + [Hint(2)] + [Tick(floor)], Tick(floor));
    ReadsMore(full + [Hint(2)] + [Tick(floor)], Tick(floor), floor);
    TotalOfSame(1, n);
    Refutes(limit, true, strays, floor, full + [Hint(2)] + [Tick(floor)] + [Tick(floor)]);
  }

  /**
   * Outstanding requests never exceed the limit in any run whose readings report at least
   * `floor`, with at most so many stray bytes, if and only if nothing is ever admitted at such
   * readings, or hints are on and at most one byte is stray.
   */
  lemma LimitHoldsExactlyWhen(limit: uint64, hints: bool, strays: nat, floor: uint64)
    ensures LimitHolds(limit, hints, strays, floor) <==>
            10 * floor >= 8 * limit || (if hints then strays <= 1 else limit <= floor + 1)
  {
    if Hopeless(limit, hints, floor) || (hints && strays <= 1) {
      forall events: seq<Event> | Exec(limit, hints, events).Some? && ReadsAtLeast(events, floor)
        ensures Exec(limit, hints, events).value.stray <= strays ==>
                Total(Exec(limit, hints, events).value.outstanding) <= limit
      {
        MemoryReachable(limit, hints, events);
        if Hopeless(limit, hints, floor) {
          HopelessRun(limit, hints, floor, events);
        }
      }
    } else if !hints {
      ExceededWithoutHints(limit, strays, floor);
    } else if limit + 2 < U64 {
      ExceededFromTheStart(limit, strays, floor);
    } else {
      ExceededWhenFull(limit, strays, floor);
    }
  }

  // ---- Once only -----------------------------------------------------------------------------

  lemma IdsAppend(q: seq<Request>, r: Request)
    ensures Ids(q + [r]) == Ids(q) + {r.id}
    ensures DistinctIds(q) && r.id !in Ids(q) ==> DistinctIds(q + [r])
  {
    var more := q + [r];
    assert forall i :: 0 <= i < |q| ==> more[i] == q[i] && q[i].id in Ids(q);
    assert more[|q|] == r;
  }

  lemma IdsWithout(q: seq<Request>, k: nat)
    requires k < |q| && DistinctIds(q)
    ensures DistinctIds(Without(q, k)) && Ids(Without(q, k)) == Ids(q) - {q[k].id} && q[k].id in Ids(q)
    ensures multiset(Without(q, k)) + multiset{q[k]} == multiset(q)
  {
    var rest := Without(q, k);
    assert q == q[..k] + [q[k]] + q[k + 1..];
    assert forall i :: 0 <= i < |rest| ==> rest[i] == if i < k then q[i] else q[i + 1];
    forall id | id in Ids(q) - {q[k].id} ensures id in Ids(rest) {
      var i :| 0 <= i < |q| && q[i].id == id;
      assert rest[if i < k then i else i - 1] == q[i];
    }
  }

  /** Each of the requests is in exactly one of two lists, once. */
  ghost predicate SplitInTwo(a: seq<Request>, b: seq<Request>, all: seq<Request>) {
    && DistinctIds(a) && DistinctIds(b) && Ids(a) !! Ids(b)
    && multiset(a) + multiset(b) == multiset(all) && Ids(a) + Ids(b) == Ids(all)
  }

  ghost predicate OnceInv(run: Run) {
    SplitInTwo(run.s.queue, run.s.admitted, run.arrived) && SplitInTwo(run.s.active, run.s.shed, run.s.admitted)
  }

  lemma NewInFirst(a: seq<Request>, b: seq<Request>, all: seq<Request>, r: Request)
    requires SplitInTwo(a, b, all) && r.id !in Ids(all)
    ensures SplitInTwo(a + [r], b, all + [r])
  {
    IdsAppend(a, r);
    IdsAppend(all, r);
  }

  lemma MoveToSecond(a: seq<Request>, b: seq<Request>, all: seq<Request>, k: nat)
    requires SplitInTwo(a, b, all) && k < |a|
    ensures SplitInTwo(Without(a, k), b + [a[k]], all)
  {
    IdsWithout(a, k);
    IdsAppend(b, a[k]);
  }

  lemma OnceStep(run: Run, e: Event)
    requires OnceInv(run) && Allowed(run, e)
    ensures OnceInv(Next(run, e))
  {
    match e
    case Arrive(r) => NewInFirst(run.s.queue, run.s.admitted, run.arrived, r);
    case Retire(_) =>
    case Hint(_) =>
    case Tick(alloc) =>
      var v := Decide(run.s, alloc);
      if v.Admits? && v.admitted.Some? {
        var k := FirstFit(run.s.queue, Available(run.s, alloc));
        MoveToSecond(run.s.queue, run.s.admitted, run.arrived, k);
        IdsWithout(run.s.queue, k);
        NewInFirst(run.s.active, run.s.shed, run.s.admitted, run.s.queue[k]);
      }
    case Shed =>
      if run.s.active != [] {
        var n := |run.s.active| - 1;
        MoveToSecond(run.s.active, run.s.shed, run.s.admitted, n);
        assert Without(run.s.active, n) == run.s.active[..n];
      }
  }

  /**
   * In every run each request that arrived is either waiting or was admitted, and each admitted
   * one is either active or was shed: none is admitted twice, shed twice, shed before it
   * was admitted, or lost.
   */
  lemma {:induction false} EachRequestOnce(limit: uint64, hints: bool, events: seq<Event>)
    requires Exec(limit, hints, events).Some?
    ensures OnceInv(Exec(limit, hints, events).value)
  {
    if events == [] {
      assert Ids([]) == {};
    } else {
      EachRequestOnce(limit, hints, events[..|events| - 1]);
      OnceStep(Exec(limit, hints, events[..|events| - 1]).value, events[|events| - 1]);
    }
  }

  // ---- First in, first out; last in, first out -----------------------------------------------

  /** The requests of `q` whose numbers are not in `ids`, in order. */
  function Outside(q: seq<Request>, ids: set<nat>): seq<Request> {
    if q == [] then []
    else
      var last := q[|q| - 1];
      Outside(q[..|q| - 1], ids) + if last.id in ids then [] else [last]
  }

  lemma OutsideAppend(q: seq<Request>, r: Request, ids: set<nat>)
    ensures Outside(q + [r], ids) == Outside(q, ids) + if r.id in ids then [] else [r]
  {
    assert (q + [r])[..|q|] == q;
  }

  lemma {:induction false} OutsideOneMore(q: seq<Request>, ids: set<nat>, id: nat)
    ensures Outside(q, ids + {id}) == Outside(Outside(q, ids), {id})
  {
    if q != [] {
      var before, last := q[..|q| - 1], q[|q| - 1];
      OutsideOneMore(before, ids, id);
      OutsideAppend(Outside(before, ids), last, {id});
      assert Outside(before, ids) + [] == Outside(before, ids);
    }
  }

  lemma {:induction false} OutsideNothing(q: seq<Request>, ids: set<nat>)
    requires forall i :: 0 <= i < |q| ==> q[i].id !in ids
    ensures Outside(q, ids) == q
  {
    if q != [] {
      OutsideNothing(q[..|q| - 1], ids);
    }
  }

  lemma {:induction false} OutsideOwn(q: seq<Request>, k: nat)
    requires k < |q| && DistinctIds(q)
    ensures Outside(q, {q[k].id}) == Without(q, k)
  {
    var n := |q| - 1;
    if k == n {
      OutsideNothing(q[..n], {q[n].id});
      assert Without(q, k) == q[..n];
    } else {
      OutsideOwn(q[..n], k);
      assert Without(q, k) == Without(q[..n], k) + [q[n]];
    }
  }

  /** The k-th of those left joins the others. */
  lemma OutsideLoses(q: seq<Request>, gone: seq<Request>, k: nat)
    requires k < |Outside(q, Ids(gone))| && DistinctIds(Outside(q, Ids(gone)))
    ensures var left := Outside(q, Ids(gone)); Outside(q, Ids(gone + [left[k]])) == Without(left, k)
  {
    var left := Outside(q, Ids(gone));
    IdsAppend(gone, left[k]);
    OutsideOneMore(q, Ids(gone), left[k].id);
    OutsideOwn(left, k);
  }

  /** The queue is what has arrived less what was admitted, the active ones what was admitted less what was shed. */
  ghost predicate InOrder(run: Run) {
    && run.s.queue == Outside(run.arrived, Ids(run.s.admitted))
    && run.s.active == Outside(run.s.admitted, Ids(run.s.shed))
  }

  lemma TickKeepsOrder(run: Run, alloc: uint64)
    requires InOrder(run) && DistinctIds(run.s.queue)
    requires forall k :: 0 <= k < |run.s.queue| ==> run.s.queue[k].id !in Ids(run.s.shed)
    ensures InOrder(Next(run, Tick(alloc)))
  {
    var v := Decide(run.s, alloc);
    if v.Admits? && v.admitted.Some? {
      var k := FirstFit(run.s.queue, Available(run.s, alloc));
      AdmissionKeepsOrder(run.arrived, run.s.queue, run.s.admitted, run.s.active, run.s.shed, k);
    }
  }

  lemma AdmissionKeepsOrder(arrived: seq<Request>, queue: seq<Request>, admitted: seq<Request>,
                            active: seq<Request>, shed: seq<Request>, k: nat)
    requires queue == Outside(arrived, Ids(admitted)) && active == Outside(admitted, Ids(shed))
    requires k < |queue| && DistinctIds(queue) && queue[k].id !in Ids(shed)
    ensures Without(queue, k) == Outside(arrived, Ids(admitted + [queue[k]]))
    ensures active + [queue[k]] == Outside(admitted + [queue[k]], Ids(shed))
  {
    OutsideLoses(arrived, admitted, k);
    OutsideAppend(admitted, queue[k], Ids(shed));
  }

  lemma WaitingAreNotShed(run: Run)
    requires OnceInv(run)
    ensures forall k :: 0 <= k < |run.s.queue| ==> run.s.queue[k].id !in Ids(run.s.shed)
  {
    forall k | 0 <= k < |run.s.queue| ensures run.s.queue[k].id !in Ids(run.s.shed) {
      assert run.s.queue[k].id in Ids(run.s.queue);
    }
  }

  lemma OrderStep(run: Run, e: Event)
    requires OnceInv(run) && InOrder(run) && Allowed(run, e)
    ensures InOrder(Next(run, e))
  {
    match e
    case Arrive(r) => OutsideAppend(run.arrived, r, Ids(run.s.admitted));
    case Tick(alloc) =>
      WaitingAreNotShed(run);
      TickKeepsOrder(run, alloc);
    case Shed =>
      if run.s.active != [] {
        var n := |run.s.active| - 1;
        OutsideLoses(run.s.admitted, run.s.shed, n);
        assert Without(run.s.active, n) == run.s.active[..n];
      }
    case _ =>
  }

  /** In every run requests wait in their order of arrival and stay active in that of their admission. */
  lemma {:induction false} OrderInEveryRun(limit: uint64, hints: bool, events: seq<Event>)
    requires Exec(limit, hints, events).Some?
    ensures InOrder(Exec(limit, hints, events).value)
  {
    if events != [] {
      var before := events[..|events| - 1];
      OrderInEveryRun(limit, hints, before);
      EachRequestOnce(limit, hints, before);
      OrderStep(Exec(limit, hints, before).value, events[|events| - 1]);
    }
  }

  lemma {:induction false} LastOutside(q: seq<Request>, ids: set<nat>) returns (k: nat)
    requires Outside(q, ids) != []
    ensures var left := Outside(q, ids); k < |q| && q[k] == left[|left| - 1]
    ensures forall j :: k < j < |q| ==> q[j].id in ids
  {
    k := |q| - 1;
    if q[k].id in ids {
      k := LastOutside(q[..k], ids);
    }
  }

  /** In every run the request shed next is active, and every one admitted after it has been shed. */
  lemma LatestActiveIsShed(limit: uint64, hints: bool, events: seq<Event>) returns (k: nat)
    requires Exec(limit, hints, events).Some? && Allowed(Exec(limit, hints, events).value, Shed)
    requires Exec(limit, hints, events).value.s.active != []
    ensures var s := Exec(limit, hints, events).value.s;
            var t := Next(Exec(limit, hints, events).value, Shed).s;
            && k < |s.admitted| && s.admitted[k] in s.active && t.shed == s.shed + [s.admitted[k]]
            && forall j :: k < j < |s.admitted| ==> s.admitted[j].id in Ids(s.shed)
  {
    OrderInEveryRun(limit, hints, events);
    var s := Exec(limit, hints, events).value.s;
    k := LastOutside(s.admitted, Ids(s.shed));
  }

  // ---- When load is shed, and how often the limiter looks ------------------------------------

  /** The readings of the run above 110 percent of the limit. */
  function Excesses(limit: uint64, events: seq<Event>): nat {
    if events == [] then 0
    else
      var e := events[|events| - 1];
      Excesses(limit, events[..|events| - 1]) + if e.Tick? && 10 * e.alloc > 11 * limit then 1 else 0
  }

  function Sheddings(events: seq<Event>): nat {
    if events == [] then 0
    else Sheddings(events[..|events| - 1]) + if events[|events| - 1].Shed? then 1 else 0
  }

  /** Load is shed once for every reading above 110 percent of the limit, and for no other reason. */
  lemma {:induction false} ShedsForExcessesOnly(limit: uint64, hints: bool, events: seq<Event>)
    requires Exec(limit, hints, events).Some?
    ensures var run := Exec(limit, hints, events).value;
            && run.pending + Sheddings(events) == Excesses(limit, events)
            && |run.s.shed| <= Sheddings(events)
  {
    if events != [] {
      var before := events[..|events| - 1];
      ShedsForExcessesOnly(limit, hints, before);
      MemoryReachable(limit, hints, before);
    }
  }

  /**
   * How long the limiter waits, in milliseconds: the default is 4 seconds and 200 milliseconds once
   * there was a hint; a tick makes it 1 second above 110 percent of the limit, 2 seconds from 80
   * percent on, and the default below; a limit and a reading of 0 panic.
   */
  lemma IntervalFollowsReading(limit: uint64, hints: bool, events: seq<Event>, alloc: uint64)
    requires Exec(limit, hints, events).Some?
    ensures var run := Exec(limit, hints, events).value; var t := Next(run, Tick(alloc)).s;
            && (Decide(run.s, alloc).Panics? <==> limit == 0 && alloc == 0)
            && (10 * alloc > 11 * limit ==> t.interval == 1000)
            && (8 * limit <= 10 * alloc <= 11 * limit && alloc > 0 ==> t.interval == 2000)
            && (10 * alloc < 8 * limit ==> t.interval == if hints then 200 else 4000)
  {
    MemoryReachable(limit, hints, events);
    DefaultFollowsHints(limit, hints, events);
  }

  lemma {:induction false} DefaultFollowsHints(limit: uint64, hints: bool, events: seq<Event>)
    requires Exec(limit, hints, events).Some?
    ensures Exec(limit, hints, events).value.s.defaultInterval == if hints then 200 else 4000
  {
    if events != [] {
      DefaultFollowsHints(limit, hints, events[..|events| - 1]);
      MemoryReachable(limit, hints, events[..|events| - 1]);
    }
  }

  // ---- Draining ------------------------------------------------------------------------------

  /** Ticks with the given memory readings; each request admitted is retired before the next. */
  function Drain(s: State, allocs: seq<uint64>): State {
    if allocs == [] then s
    else
      var before, alloc := Drain(s, allocs[..|allocs| - 1]), allocs[|allocs| - 1];
      var v := Decide(before, alloc);
      var after := Manage(before, alloc);
      if v.Admits? && v.admitted.Some? then Freed(after, v.admitted.value.size) else after
  }

  lemma HeadIsAdmitted(s: State, alloc: uint64, bound: uint64)
    requires s.hints && s.memtrack <= bound && alloc <= bound && 10 * bound < 8 * s.limit
    requires s.queue != [] && s.queue[0].size < s.limit - bound
    ensures Decide(s, alloc) == Admits(Some(s.queue[0]))
    ensures var t := Freed(Manage(s, alloc), s.queue[0].size);
            t.queue == s.queue[1..] && t.admitted == s.admitted + [s.queue[0]]
            && t.hints && t.limit == s.limit && t.memtrack == s.memtrack
  {
    assert FirstFit(s.queue, Available(s, alloc)) == 0;
    assert Manage(s, alloc).memtrack == s.memtrack + s.queue[0].size;
    assert s.queue[..0] + s.queue[1..] == s.queue[1..];
  }

  /**
   * With readings bounded below 80 percent of the limit, n queued requests that fit above the
   * bound are admitted one a tick, in the order of the queue: after n ticks all of them.
   */
  lemma {:induction false} QueueDrains(s: State, allocs: seq<uint64>, bound: uint64)
    requires s.hints && s.memtrack <= bound && 10 * bound < 8 * s.limit
    requires forall i :: 0 <= i < |s.queue| ==> s.queue[i].size < s.limit - bound
    requires forall i :: 0 <= i < |allocs| ==> allocs[i] <= bound
    requires |allocs| <= |s.queue|
    ensures var t := Drain(s, allocs);
            && t.queue == s.queue[|allocs|..] && t.admitted == s.admitted + s.queue[..|allocs|]
            && t.hints && t.limit == s.limit && t.memtrack == s.memtrack
  {
    if allocs != [] {
      var n := |allocs| - 1;
      QueueDrains(s, allocs[..n], bound);
      var t := Drain(s, allocs[..n]);
      HeadIsAdmitted(t, allocs[n], bound);
      TakeNext(s.queue, n);
    }
  }
}
