/**
 * The merge functions of pkg/cim/concurrency.go, which differ in the element type only: one
 * forwarder per input, a wait group, and a closer. The output channel is unbuffered and its
 * receiver always ready. A schedule is any sequence of enabled actions.
 */
module Merge {
  import opened Jobs

  /** `rest` is what the producer has still to deliver before it closes the input. */
  datatype Forwarder<T> = Receiving(rest: seq<T>) | Holding(x: T, rest: seq<T>) | Finished

  /** `log` lists what was sent, with the forwarder that sent it. */
  datatype State<T> = State(
    forwarders: seq<Forwarder<T>>, waitGroup: int, closed: bool, log: seq<(nat, T)>, panicked: bool)

  datatype Action = Receive(i: nat) | Send(i: nat) | Done(i: nat) | Close

  function Init<T>(ins: seq<seq<T>>): State<T> {
    State(seq(|ins|, i requires 0 <= i < |ins| => Receiving(ins[i])), |ins|, false, [], false)
  }

  predicate Enabled<T>(s: State<T>, a: Action) {
    match a
    case Receive(i) => i < |s.forwarders| && s.forwarders[i].Receiving? && s.forwarders[i].rest != []
    case Send(i) => i < |s.forwarders| && s.forwarders[i].Holding?
    case Done(i) => i < |s.forwarders| && s.forwarders[i].Receiving? && s.forwarders[i].rest == []
    case Close => s.waitGroup == 0 && !s.closed
  }

  /** Sending to a closed channel and a negative wait group panic. */
  function Step<T>(s: State<T>, a: Action): State<T>
    requires Enabled(s, a)
  {
    match a
    case Receive(i) =>
      var rest := s.forwarders[i].rest;
      s.(forwarders := s.forwarders[i := Holding(rest[0], rest[1..])])
    case Send(i) =>
      if s.closed then s.(panicked := true)
      else s.(forwarders := s.forwarders[i := Receiving(s.forwarders[i].rest)],
              log := s.log + [(i, s.forwarders[i].x)])
    case Done(i) =>
      if s.waitGroup == 0 then s.(panicked := true)
      else s.(forwarders := s.forwarders[i := Finished], waitGroup := s.waitGroup - 1)
    case Close => s.(closed := true)
  }

  function Exec<T>(ins: seq<seq<T>>, schedule: seq<Action>): Option<State<T>> {
    if schedule == [] then Some(Init(ins))
    else
      var before, a := Exec(ins, schedule[..|schedule| - 1]), schedule[|schedule| - 1];
      if before.Some? && Enabled(before.value, a) then Some(Step(before.value, a)) else None
  }

  // ---- Sums over the forwarders --------------------------------------------------------------

  function Sum<T>(fs: seq<Forwarder<T>>, weight: Forwarder<T> -> nat): nat {
    if fs == [] then 0 else Sum(fs[..|fs| - 1], weight) + weight(fs[|fs| - 1])
  }

  lemma {:induction false} SumUpdate<T>(fs: seq<Forwarder<T>>, weight: Forwarder<T> -> nat, i: nat, f: Forwarder<T>)
    requires i < |fs|
    ensures Sum(fs[i := f], weight) == Sum(fs, weight) - weight(fs[i]) + weight(f)
  {
    var n := |fs| - 1;
    if i == n {
      assert fs[i := f][..n] == fs[..n];
    } else {
      SumUpdate(fs[..n], weight, i, f);
      assert fs[i := f][..n] == fs[..n][i := f];
    }
  }

  lemma {:induction false} SumPositive<T>(fs: seq<Forwarder<T>>, weight: Forwarder<T> -> nat, i: nat)
    requires i < |fs|
    ensures weight(fs[i]) <= Sum(fs, weight)
  {
    if i < |fs| - 1 {
      SumPositive(fs[..|fs| - 1], weight, i);
    }
  }

  lemma {:induction false} SomeSummand<T>(fs: seq<Forwarder<T>>, weight: Forwarder<T> -> nat) returns (i: nat)
    requires 0 < Sum(fs, weight)
    ensures i < |fs| && 0 < weight(fs[i])
  {
    if 0 < weight(fs[|fs| - 1]) {
      i := |fs| - 1;
    } else {
      i := SomeSummand(fs[..|fs| - 1], weight);
    }
  }

  function Unfinished<T>(f: Forwarder<T>): nat {
    if f.Finished? then 0 else 1
  }

  function Work<T>(f: Forwarder<T>): nat {
    match f
    case Receiving(rest) => 2 * |rest| + 1
    case Holding(_, rest) => 2 * |rest| + 2
    case Finished => 0
  }

  // ---- The invariant -------------------------------------------------------------------------

  /** What forwarder `i` has sent, in order. */
  function SentBy<T>(log: seq<(nat, T)>, i: nat): seq<T> {
    if log == [] then []
    else
      var last := log[|log| - 1];
      SentBy(log[..|log| - 1], i) + (if last.0 == i then [last.1] else [])
  }

  lemma SentByAppend<T>(log: seq<(nat, T)>, entry: (nat, T), i: nat)
    ensures SentBy(log + [entry], i) == SentBy(log, i) + if entry.0 == i then [entry.1] else []
  {
    assert (log + [entry])[..|log|] == log;
  }

  function Unsent<T>(f: Forwarder<T>): seq<T> {
    match f
    case Receiving(rest) => rest
    case Holding(x, rest) => [x] + rest
    case Finished => []
  }

  ghost predicate Inv<T>(ins: seq<seq<T>>, s: State<T>) {
    && |s.forwarders| == |ins|
    && s.waitGroup == Sum(s.forwarders, Unfinished)
    && !s.panicked
    && (s.closed ==> s.waitGroup == 0)
    && (forall i :: 0 <= i < |ins| ==> SentBy(s.log, i) + Unsent(s.forwarders[i]) == ins[i])
    && (forall k :: 0 <= k < |s.log| ==> s.log[k].0 < |ins|)
  }

  lemma ActingMeansOpen<T>(ins: seq<seq<T>>, s: State<T>, i: nat)
    requires Inv(ins, s) && i < |s.forwarders| && !s.forwarders[i].Finished?
    ensures s.waitGroup > 0 && !s.closed
  {
    SumPositive(s.forwarders, Unfinished, i);
  }

  lemma ReceiveKeeps<T>(ins: seq<seq<T>>, s: State<T>, i: nat)
    requires Inv(ins, s) && Enabled(s, Receive(i))
    ensures Inv(ins, Step(s, Receive(i)))
  {
    var rest := s.forwarders[i].rest;
    SumUpdate(s.forwarders, Unfinished, i, Holding(rest[0], rest[1..]));
    assert [rest[0]] + rest[1..] == rest;
  }

  lemma SendKeeps<T>(ins: seq<seq<T>>, s: State<T>, i: nat)
    requires Inv(ins, s) && Enabled(s, Send(i))
    ensures Inv(ins, Step(s, Send(i)))
  {
    ActingMeansOpen(ins, s, i);
    var t, f := Step(s, Send(i)), s.forwarders[i];
    SumUpdate(s.forwarders, Unfinished, i, Receiving(f.rest));
    forall k | 0 <= k < |ins| ensures SentBy(t.log, k) + Unsent(t.forwarders[k]) == ins[k] {
      SentByAppend(s.log, (i, f.x), k);
      SentMoves(SentBy(s.log, i), f.x, f.rest);
    }
  }

  lemma SentMoves<T>(sent: seq<T>, x: T, rest: seq<T>)
    ensures (sent + [x]) + rest == sent + ([x] + rest)
  {
  }

  lemma DoneKeeps<T>(ins: seq<seq<T>>, s: State<T>, i: nat)
    requires Inv(ins, s) && Enabled(s, Done(i))
    ensures Inv(ins, Step(s, Done(i)))
  {
    ActingMeansOpen(ins, s, i);
    SumUpdate(s.forwarders, Unfinished, i, Finished);
  }

  lemma {:induction false} AllUnfinished<T>(ins: seq<seq<T>>)
    ensures Sum(Init(ins).forwarders, Unfinished) == |ins|
    ensures Sum(Init(ins).forwarders, Work) == 2 * Lengths(ins) + |ins|
  {
    if ins != [] {
      AllUnfinished(ins[..|ins| - 1]);
      assert Init(ins).forwarders[..|ins| - 1] == Init(ins[..|ins| - 1]).forwarders;
    }
  }

  function Lengths<T>(ins: seq<seq<T>>): nat {
    if ins == [] then 0 else Lengths(ins[..|ins| - 1]) + |ins[|ins| - 1]|
  }

  lemma {:induction false} Reachable<T>(ins: seq<seq<T>>, schedule: seq<Action>)
    requires Exec(ins, schedule).Some?
    ensures Inv(ins, Exec(ins, schedule).value)
  {
    if schedule == [] {
      AllUnfinished(ins);
    } else {
      Reachable(ins, schedule[..|schedule| - 1]);
      var s := Exec(ins, schedule[..|schedule| - 1]).value;
      match schedule[|schedule| - 1]
      case Receive(i) => ReceiveKeeps(ins, s, i);
      case Send(i) => SendKeeps(ins, s, i);
      case Done(i) => DoneKeeps(ins, s, i);
      case Close =>
    }
  }

  // ---- The protocol --------------------------------------------------------------------------

  /**
   * In every state of every schedule: nothing panics, the wait group counts the unfinished
   * forwarders, what was sent keeps the order of every source, and once the output is closed
   * every input is drained, so that nothing is sent or closed any more.
   */
  lemma MergeProtocol<T>(ins: seq<seq<T>>, schedule: seq<Action>)
    requires Exec(ins, schedule).Some?
    ensures var s := Exec(ins, schedule).value;
            && !s.panicked
            && s.waitGroup == Sum(s.forwarders, Unfinished)
            && (forall i :: 0 <= i < |ins| ==> SentBy(s.log, i) <= ins[i])
            && (s.closed ==> forall i :: 0 <= i < |ins| ==> SentBy(s.log, i) == ins[i])
            && (s.closed ==> forall a :: !Enabled(s, a))
  {
    Reachable(ins, schedule);
    var s := Exec(ins, schedule).value;
    if s.closed {
      forall i | 0 <= i < |ins| ensures s.forwarders[i].Finished? && SentBy(s.log, i) == ins[i] {
        SumPositive(s.forwarders, Unfinished, i);
        assert SentBy(s.log, i) + [] == SentBy(s.log, i);
      }
    }
  }

  function Values<T>(log: seq<(nat, T)>): seq<T> {
    if log == [] then [] else Values(log[..|log| - 1]) + [log[|log| - 1].1]
  }

  function Flatten<T>(ins: seq<seq<T>>): seq<T> {
    if ins == [] then [] else Flatten(ins[..|ins| - 1]) + ins[|ins| - 1]
  }

  /** Every entry comes from one of the inputs, and those of an input are that input, in order. */
  ghost predicate IsShuffle<T>(log: seq<(nat, T)>, ins: seq<seq<T>>) {
    && (forall k :: 0 <= k < |log| ==> log[k].0 < |ins|)
    && (forall i :: 0 <= i < |ins| ==> SentBy(log, i) == ins[i])
  }

  /** A shuffle holds the elements of all inputs, each as often as they do together. */
  lemma {:induction false} ShuffleConserves<T>(log: seq<(nat, T)>, ins: seq<seq<T>>)
    requires IsShuffle(log, ins)
    ensures multiset(Values(log)) == multiset(Flatten(ins))
    decreases |log|
  {
    if log == [] {
      EmptyFlatten(ins);
    } else {
      var before, last := log[..|log| - 1], log[|log| - 1];
      var i := last.0;
      assert log == before + [last];
      DropLastEntry(before, last, ins);
      var shorter := ins[i := SentBy(before, i)];
      ShuffleConserves(before, shorter);
      FlattenUpdate(ins, i, SentBy(before, i));
      assert multiset(ins[i]) == multiset(SentBy(before, i)) + multiset{last.1};
      assert multiset(Values(log)) == multiset(Values(before)) + multiset{last.1};
      CancelBoth(multiset(Flatten(shorter)), multiset(Flatten(ins)), multiset(SentBy(before, i)), multiset{last.1});
    }
  }

  lemma AddToBoth<T>(a: multiset<T>, b: multiset<T>, x: multiset<T>, y: multiset<T>, more: multiset<T>)
    requires a + x == b + y
    ensures (a + more) + x == (b + more) + y
  {
    assert (a + more) + x == (a + x) + more;
    assert (b + more) + y == (b + y) + more;
  }

  lemma CancelBoth<T>(a: multiset<T>, b: multiset<T>, x: multiset<T>, more: multiset<T>)
    requires a + (x + more) == b + x
    ensures a + more == b
  {
    assert a + (x + more) == (a + more) + x;
    assert (b + x) - x == b && ((a + more) + x) - x == a + more;
  }

  lemma DropLastEntry<T>(before: seq<(nat, T)>, last: (nat, T), ins: seq<seq<T>>)
    requires IsShuffle(before + [last], ins)
    ensures last.0 < |ins| && ins[last.0] == SentBy(before, last.0) + [last.1]
    ensures IsShuffle(before, ins[last.0 := SentBy(before, last.0)])
  {
    var log := before + [last];
    assert log[|before|] == last;
    assert forall k :: 0 <= k < |before| ==> log[k] == before[k];
    forall k | 0 <= k < |ins| ensures SentBy(before, k) == ins[last.0 := SentBy(before, last.0)][k] {
      SentByAppend(before, last, k);
    }
    SentByAppend(before, last, last.0);
  }

  lemma {:induction false} EmptyFlatten<T>(ins: seq<seq<T>>)
    requires forall i :: 0 <= i < |ins| ==> ins[i] == []
    ensures Flatten(ins) == []
  {
    if ins != [] {
      EmptyFlatten(ins[..|ins| - 1]);
    }
  }

  lemma {:induction false} FlattenUpdate<T>(ins: seq<seq<T>>, i: nat, x: seq<T>)
    requires i < |ins|
    ensures multiset(Flatten(ins[i := x])) + multiset(ins[i]) == multiset(Flatten(ins)) + multiset(x)
  {
    var n := |ins| - 1;
    if i == n {
      assert ins[i := x][..n] == ins[..n];
      assert multiset(Flatten(ins)) == multiset(Flatten(ins[..n])) + multiset(ins[n]);
      assert multiset(Flatten(ins[i := x])) == multiset(Flatten(ins[..n])) + multiset(x);
    } else {
      FlattenUpdate(ins[..n], i, x);
      assert ins[i := x][..n] == ins[..n][i := x];
      assert multiset(Flatten(ins)) == multiset(Flatten(ins[..n])) + multiset(ins[n]);
      assert multiset(Flatten(ins[i := x])) == multiset(Flatten(ins[..n][i := x])) + multiset(ins[n]);
      AddToBoth(multiset(Flatten(ins[..n][i := x])), multiset(Flatten(ins[..n])),
                multiset(ins[i]), multiset(x), multiset(ins[n]));
    }
  }

  /** A closed output has carried a shuffle of the inputs, also when there are none. */
  lemma ClosedOutputIsShuffle<T>(ins: seq<seq<T>>, schedule: seq<Action>)
    requires Exec(ins, schedule).Some? && Exec(ins, schedule).value.closed
    ensures var log := Exec(ins, schedule).value.log;
            IsShuffle(log, ins) && multiset(Values(log)) == multiset(Flatten(ins))
  {
    Reachable(ins, schedule);
    MergeProtocol(ins, schedule);
    ShuffleConserves(Exec(ins, schedule).value.log, ins);
  }

  /** Until the output is closed some action is enabled. */
  lemma SomethingMoves<T>(ins: seq<seq<T>>, schedule: seq<Action>)
    requires Exec(ins, schedule).Some? && !Exec(ins, schedule).value.closed
    ensures exists a :: Enabled(Exec(ins, schedule).value, a)
  {
    Reachable(ins, schedule);
    var s := Exec(ins, schedule).value;
    if s.waitGroup == 0 {
      assert Enabled(s, Close);
    } else {
      var i := SomeSummand(s.forwarders, Unfinished);
      var f := s.forwarders[i];
      assert Enabled(s, if f.Holding? then Send(i) else if f.rest != [] then Receive(i) else Done(i));
    }
  }

  function Measure<T>(s: State<T>): nat {
    Sum(s.forwarders, Work) + if s.closed then 0 else 1
  }

  lemma StepShrinks<T>(ins: seq<seq<T>>, s: State<T>, a: Action)
    requires Inv(ins, s) && Enabled(s, a)
    ensures Measure(Step(s, a)) < Measure(s)
  {
    match a
    case Receive(i) =>
      var rest := s.forwarders[i].rest;
      SumUpdate(s.forwarders, Work, i, Holding(rest[0], rest[1..]));
    case Send(i) =>
      ActingMeansOpen(ins, s, i);
      SumUpdate(s.forwarders, Work, i, Receiving(s.forwarders[i].rest));
    case Done(i) =>
      ActingMeansOpen(ins, s, i);
      SumUpdate(s.forwarders, Work, i, Finished);
    case Close =>
  }

  /** Every schedule is finite: two steps an element, one a forwarder, and the close. */
  lemma {:induction false} EveryScheduleEnds<T>(ins: seq<seq<T>>, schedule: seq<Action>)
    requires Exec(ins, schedule).Some?
    ensures |schedule| + Measure(Exec(ins, schedule).value) <= 2 * Lengths(ins) + |ins| + 1
  {
    if schedule == [] {
      AllUnfinished(ins);
    } else {
      EveryScheduleEnds(ins, schedule[..|schedule| - 1]);
      Reachable(ins, schedule[..|schedule| - 1]);
      StepShrinks(ins, Exec(ins, schedule[..|schedule| - 1]).value, schedule[|schedule| - 1]);
    }
  }
}
