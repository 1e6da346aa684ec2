/** Go channels as one goroutine sees them. */
module Channels {

  datatype SendResult = SendDone | SendBlocks | SendPanics

  datatype Received<+T> = Got(value: T) | Drained | ReceiveBlocks

  /** A buffered channel; `closings` counts the successful calls of close. */
  class Chan<T> {
    const capacity: nat
    var buf: seq<T>
    var closed: bool
    ghost var closings: nat

    constructor (capacity: nat)
      ensures this.capacity == capacity && buf == [] && !closed && closings == 0
    {
      this.capacity := capacity;
      buf := [];
      closed := false;
      closings := 0;
    }

    method Send(x: T) returns (r: SendResult)
      modifies this
      ensures closed == old(closed) && closings == old(closings)
      ensures r == if old(closed) then SendPanics else if |old(buf)| < capacity then SendDone else SendBlocks
      ensures buf == if r.SendDone? then old(buf) + [x] else old(buf)
    {
      if closed {
        return SendPanics;
      }
      if |buf| >= capacity {
        return SendBlocks;
      }
      buf := buf + [x];
      return SendDone;
    }

    method Receive() returns (r: Received<T>)
      modifies this
      ensures closed == old(closed) && closings == old(closings)
      ensures r == if old(buf) != [] then Got(old(buf)[0]) else if closed then Drained else ReceiveBlocks
      ensures buf == if old(buf) != [] then old(buf)[1..] else []
    {
      if buf == [] {
        return if closed then Drained else ReceiveBlocks;
      }
      r := Got(buf[0]);
      buf := buf[1..];
    }

    /** Closing a closed channel panics: `ok` is false. */
    method Close() returns (ok: bool)
      modifies this
      ensures closed && buf == old(buf)
      ensures ok == !old(closed)
      ensures closings == old(closings) + if ok then 1 else 0
    {
      ok := !closed;
      closed := true;
      closings := closings + if ok then 1 else 0;
    }
  }

  /** A channel whose receivers are always ready: a send succeeds and is logged. */
  class Outlet<T> {
    var sent: seq<T>
    var closed: bool

    constructor ()
      ensures sent == [] && !closed
    {
      sent := [];
      closed := false;
    }

    method Send(x: T)
      requires !closed
      modifies this
      ensures sent == old(sent) + [x] && !closed
    {
      sent := sent + [x];
    }

    method Close()
      requires !closed
      modifies this
      ensures sent == old(sent) && closed
    {
      closed := true;
    }
  }
}
