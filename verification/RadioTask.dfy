/** A radio's transmit task as stored: its queue, its latch and its 32-bit deadlines. */
module RadioTask {
  import opened Bytes
  import opened RouteFifo
  import opened RouteQueue
  import opened Airtime
  import opened Scheduler

  class Task {
    const limits: Limits
    const queue: Queue
    var pending: Entry
    var pendingValid: bool
    var busy: bool
    var startMs: u32
    var nextAllowed: u32
    var backoffUntil: u32

    ghost predicate Valid()
      reads this, queue
    {
      queue.Valid() && queue.maxAge == limits.maxAge && queue.ring.Length == limits.cap
    }

    ghost function State(): Radio
      requires Valid()
      reads this, queue, queue.ring
    {
      Radio(queue.Contents(), if pendingValid then Some(pending) else None, busy, startMs, nextAllowed, backoffUntil)
    }

    constructor (l: Limits)
      requires l.cap > 0
      ensures Valid() && State() == IDLE && limits == l && fresh(queue) && fresh(queue.ring)
    {
      limits := l;
      var q := new Queue(l.cap, l.maxAge);
      queue := q;
      pending, pendingValid := Entry([], 0), false;
      busy, startMs, nextAllowed, backoffUntil := false, 0, 0, 0;
    }

    /** A pass while transmitting: done, or given up on after the in-flight timeout. */
    method Service(done: bool, t: nat)
      requires Valid()
      modifies this`busy
      ensures Valid() && State() == Poll(limits, old(State()), done, t)
    {
      if busy {
        var now: u32 := t % TWO32;
        Queue.AgeOfReading(t, startMs);
        var timedOut := (now - startMs) % TWO32 > limits.inflight;
        if done || timedOut { busy := false; }
      }
    }

    method Refill(t: nat)
      requires Valid()
      modifies this`pending, this`pendingValid, queue
      ensures Valid() && State() == Fill(limits, old(State()), t)
      ensures queue.ring == old(queue.ring)
    {
      if !pendingValid {
        var e := queue.Pop(t);
        if e.Some? {
          pending := e.value;
          pendingValid := true;
        }
      }
    }

    method ExpireLatch(t: nat)
      requires Valid()
      modifies this`pendingValid
      ensures Valid() && State() == Expire(limits, old(State()), t)
    {
      var now: u32 := t % TWO32;
      Queue.AgeOfReading(t, pending.enqueueMs);
      if pendingValid && limits.maxAge > 0 && (now - pending.enqueueMs) % TWO32 > limits.maxAge {
        pendingValid := false;
      }
    }

    method Due(t: nat, deadline: u32) returns (due: bool)
      ensures due == Reached(t, deadline)
    {
      var now: u32 := t % TWO32;
      Queue.AgeOfReading(t, deadline);
      due := (now - deadline) % TWO32 < HALF;
    }

    method Throttle(air: nat) returns (gap: nat)
      ensures gap == Gap(limits, air)
    {
      gap := air;
      if limits.duty > 0 { gap := Share(air, limits.duty); }
      var floor := (air + limits.minGap) % TWO32;
      if gap < floor { gap := floor; }
    }

    /** Listen, then back off, drop or transmit. */
    method Send(p: Pass, m: Modulation) returns (sent: bool)
      requires Valid() && pendingValid && Estimates(p.air, m) && Cleared(State(), p)
      modifies this`pendingValid, this`busy, this`startMs, this`nextAllowed, this`backoffUntil
      ensures Valid() && State() == Try(limits, old(State()), p)
      ensures sent <==> Outcome(limits, old(State()), p) == Transmitted
    {
      sent := false;
      if p.detected {
        backoffUntil := (p.at.act + p.wait) % TWO32;
        return;
      }
      var air := EstimateAirtimeMs(|pending.data|, m);
      assert air == p.air(|pending.data|);
      if p.us && limits.lorawan && air > US_DWELL_MS {
        pendingValid := false;
        return;
      }
      if !p.started {
        pendingValid := false;
        return;
      }
      var start: u32 := p.at.act % TWO32;
      var gap := Throttle(air);
      busy, startMs, pendingValid := true, start, false;
      nextAllowed := (start + gap) % TWO32;
      sent := true;
    }

    method TrySend(p: Pass, m: Modulation) returns (sent: bool)
      requires Valid() && Estimates(p.air, m)
      modifies this`pendingValid, this`busy, this`startMs, this`nextAllowed, this`backoffUntil
      ensures Valid() && State() == Try(limits, old(State()), p)
      ensures sent <==> old(State()).latch.Some? && Outcome(limits, old(State()), p) == Transmitted
    {
      sent := false;
      if pendingValid && !p.rxWaiting {
        var quiet := Due(p.at.backoff, backoffUntil);
        var allowed := Due(p.at.gap, nextAllowed);
        if quiet && allowed { sent := Send(p, m); }
      }
    }

    /** One pass of the loop. */
    method Turn(p: Pass, m: Modulation) returns (sent: bool)
      requires Valid() && Estimates(p.air, m)
      modifies this, queue
      ensures Valid() && State() == Schedule(limits, old(State()), p)
      ensures queue.ring == old(queue.ring)
      ensures sent <==> !old(busy) && State().busy
    {
      if busy { return false; }
      Refill(p.at.pop);
      ExpireLatch(p.at.stale);
      sent := TrySend(p, m);
    }
  }
}
