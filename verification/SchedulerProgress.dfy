/** When a radio does transmit: exactly which passes start a packet, and when a radio is held back. */
module SchedulerProgress {
  import opened Bytes
  import opened RouteFifo
  import opened Scheduler

  /** A deadline counts as passed for 2^31 ms, and for the next 2^31 ms as still to come. */
  predicate Passed(now: nat, deadline: nat) {
    (now - deadline) % TWO32 < HALF
  }

  lemma ReachedIsPassed(now: nat, deadline: nat)
    ensures Reached(now, deadline % TWO32) <==> Passed(now, deadline)
  {
    assert deadline == TWO32 * (deadline / TWO32) + deadline % TWO32;
    assert now - deadline % TWO32 == TWO32 * (deadline / TWO32) + (now - deadline);
  }

  /** Within the clock cycle after a deadline, it is seen as passed exactly for the first half. */
  lemma PassedIff(now: nat, deadline: nat)
    requires deadline <= now < deadline + TWO32
    ensures Passed(now, deadline) <==> now < deadline + HALF
  {
  }

  // ---- the deadlines in true time ------------------------------------------------------------

  /** What the latch holds once refilled and checked for age. */
  function Ready(l: Limits, w: World, p: Pass): Radio {
    Expire(l, Fill(l, w.radio, p.at.pop), p.at.stale)
  }

  /** The end of the last transmission's gap; 0 before the first. */
  function Deadline(w: World): nat {
    if w.starts == [] then 0 else w.starts[|w.starts| - 1].at + w.starts[|w.starts| - 1].gap
  }

  predicate BacksOff(l: Limits, w: World, p: Pass) {
    !w.radio.busy && Cleared(Ready(l, w, p), p) && p.detected
  }

  /** The end of the last wait for a busy channel; 0 before the first. */
  function Backoff(l: Limits, es: seq<Event>): nat {
    if es == [] then 0
    else
      var front, e := es[..|es| - 1], es[|es| - 1];
      if e.Turn? && BacksOff(l, Run(l, front), e.pass) then e.pass.at.act + e.pass.wait else Backoff(l, front)
  }

  /** A pass of the idle radio is a try with what is ready. */
  lemma TurnTries(l: Limits, w: World, p: Pass)
    requires !w.radio.busy
    ensures var w' := OnExpire(l, OnFill(l, w, p.at.pop), p.at.stale);
            w'.radio == Ready(l, w, p) && w'.starts == w.starts && Step(l, w, Turn(p)) == OnTry(l, w', p)
  {
  }

  lemma DeadlineStep(l: Limits, w: World, e: Event)
    requires w.radio.nextAllowed == Deadline(w) % TWO32
    ensures Step(l, w, e).radio.nextAllowed == Deadline(Step(l, w, e)) % TWO32
  {
    if e.Turn? && !w.radio.busy {
      TurnTries(l, w, e.pass);
      var r := Ready(l, w, e.pass);
      if r.latch.Some? { WrappedStart(e.pass.at.act, Gap(l, e.pass.air(|r.latch.value.data|))); }
    }
  }

  lemma {:induction false} DeadlineKept(l: Limits, es: seq<Event>)
    ensures Run(l, es).radio.nextAllowed == Deadline(Run(l, es)) % TWO32
  {
    if es != [] {
      DeadlineKept(l, es[..|es| - 1]);
      DeadlineStep(l, Run(l, es[..|es| - 1]), es[|es| - 1]);
    }
  }

  lemma BackoffStep(l: Limits, w: World, e: Event, d: nat)
    requires w.radio.backoffUntil == d % TWO32
    ensures Step(l, w, e).radio.backoffUntil
         == (if e.Turn? && BacksOff(l, w, e.pass) then e.pass.at.act + e.pass.wait else d) % TWO32
  {
    if e.Turn? && !w.radio.busy { TurnTries(l, w, e.pass); }
  }

  lemma {:induction false} BackoffKept(l: Limits, es: seq<Event>)
    ensures Run(l, es).radio.backoffUntil == Backoff(l, es) % TWO32
  {
    if es != [] {
      var front := es[..|es| - 1];
      BackoffKept(l, front);
      BackoffStep(l, Run(l, front), es[|es| - 1], Backoff(l, front));
    }
  }

  // ---- which passes transmit ---------------------------------------------------------------------

  /** A packet is ready exactly when the latched one, or the first fresh one queued, is still fresh. */
  lemma ReadyIff(l: Limits, w: World, p: Pass)
    ensures var q, n := w.radio.queue, StalePrefix(w.radio.queue, p.at.pop, l.maxAge);
            Ready(l, w, p).latch.Some? <==>
            if w.radio.latch.Some? then !Stale(w.radio.latch.value, p.at.stale, l.maxAge)
            else n < |q| && !Stale(q[n], p.at.stale, l.maxAge)
  {
  }

  /** The radio and its surroundings let the ready packet go: nothing to read, channel clear, no dwell limit, the chip obeys. */
  predicate Willing(l: Limits, w: World, p: Pass) {
    var r := Ready(l, w, p);
    r.latch.Some? && !p.rxWaiting && !p.detected && !Dwells(l, r, p) && p.started
  }

  /**
   After any run, a pass of the idle radio starts a transmission exactly when a fresh packet is
   ready, the radio is willing, and both deadlines count as passed.
   */
  lemma StartsIff(l: Limits, es: seq<Event>, p: Pass)
    requires !Run(l, es).radio.busy
    ensures var w, w' := Run(l, es), Run(l, es + [Turn(p)]);
            |w'.starts| == |w.starts| +
              (if Willing(l, w, p) && Passed(p.at.gap, Deadline(w)) && Passed(p.at.backoff, Backoff(l, es)) then 1 else 0)
  {
    var w := Run(l, es);
    assert (es + [Turn(p)])[..|es + [Turn(p)]| - 1] == es;
    TurnTries(l, w, p);
    DeadlineKept(l, es);
    BackoffKept(l, es);
    ReachedIsPassed(p.at.gap, Deadline(w));
    ReachedIsPassed(p.at.backoff, Backoff(l, es));
  }

  /**
   A radio that has not transmitted for 2^31 ms after its last gap is held back for another 2^31 ms,
   whatever is queued and however clear the channel.
   */
  lemma HeldBack(l: Limits, es: seq<Event>, p: Pass)
    requires !Run(l, es).radio.busy
    requires Deadline(Run(l, es)) + HALF <= p.at.gap < Deadline(Run(l, es)) + TWO32
    ensures |Run(l, es + [Turn(p)]).starts| == |Run(l, es).starts|
  {
    StartsIff(l, es, p);
    PassedIff(p.at.gap, Deadline(Run(l, es)));
  }
}
