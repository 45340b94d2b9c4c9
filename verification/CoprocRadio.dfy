/**
 The co-processor's transmit path for one radio: a four-slot ring of jobs, the in-flight
 flag, and the answers written to the link, as the firmware stores them.
 */
module CoprocRadio {
  import opened Bytes
  import opened LinkToken
  import opened Rings

  class Radio {
    var slots: array<seq<u8>>         // g_txq
    var head: nat
    var tail: nat
    var count: nat
    var active: bool
    var enabled: bool
    var answers: nat                  // TX_DONE frames written so far

    ghost predicate Valid()
      reads this
    {
      && slots.Length == TX_Q_DEPTH
      && head < TX_Q_DEPTH && tail < TX_Q_DEPTH && count <= TX_Q_DEPTH
      && tail == Wrap(head + count, TX_Q_DEPTH)
    }

    /** The queued jobs, oldest first. */
    ghost function Jobs(): (q: seq<seq<u8>>)
      requires Valid()
      reads this, slots
      ensures |q| == count
    {
      Unroll(slots[..], head, count)
    }

    /** The co-processor's part of the protocol state. */
    ghost predicate Matches(s: State)
      requires Valid()
      reads this, slots
    {
      s.queue == Jobs() && s.active == active && s.enabled == enabled
    }

    constructor (up: bool)
      ensures Valid() && Jobs() == [] && !active && enabled == up && answers == 0 && fresh(slots)
    {
      slots := new seq<u8>[TX_Q_DEPTH](_ => []);
      head, tail, count, active, enabled, answers := 0, 0, 0, false, up, 0;
    }

    method Push(job: seq<u8>) returns (ok: bool)
      requires Valid()
      modifies this`tail, this`count, slots
      ensures Valid() && ok == (old(count) < TX_Q_DEPTH)
      ensures Jobs() == if ok then old(Jobs()) + [Cut(job)] else old(Jobs())
    {
      if count >= TX_Q_DEPTH { return false; }
      UnrollPush(slots[..], head, count, Cut(job));
      ghost var ring := slots[..];
      slots[tail] := Cut(job);
      assert slots[..] == ring[tail := Cut(job)];
      WrapIsMod(tail + 1, TX_Q_DEPTH);
      tail := (tail + 1) % TX_Q_DEPTH;
      count := count + 1;
      ok := true;
    }

    method Pop()
      requires Valid() && count > 0
      modifies this`head, this`count
      ensures Valid() && Jobs() == old(Jobs())[1..]
    {
      UnrollPop(slots[..], head, count);
      WrapIsMod(head + 1, TX_Q_DEPTH);
      head := (head + 1) % TX_Q_DEPTH;
      count := count - 1;
    }

    /** MSG_TX: queue it, or answer at once when disabled or full. */
    method HandleTx(job: seq<u8>, ghost s: State)
      requires Valid() && Matches(s) && s.toCo != [] && s.toCo[0] == job
      modifies this, slots
      ensures Valid() && slots == old(slots)
      ensures Matches(Step(s, CoTakeTx))
      ensures answers - old(answers) == Step(s, CoTakeTx).toHost - s.toHost
    {
      if !enabled {
        answers := answers + 1;
      } else {
        var ok := Push(job);
        if !ok { answers := answers + 1; }
      }
    }

    /** CFG_RADIO: re-tune or disable; whatever was on the air is forgotten. */
    method Configure(up: bool, ghost s: State)
      requires Valid() && Matches(s)
      modifies this`active, this`enabled
      ensures Valid() && Matches(Step(s, CoConfigure(up)))
    {
      active := false;
      enabled := up;
    }

    /** One pass of the transmit part of loop(): finish what is on the air, else dispatch. */
    method Service(finished: bool, clear: bool, started: bool, ghost s: State)
      requires Valid() && Matches(s)
      modifies this
      ensures Valid() && slots == old(slots)
      ensures var e := if s.active then CoService else CoDispatch(started);
              var quiet := if s.active then !finished else !clear;
              && Matches(if quiet then s else Step(s, e))
              && answers - old(answers) == (if quiet then 0 else Step(s, e).toHost - s.toHost)
    {
      if active {
        if finished {
          active := false;
          answers := answers + 1;
        }
        return;
      }
      if enabled && count > 0 && clear {
        if started {
          active := true;
          Pop();
        } else {
          Pop();
          answers := answers + 1;
        }
      }
    }
  }
}
