/**
 The transmit token of one remote radio: the host hands over one frame and waits for
 TX_DONE; the co-processor queues, senses, transmits and answers. Frames of the link may
 be lost, the radio reconfigured, and either end rebooted at any moment.
 */
module LinkToken {
  import opened Bytes

  const TX_Q_DEPTH := 4
  const LORA_MAX := 256

  /** Host gate, frames on the wire, co-processor queue and radio, answers on the wire. */
  datatype State = State(
    busy: bool, txDone: bool,                       // g_txBusy, _txDone
    toCo: seq<seq<u8>>,                             // MSG_TX frames in flight
    queue: seq<seq<u8>>, active: bool, enabled: bool, // g_txq, g_txActive, g_enabled
    toHost: nat)                                    // MSG_TX_DONE frames in flight

  const START := State(false, true, [], [], false, false, 0)

  datatype Event =
    | HostStart(job: seq<u8>, sent: bool)           // arm the gate and send; a short write sends nothing
    | HostPoll(timedOut: bool)
    | HostReboot
    | HostTakeDone
    | LoseTx(i: nat)
    | LoseDone
    | CoTakeTx
    | CoConfigure(up: bool)                         // applied, disabled, or failed to begin
    | CoService                                     // transmission done or timed out
    | CoDispatch(started: bool)                     // channel clear
    | CoReboot(up: bool)

  function Cut(job: seq<u8>): seq<u8> {
    if |job| > LORA_MAX then job[..LORA_MAX] else job
  }

  /** The co-processor's queue rejects what arrives when it is full. */
  predicate Full(s: State) { |s.queue| >= TX_Q_DEPTH }

  function Step(s: State, e: Event): State {
    match e
    case HostStart(job, sent) =>
      if s.busy then s
      else if sent then s.(busy := true, txDone := false, toCo := s.toCo + [job])
      else s.(txDone := false)
    case HostPoll(timedOut) => if s.busy && (s.txDone || timedOut) then s.(busy := false) else s
    case HostReboot => s.(busy := false, txDone := true)
    case HostTakeDone => if s.toHost > 0 then s.(toHost := s.toHost - 1, txDone := true) else s
    case LoseTx(i) => if i < |s.toCo| then s.(toCo := s.toCo[..i] + s.toCo[i + 1..]) else s
    case LoseDone => if s.toHost > 0 then s.(toHost := s.toHost - 1) else s
    case CoTakeTx =>
      if s.toCo == [] then s
      else
        var t := s.(toCo := s.toCo[1..]);
        if !s.enabled || Full(s) then t.(toHost := s.toHost + 1)
        else t.(queue := s.queue + [Cut(s.toCo[0])])
    case CoConfigure(up) => s.(active := false, enabled := up)
    case CoService => if s.active then s.(active := false, toHost := s.toHost + 1) else s
    case CoDispatch(started) =>
      if s.active || !s.enabled || s.queue == [] then s
      else if started then s.(queue := s.queue[1..], active := true)
      else s.(queue := s.queue[1..], toHost := s.toHost + 1)
    case CoReboot(up) => s.(queue := [], active := false, enabled := up)
  }

  function Run(es: seq<Event>): State {
    if es == [] then START else Step(Run(es[..|es| - 1]), es[|es| - 1])
  }

  // ---- how many tokens there can be ---------------------------------------------------

  /** A token is a frame on the wire, queued or on the air, or an answer on the way back. */
  function Tokens(s: State): nat {
    |s.toCo| + |s.queue| + (if s.active then 1 else 0) + s.toHost
  }

  predicate Waiting(s: State) { s.busy && !s.txDone }

  /** The host gave up on a token that may still be about: a timeout or its own reboot. */
  predicate GivesUp(s: State, e: Event) {
    Waiting(s) && (e == HostPoll(true) || e == HostReboot)
  }

  function GiveUps(es: seq<Event>): nat {
    if es == [] then 0
    else GiveUps(es[..|es| - 1]) + (if GivesUp(Run(es[..|es| - 1]), es[|es| - 1]) then 1 else 0)
  }

  lemma StepTokens(s: State, e: Event, g: nat)
    requires Tokens(s) <= g + (if Waiting(s) then 1 else 0)
    ensures Tokens(Step(s, e)) <= g + (if GivesUp(s, e) then 1 else 0) + (if Waiting(Step(s, e)) then 1 else 0)
  {
  }

  /**
   Over every run, the tokens about are at most one per time the host gave up, plus one
   while it is waiting.
   */
  lemma {:induction false} TokensBounded(es: seq<Event>)
    ensures Tokens(Run(es)) <= GiveUps(es) + (if Waiting(Run(es)) then 1 else 0)
  {
    if es != [] {
      TokensBounded(es[..|es| - 1]);
      StepTokens(Run(es[..|es| - 1]), es[|es| - 1], GiveUps(es[..|es| - 1]));
    }
  }

  /** As long as the host never gives up there is at most one token, and only while it waits. */
  lemma OneToken(es: seq<Event>)
    requires GiveUps(es) == 0
    ensures Tokens(Run(es)) <= 1
    ensures Tokens(Run(es)) == 1 ==> Waiting(Run(es))
    ensures |Run(es).queue| <= 1
  {
    TokensBounded(es);
  }

  /** The next event would find the co-processor's queue full and drop a frame. */
  predicate Overflows(s: State, e: Event) {
    e == CoTakeTx && s.toCo != [] && s.enabled && Full(s)
  }

  lemma RunAppend(es: seq<Event>, e: Event)
    ensures Run(es + [e]) == Step(Run(es), e)
    ensures GiveUps(es + [e]) == GiveUps(es) + (if GivesUp(Run(es), e) then 1 else 0)
  {
    assert (es + [e])[..|es|] == es;
  }

  lemma RunAppend3(es: seq<Event>, a: Event, b: Event, c: Event)
    ensures var s := Run(es);
            var t := Step(s, a);
            var u := Step(t, b);
            && Run(es + [a, b, c]) == Step(u, c)
            && GiveUps(es + [a, b, c]) == GiveUps(es) + (if GivesUp(s, a) then 1 else 0)
                                        + (if GivesUp(t, b) then 1 else 0) + (if GivesUp(u, c) then 1 else 0)
  {
    RunAppend(es, a);
    RunAppend(es + [a], b);
    RunAppend(es + [a] + [b], c);
    assert es + [a] + [b] + [c] == es + [a, b, c];
  }

  /** Idle at the host, `n` jobs queued behind a busy channel. */
  predicate Piled(s: State, n: nat) {
    s.toCo == [] && |s.queue| == n && s.enabled && !s.active && !s.busy && s.toHost == 0
  }

  lemma PileOne(s: State, n: nat)
    requires Piled(s, n) && n < TX_Q_DEPTH
    ensures var t := Step(s, HostStart([0], true));
            var u := Step(t, CoTakeTx);
            && Piled(Step(u, HostPoll(true)), n + 1)
            && !GivesUp(s, HostStart([0], true)) && !GivesUp(t, CoTakeTx) && GivesUp(u, HostPoll(true))
  {
  }

  lemma PileMore(es: seq<Event>, n: nat)
    requires Piled(Run(es), n) && n < TX_Q_DEPTH
    ensures var more := es + [HostStart([0], true), CoTakeTx, HostPoll(true)];
            Piled(Run(more), n + 1) && GiveUps(more) == GiveUps(es) + 1
  {
    RunAppend3(es, HostStart([0], true), CoTakeTx, HostPoll(true));
    PileOne(Run(es), n);
  }

  lemma Booted()
    ensures Piled(Run([CoReboot(true)]), 0) && GiveUps([CoReboot(true)]) == 0
  {
    assert [CoReboot(true)][..0] == [];
  }

  /** A run of `n` transmissions the host gives up on while the channel stays busy. */
  lemma {:induction false} Impatient(n: nat) returns (es: seq<Event>)
    requires n <= TX_Q_DEPTH
    ensures Piled(Run(es), n) && GiveUps(es) == n
  {
    if n == 0 {
      Booted();
      es := [CoReboot(true)];
    } else {
      var front := Impatient(n - 1);
      PileMore(front, n - 1);
      es := front + [HostStart([0], true), CoTakeTx, HostPoll(true)];
    }
  }

  /** The queue can overflow after `g` give-ups exactly when g is at least its depth. */
  lemma OverflowNeedsFourGiveUps(g: nat)
    ensures g >= TX_Q_DEPTH <==> exists es: seq<Event> :: GiveUps(es) <= g && Overflows(Run(es), CoTakeTx)
  {
    if g >= TX_Q_DEPTH {
      var es := Impatient(TX_Q_DEPTH);
      RunAppend(es, HostStart([0], true));
      assert GiveUps(es + [HostStart([0], true)]) <= g;
      assert Overflows(Run(es + [HostStart([0], true)]), CoTakeTx);
    }
    forall es: seq<Event> | GiveUps(es) <= g && Overflows(Run(es), CoTakeTx) ensures g >= TX_Q_DEPTH {
      TokensBounded(es);
    }
  }

  // ---- is every frame answered? ----------------------------------------------------------

  predicate Arrives(s: State, e: Event) { e == CoTakeTx && s.toCo != [] }

  /** The co-processor sends a TX_DONE. */
  predicate Answers(s: State, e: Event) {
    || (e == CoTakeTx && s.toCo != [] && (!s.enabled || Full(s)))
    || (e == CoService && s.active)
    || (e == CoDispatch(false) && !s.active && s.enabled && s.queue != [])
  }

  /** Jobs a configuration or a reboot throws away without an answer. */
  function Discarded(s: State, e: Event): nat {
    match e
    case CoConfigure(_) => if s.active then 1 else 0
    case CoReboot(_) => |s.queue| + (if s.active then 1 else 0)
    case _ => 0
  }

  datatype Tally = Tally(arrived: nat, answered: nat, discarded: nat)

  function Count(es: seq<Event>): Tally {
    if es == [] then Tally(0, 0, 0)
    else
      var s, e, t := Run(es[..|es| - 1]), es[|es| - 1], Count(es[..|es| - 1]);
      Tally(t.arrived + (if Arrives(s, e) then 1 else 0),
            t.answered + (if Answers(s, e) then 1 else 0),
            t.discarded + Discarded(s, e))
  }

  function Outstanding(s: State): nat {
    |s.queue| + (if s.active then 1 else 0)
  }

  lemma TallyStep(s: State, e: Event)
    ensures Outstanding(Step(s, e)) + (if Answers(s, e) then 1 else 0) + Discarded(s, e)
         == Outstanding(s) + (if Arrives(s, e) then 1 else 0)
  {
  }

  /**
   Every frame that reaches the co-processor is answered once, is still queued or on the
   air, or was discarded by a configuration or reboot: none is answered twice.
   */
  lemma {:induction false} FramesAccounted(es: seq<Event>)
    ensures Count(es).arrived == Count(es).answered + Outstanding(Run(es)) + Count(es).discarded
  {
    if es != [] {
      FramesAccounted(es[..|es| - 1]);
      TallyStep(Run(es[..|es| - 1]), es[|es| - 1]);
    }
  }

  /** What the co-processor does by itself: finish what is on the air, dispatch what is queued. */
  ghost predicate OwnWork(es: seq<Event>) {
    forall k :: 0 <= k < |es| ==> es[k] == CoService || es[k].CoDispatch?
  }

  /** Left alone, the co-processor can still answer every frame that has reached it. */
  ghost predicate Answerable(es: seq<Event>) {
    exists more: seq<Event> :: OwnWork(more) && Count(es + more).arrived == Count(es + more).answered
  }

  /** Configuring a radio on the air, switching off one with jobs queued, restarting with either. */
  predicate Loses(s: State, e: Event) {
    match e
    case CoConfigure(up) => s.active || (!up && s.queue != [])
    case CoReboot(_) => s.active || s.queue != []
    case _ => false
  }

  ghost predicate Careful(es: seq<Event>) {
    forall n :: 0 <= n < |es| ==> !Loses(Run(es[..n]), es[n])
  }

  /** Nothing was thrown away, and what is queued can be dispatched. */
  predicate Whole(es: seq<Event>) {
    Count(es).discarded == 0 && (Run(es).queue == [] || Run(es).enabled)
  }

  lemma CountAppend(es: seq<Event>, e: Event)
    ensures Run(es + [e]) == Step(Run(es), e)
    ensures Count(es + [e]).discarded == Count(es).discarded + Discarded(Run(es), e)
  {
    assert (es + [e])[..|es|] == es;
  }

  lemma {:induction false} CarefulIsWhole(es: seq<Event>)
    requires Careful(es)
    ensures Whole(es)
  {
    if es != [] {
      var front, e := es[..|es| - 1], es[|es| - 1];
      forall n | 0 <= n < |front| ensures !Loses(Run(front[..n]), front[n]) {
        assert front[..n] == es[..n];
      }
      CarefulIsWhole(front);
      assert !Loses(Run(es[..|front|]), es[|front|]);
    }
  }

  function Work(s: State): nat {
    2 * |s.queue| + (if s.active then 1 else 0)
  }

  lemma NextWork(es: seq<Event>) returns (e: Event)
    requires Whole(es) && Outstanding(Run(es)) > 0
    ensures e == CoService || e.CoDispatch?
    ensures Whole(es + [e]) && Work(Run(es + [e])) < Work(Run(es))
  {
    e := if Run(es).active then CoService else CoDispatch(true);
    CountAppend(es, e);
  }

  lemma WorkMore(es: seq<Event>, e: Event, rest: seq<Event>)
    requires (e == CoService || e.CoDispatch?) && OwnWork(rest)
    ensures OwnWork([e] + rest) && es + ([e] + rest) == es + [e] + rest
  {
  }

  /** What is whole can be worked off. */
  lemma {:induction false} Drains(es: seq<Event>) returns (more: seq<Event>)
    requires Whole(es)
    ensures OwnWork(more) && Outstanding(Run(es + more)) == 0 && Whole(es + more)
    decreases Work(Run(es))
  {
    if Outstanding(Run(es)) == 0 {
      more := [];
      assert es + [] == es;
    } else {
      var e := NextWork(es);
      var rest := Drains(es + [e]);
      WorkMore(es, e, rest);
      more := [e] + rest;
    }
  }

  /** What is not whole stays so, however long the co-processor works. */
  lemma {:induction false} StaysBroken(es: seq<Event>, more: seq<Event>)
    requires !Whole(es) && OwnWork(more)
    ensures !Whole(es + more)
  {
    if more == [] {
      assert es + more == es;
    } else {
      var front, e := more[..|more| - 1], more[|more| - 1];
      StaysBroken(es, front);
      assert es + more == es + front + [e];
      CountAppend(es + front, e);
    }
  }

  lemma AnswerableIff(es: seq<Event>)
    ensures Answerable(es) <==> Whole(es)
  {
    if Whole(es) {
      var more := Drains(es);
      FramesAccounted(es + more);
    } else {
      forall more | OwnWork(more) ensures Count(es + more).arrived != Count(es + more).answered {
        StaysBroken(es, more);
        FramesAccounted(es + more);
      }
    }
  }

  lemma CarefulAnswers(es: seq<Event>, n: nat)
    requires Careful(es) && n <= |es|
    ensures Answerable(es[..n])
  {
    forall m | 0 <= m < n ensures !Loses(Run(es[..n][..m]), es[..n][m]) {
      assert es[..n][..m] == es[..m];
    }
    CarefulIsWhole(es[..n]);
    AnswerableIff(es[..n]);
  }

  lemma LosingBreaks(es: seq<Event>, e: Event)
    requires Loses(Run(es), e)
    ensures !Whole(es + [e])
  {
    CountAppend(es, e);
  }

  /**
   At every moment of a run the co-processor can still answer all that has reached it exactly
   when no radio was configured while on the air, none was switched off (or failed to start)
   with jobs queued, and the co-processor was not restarted with anything outstanding.
   */
  lemma AllAnsweredIff(es: seq<Event>)
    ensures (forall n :: 0 <= n <= |es| ==> Answerable(es[..n])) <==> Careful(es)
  {
    if Careful(es) {
      forall n | 0 <= n <= |es| ensures Answerable(es[..n]) { CarefulAnswers(es, n); }
    } else {
      var n :| 0 <= n < |es| && Loses(Run(es[..n]), es[n]);
      LosingBreaks(es[..n], es[n]);
      assert es[..n + 1] == es[..n] + [es[n]];
      AnswerableIff(es[..n + 1]);
    }
  }

  /** Events in which the host neither gives up nor is rebooted. */
  ghost predicate Patient(es: seq<Event>) {
    forall k :: 0 <= k < |es| ==> es[k] != HostPoll(true) && es[k] != HostReboot
  }

  function RunFrom(s: State, es: seq<Event>): State {
    if es == [] then s else Step(RunFrom(s, es[..|es| - 1]), es[|es| - 1])
  }

  /** Once its only token is discarded, a waiting host stays waiting until it gives up. */
  lemma {:induction false} DiscardWedgesUntilGiveUp(s: State, es: seq<Event>)
    requires Waiting(s) && Tokens(s) == 0 && Patient(es)
    ensures Waiting(RunFrom(s, es)) && Tokens(RunFrom(s, es)) == 0
  {
    if es != [] {
      assert Patient(es[..|es| - 1]);
      DiscardWedgesUntilGiveUp(s, es[..|es| - 1]);
    }
  }

  /** A reconfiguration during a transmission is such a discard: no answer ever comes. */
  lemma ReconfigureWedges(job: seq<u8>, up: bool, es: seq<Event>)
    requires Patient(es)
    ensures var sending := [CoReboot(true), HostStart(job, true), CoTakeTx, CoDispatch(true), CoConfigure(up)];
            Waiting(RunFrom(RunFrom(START, sending), es)) && Tokens(RunFrom(RunFrom(START, sending), es)) == 0
  {
    var e1, e2, e3, e4, e5 := CoReboot(true), HostStart(job, true), CoTakeTx, CoDispatch(true), CoConfigure(up);
    var s5 := [e1, e2, e3, e4, e5];
    assert s5[..4] == [e1, e2, e3, e4] && s5[..4][..3] == [e1, e2, e3];
    assert [e1, e2, e3][..2] == [e1, e2] && [e1, e2][..1] == [e1] && [e1][..0] == [];
    var s1 := Step(START, e1);
    assert RunFrom(START, [e1]) == s1;
    var s2 := Step(s1, e2);
    assert RunFrom(START, [e1, e2]) == s2;
    var s3 := Step(s2, e3);
    assert RunFrom(START, [e1, e2, e3]) == s3;
    var s4 := Step(s3, e4);
    assert RunFrom(START, [e1, e2, e3, e4]) == s4;
    assert RunFrom(START, s5) == Step(s4, e5);
    assert s2.toCo == [job] && s3.toCo == [] && |s3.queue| == 1 && s4.queue == [] && s4.active;
    DiscardWedgesUntilGiveUp(Step(s4, e5), es);
  }

  /** No radio is switched on again, and neither end restarted. */
  ghost predicate LeftOff(es: seq<Event>) {
    forall k :: 0 <= k < |es| ==> es[k] != CoConfigure(true) && !es[k].CoReboot?
  }

  /** A job queued on a radio that is off, and the host waiting for it. */
  predicate Stranded(s: State) {
    Waiting(s) && !s.enabled && !s.active && s.toCo == [] && s.toHost == 0 && |s.queue| == 1
  }

  lemma {:induction false} StrandedStays(s: State, es: seq<Event>)
    requires Stranded(s) && Patient(es) && LeftOff(es)
    ensures Stranded(RunFrom(s, es))
  {
    if es != [] {
      assert Patient(es[..|es| - 1]) && LeftOff(es[..|es| - 1]);
      StrandedStays(s, es[..|es| - 1]);
    }
  }

  /**
   Switching a radio off, or failing to start it, with a job queued behind a busy channel: the
   token is never lost and never answered.
   */
  lemma DisableStrands(job: seq<u8>, es: seq<Event>)
    requires Patient(es) && LeftOff(es)
    ensures var off := [CoReboot(true), HostStart(job, true), CoTakeTx, CoConfigure(false)];
            && Count(off) == Tally(1, 0, 0) && Stranded(Run(off)) && Stranded(RunFrom(Run(off), es))
  {
    var e1, e2, e3, e4 := CoReboot(true), HostStart(job, true), CoTakeTx, CoConfigure(false);
    var off := [e1, e2, e3, e4];
    assert off[..3] == [e1, e2, e3] && [e1, e2, e3][..2] == [e1, e2] && [e1, e2][..1] == [e1] && [e1][..0] == [];
    assert Run([e1]) == Step(START, e1) && Count([e1]) == Tally(0, 0, 0);
    assert Run([e1, e2]) == Step(Step(START, e1), e2) && Count([e1, e2]) == Tally(0, 0, 0);
    assert Run([e1, e2, e3]) == Step(Step(Step(START, e1), e2), e3) && Count([e1, e2, e3]) == Tally(1, 0, 0);
    assert Run(off) == Step(Run([e1, e2, e3]), e4);
    StrandedStays(Run(off), es);
  }
}
