/**
 One radio's transmit scheduler: queue, latch, listen-before-talk, duty throttle. Clock
 readings are unbounded naturals; the stored deadlines are 32-bit, as in the firmware.
 */
module Scheduler {
  import opened Bytes
  import opened RouteFifo
  import opened Airtime
  import Products

  const HALF := 0x8000_0000
  const US_DWELL_MS := 400

  /** Queue depth and age limit, duty percentage, minimum gap, in-flight timeout; the radio's protocol. */
  datatype Limits = Limits(cap: nat, maxAge: nat, duty: nat, minGap: nat, inflight: nat, lorawan: bool)

  const DEFAULTS := Limits(64, 30000, 50, 0, 10000, false)

  datatype Radio = Radio(
    queue: seq<Entry>,
    latch: Option<Entry>,        // g_txPending, g_txPendingValid
    busy: bool, startMs: u32,    // g_txBusy, g_txStartMs
    nextAllowed: u32,            // g_nextTxAllowedMs
    backoffUntil: u32)           // g_txBackoffUntil

  const IDLE := Radio([], None, false, 0, 0, 0)

  /** The clock readings of one pass through the scheduler, in the order they are taken. */
  datatype Readings = Readings(pop: nat, stale: nat, backoff: nat, gap: nat, act: nat)

  /** What the radio and the settings answer during one pass; `air` is the time on air by packet length. */
  datatype Pass = Pass(at: Readings, rxWaiting: bool, detected: bool, wait: nat, started: bool, air: nat -> nat, us: bool)

  // ---- deadlines and gaps ---------------------------------------------------------------

  /** `(int32_t)(now - deadline) >= 0`. */
  predicate Reached(now: nat, deadline: u32) {
    (now - deadline) % TWO32 < HALF
  }

  /** The time a percentage of which is `air`, on 32 bits. */
  function Share(air: nat, duty: nat): nat
    requires duty > 0
  {
    air * 100 % TWO32 / duty
  }

  /** Milliseconds from one start to the earliest next one, on 32 bits. */
  function Gap(l: Limits, air: nat): nat {
    var g := if l.duty > 0 then Share(air, l.duty) else air;
    if g < (air + l.minGap) % TWO32 then (air + l.minGap) % TWO32 else g
  }

  // ---- one pass --------------------------------------------------------------------------

  datatype Fate = Overflowed | Expired | Latched | LatchExpired | DwellBlocked | StartFailed | Transmitted

  /** The latch refilled from the queue. */
  function Fill(l: Limits, r: Radio, t: nat): Radio {
    if r.latch.Some? then r
    else
      var p := PopFrom(r.queue, t, l.maxAge);
      r.(queue := p.rest, latch := p.out)
  }

  /** Stale entries discarded by Fill. */
  function Discards(l: Limits, r: Radio, t: nat): nat {
    if r.latch.Some? then 0 else StalePrefix(r.queue, t, l.maxAge)
  }

  predicate LatchStale(l: Limits, r: Radio, t: nat) {
    r.latch.Some? && Stale(r.latch.value, t, l.maxAge)
  }

  function Expire(l: Limits, r: Radio, t: nat): Radio {
    if LatchStale(l, r, t) then r.(latch := None) else r
  }

  /** May this pass try to transmit? */
  predicate Cleared(r: Radio, p: Pass) {
    r.latch.Some? && !p.rxWaiting && Reached(p.at.backoff, r.backoffUntil) && Reached(p.at.gap, r.nextAllowed)
  }

  predicate Dwells(l: Limits, r: Radio, p: Pass)
    requires r.latch.Some?
  {
    p.us && l.lorawan && p.air(|r.latch.value.data|) > US_DWELL_MS
  }

  /** What becomes of the latched entry. */
  function Outcome(l: Limits, r: Radio, p: Pass): Fate
    requires r.latch.Some?
  {
    if !Cleared(r, p) || p.detected then Latched
    else if Dwells(l, r, p) then DwellBlocked
    else if p.started then Transmitted
    else StartFailed
  }

  function Try(l: Limits, r: Radio, p: Pass): Radio {
    if r.latch.None? then r
    else
      match Outcome(l, r, p)
      case Latched => if Cleared(r, p) then r.(backoffUntil := (p.at.act + p.wait) % TWO32) else r
      case Transmitted =>
        var start := p.at.act % TWO32;
        r.(latch := None, busy := true, startMs := start,
           nextAllowed := (start + Gap(l, p.air(|r.latch.value.data|))) % TWO32)
      case _ => r.(latch := None)
  }

  function Schedule(l: Limits, r: Radio, p: Pass): Radio {
    if r.busy then r else Try(l, Expire(l, Fill(l, r, p.at.pop), p.at.stale), p)
  }

  predicate TimedOut(l: Limits, r: Radio, t: nat) {
    (t - r.startMs) % TWO32 > l.inflight
  }

  function Poll(l: Limits, r: Radio, done: bool, t: nat): Radio {
    if r.busy && (done || TimedOut(l, r, t)) then r.(busy := false) else r
  }

  // ---- whole runs, with the fate of every packet -------------------------------------------

  datatype Event =
    | Push(data: seq<u8>, at: nat)      // from any radio's fan-out
    | Service(done: bool, at: nat)      // a pass while transmitting
    | Turn(pass: Pass)                  // a pass otherwise

  datatype Pushed = Pushed(entry: Entry, at: nat)

  /** A transmission: which packet, when its age was checked, its start, airtime and imposed gap. */
  datatype Start = Start(id: nat, checkedAt: nat, at: nat, air: nat, gap: nat)

  /**
   The radio, every packet ever pushed, the fate of each that has left the queue (packets
   leave in the order they came), the one in the latch, and the starts and ends so far.
   */
  datatype World = World(radio: Radio, pushed: seq<Pushed>, fates: seq<Fate>, latchId: nat, starts: seq<Start>, ended: nat)

  const BOOT := World(IDLE, [], [], 0, [], 0)

  function Repeat(f: Fate, n: nat): (r: seq<Fate>)
    ensures |r| == n
  {
    seq(n, _ => f)
  }

  function OnPush(l: Limits, w: World, data: seq<u8>, t: nat): World {
    if !Sendable(data) then w
    else
      var e := Entry(data, t % TWO32);
      w.(radio := w.radio.(queue := PushTo(w.radio.queue, l.cap, e)),
         pushed := w.pushed + [Pushed(e, t)],
         fates := w.fates + Repeat(Overflowed, Overflow(w.radio.queue, l.cap)))
  }

  function OnService(l: Limits, w: World, done: bool, t: nat): World {
    var r := Poll(l, w.radio, done, t);
    w.(radio := r, ended := w.ended + (if w.radio.busy && !r.busy then 1 else 0))
  }

  function OnFill(l: Limits, w: World, t: nat): World {
    var r, n := Fill(l, w.radio, t), Discards(l, w.radio, t);
    if w.radio.latch.Some? || r.latch.None? then w.(radio := r, fates := w.fates + Repeat(Expired, n))
    else w.(radio := r, fates := w.fates + Repeat(Expired, n) + [Latched], latchId := |w.fates| + n)
  }

  function StartOf(l: Limits, w: World, p: Pass): Start
    requires w.radio.latch.Some?
  {
    var air := p.air(|w.radio.latch.value.data|);
    Start(w.latchId, p.at.stale, p.at.act, air, Gap(l, air))
  }

  function Settle(w: World, f: Fate): World {
    if w.latchId < |w.fates| then w.(fates := w.fates[w.latchId := f]) else w
  }

  function OnExpire(l: Limits, w: World, t: nat): World {
    if LatchStale(l, w.radio, t) then Settle(w.(radio := Expire(l, w.radio, t)), LatchExpired) else w
  }

  function OnTry(l: Limits, w: World, p: Pass): World {
    if w.radio.latch.None? then w
    else
      var f, w' := Outcome(l, w.radio, p), w.(radio := Try(l, w.radio, p));
      if f == Transmitted then
        Settle(w'.(starts := w.starts + [StartOf(l, w, p)]), f)
      else Settle(w', f)
  }

  function Step(l: Limits, w: World, e: Event): World {
    match e
    case Push(data, t) => OnPush(l, w, data, t)
    case Service(done, t) => OnService(l, w, done, t)
    case Turn(p) => if w.radio.busy then w else OnTry(l, OnExpire(l, OnFill(l, w, p.at.pop), p.at.stale), p)
  }

  function Run(l: Limits, es: seq<Event>): World {
    if es == [] then BOOT else Step(l, Run(l, es[..|es| - 1]), es[|es| - 1])
  }

  // ---- conservation -------------------------------------------------------------------------

  /** The entries pushed so far. */
  function Entries(ps: seq<Pushed>): (r: seq<Entry>)
    ensures |r| == |ps|
  {
    seq(|ps|, i requires 0 <= i < |ps| => ps[i].entry)
  }

  /**
   Every packet pushed is still queued or has exactly one fate; the latched one is in the
   latch; overflow can only have struck behind it.
   */
  ghost predicate Accounted(w: World) {
    && |w.fates| <= |w.pushed|
    && w.radio.queue == Entries(w.pushed)[|w.fates|..]
    && (forall i :: 0 <= i < |w.fates| ==> (w.fates[i] == Latched <==> w.radio.latch.Some? && i == w.latchId))
    && (w.radio.latch.Some? ==> w.latchId < |w.fates| && w.pushed[w.latchId].entry == w.radio.latch.value)
  }

  /** The starts are exactly the packets marked transmitted, in the order they were pushed. */
  ghost predicate InOrder(w: World) {
    && (forall i, j :: 0 <= i < j < |w.starts| ==> w.starts[i].id < w.starts[j].id)
    && (forall k :: 0 <= k < |w.starts| ==> w.starts[k].id < |w.fates| && w.fates[w.starts[k].id] == Transmitted)
    && (forall i :: 0 <= i < |w.fates| && w.fates[i] == Transmitted ==> exists k :: 0 <= k < |w.starts| && w.starts[k].id == i)
    && (w.radio.latch.Some? ==> forall k :: 0 <= k < |w.starts| ==> w.starts[k].id < w.latchId)
  }

  /** Starts exceed ends by one exactly while a transmission is in flight. */
  ghost predicate OneInFlight(w: World) {
    |w.starts| == w.ended + (if w.radio.busy then 1 else 0)
  }

  ghost predicate Sound(w: World) {
    Accounted(w) && InOrder(w) && OneInFlight(w)
  }

  lemma PushKeeps(l: Limits, w: World, data: seq<u8>, t: nat)
    requires Sound(w)
    ensures Sound(OnPush(l, w, data, t))
  {
    if Sendable(data) {
      var n := |w.fates|;
      var e := Entry(data, t % TWO32);
      var ps := w.pushed + [Pushed(e, t)];
      assert Entries(ps)[n..] == Entries(w.pushed)[n..] + [e];
      assert Entries(ps)[n + 1..] == Entries(ps)[n..][1..];
      assert (w.radio.queue + [e])[Overflow(w.radio.queue, l.cap)..] == PushTo(w.radio.queue, l.cap, e) by {
        assert Overflow(w.radio.queue, l.cap) <= |w.radio.queue|;
      }
    }
  }

  lemma FillKeeps(l: Limits, w: World, t: nat)
    requires Sound(w)
    ensures Sound(OnFill(l, w, t))
    ensures OnFill(l, w, t).radio == Fill(l, w.radio, t)
  {
    if w.radio.latch.None? {
      FillAccounted(l, w, t);
      KeepsStarts(w, OnFill(l, w, t));
    }
  }

  lemma FillAccounted(l: Limits, w: World, t: nat)
    requires Accounted(w) && w.radio.latch.None?
    ensures Accounted(OnFill(l, w, t))
  {
    var q, n, m := w.radio.queue, StalePrefix(w.radio.queue, t, l.maxAge), |w.fates|;
    var es := Entries(w.pushed);
    QueueTail(es, q, m, n);
    if n < |q| {
      assert w.pushed[m + n].entry == es[m + n];
      var w' := OnFill(l, w, t);
      assert w'.fates == w.fates + Repeat(Expired, n) + [Latched];
      assert w'.radio.queue == es[|w'.fates|..];
    }
  }

  lemma QueueTail(es: seq<Entry>, q: seq<Entry>, m: nat, n: nat)
    requires m <= |es| && q == es[m..] && n <= |q|
    ensures n < |q| ==> es[m + n] == q[n] && es[m + n + 1..] == q[n + 1..]
    ensures n == |q| ==> es[m + n..] == []
  {
  }

  /** Fates only grew, by nothing transmitted, and the latched entry is behind every start. */
  lemma KeepsStarts(w: World, w': World)
    requires InOrder(w) && w'.starts == w.starts && w.fates <= w'.fates
    requires forall i :: |w.fates| <= i < |w'.fates| ==> w'.fates[i] != Transmitted
    requires w'.radio.latch.Some? ==> w'.latchId >= |w.fates| || (w.radio.latch.Some? && w'.latchId == w.latchId)
    ensures InOrder(w')
  {
    forall i | 0 <= i < |w'.fates| && w'.fates[i] == Transmitted
      ensures exists k :: 0 <= k < |w'.starts| && w'.starts[k].id == i
    {
      assert w.fates[i] == Transmitted;
    }
  }

  lemma SettleKeeps(w: World, f: Fate, r: Radio)
    requires Sound(w) && w.radio.latch.Some? && f != Latched && f != Transmitted
    requires r.latch == None && r.queue == w.radio.queue && r.busy == w.radio.busy
    ensures Sound(Settle(w.(radio := r), f))
  {
    var w' := Settle(w.(radio := r), f);
    forall i | 0 <= i < |w'.fates| && w'.fates[i] == Transmitted
      ensures exists k :: 0 <= k < |w'.starts| && w'.starts[k].id == i
    {
      assert w.fates[i] == Transmitted;
    }
  }

  lemma StartKeeps(w: World, s: Start, r: Radio)
    requires Sound(w) && w.radio.latch.Some? && !w.radio.busy && s.id == w.latchId
    requires r.latch == None && r.queue == w.radio.queue && r.busy
    ensures Sound(Settle(w.(radio := r, starts := w.starts + [s]), Transmitted))
  {
    var w' := Settle(w.(radio := r, starts := w.starts + [s]), Transmitted);
    forall i | 0 <= i < |w'.fates| && w'.fates[i] == Transmitted
      ensures exists k :: 0 <= k < |w'.starts| && w'.starts[k].id == i
    {
      if i == s.id {
        assert w'.starts[|w.starts|].id == i;
      } else {
        assert w.fates[i] == Transmitted;
        var k :| 0 <= k < |w.starts| && w.starts[k].id == i;
        assert w'.starts[k].id == i;
      }
    }
  }

  lemma TryKeeps(l: Limits, w: World, p: Pass)
    requires Sound(w) && !w.radio.busy
    ensures Sound(OnTry(l, w, p))
    ensures OnTry(l, w, p).radio == Try(l, w.radio, p)
  {
    if w.radio.latch.Some? {
      var f, r := Outcome(l, w.radio, p), Try(l, w.radio, p);
      if f == Transmitted {
        StartKeeps(w, StartOf(l, w, p), r);
      } else if f == Latched {
        assert w.fates[w.latchId := Latched] == w.fates;
      } else {
        SettleKeeps(w, f, r);
      }
    }
  }

  lemma StepKeeps(l: Limits, w: World, e: Event)
    requires Sound(w)
    ensures Sound(Step(l, w, e))
    ensures e.Turn? ==> Step(l, w, e).radio == Schedule(l, w.radio, e.pass)
  {
    match e
    case Push(data, t) => PushKeeps(l, w, data, t);
    case Service(done, t) =>
    case Turn(p) =>
      if !w.radio.busy {
        FillKeeps(l, w, p.at.pop);
        var w1 := OnFill(l, w, p.at.pop);
        if LatchStale(l, w1.radio, p.at.stale) { SettleKeeps(w1, LatchExpired, Expire(l, w1.radio, p.at.stale)); }
        TryKeeps(l, OnExpire(l, w1, p.at.stale), p);
      }
  }

  /**
   Over every run: each packet is queued or has exactly one fate, transmissions follow the
   order of pushing, none repeats, and at most one is in flight at any time.
   */
  lemma {:induction false} RunSound(l: Limits, es: seq<Event>)
    ensures Sound(Run(l, es))
  {
    if es != [] {
      RunSound(l, es[..|es| - 1]);
      StepKeeps(l, Run(l, es[..|es| - 1]), es[|es| - 1]);
    }
  }

  function CountOf(f: Fate, fates: seq<Fate>): nat {
    if fates == [] then 0 else CountOf(f, fates[..|fates| - 1]) + (if fates[|fates| - 1] == f then 1 else 0)
  }

  function Dropped(fates: seq<Fate>): nat {
    CountOf(Overflowed, fates) + CountOf(Expired, fates) + CountOf(LatchExpired, fates)
    + CountOf(DwellBlocked, fates) + CountOf(StartFailed, fates)
  }

  lemma {:induction false} EveryFateCounted(fates: seq<Fate>)
    ensures |fates| == Dropped(fates) + CountOf(Latched, fates) + CountOf(Transmitted, fates)
  {
    if fates != [] { EveryFateCounted(fates[..|fates| - 1]); }
  }

  /** One packet has the fate when it is the only one. */
  lemma {:induction false} CountOne(f: Fate, fates: seq<Fate>, at: int)
    requires forall i :: 0 <= i < |fates| ==> (fates[i] == f <==> i == at)
    ensures CountOf(f, fates) == if 0 <= at < |fates| then 1 else 0
  {
    if fates != [] { CountOne(f, fates[..|fates| - 1], at); }
  }

  /** As many packets have the fate as an increasing list of exactly their positions is long. */
  lemma {:induction false} CountListed(f: Fate, fates: seq<Fate>, ids: seq<nat>)
    requires Lists(f, fates, ids)
    ensures CountOf(f, fates) == |ids|
  {
    assert ids != [] ==> ids[0] < |fates|;
    if fates != [] {
      var n := |fates| - 1;
      if fates[n] == f {
        LastListed(f, fates, ids);
        CountListed(f, fates[..n], ids[..|ids| - 1]);
      } else {
        CountListed(f, fates[..n], ids);
      }
    }
  }

  ghost predicate Lists(f: Fate, fates: seq<Fate>, ids: seq<nat>) {
    && (forall i, j :: 0 <= i < j < |ids| ==> ids[i] < ids[j])
    && (forall k :: 0 <= k < |ids| ==> ids[k] < |fates| && fates[ids[k]] == f)
    && (forall i :: 0 <= i < |fates| && fates[i] == f ==> i in ids)
  }

  lemma LastListed(f: Fate, fates: seq<Fate>, ids: seq<nat>)
    requires Lists(f, fates, ids) && fates != [] && fates[|fates| - 1] == f
    ensures ids != [] && ids[|ids| - 1] == |fates| - 1
    ensures Lists(f, fates[..|fates| - 1], ids[..|ids| - 1])
  {
    var n := |fates| - 1;
    var k :| 0 <= k < |ids| && ids[k] == n;
    var last := |ids| - 1;
    assert ids[k] <= ids[last] < |fates|;
    forall i | 0 <= i < n && fates[..n][i] == f ensures i in ids[..last] {
      var j :| 0 <= j < |ids| && ids[j] == i;
      assert ids[..last][j] == i;
    }
  }

  /** Conservation: pushed = queued + latched + transmitted + dropped. */
  lemma PacketsConserved(l: Limits, es: seq<Event>)
    ensures var w := Run(l, es);
            |w.pushed| == |w.radio.queue| + (if w.radio.latch.Some? then 1 else 0) + |w.starts| + Dropped(w.fates)
  {
    RunSound(l, es);
    var w := Run(l, es);
    EveryFateCounted(w.fates);
    CountOne(Latched, w.fates, if w.radio.latch.Some? then w.latchId else -1);
    var ids := seq(|w.starts|, k requires 0 <= k < |w.starts| => w.starts[k].id);
    forall i | 0 <= i < |w.fates| && w.fates[i] == Transmitted ensures i in ids {
      var k :| 0 <= k < |w.starts| && w.starts[k].id == i;
      assert ids[k] == i;
    }
    CountListed(Transmitted, w.fates, ids);
  }

  // ---- time ---------------------------------------------------------------------------------

  function Latest(es: seq<Event>): nat {
    if es == [] then 0
    else
      var t := (match es[|es| - 1] case Push(_, at) => at case Service(_, at) => at case Turn(p) => p.at.act);
      if t > Latest(es[..|es| - 1]) then t else Latest(es[..|es| - 1])
  }

  /**
   The clock only goes forward for the radio's own task, which also never reads an earlier
   time than a packet it finds queued; bandwidths are ones the radio has.
   */
  ghost predicate Timely(es: seq<Event>) {
    es != [] ==>
      && Timely(es[..|es| - 1])
      && (match es[|es| - 1]
          case Push(_, _) => true
          case Service(_, at) => Latest(es[..|es| - 1]) <= at
          case Turn(p) => Latest(es[..|es| - 1]) <= p.at.pop && ReadInOrder(p.at) && Estimated(p.air))
  }

  ghost predicate ReadInOrder(r: Readings) {
    r.pop <= r.stale <= r.backoff <= r.gap <= r.act
  }

  /** The airtimes are the estimator's, for some bandwidth the radio has. */
  ghost predicate Estimated(air: nat -> nat) {
    exists m: Modulation :: Estimates(air, m) && m.bw >= 7.0
  }

  ghost predicate Estimates(air: nat -> nat, m: Modulation) {
    forall n: nat :: air(n) == AirMs(n, m)
  }

  /** A duty ceiling in percent and a minimum gap below twelve days. */
  ghost predicate Sensible(l: Limits) {
    1 <= l.duty <= 100 && l.minGap <= 0x4000_0000
  }

  ghost predicate Stamped(ps: seq<Pushed>, now: nat) {
    forall i :: 0 <= i < |ps| ==>
      ps[i].at <= now && ps[i].entry.enqueueMs == ps[i].at % TWO32 && Sendable(ps[i].entry.data)
  }

  /** Started after it was pushed and checked, when it was not stale; the gap is the airtime's. */
  ghost predicate Genuine(l: Limits, ps: seq<Pushed>, s: Start) {
    && s.id < |ps| && ps[s.id].at <= s.checkedAt <= s.at
    && !Stale(ps[s.id].entry, s.checkedAt, l.maxAge)
    && s.air <= 900_000 && s.gap == Gap(l, s.air)
  }

  ghost predicate AllGenuine(l: Limits, ps: seq<Pushed>, starts: seq<Start>) {
    forall k :: 0 <= k < |starts| ==> Genuine(l, ps, starts[k])
  }

  /** Each start waits out the gap of the one before, and the deadline is that of the last. */
  ghost predicate Spaced(starts: seq<Start>, deadline: u32, now: nat) {
    && (forall k :: 0 <= k < |starts| - 1 ==> starts[k].at + starts[k].gap <= starts[k + 1].at)
    && (starts != [] ==> var s := starts[|starts| - 1]; s.at <= now && deadline == (s.at + s.gap) % TWO32)
  }

  ghost predicate Timed(l: Limits, w: World, now: nat) {
    Stamped(w.pushed, now) && AllGenuine(l, w.pushed, w.starts) && Spaced(w.starts, w.radio.nextAllowed, now)
  }

  lemma EstimateBounded(air: nat -> nat, len: nat)
    requires Estimated(air) && len <= MAX_PACKET
    ensures air(len) <= 900_000
  {
    var m: Modulation :| Estimates(air, m) && m.bw >= 7.0;
    AirtimeBounded(len, m);
  }

  /** With a real airtime nothing wraps: the gap is the larger of duty share and floor. */
  lemma GapNeverWraps(l: Limits, air: nat)
    requires Sensible(l) && air <= 900_000
    ensures air * 100 < TWO32 && air + l.minGap < TWO32
    ensures Gap(l, air) == if air * 100 / l.duty < air + l.minGap then air + l.minGap else air * 100 / l.duty
  {
    Unwrapped(air * 100);
    Unwrapped(air + l.minGap);
  }

  lemma Unwrapped(n: nat)
    requires n < TWO32
    ensures n % TWO32 == n
  {
  }

  lemma GapBounds(l: Limits, air: nat)
    requires Sensible(l) && air <= 900_000
    ensures Gap(l, air) <= HALF
    ensures l.duty * Gap(l, air) >= 100 * air - (l.duty - 1)
    ensures 100 % l.duty == 0 ==> l.duty * Gap(l, air) >= 100 * air
    ensures Gap(l, air) >= air + l.minGap
  {
    GapNeverWraps(l, air);
    DutyShare(l.duty, air, Gap(l, air));
  }

  lemma DutyShare(d: nat, air: nat, gap: nat)
    requires d >= 1 && gap >= air * 100 / d
    ensures air * 100 / d <= air * 100
    ensures d * gap >= 100 * air - (d - 1)
    ensures 100 % d == 0 ==> d * gap >= 100 * air
  {
    var q := air * 100 / d;
    assert air * 100 == d * q + air * 100 % d;
    MulByDuty(q, d);
    MulGap(d, q, gap);
    if 100 % d == 0 { DivisorOf(air, d); }
  }

  lemma MulByDuty(q: nat, d: nat)
    requires d >= 1
    ensures q <= d * q
  {
  }

  lemma MulGap(d: nat, a: nat, b: nat)
    requires a <= b
    ensures d * a <= d * b
  {
  }

  lemma DivisorOf(air: nat, d: nat)
    requires d > 0 && 100 % d == 0
    ensures air * 100 % d == 0
  {
    var k := 100 / d;
    assert 100 == d * k;
    assert air * 100 == d * (air * k) + 0;
    Products.QuotientIs(d, air * k, 0);
  }

  lemma TooEarly(now: nat, deadline: nat)
    requires now < deadline <= now + HALF
    ensures !Reached(now, deadline % TWO32)
  {
    assert deadline == TWO32 * (deadline / TWO32) + deadline % TWO32;
    assert now - deadline % TWO32 == TWO32 * (deadline / TWO32) + (now - deadline);
  }

  /** The wrapped comparison cannot let a deadline at most 2^31 ahead pass early. */
  lemma NotBefore(now: nat, start: nat, gap: nat)
    requires start <= now && gap <= HALF && Reached(now, (start + gap) % TWO32)
    ensures start + gap <= now
  {
    if now < start + gap { TooEarly(now, start + gap); }
  }

  lemma WrappedStart(at: nat, gap: nat)
    ensures (at % TWO32 + gap) % TWO32 == (at + gap) % TWO32
  {
    assert at == TWO32 * (at / TWO32) + at % TWO32;
    assert at + gap == TWO32 * (at / TWO32) + (at % TWO32 + gap);
  }

  lemma GenuineGrows(l: Limits, ps: seq<Pushed>, more: seq<Pushed>, s: Start)
    requires Genuine(l, ps, s) && ps <= more
    ensures Genuine(l, more, s)
  {
  }

  lemma PushTimed(l: Limits, w: World, data: seq<u8>, t: nat, now: nat)
    requires Timed(l, w, now)
    ensures Timed(l, OnPush(l, w, data, t), if t > now then t else now)
  {
    var w' := OnPush(l, w, data, t);
    assert w'.starts == w.starts && w.pushed <= w'.pushed && w'.radio.nextAllowed == w.radio.nextAllowed;
    forall k | 0 <= k < |w.starts| ensures Genuine(l, w'.pushed, w'.starts[k]) {
      GenuineGrows(l, w.pushed, w'.pushed, w.starts[k]);
    }
  }

  /** The transmission is genuine, and waits out the gap before it. */
  lemma StartIsTimely(l: Limits, w: World, p: Pass, now: nat)
    requires Sensible(l) && Sound(w) && Timed(l, w, now)
    requires now <= p.at.pop && ReadInOrder(p.at) && Estimated(p.air)
    requires w.radio.latch.Some? && !LatchStale(l, w.radio, p.at.stale) && Cleared(w.radio, p)
    ensures Genuine(l, w.pushed, StartOf(l, w, p))
    ensures w.starts != [] ==> var s := w.starts[|w.starts| - 1]; s.at + s.gap <= p.at.act
  {
    assert Sendable(w.pushed[w.latchId].entry.data);
    EstimateBounded(p.air, |w.radio.latch.value.data|);
    if w.starts != [] {
      var s := w.starts[|w.starts| - 1];
      assert Genuine(l, w.pushed, s);
      GapBounds(l, s.air);
      NotBefore(p.at.gap, s.at, s.gap);
    }
  }

  lemma SpacedMore(starts: seq<Start>, deadline: u32, now: nat, s: Start)
    requires Spaced(starts, deadline, now)
    requires starts != [] ==> starts[|starts| - 1].at + starts[|starts| - 1].gap <= s.at
    ensures Spaced(starts + [s], (s.at + s.gap) % TWO32, s.at)
  {
    var more := starts + [s];
    forall k | 0 <= k < |more| - 1 ensures more[k].at + more[k].gap <= more[k + 1].at {
      if k < |starts| - 1 { assert more[k + 1] == starts[k + 1]; }
    }
  }

  lemma TransmitTimed(l: Limits, w: World, p: Pass, now: nat, s: Start)
    requires Sensible(l) && Sound(w) && Timed(l, w, now)
    requires now <= p.at.pop && ReadInOrder(p.at) && Estimated(p.air)
    requires w.radio.latch.Some? && !LatchStale(l, w.radio, p.at.stale) && Cleared(w.radio, p) && s == StartOf(l, w, p)
    ensures AllGenuine(l, w.pushed, w.starts + [s])
    ensures Spaced(w.starts + [s], (s.at + s.gap) % TWO32, s.at)
  {
    StartIsTimely(l, w, p, now);
    SpacedMore(w.starts, w.radio.nextAllowed, now, s);
  }

  /** What a try does to the record of starts and the deadline. */
  lemma TryRecords(l: Limits, w: World, p: Pass)
    ensures var w' := OnTry(l, w, p);
            && w'.pushed == w.pushed
            && if w.radio.latch.Some? && Outcome(l, w.radio, p) == Transmitted then
                 var s := StartOf(l, w, p);
                 w'.starts == w.starts + [s] && w'.radio.nextAllowed == (s.at + s.gap) % TWO32
               else w'.starts == w.starts && w'.radio.nextAllowed == w.radio.nextAllowed
  {
    if w.radio.latch.Some? && Outcome(l, w.radio, p) == Transmitted {
      WrappedStart(p.at.act, Gap(l, p.air(|w.radio.latch.value.data|)));
    }
  }

  lemma TryTimed(l: Limits, w: World, p: Pass, now: nat)
    requires Sensible(l) && Sound(w) && Timed(l, w, now)
    requires now <= p.at.pop && ReadInOrder(p.at) && Estimated(p.air)
    requires !LatchStale(l, w.radio, p.at.stale)
    ensures Timed(l, OnTry(l, w, p), p.at.act)
  {
    TryRecords(l, w, p);
    if w.radio.latch.Some? && Outcome(l, w.radio, p) == Transmitted {
      TransmitTimed(l, w, p, now, StartOf(l, w, p));
      StartedTimed(l, w, OnTry(l, w, p), StartOf(l, w, p), now);
    } else {
      StillTimed(l, w, OnTry(l, w, p), now, p.at.act);
    }
  }

  lemma StartedTimed(l: Limits, w: World, w': World, s: Start, now: nat)
    requires Timed(l, w, now) && w'.pushed == w.pushed && w'.starts == w.starts + [s] && now <= s.at
    requires AllGenuine(l, w.pushed, w.starts + [s]) && Spaced(w.starts + [s], w'.radio.nextAllowed, s.at)
    ensures Timed(l, w', s.at)
  {
  }

  lemma StillTimed(l: Limits, w: World, w': World, now: nat, later: nat)
    requires Timed(l, w, now) && now <= later
    requires w'.pushed == w.pushed && w'.starts == w.starts && w'.radio.nextAllowed == w.radio.nextAllowed
    ensures Timed(l, w', later)
  {
  }

  lemma TurnTimed(l: Limits, w: World, p: Pass, now: nat)
    requires Sensible(l) && Sound(w) && Timed(l, w, now)
    requires now <= p.at.pop && ReadInOrder(p.at) && Estimated(p.air)
    ensures Timed(l, Step(l, w, Turn(p)), p.at.act)
  {
    if !w.radio.busy {
      FillKeeps(l, w, p.at.pop);
      var w1 := OnFill(l, w, p.at.pop);
      var w2 := OnExpire(l, w1, p.at.stale);
      if LatchStale(l, w1.radio, p.at.stale) { SettleKeeps(w1, LatchExpired, Expire(l, w1.radio, p.at.stale)); }
      assert w2.starts == w.starts && w2.pushed == w.pushed && w2.radio.nextAllowed == w.radio.nextAllowed;
      TryTimed(l, w2, p, now);
    }
  }

  lemma {:induction false} RunTimed(l: Limits, es: seq<Event>)
    requires Sensible(l) && Timely(es)
    ensures Timed(l, Run(l, es), Latest(es))
  {
    if es != [] {
      var front, w, now := es[..|es| - 1], Run(l, es[..|es| - 1]), Latest(es[..|es| - 1]);
      RunTimed(l, front);
      RunSound(l, front);
      match es[|es| - 1]
      case Push(data, t) => PushTimed(l, w, data, t, now);
      case Service(done, t) => assert OnService(l, w, done, t).radio.nextAllowed == w.radio.nextAllowed;
      case Turn(p) => TurnTimed(l, w, p, now);
    }
  }

  /** No transmission starts whose packet was older than the limit when last checked. */
  lemma NeverStale(l: Limits, es: seq<Event>, k: nat)
    requires Sensible(l) && Timely(es) && l.maxAge > 0 && k < |Run(l, es).starts|
    ensures var w := Run(l, es);
            var s := w.starts[k];
            s.id < |w.pushed|
            && var at := w.pushed[s.id].at;
               at <= s.checkedAt <= s.at && (s.checkedAt < at + TWO32 ==> s.checkedAt - at <= l.maxAge)
  {
    RunTimed(l, es);
    FreshByClock(l, Run(l, es), k, Latest(es));
  }

  lemma FreshByClock(l: Limits, w: World, k: nat, now: nat)
    requires Timed(l, w, now) && l.maxAge > 0 && k < |w.starts|
    ensures var s := w.starts[k];
            s.id < |w.pushed|
            && var at := w.pushed[s.id].at;
               at <= s.checkedAt <= s.at && (s.checkedAt < at + TWO32 ==> s.checkedAt - at <= l.maxAge)
  {
    var s := w.starts[k];
    assert Genuine(l, w.pushed, s);
    var at := w.pushed[s.id].at;
    if s.checkedAt < at + TWO32 { ElapsedAge(s.checkedAt, at); }
  }

  lemma ElapsedAge(t: nat, at: nat)
    requires at <= t < at + TWO32
    ensures (t - at % TWO32) % TWO32 == t - at
  {
    assert at == TWO32 * (at / TWO32) + at % TWO32;
    assert t - at % TWO32 == TWO32 * (at / TWO32) + (t - at);
  }

  function AirSum(starts: seq<Start>): nat {
    if starts == [] then 0 else AirSum(starts[..|starts| - 1]) + starts[|starts| - 1].air
  }

  /** The duty share of the time between two successive starts covers the first's airtime. */
  ghost predicate Shares(d: nat, a: Start, b: Start, slack: nat) {
    d * (b.at - a.at) >= 100 * a.air - slack
  }

  lemma {:induction false} SumOfGaps(d: nat, starts: seq<Start>, slack: nat)
    requires starts != []
    requires forall k :: 0 <= k < |starts| - 1 ==> Shares(d, starts[k], starts[k + 1], slack)
    ensures 100 * AirSum(starts[..|starts| - 1]) <= d * (starts[|starts| - 1].at - starts[0].at) + (|starts| - 1) * slack
    decreases |starts|
  {
    var n := |starts| - 1;
    if n > 0 {
      var front := starts[..n];
      SumOfGaps(d, front, slack);
      assert front[..n - 1] == starts[..n - 1];
      assert starts[..n][..n - 1] == starts[..n - 1];
      assert Shares(d, starts[n - 1], starts[n - 1 + 1], slack);
      AddUp(d, starts[n].at, starts[n - 1].at, starts[0].at, n - 1, slack);
    }
  }

  lemma AddUp(d: nat, c: int, b: int, a: int, k: nat, slack: nat)
    ensures d * (c - a) == d * (c - b) + d * (b - a)
    ensures (k + 1) * slack == k * slack + slack
  {
  }

  lemma SharesOf(l: Limits, ps: seq<Pushed>, a: Start, b: Start)
    requires Sensible(l) && Genuine(l, ps, a) && a.at + a.gap <= b.at
    ensures Shares(l.duty, a, b, l.duty - 1)
    ensures 100 % l.duty == 0 ==> Shares(l.duty, a, b, 0)
  {
    GapBounds(l, a.air);
    MulGap(l.duty, a.gap, b.at - a.at);
  }

  /** The airtime of starts i to j - 1 is at most the duty share of `span` ms, up to rounding. */
  ghost predicate UnderDutyIn(duty: nat, s: seq<Start>, i: nat, j: nat, span: int)
    requires i < j < |s| && duty > 0
  {
    && 100 * AirSum(s[i..j]) <= duty * span + (j - i) * (duty - 1)
    && (100 % duty == 0 ==> 100 * AirSum(s[i..j]) <= duty * span)
  }

  /** That is, of the time from start i to start j. */
  ghost predicate UnderDuty(duty: nat, s: seq<Start>, i: nat, j: nat)
    requires i < j < |s| && duty > 0
  {
    UnderDutyIn(duty, s, i, j, s[j].at - s[i].at)
  }

  /**
   The duty ceiling: for consecutive transmissions i..j, the airtime of all but the last is
   at most the duty share of the time between the first start and the last, up to less than
   one millisecond's share each; with no rounding when the percentage divides 100, as the
   default of half does.
   */
  lemma DutyBound(l: Limits, es: seq<Event>, i: nat, j: nat)
    requires Sensible(l) && Timely(es) && i < j < |Run(l, es).starts|
    ensures UnderDuty(l.duty, Run(l, es).starts, i, j)
  {
    RunTimed(l, es);
    DutyOfStarts(l, Run(l, es), i, j, Latest(es));
  }

  lemma DutyOfStarts(l: Limits, w: World, i: nat, j: nat, now: nat)
    requires Sensible(l) && Timed(l, w, now) && i < j < |w.starts|
    ensures UnderDuty(l.duty, w.starts, i, j)
  {
    var part := w.starts[i..j + 1];
    forall k | 0 <= k < |part| - 1
      ensures Shares(l.duty, part[k], part[k + 1], l.duty - 1)
      ensures 100 % l.duty == 0 ==> Shares(l.duty, part[k], part[k + 1], 0)
    {
      assert part[k] == w.starts[i + k] && part[k + 1] == w.starts[i + k + 1];
      SharesOf(l, w.pushed, part[k], part[k + 1]);
    }
    DutyOfPart(l.duty, w.starts, i, j);
  }

  lemma SliceFront<T>(s: seq<T>, i: nat, j: nat)
    requires i < j < |s|
    ensures var part := s[i..j + 1]; part[..|part| - 1] == s[i..j] && part[0] == s[i] && part[|part| - 1] == s[j]
  {
    var front, whole := s[i..j], s[i..j + 1];
    forall k | 0 <= k < j - i ensures whole[..|whole| - 1][k] == front[k] {
      assert whole[k] == s[i + k] == front[k];
    }
  }

  lemma DutyOfPart(d: nat, s: seq<Start>, i: nat, j: nat)
    requires i < j < |s| && d > 0
    requires var part := s[i..j + 1];
             && (forall k :: 0 <= k < |part| - 1 ==> Shares(d, part[k], part[k + 1], d - 1))
             && (100 % d == 0 ==> forall k :: 0 <= k < |part| - 1 ==> Shares(d, part[k], part[k + 1], 0))
    ensures UnderDuty(d, s, i, j)
  {
    var part := s[i..j + 1];
    SliceFront(s, i, j);
    SumOfGaps(d, part, d - 1);
    if 100 % d == 0 { SumOfGaps(d, part, 0); }
  }

  /**
   At the default half duty: from one start to a later one, at most half of the time is airtime
   of the packets started. For a radio of the co-processor a start only hands the packet over;
   see OnAirBound.
   */
  lemma HalfTheTime(es: seq<Event>, i: nat, j: nat)
    requires Timely(es) && i < j < |Run(DEFAULTS, es).starts|
    ensures var s := Run(DEFAULTS, es).starts; 2 * AirSum(s[i..j]) <= s[j].at - s[i].at
  {
    DutyBound(DEFAULTS, es, i, j);
  }

  /**
   What is left of the ceiling where a started packet goes on the air later, at `on[k]`, as the
   co-processor waits for a clear channel: only the wait of the first packet adds to the time.
   */
  lemma OnAirBound(l: Limits, es: seq<Event>, on: seq<nat>, wait: nat, i: nat, j: nat)
    requires Sensible(l) && Timely(es) && i < j < |Run(l, es).starts| == |on|
    requires var s := Run(l, es).starts; s[j].at <= on[j] && s[i].at <= on[i] <= s[i].at + wait
    ensures UnderDutyIn(l.duty, Run(l, es).starts, i, j, on[j] - on[i] + wait)
  {
    DutyBound(l, es, i, j);
    LongerSpan(l.duty, Run(l, es).starts, i, j, on[j] - on[i] + wait);
  }

  lemma LongerSpan(d: nat, s: seq<Start>, i: nat, j: nat, span: int)
    requires d > 0 && i < j < |s| && UnderDuty(d, s, i, j) && s[j].at - s[i].at <= span
    ensures UnderDutyIn(d, s, i, j, span)
  {
    Products.MulGrows(s[j].at - s[i].at, span, d);
  }

  /** A radio never starts a packet before the last one's airtime and the minimum gap are over. */
  lemma NeverOverlaps(l: Limits, es: seq<Event>, k: nat)
    requires Sensible(l) && Timely(es) && k + 1 < |Run(l, es).starts|
    ensures var s := Run(l, es).starts; s[k].at + s[k].air + l.minGap <= s[k + 1].at
  {
    RunTimed(l, es);
    var w := Run(l, es);
    assert Genuine(l, w.pushed, w.starts[k]);
    GapBounds(l, w.starts[k].air);
  }
}
