/** From the scheduler's age check to the loop guard: how long after a transmission its echo is still known. */
module LoopTiming {
  import opened Bytes
  import opened DedupModel
  import G = LoopGuard
  import L = LoopModel
  import S = Scheduler

  /**
   A packet the radio actually starts was recorded, and pushed within `delay` ms of that; when its
   age was last checked its record was no older than the queue's age limit plus that delay. Its
   echo, heard before the time to live less these has passed since the check, queues nothing.
   */
  lemma StartedEchoQueuesNothing(l: S.Limits, es: seq<S.Event>, n: nat, delay: nat,
                                 s: L.Setup, calls: seq<Call>, e: L.Emission, k: nat, heard: seq<u8>, env: L.Env)
    requires S.Sensible(l) && S.Timely(es) && l.maxAge > 0 && n < |S.Run(l, es).starts|
    requires var w := S.Run(l, es);
             var start := w.starts[n];
             && start.id < |w.pushed| && w.pushed[start.id].entry.data == e.packet && w.pushed[start.id].at == e.at
             && start.checkedAt < e.at + TWO32
             && env.now + l.maxAge + delay < start.checkedAt + TTL_MS
    requires k < |s.chan| == |s.names| && G.Safe(s, calls, e)
    requires G.Hears(s.chan[k], s.chan[e.dst]) && G.Echo(s.chan[e.dst], e.packet, heard)
    requires InOrder(calls) && Steady(TABLE_SIZE, calls) && forall c :: 0 <= c < |calls| ==> calls[c].at <= env.now
    requires e.mark.Some? ==> e.at <= e.mark.value.at + delay && !Crowded(LogAfter(calls), e.mark.value.hash, TABLE_SIZE)
    ensures e.mark.Some? ==> S.Run(l, es).starts[n].checkedAt <= e.mark.value.at + l.maxAge + delay
    ensures L.Ingest(s, TableAfter(Blanks(TABLE_SIZE), calls), k, heard, env).sent == []
  {
    S.NeverStale(l, es, n);
    G.EchoQueuesNothing(s, calls, e, k, heard, env);
  }

  /** With the firmware's limits a text or fragment, recorded as it is pushed, is known for 30 s after the check. */
  lemma HalfAMinuteLeft(es: seq<S.Event>, n: nat, s: L.Setup, calls: seq<Call>, e: L.Emission, k: nat, heard: seq<u8>, env: L.Env)
    requires S.Timely(es) && n < |S.Run(S.DEFAULTS, es).starts|
    requires var w := S.Run(S.DEFAULTS, es);
             var start := w.starts[n];
             && start.id < |w.pushed| && w.pushed[start.id].entry.data == e.packet && w.pushed[start.id].at == e.at
             && start.checkedAt < e.at + TWO32 && env.now < start.checkedAt + 30000
    requires k < |s.chan| == |s.names| && G.Safe(s, calls, e) && e.mark.Some? && e.mark.value.at == e.at
    requires G.Hears(s.chan[k], s.chan[e.dst]) && G.Echo(s.chan[e.dst], e.packet, heard)
    requires InOrder(calls) && Steady(TABLE_SIZE, calls) && forall c :: 0 <= c < |calls| ==> calls[c].at <= env.now
    requires !Crowded(LogAfter(calls), e.mark.value.hash, TABLE_SIZE)
    ensures L.Ingest(s, TableAfter(Blanks(TABLE_SIZE), calls), k, heard, env).sent == []
  {
    StartedEchoQueuesNothing(S.DEFAULTS, es, n, 0, s, calls, e, k, heard, env);
  }
}
