/**
 The content-hash window that stops loops: a fixed table with a time-to-live, against
 the unbounded log of when each hash was last recorded.

 Times are unbounded naturals; the table keeps them modulo 2^32, as millis() does.
 */
module DedupModel {
  import opened Bytes

  const TTL_MS := 60000
  const TABLE_SIZE := 512

  type Hash = u32

  // ---- FNV-1a over body, source and packet id --------------------------------------

  const FNV_OFFSET: Hash := 2166136261
  const FNV_PRIME: Hash := 16777619

  /** `h ^= b; h *= prime` on 32 bits; only the low byte of `h` meets `b`. */
  function FnvByte(h: Hash, b: u8): Hash {
    (h - h % 256 + Xor8(h % 256, b)) * FNV_PRIME % TWO32
  }

  function Fnv(h: Hash, s: seq<u8>): Hash {
    if s == [] then h else FnvByte(Fnv(h, s[..|s| - 1]), s[|s| - 1])
  }

  /** The hash of a decoded message: its body, its sender and its packet id. */
  function HashOf(body: seq<u8>, srcId: u32, pid: u32): Hash {
    Fnv(Fnv(Fnv(FNV_OFFSET, body), LE32(srcId)), LE32(pid))
  }

  // ---- the table -------------------------------------------------------------------

  datatype Entry = Entry(hash: Hash, stamp: u32, used: bool)

  const BLANK := Entry(0, 0, false)

  /** Milliseconds since the stamp, as unsigned 32-bit subtraction gives them. */
  function Age(t: nat, e: Entry): nat {
    (t - e.stamp) % TWO32
  }

  predicate Live(t: nat, e: Entry) {
    e.used && Age(t, e) < TTL_MS
  }

  /** The first slot from `i` on that satisfies the test, or the table size. */
  function FindHash(tab: seq<Entry>, h: Hash, i: nat): (k: nat)
    requires i <= |tab|
    ensures i <= k <= |tab|
    ensures k < |tab| ==> tab[k].used && tab[k].hash == h
    ensures forall j :: i <= j < k ==> !(tab[j].used && tab[j].hash == h)
    decreases |tab| - i
  {
    if i == |tab| then i else if tab[i].used && tab[i].hash == h then i else FindHash(tab, h, i + 1)
  }

  function FindFree(tab: seq<Entry>, t: nat, i: nat): (k: nat)
    requires i <= |tab|
    ensures i <= k <= |tab|
    ensures k < |tab| ==> !Live(t, tab[k])
    ensures forall j :: i <= j < k ==> Live(t, tab[j])
    decreases |tab| - i
  {
    if i == |tab| then i else if !Live(t, tab[i]) then i else FindFree(tab, t, i + 1)
  }

  /** The last of the oldest among the first `n` slots. */
  function Oldest(tab: seq<Entry>, t: nat, n: nat): (k: nat)
    requires 1 <= n <= |tab|
    ensures k < n
    ensures forall j :: 0 <= j < n ==> Age(t, tab[j]) <= Age(t, tab[k])
  {
    if n == 1 then 0
    else
      var k := Oldest(tab, t, n - 1);
      if Age(t, tab[n - 1]) >= Age(t, tab[k]) then n - 1 else k
  }

  /** Where `h` goes: its own slot, else the first free or expired one, else the oldest. */
  function SlotFor(tab: seq<Entry>, h: Hash, t: nat): (k: nat)
    requires tab != []
    ensures k < |tab|
  {
    var own, free := FindHash(tab, h, 0), FindFree(tab, t, 0);
    if own < |tab| then own else if free < |tab| then free else Oldest(tab, t, |tab|)
  }

  function Insert(tab: seq<Entry>, h: Hash, t: nat): (r: seq<Entry>)
    requires tab != []
    ensures |r| == |tab|
  {
    tab[SlotFor(tab, h, t) := Entry(h, t % TWO32, true)]
  }

  predicate IsSeen(tab: seq<Entry>, h: Hash, t: nat) {
    exists i :: 0 <= i < |tab| && tab[i].hash == h && Live(t, tab[i])
  }

  // ---- the log it stands for ---------------------------------------------------------

  type Log = map<Hash, nat>

  predicate LiveInLog(log: Log, h: Hash, t: nat) {
    h in log && t < log[h] + TTL_MS
  }

  /** `n` distinct other hashes were recorded no earlier than `h`. */
  ghost predicate Crowded(log: Log, h: Hash, n: nat) {
    exists others: seq<Hash> :: |others| == n && Crowd(log, h, others)
  }

  ghost predicate Crowd(log: Log, h: Hash, others: seq<Hash>) {
    && h in log
    && (forall i :: 0 <= i < |others| ==> others[i] != h && others[i] in log && log[others[i]] >= log[h])
    && (forall i, j :: 0 <= i < j < |others| ==> others[i] != others[j])
  }

  ghost predicate InTable(tab: seq<Entry>, h: Hash) {
    exists i :: 0 <= i < |tab| && tab[i].used && tab[i].hash == h
  }

  /** Nothing was recorded after `t`. */
  ghost predicate Past(log: Log, t: nat) {
    forall h :: h in log ==> log[h] <= t
  }

  /** Recorded a clock cycle or more before `t`, and looking as young as if just recorded. */
  predicate Returned(t: nat, at: nat) {
    t >= at + TWO32 && (t - at) % TWO32 < TTL_MS
  }

  /** No entry standing in the table looks live at `t` and is not. */
  ghost predicate Honest(tab: seq<Entry>, log: Log, t: nat) {
    forall i :: 0 <= i < |tab| && tab[i].used && tab[i].hash in log ==> !Returned(t, log[tab[i].hash])
  }

  /** One entry per hash, each with its hash's last time. */
  ghost predicate Faithful(tab: seq<Entry>, log: Log) {
    && (forall i, j :: 0 <= i < j < |tab| && tab[i].used && tab[j].used ==> tab[i].hash != tab[j].hash)
    && (forall i :: 0 <= i < |tab| && tab[i].used ==> tab[i].hash in log && tab[i].stamp == log[tab[i].hash] % TWO32)
  }

  /** A hash still live at `t` is in the table unless it was crowded out. */
  ghost predicate Complete(tab: seq<Entry>, log: Log, t: nat) {
    forall h :: LiveInLog(log, h, t) && !InTable(tab, h) ==> Crowded(log, h, |tab|)
  }

  lemma WrappedAge(t: nat, s: nat)
    requires s <= t
    ensures (t - s % TWO32) % TWO32 == (t - s) % TWO32
    ensures t < s + TWO32 ==> (t - s) % TWO32 == t - s
  {
    assert s == TWO32 * (s / TWO32) + s % TWO32;
    assert (t - s % TWO32) == TWO32 * (s / TWO32) + (t - s);
  }

  /** An entry looks live when its hash is live in the log, or has returned. */
  lemma LooksLive(tab: seq<Entry>, log: Log, t: nat, i: nat)
    requires Faithful(tab, log) && Past(log, t) && i < |tab| && tab[i].used
    ensures Age(t, tab[i]) == (t - log[tab[i].hash]) % TWO32
    ensures Live(t, tab[i]) <==> LiveInLog(log, tab[i].hash, t) || Returned(t, log[tab[i].hash])
  {
    WrappedAge(t, log[tab[i].hash]);
  }

  /** The age of an entry that looks live, and honestly so, is the true time since it was recorded. */
  lemma AgeIsElapsed(tab: seq<Entry>, log: Log, t: nat, i: nat)
    requires Faithful(tab, log) && Past(log, t) && Honest(tab, log, t) && i < |tab| && Live(t, tab[i])
    ensures Age(t, tab[i]) == t - log[tab[i].hash]
  {
    LooksLive(tab, log, t, i);
    WrappedAge(t, log[tab[i].hash]);
  }

  lemma CrowdGrows(log: Log, h: Hash, g: Hash, t: nat, n: nat)
    requires Crowded(log, h, n) && g != h && (g in log ==> log[g] <= t)
    requires h in log && log[h] <= t
    ensures Crowded(log[g := t], h, n)
  {
    var others: seq<Hash> :| |others| == n && Crowd(log, h, others);
    assert Crowd(log[g := t], h, others);
  }

  /** When a live hash is evicted, the whole table plus the newcomer crowd it. */
  lemma EvictedIsCrowded(tab: seq<Entry>, log: Log, g: Hash, t: nat, k: nat)
    requires tab != [] && Faithful(tab, log) && Past(log, t) && Honest(tab, log, t)
    requires !InTable(tab, g) && FindFree(tab, t, 0) == |tab| && k == Oldest(tab, t, |tab|)
    ensures Crowded(log[g := t], tab[k].hash, |tab|)
  {
    var others := seq(|tab|, i requires 0 <= i < |tab| => if i == k then g else tab[i].hash);
    var log' := log[g := t];
    assert Live(t, tab[k]);
    forall i | 0 <= i < |others| ensures others[i] != tab[k].hash && others[i] in log' && log'[others[i]] >= log'[tab[k].hash] {
      AgeIsElapsed(tab, log, t, k);
      if i != k {
        assert Live(t, tab[i]);
        AgeIsElapsed(tab, log, t, i);
      }
    }
    assert Crowd(log', tab[k].hash, others);
  }

  lemma OtherSlotsStay(tab: seq<Entry>, g: Hash, t: nat, i: nat)
    requires i < |tab| && tab[i].used
    ensures i == SlotFor(tab, g, t) || InTable(Insert(tab, g, t), tab[i].hash)
  {
    var tab' := Insert(tab, g, t);
    assert i == SlotFor(tab, g, t) || tab'[i] == tab[i];
  }

  /** Recording a hash keeps the table faithful to the log, whatever the clock did. */
  lemma InsertIsFaithful(tab: seq<Entry>, log: Log, g: Hash, t: nat)
    requires tab != [] && Faithful(tab, log)
    ensures Faithful(Insert(tab, g, t), log[g := t])
  {
    var own := FindHash(tab, g, 0);
    assert own == |tab| ==> !InTable(tab, g);
  }

  /** And complete up to crowding, as long as no entry only looks live. */
  lemma InsertKeeps(tab: seq<Entry>, log: Log, t: nat, g: Hash, t': nat)
    requires tab != [] && Faithful(tab, log) && Complete(tab, log, t) && t <= t' && Past(log, t) && Honest(tab, log, t')
    ensures Faithful(Insert(tab, g, t'), log[g := t'])
    ensures Complete(Insert(tab, g, t'), log[g := t'], t')
  {
    InsertIsFaithful(tab, log, g, t');
    var k := SlotFor(tab, g, t');
    var tab', log' := Insert(tab, g, t'), log[g := t'];
    var own := FindHash(tab, g, 0);
    assert own == |tab| ==> !InTable(tab, g);
    forall h | LiveInLog(log', h, t') && !InTable(tab', h) ensures Crowded(log', h, |tab'|) {
      assert tab'[k].hash == g;
      assert h != g;
      if InTable(tab, h) {
        var i :| 0 <= i < |tab| && tab[i].used && tab[i].hash == h;
        OtherSlotsStay(tab, g, t', i);
        LooksLive(tab, log, t', k);
        EvictedIsCrowded(tab, log, g, t', k);
      } else {
        CrowdGrows(log, h, g, t', |tab|);
      }
    }
  }

  /** For a hash in the table the answer is right exactly when the hash has not returned. */
  lemma SeenIsRightIff(tab: seq<Entry>, log: Log, h: Hash, t: nat)
    requires Faithful(tab, log) && Past(log, t)
    ensures IsSeen(tab, h, t) ==> InTable(tab, h)
    ensures InTable(tab, h) ==> h in log && ((IsSeen(tab, h, t) <==> LiveInLog(log, h, t)) <==> !Returned(t, log[h]))
  {
    if InTable(tab, h) {
      var i :| 0 <= i < |tab| && tab[i].used && tab[i].hash == h;
      LooksLive(tab, log, t, i);
      assert IsSeen(tab, h, t) <==> Live(t, tab[i]);
    }
  }

  /** A false hit is a returned hash still in the table; a miss is a hash crowded out. */
  lemma SeenAgreesWithLog(tab: seq<Entry>, log: Log, h: Hash, t: nat)
    requires Faithful(tab, log) && Complete(tab, log, t) && Past(log, t)
    ensures IsSeen(tab, h, t) && !LiveInLog(log, h, t) <==> InTable(tab, h) && Returned(t, log[h])
    ensures LiveInLog(log, h, t) ==> IsSeen(tab, h, t) || Crowded(log, h, |tab|)
  {
    SeenIsRightIff(tab, log, h, t);
  }

  // ---- whole runs -----------------------------------------------------------------------

  /** One call of record or seenAndRecord: the hash and when. */
  datatype Call = Call(hash: Hash, at: nat)

  ghost predicate InOrder(calls: seq<Call>) {
    forall i, j :: 0 <= i < j < |calls| ==> calls[i].at <= calls[j].at
  }

  function TableAfter(tab: seq<Entry>, calls: seq<Call>): (r: seq<Entry>)
    requires tab != []
    ensures |r| == |tab|
  {
    if calls == [] then tab
    else Insert(TableAfter(tab, calls[..|calls| - 1]), calls[|calls| - 1].hash, calls[|calls| - 1].at)
  }

  function LogAfter(calls: seq<Call>): Log {
    if calls == [] then map[] else LogAfter(calls[..|calls| - 1])[calls[|calls| - 1].hash := calls[|calls| - 1].at]
  }

  /** The log holds each hash's last time, and only times of the run. */
  lemma {:induction false} LogIsLast(calls: seq<Call>, h: Hash)
    requires InOrder(calls)
    ensures h in LogAfter(calls) <==> exists i :: 0 <= i < |calls| && calls[i].hash == h
    ensures forall i :: 0 <= i < |calls| && calls[i].hash == h ==> calls[i].at <= LogAfter(calls)[h]
    ensures h in LogAfter(calls) ==> exists i :: 0 <= i < |calls| && calls[i].hash == h && calls[i].at == LogAfter(calls)[h]
  {
    if calls != [] {
      var front, c := calls[..|calls| - 1], calls[|calls| - 1];
      LogIsLast(front, h);
      assert forall i :: 0 <= i < |front| ==> calls[i] == front[i];
      if h in LogAfter(front) && c.hash != h {
        var i :| 0 <= i < |front| && front[i].hash == h && front[i].at == LogAfter(front)[h];
        assert calls[i].hash == h;
      }
    }
  }

  lemma LogPast(calls: seq<Call>, t: nat)
    requires InOrder(calls) && forall i :: 0 <= i < |calls| ==> calls[i].at <= t
    ensures Past(LogAfter(calls), t)
  {
    forall h | h in LogAfter(calls) ensures LogAfter(calls)[h] <= t {
      LogIsLast(calls, h);
      var i :| 0 <= i < |calls| && calls[i].hash == h && calls[i].at == LogAfter(calls)[h];
    }
  }

  /** An empty table of `n` slots. */
  function Blanks(n: nat): (r: seq<Entry>)
    ensures |r| == n
  {
    seq(n, _ => BLANK)
  }

  /** At no call of the run did an entry of the table at that moment only look live. */
  ghost predicate Steady(n: nat, calls: seq<Call>)
    requires n > 0
  {
    calls == [] ||
    var front, c := calls[..|calls| - 1], calls[|calls| - 1];
    Steady(n, front) && Honest(TableAfter(Blanks(n), front), LogAfter(front), c.at)
  }

  lemma {:induction false} RunIsFaithful(n: nat, calls: seq<Call>)
    requires n > 0
    ensures Faithful(TableAfter(Blanks(n), calls), LogAfter(calls))
  {
    if calls != [] {
      var front, c := calls[..|calls| - 1], calls[|calls| - 1];
      RunIsFaithful(n, front);
      InsertIsFaithful(TableAfter(Blanks(n), front), LogAfter(front), c.hash, c.at);
    }
  }

  lemma {:induction false} RunKeeps(n: nat, calls: seq<Call>, t: nat)
    requires n > 0 && InOrder(calls) && Steady(n, calls) && forall i :: 0 <= i < |calls| ==> calls[i].at <= t
    ensures Complete(TableAfter(Blanks(n), calls), LogAfter(calls), t)
  {
    if calls != [] {
      var front, c := calls[..|calls| - 1], calls[|calls| - 1];
      assert forall i :: 0 <= i < |front| ==> calls[i] == front[i];
      RunKeeps(n, front, c.at);
      RunIsFaithful(n, front);
      LogPast(front, c.at);
      InsertKeeps(TableAfter(Blanks(n), front), LogAfter(front), c.at, c.hash, c.at);
    }
  }

  /**
   After any run of calls, of any length, a table of n slots gives a false hit exactly for a
   returned hash still standing in it. And when no entry only looked live at a call, it misses
   a live hash only when n other hashes are at least as recent.
   */
  lemma TableRefinesLog(n: nat, calls: seq<Call>, h: Hash, t: nat)
    requires n > 0 && InOrder(calls) && forall i :: 0 <= i < |calls| ==> calls[i].at <= t
    ensures var tab, log := TableAfter(Blanks(n), calls), LogAfter(calls);
            && (IsSeen(tab, h, t) && !LiveInLog(log, h, t) <==> InTable(tab, h) && h in log && Returned(t, log[h]))
            && (InTable(tab, h) ==> h in log && ((IsSeen(tab, h, t) <==> LiveInLog(log, h, t)) <==> !Returned(t, log[h])))
            && (Steady(n, calls) && LiveInLog(log, h, t) && !IsSeen(tab, h, t) ==> Crowded(log, h, n))
  {
    RunIsFaithful(n, calls);
    LogPast(calls, t);
    SeenIsRightIff(TableAfter(Blanks(n), calls), LogAfter(calls), h, t);
    if Steady(n, calls) {
      RunKeeps(n, calls, t);
      SeenAgreesWithLog(TableAfter(Blanks(n), calls), LogAfter(calls), h, t);
    }
  }

  /** Every entry in the table is less than a clock cycle old whenever a call is made. */
  ghost predicate Young(n: nat, calls: seq<Call>)
    requires n > 0
  {
    calls == [] ||
    var front, c := calls[..|calls| - 1], calls[|calls| - 1];
    var tab, log := TableAfter(Blanks(n), front), LogAfter(front);
    Young(n, front) && forall i :: 0 <= i < |tab| && tab[i].used && tab[i].hash in log ==> c.at < log[tab[i].hash] + TWO32
  }

  /** A run is steady when the table only ever held entries younger than a clock cycle, however long it is. */
  lemma {:induction false} YoungIsSteady(n: nat, calls: seq<Call>)
    requires n > 0 && Young(n, calls)
    ensures Steady(n, calls)
  {
    if calls != [] { YoungIsSteady(n, calls[..|calls| - 1]); }
  }

  lemma OneMoreCall(tab: seq<Entry>, calls: seq<Call>, c: Call)
    requires tab != []
    ensures TableAfter(tab, calls + [c]) == Insert(TableAfter(tab, calls), c.hash, c.at)
    ensures LogAfter(calls + [c]) == LogAfter(calls)[c.hash := c.at]
  {
    assert (calls + [c])[..|calls + [c]| - 1] == calls;
  }

  function EvictingRun(h: Hash, g: Hash, f: Hash): seq<Call> {
    [Call(h, 0), Call(g, 1), Call(h, TWO32 - 100), Call(f, TWO32 + 50)]
  }

  /** Where the four calls go in a table of two. */
  lemma EvictingSlots(h: Hash, g: Hash, f: Hash)
    requires h != g && g != f && f != h
    ensures SlotFor([BLANK, BLANK], h, 0) == 0
    ensures SlotFor([Entry(h, 0, true), BLANK], g, 1) == 1
    ensures SlotFor([Entry(h, 0, true), Entry(g, 1, true)], h, TWO32 - 100) == 0
    ensures SlotFor([Entry(h, TWO32 - 100, true), Entry(g, 1, true)], f, TWO32 + 50) == 0
  {
  }

  lemma EvictingTable(h: Hash, g: Hash, f: Hash)
    requires h != g && g != f && f != h
    ensures TableAfter(Blanks(2), EvictingRun(h, g, f)) == [Entry(f, 50, true), Entry(g, 1, true)]
  {
    var b := Blanks(2);
    var c1, c2, c3 := [Call(h, 0)], [Call(h, 0), Call(g, 1)], [Call(h, 0), Call(g, 1), Call(h, TWO32 - 100)];
    EvictingSlots(h, g, f);
    assert b == [BLANK, BLANK];
    OneMoreCall(b, [], Call(h, 0));
    assert [] + [Call(h, 0)] == c1;
    assert TableAfter(b, c1) == [Entry(h, 0, true), BLANK];
    OneMoreCall(b, c1, Call(g, 1));
    assert c1 + [Call(g, 1)] == c2;
    assert TableAfter(b, c2) == [Entry(h, 0, true), Entry(g, 1, true)];
    OneMoreCall(b, c2, Call(h, TWO32 - 100));
    assert c2 + [Call(h, TWO32 - 100)] == c3;
    assert TableAfter(b, c3) == [Entry(h, TWO32 - 100, true), Entry(g, 1, true)];
    OneMoreCall(b, c3, Call(f, TWO32 + 50));
    assert c3 + [Call(f, TWO32 + 50)] == EvictingRun(h, g, f);
  }

  lemma LogMore(calls: seq<Call>, c: Call)
    ensures LogAfter(calls + [c]) == LogAfter(calls)[c.hash := c.at]
  {
    assert (calls + [c])[..|calls + [c]| - 1] == calls;
  }

  lemma EvictingLog(h: Hash, g: Hash, f: Hash)
    requires h != g && g != f && f != h
    ensures var log := LogAfter(EvictingRun(h, g, f));
            && h in log && log[h] == TWO32 - 100 && g in log && log[g] == 1
            && forall x :: x in log ==> x == h || x == g || x == f
  {
    var c1, c2, c3 := [Call(h, 0)], [Call(h, 0), Call(g, 1)], [Call(h, 0), Call(g, 1), Call(h, TWO32 - 100)];
    LogMore([], Call(h, 0));
    LogMore(c1, Call(g, 1));
    LogMore(c2, Call(h, TWO32 - 100));
    LogMore(c3, Call(f, TWO32 + 50));
    assert [] + [Call(h, 0)] == c1 && c1 + [Call(g, 1)] == c2 && c2 + [Call(h, TWO32 - 100)] == c3;
    assert c3 + [Call(f, TWO32 + 50)] == EvictingRun(h, g, f);
  }

  /** An entry that only looks live can push out a live hash that nothing crowds: steadiness is needed. */
  lemma ReturnedEvictsLive(h: Hash, g: Hash, f: Hash)
    requires h != g && g != f && f != h
    ensures var calls, now := EvictingRun(h, g, f), TWO32 + 50;
            && InOrder(calls) && LiveInLog(LogAfter(calls), h, now)
            && !IsSeen(TableAfter(Blanks(2), calls), h, now) && !Crowded(LogAfter(calls), h, 2)
  {
    EvictingTable(h, g, f);
    EvictingLog(h, g, f);
    var log := LogAfter(EvictingRun(h, g, f));
    forall others: seq<Hash> | |others| == 2 ensures !Crowd(log, h, others) {
      var x, y := others[0], others[1];
    }
  }

  /** So a hash recorded once is taken for fresh again after whole clock cycles, for a minute each. */
  lemma ClockWrapFalseHit(n: nat, h: Hash, t: nat, cycles: nat, d: nat)
    requires n > 0 && cycles > 0 && d < TTL_MS
    ensures var calls, later := [Call(h, t)], t + cycles * TWO32 + d;
            && IsSeen(TableAfter(Blanks(n), calls), h, later)
            && !LiveInLog(LogAfter(calls), h, later)
  {
    var calls, later := [Call(h, t)], t + cycles * TWO32 + d;
    var blank := Blanks(n);
    assert calls[..0] == [];
    assert TableAfter(blank, calls) == Insert(blank, h, t);
    assert LogAfter(calls) == map[h := t];
    var k := SlotFor(blank, h, t);
    assert t == TWO32 * (t / TWO32) + t % TWO32;
    assert later - t % TWO32 == TWO32 * (cycles + t / TWO32) + d;
    assert Live(later, Insert(blank, h, t)[k]);
    assert later >= t + TWO32 by { assert cycles * TWO32 >= TWO32; }
  }
}
