/**
 The C2 peer table and counters of one device: the whitelist with its anti-replay
 floors, the outbound sequence, and the flash behind both.
 */
module PeerModel {
  import opened Bytes
  import opened Rfc4493
  import opened Reservation

  const MAX_PEERS := 4
  const SEQ_RESERVE: u32 := 16
  const SEQ_INVALID: u32 := 0xFFFF_FFFF

  datatype Peer = Peer(inUse: bool, flags: u8, peerId: u32, psk: Block, rxHighWater: u32)

  const NOBODY := Peer(false, 0, 0, Zeros(16), 0)

  /** RAM table and outbound counter; flash keys rx_<id> and txseq; the saved table blob. */
  datatype State = State(peers: seq<Peer>, tx: Counter, rxFlash: map<u32, u32>, txFlash: u32, table: seq<Peer>)

  ghost predicate Shaped(s: State) {
    |s.peers| == MAX_PEERS && |s.table| == MAX_PEERS
  }

  const FRESH := State([NOBODY, NOBODY, NOBODY, NOBODY], Counter(1, 0), map[], 0, [NOBODY, NOBODY, NOBODY, NOBODY])

  function LoadRx(rx: map<u32, u32>, id: u32): u32 {
    if id != 0 && id in rx then rx[id] else 0
  }

  // ---- the operations ---------------------------------------------------------

  function Reloaded(s: State, i: nat): Peer
    requires i < |s.table|
  {
    var p := s.table[i];
    if p.peerId == 0 then p else p.(rxHighWater := LoadRx(s.rxFlash, p.peerId))
  }

  /** Boot: the saved table with each floor from flash, and the sequence at its reservation. */
  function Begin(s: State): State
    requires Shaped(s)
  {
    s.(peers := seq(MAX_PEERS, i requires 0 <= i < MAX_PEERS => Reloaded(s, i)),
       tx := Counter(if s.txFlash == 0 then 1 else s.txFlash, s.txFlash))
  }

  predicate AnyConfigured(peers: seq<Peer>) {
    exists i :: 0 <= i < |peers| && peers[i].inUse && peers[i].peerId != 0
  }

  /** The row of a peer given by build flags: its floor is the one in flash too. */
  function Seeded(s: State, seed: Peer): Peer {
    seed.(inUse := true, rxHighWater := LoadRx(s.rxFlash, seed.peerId))
  }

  /** Boot of a build that may bring a peer along, for the first row when no saved row is in use. */
  function Boot(s: State, seed: Option<Peer>): (t: State)
    requires Shaped(s)
    ensures Shaped(t)
  {
    var t := Begin(s);
    if seed.Some? && !AnyConfigured(t.peers) then t.(peers := t.peers[0 := Seeded(s, seed.value)]) else t
  }

  /** The slot in use for a sender, or MAX_PEERS. */
  function Resolve(peers: seq<Peer>, id: u32): (i: nat)
    ensures i <= |peers|
    ensures i < |peers| ==> id != 0 && peers[i].inUse && peers[i].peerId == id
    ensures i == |peers| && id != 0 ==> forall k :: 0 <= k < |peers| ==> !(peers[k].inUse && peers[k].peerId == id)
  {
    if id == 0 then |peers| else ResolveFrom(peers, id, 0)
  }

  function ResolveFrom(peers: seq<Peer>, id: u32, from: nat): (i: nat)
    requires from <= |peers|
    ensures from <= i <= |peers|
    ensures i < |peers| ==> peers[i].inUse && peers[i].peerId == id
    ensures forall k :: from <= k < i ==> !(peers[k].inUse && peers[k].peerId == id)
    decreases |peers| - from
  {
    if from == |peers| then from
    else if peers[from].inUse && peers[from].peerId == id then from
    else ResolveFrom(peers, id, from + 1)
  }

  datatype Verdict = Verdict(state: State, ok: bool)

  /** Raise the floor in flash before accepting; anything not above it is refused. */
  function AcceptInboundSeq(s: State, i: int, n: u32, w: Write): (r: Verdict)
    requires Shaped(s)
    ensures Shaped(r.state)
  {
    if i < 0 || i >= MAX_PEERS then Verdict(s, false)
    else
      var p := s.peers[i];
      if !p.inUse || p.peerId == 0 then Verdict(s, false)
      else if n <= p.rxHighWater then Verdict(s, false)
      else
        var t := if w.Lands() then s.(rxFlash := s.rxFlash[p.peerId := n]) else s;
        if !w.Reported() then Verdict(t, false)
        else Verdict(t.(peers := s.peers[i := p.(rxHighWater := n)]), true)
  }

  datatype Drawn = Drawn(state: State, issued: Option<u32>)

  function NextTxSeq(s: State, w: Write): (r: Drawn)
    requires Shaped(s)
    ensures Shaped(r.state)
  {
    var o := Advance(SEQ_RESERVE, s.tx, w);
    Drawn(s.(tx := o.ctr, txFlash := if o.landed.Some? then o.landed.value else s.txFlash), o.issued)
  }

  function SetPeer(s: State, i: int, p: Peer): (r: State)
    requires Shaped(s)
    ensures Shaped(r)
  {
    if i < 0 || i >= MAX_PEERS then s
    else if p.peerId != s.peers[i].peerId then
      s.(peers := s.peers[i := p.(rxHighWater := LoadRx(s.rxFlash, p.peerId))])
    else s.(peers := s.peers[i := p])
  }

  function ClearPeer(s: State, i: int): (r: State)
    requires Shaped(s)
    ensures Shaped(r)
  {
    if i < 0 || i >= MAX_PEERS then s else s.(peers := s.peers[i := NOBODY])
  }

  function SaveTable(s: State, ok: bool): State
    requires Shaped(s)
  {
    if ok then s.(table := s.peers) else s
  }

  // ---- what one device remembers ---------------------------------------------------

  /** No row but `i` holds `id`. */
  ghost predicate Lone(s: State, i: int, id: u32) {
    forall k :: 0 <= k < |s.peers| && k != i ==> s.peers[k].peerId != id
  }

  /** `n` was accepted from `id`: it is under the floor in flash and under the one in RAM. */
  ghost predicate Floored(s: State, id: u32, n: u32) {
    && id != 0
    && n <= LoadRx(s.rxFlash, id)
    && forall i :: 0 <= i < |s.peers| && s.peers[i].peerId == id ==> n <= s.peers[i].rxHighWater
  }

  ghost predicate TxOk(s: State) {
    && s.tx.next >= 1
    && (s.tx.next <= s.tx.reserved || (s.tx.next == 1 && s.tx.reserved == 0))
    && s.tx.reserved <= s.txFlash
  }

  /** `n` was issued: the counter is past it, in RAM and in flash. */
  ghost predicate Spent(s: State, n: u32) {
    1 <= n < s.tx.next && n < s.txFlash
  }

  /** What a caller of SetPeer has to respect as to `id`: a row keeping it keeps its floor. */
  ghost predicate KeepsFloor(s: State, i: int, p: Peer, id: u32) {
    0 <= i < |s.peers| && p.peerId == id == s.peers[i].peerId ==> p.rxHighWater >= s.peers[i].rxHighWater
  }

  lemma AcceptKeeps(s: State, i: int, n: u32, w: Write, id: u32)
    requires Shaped(s)
    requires 0 <= i < MAX_PEERS && s.peers[i].peerId == id ==> Lone(s, i, id)
    ensures var r := AcceptInboundSeq(s, i, n, w);
            && r.state.tx == s.tx && r.state.txFlash == s.txFlash
            && (forall m: u32 :: Floored(s, id, m) ==> Floored(r.state, id, m))
            && (r.ok ==> 0 <= i < MAX_PEERS && s.peers[i].inUse)
            && (r.ok && s.peers[i].peerId == id ==>
                  Floored(r.state, id, n) && forall m: u32 :: Floored(s, id, m) ==> m < n)
  {
    var r := AcceptInboundSeq(s, i, n, w);
    assert forall k :: 0 <= k < MAX_PEERS ==> r.state.peers[k].peerId == s.peers[k].peerId;
  }

  lemma DrawKeeps(s: State, w: Write)
    requires Shaped(s) && TxOk(s)
    ensures var r := NextTxSeq(s, w);
            && TxOk(r.state) && r.state.peers == s.peers && r.state.rxFlash == s.rxFlash
            && (r.issued.Some? ==> Spent(r.state, r.issued.value) && r.issued.value < SEQ_INVALID)
            && (forall m: u32 :: Spent(s, m) ==> Spent(r.state, m))
            && (r.issued.Some? ==> forall m: u32 :: Spent(s, m) ==> m < r.issued.value)
  {
  }

  /** Any edit, also one that moves or swaps rows, forgets nothing as long as no floor is lowered in place. */
  lemma EditKeeps(s: State, i: int, p: Peer, id: u32)
    requires Shaped(s) && KeepsFloor(s, i, p, id)
    ensures var t := SetPeer(s, i, p);
            && t.tx == s.tx && t.txFlash == s.txFlash
            && (forall m: u32 :: Floored(s, id, m) ==> Floored(t, id, m))
  {
  }

  lemma ClearKeeps(s: State, i: int)
    requires Shaped(s)
    ensures var t := ClearPeer(s, i);
            && t.tx == s.tx && t.txFlash == s.txFlash
            && (forall id: u32, m: u32 :: Floored(s, id, m) ==> Floored(t, id, m))
  {
  }

  lemma BeginKeeps(s: State)
    requires Shaped(s)
    ensures var t := Begin(s);
            && Shaped(t) && (TxOk(s) ==> TxOk(t))
            && (forall id: u32, m: u32 :: Floored(s, id, m) ==> Floored(t, id, m))
            && (TxOk(s) ==> forall m: u32 :: Spent(s, m) ==> Spent(t, m))
  {
    var t := Begin(s);
    assert forall k :: 0 <= k < MAX_PEERS ==> t.peers[k].peerId == s.table[k].peerId;
  }

  lemma BootKeeps(s: State, seed: Option<Peer>)
    requires Shaped(s)
    ensures var t := Boot(s, seed);
            && (TxOk(s) ==> TxOk(t))
            && (forall id: u32, m: u32 :: Floored(s, id, m) ==> Floored(t, id, m))
            && (TxOk(s) ==> forall m: u32 :: Spent(s, m) ==> Spent(t, m))
  {
    BeginKeeps(s);
    var t := Boot(s, seed);
    assert t.rxFlash == s.rxFlash && t.tx == Begin(s).tx && t.txFlash == s.txFlash;
    assert forall k :: 0 <= k < MAX_PEERS ==> t.peers[k] == Begin(s).peers[k] || t.peers[k].rxHighWater == LoadRx(s.rxFlash, t.peers[k].peerId);
  }

  // ---- how many flash writes the outbound sequence costs --------------------------

  datatype TxEvent = Draw(w: Write) | Restart

  function TxApply(s: State, e: TxEvent): (r: Drawn)
    requires Shaped(s)
    ensures Shaped(r.state)
  {
    match e
    case Draw(w) => NextTxSeq(s, w)
    case Restart => Drawn(Begin(s), None)
  }

  function TxAfter(es: seq<TxEvent>): (r: State)
    ensures Shaped(r)
  {
    if es == [] then FRESH else TxApply(TxAfter(es[..|es| - 1]), es[|es| - 1]).state
  }

  function TxWrites(es: seq<TxEvent>): nat {
    if es == [] then 0
    else
      var s, e := TxAfter(es[..|es| - 1]), es[|es| - 1];
      TxWrites(es[..|es| - 1]) + (if e.Draw? && Advance(SEQ_RESERVE, s.tx, e.w).landed.Some? then 1 else 0)
  }

  function TxIssued(es: seq<TxEvent>): seq<u32> {
    if es == [] then []
    else
      var o := TxApply(TxAfter(es[..|es| - 1]), es[|es| - 1]).issued;
      TxIssued(es[..|es| - 1]) + (if o.Some? then [o.value] else [])
  }

  function Restarts(es: seq<TxEvent>): nat {
    if es == [] then 0 else Restarts(es[..|es| - 1]) + (if es[|es| - 1].Restart? then 1 else 0)
  }

  ghost predicate AllConfirmed(es: seq<TxEvent>) {
    forall k :: 0 <= k < |es| ==> es[k].Draw? ==> es[k].w.Confirmed?
  }

  /** The accounting of the outbound sequence. */
  ghost predicate TxLedger(s: State, writes: nat, out: seq<u32>, restarts: nat) {
    && s.txFlash == s.tx.reserved
    && (s.txFlash == 0 ==> writes == 0 && out == [] && s.tx.next == 1)
    && (s.txFlash != 0 ==>
          && out != []
          && s.txFlash == 17 * writes + 1
          && 0 <= s.tx.reserved - s.tx.next <= 16
          && 17 * writes <= |out| + 16 * restarts + (s.tx.reserved - s.tx.next)
          && out[|out| - 1] < s.tx.next
          && s.tx.reserved - out[|out| - 1] <= 17)
  }

  lemma TxLedgerStep(s: State, e: TxEvent, writes: nat, out: seq<u32>, restarts: nat)
    requires Shaped(s) && TxLedger(s, writes, out, restarts) && (e.Draw? ==> e.w.Confirmed?)
    ensures var r := TxApply(s, e);
            && TxLedger(r.state,
                        writes + (if e.Draw? && Advance(SEQ_RESERVE, s.tx, e.w).landed.Some? then 1 else 0),
                        out + (if r.issued.Some? then [r.issued.value] else []),
                        restarts + (if e.Restart? then 1 else 0))
            && (r.issued.Some? && out != [] ==> var a: int, b: int := out[|out| - 1], r.issued.value; 0 < b - a <= 17)
  {
    var r := TxApply(s, e);
    if r.issued.None? { assert out + [] == out; }
  }

  lemma SmallStepsGrow(out: seq<u32>, v: u32)
    requires SmallSteps(out) && (out != [] ==> var a: int, b: int := out[|out| - 1], v; 0 < b - a <= 17)
    ensures SmallSteps(out + [v])
  {
    var more := out + [v];
    forall k | 0 < k < |more| ensures var a: int, b: int := more[k - 1], more[k]; 0 < b - a <= 17 {
      assert k < |out| ==> more[k] == out[k];
      assert more[k - 1] == out[k - 1];
    }
  }

  /** Numbers grow, and never by more than 17. */
  ghost predicate SmallSteps(out: seq<u32>) {
    forall k :: 0 < k < |out| ==> var a: int, b: int := out[k - 1], out[k]; 0 < b - a <= 17
  }

  lemma {:induction false} TxLedgerRun(es: seq<TxEvent>)
    requires AllConfirmed(es)
    ensures TxLedger(TxAfter(es), TxWrites(es), TxIssued(es), Restarts(es))
    ensures SmallSteps(TxIssued(es))
  {
    if es != [] {
      var es', e := es[..|es| - 1], es[|es| - 1];
      TxLedgerRun(es');
      TxLedgerStep(TxAfter(es'), e, TxWrites(es'), TxIssued(es'), Restarts(es'));
      var o := TxApply(TxAfter(es'), e).issued;
      var more := if o.Some? then [o.value] else [];
      assert TxIssued(es) == TxIssued(es') + more;
      assert TxAfter(es) == TxApply(TxAfter(es'), e).state;
      if o.Some? { SmallStepsGrow(TxIssued(es'), o.value); } else { assert TxIssued(es) == TxIssued(es'); }
    }
  }

  /**
   With every write confirmed, n sequence numbers over r restarts cost at most
   n/17 + r + 1 flash writes, and consecutive numbers never differ by more than 17.
   */
  lemma TxEconomy(es: seq<TxEvent>)
    requires AllConfirmed(es)
    ensures 17 * TxWrites(es) <= |TxIssued(es)| + 16 * (Restarts(es) + 1)
    ensures TxWrites(es) <= |TxIssued(es)| / 17 + Restarts(es) + 1
    ensures SmallSteps(TxIssued(es))
  {
    TxLedgerRun(es);
  }
}
