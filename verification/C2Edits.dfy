/**
 What edits of the peer table may cost: exactly which of them let a device accept a number of
 a sender again, and runs in which it does.
 */
module C2Edits {
  import opened Bytes
  import opened Rfc4493
  import opened Reservation
  import opened C2Frame
  import opened C2System
  import P = PeerModel

  lemma RunMore(E: Cipher, ids: seq<u32>, es: seq<Event>, e: Event)
    ensures Run(E, ids, es + [e]) == Step(E, ids, Run(E, ids, es), e)
  {
    assert (es + [e])[..|es + [e]| - 1] == es;
  }

  /** A frame above the floor of the row that answers for its sender, with that row's key. */
  lemma Accepts(E: Cipher, myId: u32, s: P.State, p: Packet)
    requires P.Shaped(s) && |p.payload| <= MAX_PAYLOAD && (p.recipient == 0 || p.recipient == myId)
    requires P.Resolve(s.peers, p.sender) < |s.peers|
    requires s.peers[P.Resolve(s.peers, p.sender)].rxHighWater < p.number
    ensures var i := P.Resolve(s.peers, p.sender);
            AuthInbound(E, myId, s, Wire(E, s.peers[i].psk, p), Confirmed)
            == (P.AcceptInboundSeq(s, i, p.number, Confirmed).state, Some(p))
  {
    var psk := s.peers[P.Resolve(s.peers, p.sender)].psk;
    OpenWire(E, psk, p);
  }

  // ---- what may follow ------------------------------------------------------------------------

  predicate Answers(p: P.Peer, id: u32) {
    p.inUse && p.peerId == id
  }

  /** Anything may follow at any device, except that a row of device `d` is written for peer `id` again. */
  predicate Later(e: Event, d: nat, id: u32) {
    !(e.Edit? && e.d == d && Answers(e.peer, id))
  }

  ghost predicate AllLater(more: seq<Event>, d: nat, id: u32) {
    forall k :: 0 <= k < |more| ==> Later(more[k], d, id)
  }

  /** Until a row of device `d` is written for `id` again, the numbers it accepts from `id` go on increasing. */
  ghost predicate SafeAfter(E: Cipher, ids: seq<u32>, es: seq<Event>, d: nat, id: u32) {
    forall more :: AllLater(more, d, id) ==> Ordered(Run(E, ids, es + more).taken, d, id)
  }

  /** At most one row in use answers for `id`. */
  ghost predicate Single(rows: seq<P.Peer>, id: u32) {
    forall i, j :: 0 <= i < j < |rows| && Answers(rows[i], id) ==> !Answers(rows[j], id)
  }

  /** Nothing device `d` accepted from `id` lies above `floor`. */
  ghost predicate NotBelow(taken: seq<Taken>, d: nat, id: u32, floor: u32) {
    forall k :: 0 <= k < |taken| && From(taken[k], d, id) ==> taken[k].packet.number <= floor
  }

  /** Every row that answers for `id` has a floor that nothing accepted exceeds. */
  ghost predicate Above(rows: seq<P.Peer>, taken: seq<Taken>, d: nat, id: u32) {
    forall i :: 0 <= i < |rows| && Answers(rows[i], id) ==> NotBelow(taken, d, id, rows[i].rxHighWater)
  }

  /** The saved rows and the floor in flash, from which a restart takes the table. */
  ghost predicate Backed(s: P.State, taken: seq<Taken>, d: nat, id: u32) {
    Single(s.table, id) && NotBelow(taken, d, id, P.LoadRx(s.rxFlash, id))
  }

  /** One row at most answers, now and after a restart, and its floor covers what was accepted. */
  ghost predicate Guarded(s: P.State, taken: seq<Taken>, d: nat, id: u32) {
    Ordered(taken, d, id) && Single(s.peers, id) && Above(s.peers, taken, d, id) && Backed(s, taken, d, id)
  }

  // ---- a guarded device stays guarded -----------------------------------------------------------

  lemma MoreOrdered(taken: seq<Taken>, t: Taken, d: nat, id: u32, floor: u32)
    requires Ordered(taken, d, id) && NotBelow(taken, d, id, floor) && floor < t.packet.number
    ensures Ordered(taken + [t], d, id)
  {
    var more := taken + [t];
    forall k, l | 0 <= k < l < |more| && From(more[k], d, id) && From(more[l], d, id)
      ensures more[k].packet.number < more[l].packet.number
    {
      assert From(taken[k], d, id);
    }
  }

  lemma MoreBelow(taken: seq<Taken>, t: Taken, d: nat, id: u32, floor: u32, raised: u32)
    requires NotBelow(taken, d, id, floor) && floor <= raised && (From(t, d, id) ==> t.packet.number <= raised)
    ensures NotBelow(taken + [t], d, id, raised)
  {
    var more := taken + [t];
    forall k | 0 <= k < |more| && From(more[k], d, id) ensures more[k].packet.number <= raised {
      if k < |taken| { assert From(taken[k], d, id); }
    }
  }

  lemma OrderedOther(taken: seq<Taken>, t: Taken, d: nat, id: u32)
    requires Ordered(taken, d, id) && !From(t, d, id)
    ensures Ordered(taken + [t], d, id)
  {
    var more := taken + [t];
    assert forall k :: 0 <= k < |more| && From(more[k], d, id) ==> k < |taken| && From(taken[k], d, id);
  }

  /** A frame of another sender, or one that another device takes, changes nothing for `id` here. */
  lemma GuardedOther(s: P.State, taken: seq<Taken>, t: Taken, d: nat, id: u32)
    requires Guarded(s, taken, d, id) && !From(t, d, id)
    ensures Guarded(s, taken + [t], d, id)
  {
    OrderedOther(taken, t, d, id);
    forall i | 0 <= i < |s.peers| && Answers(s.peers[i], id) ensures NotBelow(taken + [t], d, id, s.peers[i].rxHighWater) {
      MoreBelow(taken, t, d, id, s.peers[i].rxHighWater, s.peers[i].rxHighWater);
    }
    MoreBelow(taken, t, d, id, P.LoadRx(s.rxFlash, id), P.LoadRx(s.rxFlash, id));
  }

  /** A row that does not answer for `id` is written. */
  lemma GuardedRow(s: P.State, taken: seq<Taken>, d: nat, id: u32, i: nat, p: P.Peer)
    requires Guarded(s, taken, d, id) && i < |s.peers| && !Answers(p, id)
    ensures Guarded(s.(peers := s.peers[i := p]), taken, d, id)
  {
    var rows := s.peers[i := p];
    assert forall k :: 0 <= k < |rows| && Answers(rows[k], id) ==> rows[k] == s.peers[k];
  }

  /** What a restart makes of the rows for `id`. */
  lemma BootRows(s: P.State, id: u32)
    requires P.Shaped(s) && id != 0
    ensures var rows := P.Begin(s).peers;
            && |rows| == |s.table|
            && (forall k :: 0 <= k < |rows| ==> (Answers(rows[k], id) <==> Answers(s.table[k], id)))
            && (forall k :: 0 <= k < |rows| && rows[k].peerId == id ==> rows[k].rxHighWater == P.LoadRx(s.rxFlash, id))
  {
  }

  lemma GuardedBegin(s: P.State, taken: seq<Taken>, d: nat, id: u32)
    requires P.Shaped(s) && Guarded(s, taken, d, id) && id != 0
    ensures Guarded(P.Begin(s), taken, d, id)
  {
    BootRows(s, id);
  }

  /** A peer the build brings along comes into an empty table, with its floor from flash. */
  lemma GuardedBoot(s: P.State, seed: Option<P.Peer>, taken: seq<Taken>, d: nat, id: u32)
    requires P.Shaped(s) && Guarded(s, taken, d, id) && id != 0
    ensures Guarded(P.Boot(s, seed), taken, d, id)
  {
    GuardedBegin(s, taken, d, id);
    var rows := P.Begin(s).peers;
    if seed.Some? && !P.AnyConfigured(rows) {
      assert forall k :: 0 <= k < |rows| ==> !Answers(rows[k], id);
    }
  }

  /** Whatever happens at the device short of a frame or news of `id`. */
  lemma GuardedQuiet(E: Cipher, ids: seq<u32>, x: World, e: Event, id: u32)
    requires Shaped(ids, x) && e.d < |ids| && id != 0 && !e.Deliver? && Later(e, e.d, id)
    requires Guarded(x.devs[e.d], x.taken, e.d, id)
    ensures Guarded(Step(E, ids, x, e).devs[e.d], x.taken, e.d, id)
  {
    var s, t := x.devs[e.d], Step(E, ids, x, e).devs[e.d];
    match e
    case Edit(d, i, peer) => if 0 <= i < P.MAX_PEERS { GuardedRow(s, x.taken, d, id, i, t.peers[i]); }
    case Clear(d, i) => if 0 <= i < P.MAX_PEERS { GuardedRow(s, x.taken, d, id, i, P.NOBODY); }
    case Reboot(d, seed) => GuardedBoot(s, seed, x.taken, d, id);
    case Send(_, _, _, _, _) => assert t.peers == s.peers && t.table == s.table && t.rxFlash == s.rxFlash;
    case Save(_, _) =>
  }

  // ---- a frame arrives ---------------------------------------------------------------------------

  function Landed(s: P.State, q: u32, n: u32): P.State {
    s.(rxFlash := s.rxFlash[q := n])
  }

  function Raised(s: P.State, i: nat, n: u32): P.State
    requires i < |s.peers|
  {
    s.(peers := s.peers[i := s.peers[i].(rxHighWater := n)])
  }

  /** The row that answers for `q` has a floor below `n`. */
  ghost predicate Fresh(s: P.State, q: u32, n: u32) {
    P.Resolve(s.peers, q) < |s.peers| && s.peers[P.Resolve(s.peers, q)].rxHighWater < n
  }

  lemma AcceptRows(s: P.State, i: nat, n: u32, w: Write)
    requires P.Shaped(s) && i < P.MAX_PEERS
    ensures var v, t := P.AcceptInboundSeq(s, i, n, w), Landed(s, s.peers[i].peerId, n);
            && (v.state != s || v.ok ==> s.peers[i].rxHighWater < n)
            && (!v.ok ==> v.state == s || v.state == t) && (v.ok ==> v.state == Raised(t, i, n))
  {
  }

  /** What authentication does: nothing, a number in flash, or a number in flash and in the row that answers. */
  lemma AuthRows(E: Cipher, myId: u32, s: P.State, buf: seq<u8>, w: Write) returns (q: u32, n: u32)
    requires P.Shaped(s)
    ensures var r := AuthInbound(E, myId, s, buf, w);
            && (r.0 != s || r.1.Some? ==> Fresh(s, q, n))
            && (r.1.None? ==> r.0 == s || r.0 == Landed(s, q, n))
            && (r.1.Some? ==> r.1.value.sender == q && r.1.value.number == n && r.0 == Raised(Landed(s, q, n), P.Resolve(s.peers, q), n))
  {
    q, n := 0, 0;
    if MIN_FRAME <= |buf| <= MAX_FRAME {
      q := FromLE32(buf[2..6]);
      var i := P.Resolve(s.peers, q);
      if i < |s.peers| {
        var o := Open(E, s.peers[i].psk, buf);
        if o.Some? {
          n := o.value.number;
          AcceptRows(s, i, n, w);
        }
      }
    }
  }

  lemma GuardedLanded(s: P.State, taken: seq<Taken>, d: nat, id: u32, q: u32, n: u32)
    requires Guarded(s, taken, d, id) && Fresh(s, q, n)
    ensures Guarded(Landed(s, q, n), taken, d, id)
  {
    if q == id { assert Answers(s.peers[P.Resolve(s.peers, q)], id); }
  }

  lemma GuardedRaised(s: P.State, taken: seq<Taken>, t: Taken, d: nat, id: u32)
    requires Guarded(s, taken, d, id) && From(t, d, id) && Fresh(s, id, t.packet.number)
    requires P.LoadRx(s.rxFlash, id) == t.packet.number
    ensures Guarded(Raised(s, P.Resolve(s.peers, id), t.packet.number), taken + [t], d, id)
  {
    var i, n := P.Resolve(s.peers, id), t.packet.number;
    var floor, rows := s.peers[i].rxHighWater, Raised(s, i, n).peers;
    assert Answers(s.peers[i], id);
    MoreOrdered(taken, t, d, id, floor);
    MoreBelow(taken, t, d, id, floor, n);
    assert forall k :: 0 <= k < |rows| ==> (Answers(rows[k], id) <==> k == i);
  }

  lemma GuardedTake(s: P.State, taken: seq<Taken>, t: Taken, d: nat, id: u32)
    requires Guarded(s, taken, d, id) && t.d == d && Fresh(s, t.packet.sender, t.packet.number)
    requires P.LoadRx(s.rxFlash, t.packet.sender) == t.packet.number
    ensures Guarded(Raised(s, P.Resolve(s.peers, t.packet.sender), t.packet.number), taken + [t], d, id)
  {
    if t.packet.sender == id {
      GuardedRaised(s, taken, t, d, id);
    } else {
      GuardedOther(s, taken, t, d, id);
      var i := P.Resolve(s.peers, t.packet.sender);
      GuardedRow(s, taken + [t], d, id, i, s.peers[i].(rxHighWater := t.packet.number));
    }
  }

  lemma GuardedAuth(E: Cipher, myId: u32, s: P.State, taken: seq<Taken>, buf: seq<u8>, w: Write, d: nat, id: u32)
    requires P.Shaped(s) && Guarded(s, taken, d, id)
    ensures var r := AuthInbound(E, myId, s, buf, w);
            Guarded(r.0, if r.1.Some? then taken + [Taken(d, r.1.value, buf)] else taken, d, id)
  {
    var r := AuthInbound(E, myId, s, buf, w);
    var q, n := AuthRows(E, myId, s, buf, w);
    if r.0 != s || r.1.Some? { GuardedLanded(s, taken, d, id, q, n); }
    if r.1.Some? { GuardedTake(Landed(s, q, n), taken, Taken(d, r.1.value, buf), d, id); }
  }

  lemma GuardedDeliver(E: Cipher, ids: seq<u32>, x: World, at: nat, buf: seq<u8>, w: Write, d: nat, id: u32)
    requires Shaped(ids, x) && d < |ids| && at < |ids| && id != 0 && Guarded(x.devs[d], x.taken, d, id)
    ensures var y := Step(E, ids, x, Deliver(at, buf, w)); Guarded(y.devs[d], y.taken, d, id)
  {
    var r := AuthInbound(E, ids[at], x.devs[at], buf, w);
    if at == d {
      GuardedAuth(E, ids[d], x.devs[d], x.taken, buf, w, d, id);
    } else if r.1.Some? {
      GuardedOther(x.devs[d], x.taken, Taken(at, r.1.value, buf), d, id);
    }
  }

  lemma GuardedStep(E: Cipher, ids: seq<u32>, x: World, e: Event, d: nat, id: u32)
    requires Shaped(ids, x) && d < |ids| && id != 0 && Guarded(x.devs[d], x.taken, d, id) && Later(e, d, id)
    ensures var y := Step(E, ids, x, e); Guarded(y.devs[d], y.taken, d, id)
  {
    if e.Deliver? && e.d < |ids| {
      GuardedDeliver(E, ids, x, e.d, e.buf, e.w, d, id);
    } else if e.d == d {
      GuardedQuiet(E, ids, x, e, id);
    }
  }

  lemma {:induction false} GuardedRun(E: Cipher, ids: seq<u32>, es: seq<Event>, more: seq<Event>, d: nat, id: u32)
    requires d < |ids| && id != 0 && AllLater(more, d, id)
    requires var x := Run(E, ids, es); Guarded(x.devs[d], x.taken, d, id)
    ensures var y := Run(E, ids, es + more); Guarded(y.devs[d], y.taken, d, id)
  {
    if more == [] {
      assert es + more == es;
    } else {
      var front, e := more[..|more| - 1], more[|more| - 1];
      GuardedRun(E, ids, es, front, d, id);
      assert es + more == (es + front) + [e];
      RunMore(E, ids, es + front, e);
      GuardedStep(E, ids, Run(E, ids, es + front), e, d, id);
    }
  }

  // ---- two rows for one peer, and a lowered floor ---------------------------------------------

  /** The highest number that can be issued. */
  const HIGH: u32 := P.SEQ_INVALID - 1

  function Probe(id: u32, n: u32): Packet {
    Packet(0, id, 0, n, [])
  }

  /** The highest number that can be issued is above every floor held for `id`. */
  ghost predicate RoomFor(s: P.State, id: u32) {
    && P.LoadRx(s.rxFlash, id) < HIGH
    && forall k :: 0 <= k < |s.peers| && s.peers[k].peerId == id ==> s.peers[k].rxHighWater < HIGH
  }

  /** Accepting one probe through the row that answers. */
  lemma Probed(E: Cipher, ids: seq<u32>, es: seq<Event>, d: nat, id: u32, n: u32) returns (e: Event)
    requires d < |ids| && id != 0
    requires var s := Run(E, ids, es).devs[d];
             P.Resolve(s.peers, id) < |s.peers| && s.peers[P.Resolve(s.peers, id)].rxHighWater < n
    ensures e.Deliver?
    ensures var x, y := Run(E, ids, es), Run(E, ids, es + [e]);
            var i := P.Resolve(x.devs[d].peers, id);
            && |y.taken| == |x.taken| + 1 && y.taken[..|x.taken|] == x.taken
            && From(y.taken[|x.taken|], d, id) && y.taken[|x.taken|].packet.number == n
            && y.devs[d].peers == x.devs[d].peers[i := x.devs[d].peers[i].(rxHighWater := n)]
  {
    var s := Run(E, ids, es).devs[d];
    var i := P.Resolve(s.peers, id);
    e := Deliver(d, Wire(E, s.peers[i].psk, Probe(id, n)), Confirmed);
    Accepts(E, ids[d], s, Probe(id, n));
    RunMore(E, ids, es, e);
  }

  /** Row `first` answers and has taken the high number last; row `other` would take it too. */
  ghost predicate OneTook(ids: seq<u32>, x: World, d: nat, id: u32, n: nat, first: nat, other: nat)
    requires Shaped(ids, x) && d < |ids|
  {
    var rows := x.devs[d].peers;
    && |x.taken| == n + 1 && From(x.taken[n], d, id) && x.taken[n].packet.number == HIGH
    && first < |rows| && other < |rows| && first != other && P.Resolve(rows, id) == first && Answers(rows[other], id)
    && forall k :: 0 <= k < |rows| && k != first && rows[k].peerId == id ==> rows[k].rxHighWater < HIGH
  }

  /** Some row would take the high number again. */
  ghost predicate TakesMore(ids: seq<u32>, x: World, d: nat, id: u32, n: nat)
    requires Shaped(ids, x) && d < |ids|
  {
    var i := P.Resolve(x.devs[d].peers, id);
    && |x.taken| == n + 1 && From(x.taken[n], d, id) && x.taken[n].packet.number == HIGH
    && i < |x.devs[d].peers| && x.devs[d].peers[i].rxHighWater < HIGH
  }

  /** The row that answers is cleared; another row in use for `id` answers then. */
  lemma Cleared(E: Cipher, ids: seq<u32>, es: seq<Event>, d: nat, id: u32, n: nat, first: nat, other: nat)
    requires d < |ids| && id != 0 && OneTook(ids, Run(E, ids, es), d, id, n, first, other)
    ensures TakesMore(ids, Run(E, ids, es + [Clear(d, first)]), d, id, n)
  {
    var x := Run(E, ids, es);
    RunMore(E, ids, es, Clear(d, first));
    var y := Run(E, ids, es + [Clear(d, first)]);
    assert y.devs[d].peers == x.devs[d].peers[first := P.NOBODY];
    assert y.devs[d].peers[other] == x.devs[d].peers[other];
  }

  lemma NotOrdered(taken: seq<Taken>, k: nat, l: nat, d: nat, id: u32)
    requires k < l < |taken| && From(taken[k], d, id) && From(taken[l], d, id)
    requires taken[k].packet.number >= taken[l].packet.number
    ensures !Ordered(taken, d, id)
  {
  }

  /** The first of two rows takes a frame; the second has not heard of it. */
  lemma FirstRowTakes(E: Cipher, ids: seq<u32>, es: seq<Event>, d: nat, id: u32, j: nat, k: nat) returns (a: Event, first: nat, other: nat)
    requires d < |ids| && id != 0 && RoomFor(Run(E, ids, es).devs[d], id)
    requires var rows := Run(E, ids, es).devs[d].peers;
             j < |rows| && k < |rows| && j != k && Answers(rows[j], id) && Answers(rows[k], id)
    ensures a.Deliver? && OneTook(ids, Run(E, ids, es + [a]), d, id, |Run(E, ids, es).taken|, first, other)
  {
    var rows := Run(E, ids, es).devs[d].peers;
    first := P.Resolve(rows, id);
    other := if first == j then k else j;
    a := Probed(E, ids, es, d, id, HIGH);
    SameAnswers(rows, Run(E, ids, es + [a]).devs[d].peers, id, 0);
  }

  lemma TakesAgain(E: Cipher, ids: seq<u32>, es: seq<Event>, d: nat, id: u32, n: nat) returns (b: Event)
    requires d < |ids| && id != 0 && TakesMore(ids, Run(E, ids, es), d, id, n)
    ensures b.Deliver? && !Ordered(Run(E, ids, es + [b]).taken, d, id)
  {
    b := Probed(E, ids, es, d, id, HIGH);
    var taken := Run(E, ids, es + [b]).taken;
    assert taken[n] == taken[..n + 1][n];
    NotOrdered(taken, n, n + 1, d, id);
  }

  lemma SecondRowTakes(E: Cipher, ids: seq<u32>, es: seq<Event>, d: nat, id: u32, n: nat, first: nat, other: nat) returns (c: Event, b: Event)
    requires d < |ids| && id != 0 && OneTook(ids, Run(E, ids, es), d, id, n, first, other)
    ensures c.Clear? && b.Deliver? && !Ordered(Run(E, ids, es + [c] + [b]).taken, d, id)
  {
    c := Clear(d, first);
    Cleared(E, ids, es, d, id, n, first, other);
    b := TakesAgain(E, ids, es + [c], d, id, n);
  }

  lemma Three(es: seq<Event>, a: Event, c: Event, b: Event)
    ensures es + [a] + [c] + [b] == es + [a, c, b]
  {
  }

  lemma BothTake(E: Cipher, ids: seq<u32>, es: seq<Event>, a: Event, d: nat, id: u32, n: nat, first: nat, other: nat) returns (more: seq<Event>)
    requires d < |ids| && id != 0 && a.Deliver? && OneTook(ids, Run(E, ids, es + [a]), d, id, n, first, other)
    ensures AllLater(more, d, id) && !Ordered(Run(E, ids, es + more).taken, d, id)
  {
    var c, b := SecondRowTakes(E, ids, es + [a], d, id, n, first, other);
    Three(es, a, c, b);
    more := [a, c, b];
  }

  /** With two rows in use for `id`, the second accepts what the first did once the first is cleared. */
  lemma TwoRowsRepeat(E: Cipher, ids: seq<u32>, es: seq<Event>, d: nat, id: u32, j: nat, k: nat) returns (more: seq<Event>)
    requires d < |ids| && id != 0 && RoomFor(Run(E, ids, es).devs[d], id)
    requires var rows := Run(E, ids, es).devs[d].peers;
             j < |rows| && k < |rows| && j != k && Answers(rows[j], id) && Answers(rows[k], id)
    ensures AllLater(more, d, id) && !Ordered(Run(E, ids, es + more).taken, d, id)
  {
    var a, first, other := FirstRowTakes(E, ids, es, d, id, j, k);
    more := BothTake(E, ids, es, a, d, id, |Run(E, ids, es).taken|, first, other);
  }

  /** Which row answers does not depend on the floors. */
  lemma {:induction false} SameAnswers(rows: seq<P.Peer>, rows': seq<P.Peer>, id: u32, from: nat)
    requires |rows| == |rows'| && from <= |rows|
    requires forall k :: 0 <= k < |rows| ==> rows[k].inUse == rows'[k].inUse && rows[k].peerId == rows'[k].peerId
    ensures P.ResolveFrom(rows, id, from) == P.ResolveFrom(rows', id, from)
    decreases |rows| - from
  {
    if from < |rows| { SameAnswers(rows, rows', id, from + 1); }
  }

  lemma LoweredRepeats(E: Cipher, ids: seq<u32>, es: seq<Event>, d: nat, id: u32, i: nat, k: nat) returns (more: seq<Event>)
    requires d < |ids| && id != 0
    requires var x := Run(E, ids, es);
             && i < |x.devs[d].peers| && P.Resolve(x.devs[d].peers, id) == i
             && k < |x.taken| && From(x.taken[k], d, id) && x.devs[d].peers[i].rxHighWater < x.taken[k].packet.number
    ensures AllLater(more, d, id) && !Ordered(Run(E, ids, es + more).taken, d, id)
  {
    var x := Run(E, ids, es);
    var a := Probed(E, ids, es, d, id, x.devs[d].peers[i].rxHighWater + 1);
    more := [a];
    var y := Run(E, ids, es + more);
    assert y.taken[k] == y.taken[..|x.taken|][k] == x.taken[k];
    assert From(y.taken[k], d, id) && From(y.taken[|x.taken|], d, id);
  }

  // ---- a device that is not guarded can be led astray -------------------------------------------------

  lemma Prefixed(es: seq<Event>, e: Event, more: seq<Event>)
    ensures es + [e] + more == es + ([e] + more)
  {
  }

  /** Two rows in RAM, or one whose floor has fallen behind. */
  lemma RamRepeats(E: Cipher, ids: seq<u32>, es: seq<Event>, d: nat, id: u32) returns (more: seq<Event>)
    requires d < |ids| && id != 0 && RoomFor(Run(E, ids, es).devs[d], id)
    requires var x := Run(E, ids, es); !Single(x.devs[d].peers, id) || !Above(x.devs[d].peers, x.taken, d, id)
    ensures AllLater(more, d, id) && !Ordered(Run(E, ids, es + more).taken, d, id)
  {
    var x := Run(E, ids, es);
    var rows := x.devs[d].peers;
    if !Single(rows, id) {
      var j, k :| 0 <= j < k < |rows| && Answers(rows[j], id) && Answers(rows[k], id);
      more := TwoRowsRepeat(E, ids, es, d, id, j, k);
    } else {
      var i :| 0 <= i < |rows| && Answers(rows[i], id) && !NotBelow(x.taken, d, id, rows[i].rxHighWater);
      var k :| 0 <= k < |x.taken| && From(x.taken[k], d, id) && x.taken[k].packet.number > rows[i].rxHighWater;
      assert Answers(rows[P.Resolve(rows, id)], id);
      more := LoweredRepeats(E, ids, es, d, id, i, k);
    }
  }

  /** Two saved rows: the next restart brings both into RAM. */
  lemma SavedRepeats(E: Cipher, ids: seq<u32>, es: seq<Event>, d: nat, id: u32) returns (more: seq<Event>)
    requires d < |ids| && id != 0 && P.LoadRx(Run(E, ids, es).devs[d].rxFlash, id) < HIGH
    requires !Single(Run(E, ids, es).devs[d].table, id)
    ensures AllLater(more, d, id) && !Ordered(Run(E, ids, es + more).taken, d, id)
  {
    var x, boot := Run(E, ids, es), Reboot(d, None);
    RunMore(E, ids, es, boot);
    BootRows(x.devs[d], id);
    var y := Run(E, ids, es + [boot]);
    assert y.taken == x.taken && y.devs[d] == P.Begin(x.devs[d]);
    var rest := RamRepeats(E, ids, es + [boot], d, id);
    Prefixed(es, boot, rest);
    more := [boot] + rest;
  }

  /** The first `n` rows are empty, and neither flash nor what was taken has changed. */
  ghost predicate Emptied(x: World, y: World, d: nat, n: nat)
    requires d < |x.devs| && d < |y.devs|
  {
    && y.taken == x.taken && y.devs[d].rxFlash == x.devs[d].rxFlash
    && n <= |y.devs[d].peers| && forall k :: 0 <= k < n ==> y.devs[d].peers[k] == P.NOBODY
  }

  lemma ClearStep(E: Cipher, ids: seq<u32>, x: World, y: World, d: nat, n: nat)
    requires Shaped(ids, x) && Shaped(ids, y) && d < |ids| && n < P.MAX_PEERS && Emptied(x, y, d, n)
    ensures Emptied(x, Step(E, ids, y, Clear(d, n)), d, n + 1)
  {
  }

  ghost predicate Harmless(more: seq<Event>) {
    forall k :: 0 <= k < |more| ==> more[k].Clear? || more[k].Save? || more[k].Reboot?
  }

  lemma {:induction false} Empties(E: Cipher, ids: seq<u32>, es: seq<Event>, d: nat, n: nat) returns (more: seq<Event>)
    requires d < |ids| && n <= P.MAX_PEERS
    ensures Harmless(more) && Emptied(Run(E, ids, es), Run(E, ids, es + more), d, n)
  {
    if n == 0 {
      more := [];
      assert es + more == es;
    } else {
      var front := Empties(E, ids, es, d, n - 1);
      more := front + [Clear(d, n - 1)];
      assert es + more == (es + front) + [Clear(d, n - 1)];
      RunMore(E, ids, es + front, Clear(d, n - 1));
      ClearStep(E, ids, Run(E, ids, es), Run(E, ids, es + front), d, n - 1);
    }
  }

  /** Emptied, saved, and booted with a peer built in. */
  lemma SeedStep(E: Cipher, ids: seq<u32>, x: World, y: World, d: nat, seed: P.Peer)
    requires Shaped(ids, x) && Shaped(ids, y) && d < |ids| && Emptied(x, y, d, P.MAX_PEERS)
    ensures var z := Step(E, ids, Step(E, ids, y, Save(d, true)), Reboot(d, Some(seed)));
            && z.taken == x.taken && z.devs[d].rxFlash == x.devs[d].rxFlash && z.devs[d].peers[0] == P.Seeded(x.devs[d], seed)
            && forall k :: 0 < k < P.MAX_PEERS ==> z.devs[d].peers[k] == P.NOBODY
  {
    var s := P.SaveTable(y.devs[d], true);
    var rows := P.Begin(s).peers;
    assert forall k :: 0 <= k < P.MAX_PEERS ==> rows[k] == s.table[k] == P.NOBODY;
    assert !P.AnyConfigured(rows);
  }

  lemma Seeds(E: Cipher, ids: seq<u32>, es: seq<Event>, d: nat, seed: P.Peer) returns (more: seq<Event>)
    requires d < |ids|
    ensures Harmless(more)
    ensures var x, z := Run(E, ids, es), Run(E, ids, es + more);
            && z.taken == x.taken && z.devs[d].rxFlash == x.devs[d].rxFlash && z.devs[d].peers[0] == P.Seeded(x.devs[d], seed)
            && forall k :: 0 < k < P.MAX_PEERS ==> z.devs[d].peers[k] == P.NOBODY
  {
    var saved, boot := Save(d, true), Reboot(d, Some(seed));
    var front := Empties(E, ids, es, d, P.MAX_PEERS);
    more := front + [saved] + [boot];
    assert es + more == (es + front) + [saved] + [boot];
    RunMore(E, ids, es + front, saved);
    RunMore(E, ids, es + front + [saved], boot);
    SeedStep(E, ids, Run(E, ids, es), Run(E, ids, es + front), d, seed);
  }

  lemma SeededBehind(s: P.State, t: P.State, taken: seq<Taken>, d: nat, id: u32)
    requires P.Shaped(t) && P.LoadRx(s.rxFlash, id) < HIGH && !NotBelow(taken, d, id, P.LoadRx(s.rxFlash, id)) && id != 0
    requires t.rxFlash == s.rxFlash && t.peers[0] == P.Seeded(s, P.NOBODY.(peerId := id))
    requires forall k :: 0 < k < P.MAX_PEERS ==> t.peers[k] == P.NOBODY
    ensures RoomFor(t, id) && !Above(t.peers, taken, d, id)
  {
    assert Answers(t.peers[0], id);
  }

  /** A floor in flash that has fallen behind: a wiped device that boots with the peer built in. */
  lemma FlashRepeats(E: Cipher, ids: seq<u32>, es: seq<Event>, d: nat, id: u32) returns (more: seq<Event>)
    requires d < |ids| && id != 0 && P.LoadRx(Run(E, ids, es).devs[d].rxFlash, id) < HIGH
    requires var x := Run(E, ids, es); !NotBelow(x.taken, d, id, P.LoadRx(x.devs[d].rxFlash, id))
    ensures AllLater(more, d, id) && !Ordered(Run(E, ids, es + more).taken, d, id)
  {
    var seeds := Seeds(E, ids, es, d, P.NOBODY.(peerId := id));
    SeededBehind(Run(E, ids, es).devs[d], Run(E, ids, es + seeds).devs[d], Run(E, ids, es).taken, d, id);
    var rest := RamRepeats(E, ids, es + seeds, d, id);
    assert es + seeds + rest == es + (seeds + rest);
    more := seeds + rest;
  }

  lemma AnyRepeats(E: Cipher, ids: seq<u32>, es: seq<Event>, d: nat, id: u32) returns (more: seq<Event>)
    requires d < |ids| && id != 0 && RoomFor(Run(E, ids, es).devs[d], id)
    requires var x := Run(E, ids, es); !Guarded(x.devs[d], x.taken, d, id)
    ensures AllLater(more, d, id) && !Ordered(Run(E, ids, es + more).taken, d, id)
  {
    var x := Run(E, ids, es);
    var s := x.devs[d];
    if !Ordered(x.taken, d, id) {
      more := [];
      assert es + more == es;
    } else if !Single(s.peers, id) || !Above(s.peers, x.taken, d, id) {
      more := RamRepeats(E, ids, es, d, id);
    } else if !Single(s.table, id) {
      more := SavedRepeats(E, ids, es, d, id);
    } else {
      more := FlashRepeats(E, ids, es, d, id);
    }
  }

  /**
   After any run at all, with every loss, forgery, edit, save, restart and bad write in it:
   what a device accepts from `id` stays in order, whatever happens until a row is written for
   `id` again, exactly when it has been in order, one row at most is in use for `id` in RAM and
   one among the saved, and neither the row's floor nor the one in flash is below anything
   accepted. A floor at the top of the range can hide a second row, hence
   the proviso of the second clause.
   */
  lemma SafeIff(E: Cipher, ids: seq<u32>, es: seq<Event>, d: nat, id: u32)
    requires d < |ids| && id != 0
    ensures var x := Run(E, ids, es); Guarded(x.devs[d], x.taken, d, id) ==> SafeAfter(E, ids, es, d, id)
    ensures var x := Run(E, ids, es);
            RoomFor(x.devs[d], id) && SafeAfter(E, ids, es, d, id) ==> Guarded(x.devs[d], x.taken, d, id)
  {
    var x := Run(E, ids, es);
    if Guarded(x.devs[d], x.taken, d, id) {
      forall more | AllLater(more, d, id) ensures Ordered(Run(E, ids, es + more).taken, d, id) {
        GuardedRun(E, ids, es, more, d, id);
      }
    } else if RoomFor(x.devs[d], id) {
      var more := AnyRepeats(E, ids, es, d, id);
    }
  }

  // ---- exactly when an edit is safe ----------------------------------------------------------------

  /** No other row in use holds the id. */
  ghost predicate OnlyRow(s: P.State, i: int, id: u32) {
    forall k :: 0 <= k < |s.peers| && k != i ==> !Answers(s.peers[k], id)
  }

  /** What a caller can look at before an edit of row `i`, given what was accepted so far. */
  ghost predicate MayEdit(s: P.State, taken: seq<Taken>, d: nat, i: nat, peer: P.Peer)
    requires i < |s.peers|
  {
    && OnlyRow(s, i, peer.peerId) && Single(s.table, peer.peerId)
    && (s.peers[i].peerId == peer.peerId ==> NotBelow(taken, d, peer.peerId, peer.rxHighWater))
  }

  lemma EditedRows(s: P.State, taken: seq<Taken>, d: nat, i: nat, peer: P.Peer)
    requires P.Shaped(s) && i < P.MAX_PEERS && peer.inUse
    ensures var id := peer.peerId;
            Guarded(P.SetPeer(s, i, peer), taken, d, id) <==>
            && Ordered(taken, d, id) && MayEdit(s, taken, d, i, peer)
            && NotBelow(taken, d, id, P.LoadRx(s.rxFlash, id))
  {
    var t, id := P.SetPeer(s, i, peer), peer.peerId;
    assert forall k :: 0 <= k < |t.peers| && k != i ==> t.peers[k] == s.peers[k];
    assert Answers(t.peers[i], id);
    assert t.peers[i].rxHighWater == if s.peers[i].peerId == id then peer.rxHighWater else P.LoadRx(s.rxFlash, id);
  }

  /**
   Writing a peer into row `i` after any run keeps all that is accepted from it in order,
   whatever happens until a row is written for the peer again, exactly when it was in order
   so far, no other row in use holds the peer, no two saved rows do, a row that already held
   it gets no floor below what was accepted, and the floor in flash is not below it either.
   */
  lemma EditSafeIff(E: Cipher, ids: seq<u32>, es: seq<Event>, d: nat, i: nat, peer: P.Peer)
    requires d < |ids| && i < P.MAX_PEERS && peer.inUse && peer.peerId != 0
    ensures var x, id := Run(E, ids, es), peer.peerId;
            var safe := && Ordered(x.taken, d, id) && MayEdit(x.devs[d], x.taken, d, i, peer)
                        && NotBelow(x.taken, d, id, P.LoadRx(x.devs[d].rxFlash, id));
            && (safe ==> SafeAfter(E, ids, es + [Edit(d, i, peer)], d, id))
            && (RoomFor(P.SetPeer(x.devs[d], i, peer), id) && SafeAfter(E, ids, es + [Edit(d, i, peer)], d, id) ==> safe)
  {
    var x := Run(E, ids, es);
    RunMore(E, ids, es, Edit(d, i, peer));
    EditedRows(x.devs[d], x.taken, d, i, peer);
    SafeIff(E, ids, es + [Edit(d, i, peer)], d, peer.peerId);
  }

  /** As long as the run has heeded the two provisos, the order and the floor in flash are as they should be. */
  lemma HeededEditSafeIff(E: Cipher, ids: seq<u32>, es: seq<Event>, d: nat, i: nat, peer: P.Peer)
    requires d < |ids| && i < P.MAX_PEERS && peer.inUse && peer.peerId != 0
    requires HeededRun(E, ids, es, d, peer.peerId)
    ensures var x, id := Run(E, ids, es), peer.peerId;
            && (MayEdit(x.devs[d], x.taken, d, i, peer) ==> SafeAfter(E, ids, es + [Edit(d, i, peer)], d, id))
            && (RoomFor(P.SetPeer(x.devs[d], i, peer), id) && SafeAfter(E, ids, es + [Edit(d, i, peer)], d, id) ==>
                  MayEdit(x.devs[d], x.taken, d, i, peer))
  {
    RunTaken(E, ids, es, d, peer.peerId);
    var x, id := Run(E, ids, es), peer.peerId;
    forall k | 0 <= k < |x.taken| && From(x.taken[k], d, id)
      ensures x.taken[k].packet.number <= P.LoadRx(x.devs[d].rxFlash, id)
    {
      assert P.Floored(x.devs[d], id, x.taken[k].packet.number);
    }
    EditSafeIff(E, ids, es, d, i, peer);
  }

  /** A row that answers and is written with no lower floor than it has meets the third part of `MayEdit`. */
  lemma KeptFloorIsNotBelow(E: Cipher, ids: seq<u32>, es: seq<Event>, d: nat, i: nat, peer: P.Peer)
    requires d < |ids| && i < P.MAX_PEERS && HeededRun(E, ids, es, d, peer.peerId)
    requires Run(E, ids, es).devs[d].peers[i].peerId == peer.peerId
    requires peer.rxHighWater >= Run(E, ids, es).devs[d].peers[i].rxHighWater
    ensures NotBelow(Run(E, ids, es).taken, d, peer.peerId, peer.rxHighWater)
  {
    RunTaken(E, ids, es, d, peer.peerId);
    var x := Run(E, ids, es);
    forall k | 0 <= k < |x.taken| && From(x.taken[k], d, peer.peerId)
      ensures x.taken[k].packet.number <= peer.rxHighWater
    {
      assert P.Floored(x.devs[d], peer.peerId, x.taken[k].packet.number);
    }
  }

  // ---- two runs in which a frame is taken twice -------------------------------------------------------

  /** A row written again with a floor of zero. */
  function StaleFloorRun(E: Cipher, peer: P.Peer, p: Packet): seq<Event> {
    [Edit(0, 0, peer), Deliver(0, Wire(E, peer.psk, p), Confirmed), Edit(0, 0, peer), Deliver(0, Wire(E, peer.psk, p), Confirmed)]
  }

  /** A peer written into two rows, of which the one in use is cleared. */
  function TwoRowsRun(E: Cipher, peer: P.Peer, p: Packet): seq<Event> {
    [Edit(0, 0, peer), Edit(0, 1, peer), Deliver(0, Wire(E, peer.psk, p), Confirmed), Clear(0, 0), Deliver(0, Wire(E, peer.psk, p), Confirmed)]
  }

  /** A peer written into two rows and saved, one row cleared and the other written again. */
  function SavedTwins(peer: P.Peer): seq<Event> {
    [Edit(0, 0, peer), Edit(0, 1, peer), Save(0, true), Clear(0, 1), Edit(0, 0, peer)]
  }

  ghost predicate TakenTwice(taken: seq<Taken>, buf: seq<u8>) {
    |taken| == 2 && taken[0].d == taken[1].d == 0 && taken[0].buf == taken[1].buf == buf
  }

  lemma Run2(E: Cipher, ids: seq<u32>, a: Event, b: Event)
    ensures Run(E, ids, [a, b]) == Step(E, ids, Step(E, ids, Start(ids), a), b)
  {
    RunMore(E, ids, [], a);
    RunMore(E, ids, [a], b);
    assert [] + [a] == [a] && [a] + [b] == [a, b];
  }

  lemma Run3(E: Cipher, ids: seq<u32>, a: Event, b: Event, c: Event)
    ensures Run(E, ids, [a, b, c]) == Step(E, ids, Step(E, ids, Step(E, ids, Start(ids), a), b), c)
  {
    Run2(E, ids, a, b);
    RunMore(E, ids, [a, b], c);
    assert [a, b] + [c] == [a, b, c];
  }

  lemma Run4(E: Cipher, ids: seq<u32>, a: Event, b: Event, c: Event, e: Event)
    ensures Run(E, ids, [a, b, c, e]) == Step(E, ids, Step(E, ids, Step(E, ids, Step(E, ids, Start(ids), a), b), c), e)
  {
    Run3(E, ids, a, b, c);
    RunMore(E, ids, [a, b, c], e);
    assert [a, b, c] + [e] == [a, b, c, e];
  }

  lemma Run5(E: Cipher, ids: seq<u32>, a: Event, b: Event, c: Event, e: Event, f: Event)
    ensures Run(E, ids, [a, b, c, e, f]) == Step(E, ids, Step(E, ids, Step(E, ids, Step(E, ids, Step(E, ids, Start(ids), a), b), c), e), f)
  {
    Run4(E, ids, a, b, c, e);
    RunMore(E, ids, [a, b, c, e], f);
    assert [a, b, c, e] + [f] == [a, b, c, e, f];
  }

  /** Two rows written at the start. */
  lemma TwoRowsWritten(E: Cipher, ids: seq<u32>, peer: P.Peer)
    requires |ids| == 1 && peer.inUse && peer.peerId != 0 && peer.rxHighWater == 0
    ensures var x := Step(E, ids, Step(E, ids, Start(ids), Edit(0, 0, peer)), Edit(0, 1, peer));
            x.taken == [] && x.devs[0].peers[0] == peer == x.devs[0].peers[1]
  {
  }

  /** A row with a floor of zero that answers for the sender takes the frame. */
  lemma TakesAt(E: Cipher, ids: seq<u32>, x: World, row: nat, peer: P.Peer, p: Packet)
    requires Shaped(ids, x) && |ids| == 1 && row < P.MAX_PEERS
    requires var rows := x.devs[0].peers; rows[row] == peer && forall k :: 0 <= k < row ==> !Answers(rows[k], p.sender)
    requires peer.inUse && peer.peerId == p.sender != 0 && peer.rxHighWater == 0 < p.number
    requires |p.payload| <= MAX_PAYLOAD && (p.recipient == 0 || p.recipient == ids[0])
    ensures var y := Step(E, ids, x, Deliver(0, Wire(E, peer.psk, p), Confirmed));
            && y.taken == x.taken + [Taken(0, p, Wire(E, peer.psk, p))]
            && y.devs[0].peers == x.devs[0].peers[row := peer.(rxHighWater := p.number)]
  {
    assert P.Resolve(x.devs[0].peers, p.sender) == row by { FirstAnswer(x.devs[0].peers, p.sender, row, 0); }
    Accepts(E, ids[0], x.devs[0], p);
  }

  lemma {:induction false} FirstAnswer(rows: seq<P.Peer>, id: u32, row: nat, from: nat)
    requires from <= row < |rows| && Answers(rows[row], id) && forall k :: 0 <= k < row ==> !Answers(rows[k], id)
    ensures P.ResolveFrom(rows, id, from) == row
    decreases row - from
  {
    if from < row { FirstAnswer(rows, id, row, from + 1); }
  }

  /** The same frame is acted on twice after its sender's row is written again with a stale floor. */
  lemma StaleFloorReplays(E: Cipher, myId: u32, peer: P.Peer, p: Packet)
    requires peer.inUse && peer.peerId == p.sender != 0 && peer.rxHighWater == 0 < p.number
    requires |p.payload| <= MAX_PAYLOAD && (p.recipient == 0 || p.recipient == myId)
    ensures TakenTwice(Run(E, [myId], StaleFloorRun(E, peer, p)).taken, Wire(E, peer.psk, p))
  {
    var ids, es := [myId], StaleFloorRun(E, peer, p);
    Run4(E, ids, es[0], es[1], es[2], es[3]);
    assert es == [es[0], es[1], es[2], es[3]];
    var x := Step(E, ids, Start(ids), es[0]);
    TakesAt(E, ids, x, 0, peer, p);
    TakesAt(E, ids, Step(E, ids, Step(E, ids, x, es[1]), es[2]), 0, peer, p);
  }

  /** And after the peer was written into two rows and the first is cleared, no floor being lowered. */
  lemma TwoRowsReplay(E: Cipher, myId: u32, peer: P.Peer, p: Packet)
    requires peer.inUse && peer.peerId == p.sender != 0 && peer.rxHighWater == 0 < p.number
    requires |p.payload| <= MAX_PAYLOAD && (p.recipient == 0 || p.recipient == myId)
    ensures TakenTwice(Run(E, [myId], TwoRowsRun(E, peer, p)).taken, Wire(E, peer.psk, p))
  {
    var ids, arrives := [myId], Deliver(0, Wire(E, peer.psk, p), Confirmed);
    Run5(E, ids, Edit(0, 0, peer), Edit(0, 1, peer), arrives, Clear(0, 0), arrives);
    TwoRowsWritten(E, ids, peer);
    var x := Step(E, ids, Step(E, ids, Start(ids), Edit(0, 0, peer)), Edit(0, 1, peer));
    TakesAt(E, ids, x, 0, peer, p);
    TakesAt(E, ids, Step(E, ids, Step(E, ids, x, arrives), Clear(0, 0)), 1, peer, p);
  }

  lemma TwinRows(E: Cipher, ids: seq<u32>, peer: P.Peer)
    requires |ids| == 1 && peer.inUse && peer.peerId != 0 && peer.rxHighWater == 0
    ensures var x := Step(E, ids, Step(E, ids, Start(ids), Edit(0, 0, peer)), Edit(0, 1, peer));
            x.taken == [] && x.devs[0].peers == [peer, peer, P.NOBODY, P.NOBODY] && x.devs[0].rxFlash == map[]
  {
  }

  lemma TwinsSaved(E: Cipher, ids: seq<u32>, x: World, peer: P.Peer)
    requires Shaped(ids, x) && |ids| == 1 && peer.inUse && peer.peerId != 0
    requires x.taken == [] && x.devs[0].peers == [peer, peer, P.NOBODY, P.NOBODY] && x.devs[0].rxFlash == map[]
    ensures var y := Step(E, ids, Step(E, ids, Step(E, ids, x, Save(0, true)), Clear(0, 1)), Edit(0, 0, peer));
            && y.taken == [] && OnlyRow(y.devs[0], 0, peer.peerId) && !Single(y.devs[0].table, peer.peerId)
            && P.LoadRx(y.devs[0].rxFlash, peer.peerId) == 0
  {
    var table := Step(E, ids, x, Save(0, true)).devs[0].table;
    assert Answers(table[0], peer.peerId) && Answers(table[1], peer.peerId);
  }

  /** One row is left in RAM and nothing has been accepted yet, but the restart brings the other row back. */
  lemma SavedTwinsRepeat(E: Cipher, myId: u32, peer: P.Peer) returns (more: seq<Event>)
    requires peer.inUse && peer.peerId != 0 && peer.rxHighWater == 0
    ensures var x := Run(E, [myId], SavedTwins(peer)); x.taken == [] && OnlyRow(x.devs[0], 0, peer.peerId)
    ensures AllLater(more, 0, peer.peerId) && !Ordered(Run(E, [myId], SavedTwins(peer) + more).taken, 0, peer.peerId)
  {
    var ids, es := [myId], SavedTwins(peer);
    Run5(E, ids, Edit(0, 0, peer), Edit(0, 1, peer), Save(0, true), Clear(0, 1), Edit(0, 0, peer));
    TwinRows(E, ids, peer);
    TwinsSaved(E, ids, Step(E, ids, Step(E, ids, Start(ids), Edit(0, 0, peer)), Edit(0, 1, peer)), peer);
    more := SavedRepeats(E, ids, es, 0, peer.peerId);
  }
}
