/**
 The C2 protocol as a step system: any number of devices with distinct ids, exchanging
 frames over a network that may lose, duplicate, reorder and forge, with reboots at
 either end and flash writes that fail or land unconfirmed.

 The network needs no state: a delivery hands a device any byte string at all, so every
 loss, duplicate, reordering and forgery is one of the runs.
 */
module C2System {
  import opened Bytes
  import opened Rfc4493
  import opened Reservation
  import opened PayloadCipher
  import opened C2Frame
  import P = PeerModel

  datatype Event =
    | Send(d: nat, kind: u8, recipient: u32, payload: seq<u8>, w: Write)
    | Deliver(d: nat, buf: seq<u8>, w: Write)
    | Edit(d: nat, i: int, peer: P.Peer)
    | Clear(d: nat, i: int)
    | Save(d: nat, ok: bool)
    | Reboot(d: nat, seed: Option<P.Peer>)

  /** A frame put on air, and a frame acted on. */
  datatype Sent = Sent(d: nat, packet: Packet, wire: seq<u8>)
  datatype Taken = Taken(d: nat, packet: Packet, buf: seq<u8>)

  datatype World = World(devs: seq<P.State>, sent: seq<Sent>, taken: seq<Taken>)

  ghost predicate Shaped(ids: seq<u32>, w: World) {
    |w.devs| == |ids| && forall d :: 0 <= d < |ids| ==> P.Shaped(w.devs[d])
  }

  ghost predicate Ids(ids: seq<u32>) {
    forall d, e :: 0 <= d < e < |ids| ==> ids[d] != ids[e]
  }

  function Start(ids: seq<u32>): World {
    World(seq(|ids|, _ => P.FRESH), [], [])
  }

  // ---- what one device does ------------------------------------------------------

  /** Sign a packet for a whitelisted peer; nothing is spent when the payload cannot fit. */
  function SendTo(E: Cipher, myId: u32, s: P.State, kind: u8, recipient: u32, payload: seq<u8>, w: Write)
    : (r: (P.State, Option<(Packet, seq<u8>)>))
    requires P.Shaped(s)
    ensures P.Shaped(r.0)
  {
    var i := P.Resolve(s.peers, recipient);
    if i == |s.peers| || |payload| > MAX_PAYLOAD then (s, None)
    else
      var n := P.NextTxSeq(s, w);
      if n.issued.None? then (n.state, None)
      else
        var p := Packet(kind, myId, recipient, n.issued.value, payload);
        (n.state, Some((p, Wire(E, s.peers[i].psk, p))))
  }

  /** Authenticate an inbound frame: length, magic, address, whitelist, tag, then replay. */
  function AuthInbound(E: Cipher, myId: u32, s: P.State, buf: seq<u8>, w: Write): (r: (P.State, Option<Packet>))
    requires P.Shaped(s)
    ensures P.Shaped(r.0)
  {
    if |buf| < MIN_FRAME || |buf| > MAX_FRAME then (s, None)
    else if buf[0] != MAGIC_VER then (s, None)
    else
      var sender, recipient := FromLE32(buf[2..6]), FromLE32(buf[6..10]);
      if recipient != 0 && recipient != myId then (s, None)
      else
        var i := P.Resolve(s.peers, sender);
        if i == |s.peers| then (s, None)
        else
          var o := Open(E, s.peers[i].psk, buf);
          if o.None? then (s, None)
          else
            var v := P.AcceptInboundSeq(s, i, o.value.number, w);
            (v.state, if v.ok then o else None)
  }

  function Step(E: Cipher, ids: seq<u32>, x: World, e: Event): (r: World)
    requires Shaped(ids, x)
    ensures Shaped(ids, r)
  {
    if e.d >= |ids| then x
    else
      var s := x.devs[e.d];
      match e
      case Send(d, kind, recipient, payload, w) =>
        var r := SendTo(E, ids[d], s, kind, recipient, payload, w);
        World(x.devs[d := r.0], if r.1.Some? then x.sent + [Sent(d, r.1.value.0, r.1.value.1)] else x.sent, x.taken)
      case Deliver(d, buf, w) =>
        var r := AuthInbound(E, ids[d], s, buf, w);
        World(x.devs[d := r.0], x.sent, if r.1.Some? then x.taken + [Taken(d, r.1.value, buf)] else x.taken)
      case Edit(d, i, peer) => x.(devs := x.devs[d := P.SetPeer(s, i, peer)])
      case Clear(d, i) => x.(devs := x.devs[d := P.ClearPeer(s, i)])
      case Save(d, ok) => x.(devs := x.devs[d := P.SaveTable(s, ok)])
      case Reboot(d, seed) => x.(devs := x.devs[d := P.Boot(s, seed)])
  }

  function Run(E: Cipher, ids: seq<u32>, es: seq<Event>): (r: World)
    ensures Shaped(ids, r)
  {
    if es == [] then Start(ids) else Step(E, ids, Run(E, ids, es[..|es| - 1]), es[|es| - 1])
  }

  // ---- what was sent ---------------------------------------------------------------------

  ghost predicate SentOk(E: Cipher, ids: seq<u32>, x: World)
    requires Shaped(ids, x)
  {
    && (forall d :: 0 <= d < |ids| ==> P.TxOk(x.devs[d]))
    && (forall k :: 0 <= k < |x.sent| ==>
          var t := x.sent[k];
          && t.d < |ids| && t.packet.sender == ids[t.d]
          && |t.packet.payload| <= MAX_PAYLOAD && t.packet.number < P.SEQ_INVALID
          && (exists psk: Block :: t.wire == Wire(E, psk, t.packet))
          && P.Spent(x.devs[t.d], t.packet.number))
    && (forall k, l :: 0 <= k < l < |x.sent| && x.sent[k].d == x.sent[l].d ==>
          x.sent[k].packet.number < x.sent[l].packet.number)
  }

  /** A step of one device that sends nothing and forgets no issued number. */
  lemma SentStays(E: Cipher, ids: seq<u32>, x: World, d: nat, t: P.State)
    requires Shaped(ids, x) && SentOk(E, ids, x) && d < |ids| && P.Shaped(t)
    requires P.TxOk(t) && forall m: u32 :: P.Spent(x.devs[d], m) ==> P.Spent(t, m)
    ensures SentOk(E, ids, x.(devs := x.devs[d := t]))
  {
    var y := x.(devs := x.devs[d := t]);
    forall k | 0 <= k < |y.sent| ensures P.Spent(y.devs[y.sent[k].d], y.sent[k].packet.number) {
      assert P.Spent(x.devs[x.sent[k].d], x.sent[k].packet.number);
    }
  }

  /** Only the devices and what was sent matter. */
  lemma SentSame(E: Cipher, ids: seq<u32>, x: World, y: World)
    requires Shaped(ids, x) && Shaped(ids, y) && SentOk(E, ids, x) && x.devs == y.devs && x.sent == y.sent
    ensures SentOk(E, ids, y)
  {
  }

  lemma RecordSent(E: Cipher, ids: seq<u32>, x: World, t: Sent)
    requires Shaped(ids, x) && SentOk(E, ids, x) && t.d < |ids| && t.packet.sender == ids[t.d]
    requires |t.packet.payload| <= MAX_PAYLOAD && t.packet.number < P.SEQ_INVALID
    requires exists psk: Block :: t.wire == Wire(E, psk, t.packet)
    requires P.Spent(x.devs[t.d], t.packet.number)
    requires forall k :: 0 <= k < |x.sent| && x.sent[k].d == t.d ==> x.sent[k].packet.number < t.packet.number
    ensures SentOk(E, ids, x.(sent := x.sent + [t]))
  {
  }

  lemma SendKeeps(E: Cipher, ids: seq<u32>, x: World, d: nat, kind: u8, recipient: u32, payload: seq<u8>, w: Write)
    requires Shaped(ids, x) && SentOk(E, ids, x) && d < |ids|
    ensures SentOk(E, ids, Step(E, ids, x, Send(d, kind, recipient, payload, w)))
  {
    var s := x.devs[d];
    var r := SendTo(E, ids[d], s, kind, recipient, payload, w);
    P.DrawKeeps(s, w);
    var y := x.(devs := x.devs[d := r.0]);
    SentStays(E, ids, x, d, r.0);
    if r.1.Some? {
      var p, wire := r.1.value.0, r.1.value.1;
      assert wire == Wire(E, s.peers[P.Resolve(s.peers, recipient)].psk, p);
      forall k | 0 <= k < |x.sent| && x.sent[k].d == d ensures x.sent[k].packet.number < p.number {
        assert P.Spent(s, x.sent[k].packet.number);
      }
      RecordSent(E, ids, y, Sent(d, p, wire));
    }
  }

  lemma AuthSpendsNothing(E: Cipher, myId: u32, s: P.State, buf: seq<u8>, w: Write)
    requires P.Shaped(s)
    ensures var t := AuthInbound(E, myId, s, buf, w).0; t.tx == s.tx && t.txFlash == s.txFlash
  {
  }

  /** A step that is not a send leaves what was sent, and the numbers spent. */
  lemma QuietStep(E: Cipher, ids: seq<u32>, x: World, e: Event)
    requires Shaped(ids, x) && e.d < |ids| && !e.Send? && P.TxOk(x.devs[e.d])
    ensures var y := Step(E, ids, x, e);
            && y.sent == x.sent && y.devs == x.devs[e.d := y.devs[e.d]]
            && P.TxOk(y.devs[e.d]) && forall m: u32 :: P.Spent(x.devs[e.d], m) ==> P.Spent(y.devs[e.d], m)
  {
    if e.Reboot? { P.BootKeeps(x.devs[e.d], e.seed); }
    if e.Deliver? { AuthSpendsNothing(E, ids[e.d], x.devs[e.d], e.buf, e.w); }
  }

  lemma SentStep(E: Cipher, ids: seq<u32>, x: World, e: Event)
    requires Shaped(ids, x) && SentOk(E, ids, x)
    ensures SentOk(E, ids, Step(E, ids, x, e))
  {
    if e.d < |ids| {
      if e.Send? {
        SendKeeps(E, ids, x, e.d, e.kind, e.recipient, e.payload, e.w);
      } else {
        QuietStep(E, ids, x, e);
        var t := Step(E, ids, x, e).devs[e.d];
        SentStays(E, ids, x, e.d, t);
        SentSame(E, ids, x.(devs := x.devs[e.d := t]), Step(E, ids, x, e));
      }
    }
  }

  lemma {:induction false} RunSent(E: Cipher, ids: seq<u32>, es: seq<Event>)
    ensures SentOk(E, ids, Run(E, ids, es))
  {
    if es != [] {
      RunSent(E, ids, es[..|es| - 1]);
      SentStep(E, ids, Run(E, ids, es[..|es| - 1]), es[|es| - 1]);
    }
  }

  // ---- what was accepted ---------------------------------------------------------------------

  /** The frame a device acted on opened to the packet under some key. */
  ghost predicate Genuine(E: Cipher, ids: seq<u32>, t: Taken) {
    && t.d < |ids| && (t.packet.recipient == 0 || t.packet.recipient == ids[t.d])
    && exists psk: Block :: Open(E, psk, t.buf) == Some(t.packet)
  }

  ghost predicate From(t: Taken, d: nat, id: u32) {
    t.d == d && t.packet.sender == id
  }

  /** The numbers device `d` accepted from `id` strictly increase. */
  ghost predicate Ordered(taken: seq<Taken>, d: nat, id: u32) {
    forall k, l :: 0 <= k < l < |taken| && From(taken[k], d, id) && From(taken[l], d, id) ==>
      taken[k].packet.number < taken[l].packet.number
  }

  ghost predicate TakenOk(ids: seq<u32>, x: World, d: nat, id: u32)
    requires Shaped(ids, x) && d < |ids|
  {
    && Ordered(x.taken, d, id)
    && forall k :: 0 <= k < |x.taken| && From(x.taken[k], d, id) ==> P.Floored(x.devs[d], id, x.taken[k].packet.number)
  }

  /**
   All that is asked as to sender `id` at device `d`: a frame of its that opens is only
   taken in while one row holds the id, and a row that keeps the id keeps its floor. Rows
   may be moved, swapped, cleared and duplicated in between.
   */
  ghost predicate Heeds(E: Cipher, s: P.State, e: Event, d: nat, id: u32)
    requires P.Shaped(s)
  {
    match e
    case Deliver(at, buf, _) =>
      var i := P.Resolve(s.peers, id);
      at == d && i < |s.peers| && Open(E, s.peers[i].psk, buf).Some? && Open(E, s.peers[i].psk, buf).value.sender == id ==>
        P.Lone(s, i, id)
    case Edit(at, i, peer) => at == d ==> P.KeepsFloor(s, i, peer, id)
    case _ => true
  }

  ghost predicate HeededRun(E: Cipher, ids: seq<u32>, es: seq<Event>, d: nat, id: u32)
    requires d < |ids|
  {
    es == [] ||
    (HeededRun(E, ids, es[..|es| - 1], d, id) && Heeds(E, Run(E, ids, es[..|es| - 1]).devs[d], es[|es| - 1], d, id))
  }

  /** A frame that authenticates, as the accepting device sees it. */
  lemma AuthFacts(E: Cipher, ids: seq<u32>, d: nat, s: P.State, buf: seq<u8>, w: Write, id: u32)
    requires P.Shaped(s) && d < |ids| && Heeds(E, s, Deliver(d, buf, w), d, id)
    ensures var r := AuthInbound(E, ids[d], s, buf, w);
            && (forall m: u32 :: P.Floored(s, id, m) ==> P.Floored(r.0, id, m))
            && (r.1.Some? ==> Genuine(E, ids, Taken(d, r.1.value, buf)))
            && (r.1.Some? && r.1.value.sender == id ==>
                  P.Floored(r.0, id, r.1.value.number) && forall m: u32 :: P.Floored(s, id, m) ==> m < r.1.value.number)
  {
    if MIN_FRAME <= |buf| <= MAX_FRAME && buf[0] == MAGIC_VER {
      var i := P.Resolve(s.peers, FromLE32(buf[2..6]));
      if i < |s.peers| {
        var o := Open(E, s.peers[i].psk, buf);
        if o.Some? {
          P.AcceptKeeps(s, i, o.value.number, w, id);
        }
      }
    }
  }

  lemma TakenStays(ids: seq<u32>, x: World, y: World, d: nat, id: u32)
    requires Shaped(ids, x) && Shaped(ids, y) && d < |ids| && TakenOk(ids, x, d, id) && y.taken == x.taken
    requires forall m: u32 :: P.Floored(x.devs[d], id, m) ==> P.Floored(y.devs[d], id, m)
    ensures TakenOk(ids, y, d, id)
  {
  }

  lemma TakenMore(ids: seq<u32>, x: World, t: Taken, d: nat, id: u32)
    requires Shaped(ids, x) && d < |ids| && TakenOk(ids, x, d, id)
    requires From(t, d, id) ==> P.Floored(x.devs[d], id, t.packet.number)
                                && forall k :: 0 <= k < |x.taken| && From(x.taken[k], d, id) ==> x.taken[k].packet.number < t.packet.number
    ensures TakenOk(ids, x.(taken := x.taken + [t]), d, id)
  {
    var y := x.(taken := x.taken + [t]);
    assert forall k :: 0 <= k < |x.taken| ==> y.taken[k] == x.taken[k];
  }

  lemma DeliverKeeps(E: Cipher, ids: seq<u32>, x: World, at: nat, buf: seq<u8>, w: Write, d: nat, id: u32)
    requires Shaped(ids, x) && d < |ids| && at < |ids| && TakenOk(ids, x, d, id)
    requires Heeds(E, x.devs[d], Deliver(at, buf, w), d, id)
    ensures TakenOk(ids, Step(E, ids, x, Deliver(at, buf, w)), d, id)
  {
    var s := x.devs[at];
    var r := AuthInbound(E, ids[at], s, buf, w);
    var y := x.(devs := x.devs[at := r.0]);
    if at == d { AuthFacts(E, ids, d, s, buf, w, id); }
    TakenStays(ids, x, y, d, id);
    if r.1.Some? {
      var t := Taken(at, r.1.value, buf);
      if From(t, d, id) {
        forall k | 0 <= k < |x.taken| && From(x.taken[k], d, id) ensures x.taken[k].packet.number < t.packet.number {
          assert P.Floored(s, id, x.taken[k].packet.number);
        }
      }
      TakenMore(ids, y, t, d, id);
    }
  }

  lemma TakenStep(E: Cipher, ids: seq<u32>, x: World, e: Event, d: nat, id: u32)
    requires Shaped(ids, x) && d < |ids| && TakenOk(ids, x, d, id) && Heeds(E, x.devs[d], e, d, id)
    ensures TakenOk(ids, Step(E, ids, x, e), d, id)
  {
    if e.d < |ids| {
      if e.Deliver? {
        DeliverKeeps(E, ids, x, e.d, e.buf, e.w, d, id);
      } else {
        var y := Step(E, ids, x, e);
        if e.d == d {
          if e.Edit? { P.EditKeeps(x.devs[d], e.i, e.peer, id); }
          if e.Clear? { P.ClearKeeps(x.devs[d], e.i); }
          if e.Reboot? { P.BootKeeps(x.devs[d], e.seed); }
        }
        TakenStays(ids, x, y, d, id);
      }
    }
  }

  lemma {:induction false} RunTaken(E: Cipher, ids: seq<u32>, es: seq<Event>, d: nat, id: u32)
    requires d < |ids| && HeededRun(E, ids, es, d, id)
    ensures TakenOk(ids, Run(E, ids, es), d, id)
  {
    if es != [] {
      RunTaken(E, ids, es[..|es| - 1], d, id);
      TakenStep(E, ids, Run(E, ids, es[..|es| - 1]), es[|es| - 1], d, id);
    }
  }

  /** Whatever the run, only frames that open under a key are acted on. */
  lemma {:induction false} RunGenuine(E: Cipher, ids: seq<u32>, es: seq<Event>)
    ensures forall k :: 0 <= k < |Run(E, ids, es).taken| ==> Genuine(E, ids, Run(E, ids, es).taken[k])
  {
    if es != [] {
      var x, e := Run(E, ids, es[..|es| - 1]), es[|es| - 1];
      RunGenuine(E, ids, es[..|es| - 1]);
      if e.Deliver? && e.d < |ids| { AuthGenuine(E, ids, e.d, x.devs[e.d], e.buf, e.w); }
    }
  }

  lemma AuthGenuine(E: Cipher, ids: seq<u32>, d: nat, s: P.State, buf: seq<u8>, w: Write)
    requires P.Shaped(s) && d < |ids|
    ensures var r := AuthInbound(E, ids[d], s, buf, w); r.1.Some? ==> Genuine(E, ids, Taken(d, r.1.value, buf))
  {
  }

  // ---- the guarantees -------------------------------------------------------------------

  /** What a device accepts from one sender carries strictly increasing numbers, reboots or not. */
  lemma AcceptedIncrease(E: Cipher, ids: seq<u32>, es: seq<Event>, d: nat, id: u32)
    requires d < |ids| && HeededRun(E, ids, es, d, id)
    ensures Ordered(Run(E, ids, es).taken, d, id)
  {
    RunTaken(E, ids, es, d, id);
  }

  /** The sender and number of a frame can be read off its bytes, whatever key opens it. */
  lemma SameBytesSameNumber(E: Cipher, k1: Block, k2: Block, buf: seq<u8>)
    requires Open(E, k1, buf).Some? && Open(E, k2, buf).Some?
    ensures Open(E, k1, buf).value.sender == Open(E, k2, buf).value.sender
    ensures Open(E, k1, buf).value.number == Open(E, k2, buf).value.number
  {
  }

  /**
   At most once: over every run with loss, duplication, reordering, forgery, row edits, reboots
   of any device and failed or unconfirmed writes, no device acts twice on the same frame.
   */
  lemma AtMostOnce(E: Cipher, ids: seq<u32>, es: seq<Event>, k: nat, l: nat)
    requires k < l < |Run(E, ids, es).taken|
    requires var t := Run(E, ids, es).taken[k];
             t.d == Run(E, ids, es).taken[l].d && t.d < |ids| && HeededRun(E, ids, es, t.d, t.packet.sender)
    ensures Run(E, ids, es).taken[k].buf != Run(E, ids, es).taken[l].buf
  {
    var taken := Run(E, ids, es).taken;
    RunGenuine(E, ids, es);
    assert Genuine(E, ids, taken[k]) && Genuine(E, ids, taken[l]);
    if taken[k].buf == taken[l].buf {
      var k1: Block :| Open(E, k1, taken[k].buf) == Some(taken[k].packet);
      var k2: Block :| Open(E, k2, taken[l].buf) == Some(taken[l].packet);
      SameBytesSameNumber(E, k1, k2, taken[k].buf);
      AcceptedIncrease(E, ids, es, taken[k].d, taken[k].packet.sender);
      assert From(taken[k], taken[k].d, taken[k].packet.sender) && From(taken[l], taken[k].d, taken[k].packet.sender);
      assert false;
    }
  }

  /** Two frames ever sent by devices with distinct ids are different frames with different numbers. */
  lemma SentNeverRepeat(E: Cipher, ids: seq<u32>, es: seq<Event>, k: nat, l: nat)
    requires Ids(ids) && k < l < |Run(E, ids, es).sent|
    ensures var sent := Run(E, ids, es).sent;
            && (sent[k].packet.sender, sent[k].packet.number) != (sent[l].packet.sender, sent[l].packet.number)
            && sent[k].wire != sent[l].wire
  {
    RunSent(E, ids, es);
    var sent := Run(E, ids, es).sent;
    var a, b := sent[k], sent[l];
    assert a.packet.sender == ids[a.d] && b.packet.sender == ids[b.d];
    if a.d != b.d { assert ids[a.d] != ids[b.d]; }
    var k1: Block :| a.wire == Wire(E, k1, a.packet);
    var k2: Block :| b.wire == Wire(E, k2, b.packet);
    OpenWire(E, k1, a.packet);
    OpenWire(E, k2, b.packet);
    if a.wire == b.wire { SameBytesSameNumber(E, k1, k2, a.wire); }
  }

  /** The AES input blocks used to encrypt a packet. */
  ghost predicate UsesBlock(p: Packet, i: nat) {
    1 <= i <= BlockCount(|p.payload|)
  }

  /**
   Across every frame ever sent by devices with distinct ids, no AES input block is used
   twice: not within a frame, not between frames, not across reboots.
   */
  lemma KeystreamBlocksNeverRepeat(E: Cipher, ids: seq<u32>, es: seq<Event>, k: nat, i: nat, l: nat, j: nat)
    requires Ids(ids)
    requires var sent := Run(E, ids, es).sent;
             && k < |sent| && l < |sent| && UsesBlock(sent[k].packet, i) && UsesBlock(sent[l].packet, j)
             && ABlock(sent[k].packet.sender, sent[k].packet.number, i) == ABlock(sent[l].packet.sender, sent[l].packet.number, j)
    ensures k == l && i == j
  {
    RunSent(E, ids, es);
    var sent := Run(E, ids, es).sent;
    var p, q := sent[k].packet, sent[l].packet;
    assert |p.payload| <= MAX_PAYLOAD && |q.payload| <= MAX_PAYLOAD;
    ABlockInjective(p.sender, p.number, i, q.sender, q.number, j);
    if k < l { SentNeverRepeat(E, ids, es, k, l); }
    if l < k { SentNeverRepeat(E, ids, es, l, k); }
  }

  // ---- delivery, and what a careless edit costs ----------------------------------------------

  /** A new frame from a whitelisted sender holding the same key is accepted as sent. */
  lemma FreshFrameAccepted(E: Cipher, myId: u32, s: P.State, p: Packet, w: Write)
    requires P.Shaped(s) && |p.payload| <= MAX_PAYLOAD && (p.recipient == 0 || p.recipient == myId)
    requires P.Resolve(s.peers, p.sender) < |s.peers|
    requires s.peers[P.Resolve(s.peers, p.sender)].rxHighWater < p.number
    requires w.Confirmed?
    ensures AuthInbound(E, myId, s, Wire(E, s.peers[P.Resolve(s.peers, p.sender)].psk, p), w).1 == Some(p)
  {
    var psk := s.peers[P.Resolve(s.peers, p.sender)].psk;
    OpenWire(E, psk, p);
  }

  /**
   Overwriting the record of a known peer that stands in no other row makes the device refuse
   a frame of that peer exactly when the new floor is not below the frame's number.
   */
  lemma FloorOverwriteSafeIff(E: Cipher, myId: u32, s: P.State, i: nat, peer: P.Peer, p: Packet)
    requires P.Shaped(s) && i < P.MAX_PEERS && peer.inUse && P.Lone(s, i, p.sender)
    requires peer.peerId == s.peers[i].peerId == p.sender != 0
    requires |p.payload| <= MAX_PAYLOAD && (p.recipient == 0 || p.recipient == myId)
    ensures p.number <= peer.rxHighWater <==>
            forall w: Write :: AuthInbound(E, myId, P.SetPeer(s, i, peer), Wire(E, peer.psk, p), w).1 == None
  {
    var t := P.SetPeer(s, i, peer);
    assert t.peers[i] == peer;
    assert forall k :: 0 <= k < P.MAX_PEERS && k != i ==> t.peers[k] == s.peers[k];
    assert P.Resolve(t.peers, p.sender) == i;
    OpenWire(E, peer.psk, p);
    if p.number > peer.rxHighWater {
      FreshFrameAccepted(E, myId, t, p, Confirmed);
    }
  }
}
