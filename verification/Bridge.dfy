/** The bridge as it runs: the shared duplicate table and one queue per radio, updated in place. */
module Bridge {
  import opened Bytes
  import opened MeshCodec
  import opened DedupModel
  import opened DedupCache
  import opened RnsTunnel
  import opened LoopModel
  import LinkFraming
  import MeshFirmware
  import R = RouteFifo

  /** The queues after the packets of `sent` are pushed in turn. */
  function Delivered(qs: seq<seq<R.Entry>>, depth: nat, sent: seq<Emission>): (r: seq<seq<R.Entry>>)
    ensures |r| == |qs|
  {
    if sent == [] then qs
    else
      var q, e := Delivered(qs, depth, sent[..|sent| - 1]), sent[|sent| - 1];
      if e.dst < |q| && R.Sendable(e.packet) then q[e.dst := R.PushTo(q[e.dst], depth, R.Entry(e.packet, e.at % TWO32))] else q
  }

  lemma {:induction false} DeliveredThen(qs: seq<seq<R.Entry>>, depth: nat, a: seq<Emission>, b: seq<Emission>)
    ensures Delivered(qs, depth, a + b) == Delivered(Delivered(qs, depth, a), depth, b)
  {
    if b == [] {
      assert a + b == a;
    } else {
      var front := b[..|b| - 1];
      DeliveredThen(qs, depth, a, front);
      assert (a + b)[..|a + b| - 1] == a + front;
    }
  }

  lemma {:induction false} TableAfterThen(tab: seq<Entry>, a: seq<Call>, b: seq<Call>)
    requires tab != []
    ensures TableAfter(tab, a + b) == TableAfter(TableAfter(tab, a), b)
  {
    if b == [] {
      assert a + b == a;
    } else {
      var front := b[..|b| - 1];
      TableAfterThen(tab, a, front);
      assert (a + b)[..|a + b| - 1] == a + front;
    }
  }

  /** Scan for the sender's name. */
  method ParseMcSenderName(body: CString) returns (r: Option<Sender>)
    ensures r == SenderFrom(body, 0)
  {
    var i := 0;
    while i < NAME_MAX && i < |body|
      invariant i <= |body| && SenderFrom(body, i) == SenderFrom(body, 0)
    {
      var ch: int := body[i];
      if ch == COLON && i + 1 < |body| && body[i + 1] == BLANK_CHAR {
        if i == 0 { return None; }
        return Some(Sender(body[..i], body[i + 2..]));
      }
      if i == 0 && ch == BLANK_CHAR { return None; }
      if ch < 0x20 || ch > 0x7E { return None; }
      i := i + 1;
    }
    r := None;
  }

  /** A NodeInfo in the caller's buffer; 0 when a name is too long or the buffer too small. */
  method EncodeMeshtasticNodeInfo(c: Ciphers, ch: Channel, src: u32, pid: u32, card: Card, out: array<u8>) returns (n: nat)
    modifies out
    ensures var r := EncodeNodeInfo(c, ch, src, pid, card, out.Length);
            && (n == 0 <==> r.None?)
            && (r.Some? ==> n <= out.Length && out[..n] == r.value)
  {
    if |card.id| >= 128 || |card.long| >= 128 || |card.short| >= 128 { return 0; }
    var data := DataBytes(NODEINFO_PORT, UserBytes(card));
    if 16 + |data| > out.Length { return 0; }
    MeshFirmware.StagePacket(c, ch, src, pid, data, out);
    n := 16 + |data|;
  }

  /** The firmware's hash, as a function value. */
  const FNV: (seq<u8>, u32, u32) -> Hash := HashOf

  class Node {
    const s: Setup
    const depth: nat
    const cache: Cache
    const queues: array<seq<R.Entry>>

    ghost predicate Valid()
      reads this, cache
    {
      cache.Valid() && queues.Length == |s.chan| == |s.names| && s.hash == FNV
    }

    /** The state is what `tab` and `qs` become by `o`. */
    ghost predicate Did(tab: seq<Entry>, qs: seq<seq<R.Entry>>, o: Out)
      requires tab != []
      reads this, cache, cache.table, queues
    {
      cache.table[..] == TableAfter(tab, o.calls) && queues[..] == Delivered(qs, depth, o.sent)
    }

    lemma DidThen(tab: seq<Entry>, qs: seq<seq<R.Entry>>, a: Out, tab': seq<Entry>, qs': seq<seq<R.Entry>>, b: Out)
      requires tab != [] && tab' == TableAfter(tab, a.calls) && qs' == Delivered(qs, depth, a.sent)
      requires Did(tab', qs', b)
      ensures Did(tab, qs, a.Then(b))
    {
      TableAfterThen(tab, a.calls, b.calls);
      DeliveredThen(qs, depth, a.sent, b.sent);
    }

    /** At boot: an empty table and empty queues. */
    constructor (setup: Setup, queueDepth: nat)
      requires |setup.chan| == |setup.names| && setup.hash == FNV
      ensures Valid() && s == setup && depth == queueDepth && fresh(cache) && fresh(cache.table) && fresh(queues)
      ensures cache.table[..] == Blanks(TABLE_SIZE) && queues[..] == seq(|s.chan|, _ => [])
    {
      s, depth := setup, queueDepth;
      var c := new Cache();
      cache := c;
      queues := new seq<R.Entry>[|setup.chan|](_ => []);
      new;
      assert queues[..] == seq(|s.chan|, _ => []);
    }

    /** The hash of a message, byte by byte. */
    method Fingerprint(body: seq<u8>, src: u32, pid: u32) returns (h: Hash)
      requires Valid()
      ensures h == s.hash(body, src, pid)
    {
      h := HashBytes(body, src, pid);
    }

    method PushPacket(j: nat, packet: seq<u8>, at: nat, ghost mark: Option<Call>)
      requires Valid() && j < |s.chan|
      modifies queues
      ensures Valid() && Did(old(cache.table[..]), old(queues[..]), Out([], [Emission(j, packet, at, mark)]))
    {
      ghost var qs := queues[..];
      if R.Sendable(packet) {
        queues[j] := R.PushTo(queues[j], depth, R.Entry(packet, at % TWO32));
        assert queues[..] == qs[j := R.PushTo(qs[j], depth, R.Entry(packet, at % TWO32))];
      }
      ghost var e := Emission(j, packet, at, mark);
      assert [e][..0] == [];
      assert Delivered(qs, depth, [e][..0]) == qs;
    }

    /** Record the text's hash and push its packet. */
    method RecordAndPush(j: nat, at: nat, e: Sent)
      requires Valid() && j < |s.chan|
      modifies cache.table, queues
      ensures Valid() && Did(old(cache.table[..]), old(queues[..]), Marked1(s, j, at, e))
    {
      ghost var tab, qs := cache.table[..], queues[..];
      var h := Fingerprint(e.body, e.src, e.pid);
      cache.Record(h, at);
      ghost var call := Call(h, at);
      assert [call][..0] == [];
      assert TableAfter(tab, [call][..0]) == tab;
      assert cache.table[..] == TableAfter(tab, [call]);
      PushPacket(j, e.packet, at, Some(call));
    }

    method SendTextTo(j: nat, src: u32, body: CString, env: Env)
      requires Valid() && j < |s.chan|
      modifies cache.table, queues
      ensures Valid() && Did(old(cache.table[..]), old(queues[..]), SendText(s, j, src, body, env))
    {
      var p := EncodePacket(s.c, s.chan[j], src, env.pid(j), env.ts(j), body);
      if p.None? { return; }
      RecordAndPush(j, env.at(j), SentAs(p.value, s.chan[j], src, env.pid(j), body));
    }

    method EnqueueVirtualNodeInfo(j: nat, vid: u32, name: CString, env: Env)
      requires Valid() && j < |s.chan|
      modifies queues
      ensures Valid() && Did(old(cache.table[..]), old(queues[..]), Announce(s, j, vid, name, env))
    {
      if !env.due(vid) { return; }
      var pkt := new u8[PACKET_BUFFER](_ => 0);
      var n := EncodeMeshtasticNodeInfo(s.c, s.chan[j], vid, env.cardPid(j), env.card(vid, name), pkt);
      if n == 0 { return; }
      PushPacket(j, pkt[..n], env.at(j), None);
    }

    /** Announce the virtual node, then send the text as from it. */
    method SendAsVirtual(j: nat, name: CString, body: CString, env: Env)
      requires Valid() && j < |s.chan|
      modifies cache.table, queues
      ensures Valid()
      ensures Did(old(cache.table[..]), old(queues[..]),
                  Announce(s, j, env.virtualId(name), name, env).Then(SendText(s, j, env.virtualId(name), body, env)))
    {
      ghost var tab, qs := cache.table[..], queues[..];
      var vid := env.virtualId(name);
      EnqueueVirtualNodeInfo(j, vid, name, env);
      ghost var tab', qs' := cache.table[..], queues[..];
      SendTextTo(j, vid, body, env);
      DidThen(tab, qs, Announce(s, j, vid, name, env), tab', qs', SendText(s, j, vid, body, env));
    }

    method EnqueueTextForDest(i: nat, j: nat, srcId: u32, body: CString, env: Env)
      requires Valid() && i < |s.chan| && j < |s.chan|
      modifies cache.table, queues
      ensures Valid() && Did(old(cache.table[..]), old(queues[..]), Text1(s, i, j, srcId, body, env))
    {
      var dst := s.chan[j].protocol;
      if dst == SYNC_MESHTASTIC {
        if s.flags.preserve && s.chan[i].protocol == SYNC_MESHCORE {
          var sender := ParseMcSenderName(body);
          if sender.Some? {
            SendAsVirtual(j, sender.value.name, sender.value.rest, env);
          } else if s.flags.noname {
            SendAsVirtual(j, ChannelLabel(s.names[i]), body, env);
          } else {
            SendTextTo(j, s.node, body, env);
          }
        } else {
          SendTextTo(j, s.node, body, env);
        }
      } else if dst == SYNC_MESHCORE {
        if s.flags.preserve && s.chan[i].protocol == SYNC_MESHTASTIC {
          SendTextTo(j, 0, Attributed(s, env.who(srcId), body), env);
        } else {
          SendTextTo(j, 0, body, env);
        }
      }
    }

    method RawRepeatForDest(j: nat, srcId: u32, buf: seq<u8>, env: Env, ghost mark: Call)
      requires Valid() && j < |s.chan|
      modifies queues
      ensures Valid() && Did(old(cache.table[..]), old(queues[..]), RawRepeat(s, j, srcId, buf, env, mark))
    {
      if |buf| == 0 || |buf| > R.MAX_PACKET { return; }
      var pkt := buf;
      if s.chan[j].protocol == SYNC_MESHTASTIC {
        if |buf| < 16 { return; }
        if srcId == s.node { return; }
        var hops := pkt[12] % 8;
        if hops == 0 { return; }
        pkt := pkt[12 := pkt[12] - hops + (hops - 1)];
        pkt := pkt[15 := s.node % 256];
      }
      PushPacket(j, pkt, env.at(j), Some(mark));
    }

    method SendFragment(j: nat, buf: seq<u8>, tag: u8, rawPerFrag: nat, idx: nat, totalFrags: nat, env: Env)
      requires Valid() && j < |s.chan| && TextMesh(s.chan[j])
      requires rawPerFrag == RawPerFrag(s.chan[j]) && tag == RnsTunnel.Tag(buf)
      requires idx < totalFrags == FragCount(|buf|, rawPerFrag) <= MAX_FRAGS
      modifies cache.table, queues
      ensures Valid()
      ensures Did(old(cache.table[..]), old(queues[..]), Marked1(s, j, env.fragAt(j)(idx), TunnelTo(s, j, buf, env)[idx]))
    {
      var one := NextFragment(s.c, s.chan[j], s.node, buf, tag, rawPerFrag, idx, totalFrags, env.fragPid(j)(idx), env.fragTs(j)(idx));
      TunnelAt(s.c, s.chan[j], s.node, buf, env.fragPid(j), env.fragTs(j), idx);
      RecordAndPush(j, env.fragAt(j)(idx), one.value);
    }

    lemma FragmentsMore(tab: seq<Entry>, qs: seq<seq<R.Entry>>, j: nat, all: seq<Sent>, at: nat -> nat, n: nat, tab': seq<Entry>, qs': seq<seq<R.Entry>>)
      requires tab != [] && n < |all|
      requires tab' == TableAfter(tab, Fragments(s, j, all, at, n).calls) && qs' == Delivered(qs, depth, Fragments(s, j, all, at, n).sent)
      requires Did(tab', qs', Marked1(s, j, at(n), all[n]))
      ensures Did(tab, qs, Fragments(s, j, all, at, n + 1))
    {
      DidThen(tab, qs, Fragments(s, j, all, at, n), tab', qs', Marked1(s, j, at(n), all[n]));
    }

    /** Cut the frame into labelled texts, recording and pushing each. */
    method EnqueueReticulumForDest(j: nat, buf: seq<u8>, env: Env)
      requires Valid() && j < |s.chan|
      modifies cache.table, queues
      ensures Valid()
      ensures Did(old(cache.table[..]), old(queues[..]),
                  Fragments(s, j, TunnelTo(s, j, buf, env), env.fragAt(j), |TunnelTo(s, j, buf, env)|))
    {
      ghost var tab, qs := cache.table[..], queues[..];
      var ch := s.chan[j];
      if |buf| == 0 { return; }
      if !TextMesh(ch) { return; }
      var rawPerFrag := if ch.protocol == SYNC_MESHTASTIC then RAW_PER_FRAG_MT else RAW_PER_FRAG_MC;
      var totalFrags := FragCount(|buf|, rawPerFrag);
      if totalFrags > MAX_FRAGS { return; }
      ghost var all := TunnelTo(s, j, buf, env);
      var crc := LinkFraming.CrcOfBytes(buf);
      for idx := 0 to totalFrags
        invariant Valid() && |all| == totalFrags
        invariant Did(tab, qs, Fragments(s, j, all, env.fragAt(j), idx))
      {
        ghost var tab', qs' := cache.table[..], queues[..];
        SendFragment(j, buf, crc % 256, rawPerFrag, idx, totalFrags, env);
        FragmentsMore(tab, qs, j, all, env.fragAt(j), idx, tab', qs');
      }
    }

    // ---- ingest ------------------------------------------------------------------------------

    /** The first loop's body. */
    method ServeDest(i: nat, j: nat, buf: seq<u8>, m: Option<Message>, env: Env, ghost mark: Call)
      requires Valid() && i < |s.chan| && j < |s.chan| && m == Known(s, s.chan[i], buf)
      modifies cache.table, queues
      ensures Valid() && Did(old(cache.table[..]), old(queues[..]), ToDest(s, i, buf, env, mark)(j))
    {
      if s.chan[i].protocol == SYNC_RETICULUM {
        if s.flags.rnsRepeat && s.chan[j].protocol == SYNC_RETICULUM {
          RawRepeatForDest(j, 0, buf, env, mark);
        } else {
          EnqueueReticulumForDest(j, buf, env);
        }
      } else if s.chan[i].protocol == SYNC_LORAWAN {
        var sum := s.formats.summary(buf);
        if s.flags.lwSummary && sum.Some? && TextMesh(s.chan[j]) {
          EnqueueTextForDest(i, j, 0, sum.value, env);
        }
      } else if m.Some? {
        if s.flags.preserve && SameChannel(s.chan[i], s.chan[j]) {
          RawRepeatForDest(j, m.value.src, buf, env, mark);
        } else {
          EnqueueTextForDest(i, j, m.value.src, m.value.body, env);
        }
      }
    }

    /** LoRaWAN's second loop's body. */
    method RelayDest(i: nat, j: nat, buf: seq<u8>, env: Env, ghost mark: Call)
      requires Valid() && i < |s.chan| && j < |s.chan|
      modifies queues
      ensures Valid() && Did(old(cache.table[..]), old(queues[..]), ToRelay(s, i, buf, env, mark)(j))
    {
      if s.chan[i].protocol == SYNC_LORAWAN && s.flags.lwRelay && s.chan[j].protocol == SYNC_LORAWAN {
        RawRepeatForDest(j, 0, buf, env, mark);
      }
    }

    /** One turn of the first loop. */
    method FirstTurn(i: nat, j: nat, buf: seq<u8>, m: Option<Message>, env: Env, ghost mark: Call)
      requires Valid() && i < |s.chan| && j < |s.chan| && m == Known(s, s.chan[i], buf)
      modifies cache.table, queues
      ensures Valid()
      ensures Did(old(cache.table[..]), old(queues[..]), if Reaches(s, i, j) then ToDest(s, i, buf, env, mark)(j) else NOTHING)
    {
      if Reaches(s, i, j) {
        ServeDest(i, j, buf, m, env, mark);
      }
    }

    lemma NothingDone(tab: seq<Entry>, qs: seq<seq<R.Entry>>)
      requires tab != [] && cache.table[..] == tab && queues[..] == qs
      ensures Did(tab, qs, NOTHING)
    {
    }

    lemma EachMore(tab: seq<Entry>, qs: seq<seq<R.Entry>>, i: nat, j: nat, per: nat -> Out, tab': seq<Entry>, qs': seq<seq<R.Entry>>)
      requires tab != []
      requires tab' == TableAfter(tab, Each(s, i, j, per).calls) && qs' == Delivered(qs, depth, Each(s, i, j, per).sent)
      requires Did(tab', qs', if Reaches(s, i, j) then per(j) else NOTHING)
      ensures Did(tab, qs, Each(s, i, j + 1, per))
    {
      DidThen(tab, qs, Each(s, i, j, per), tab', qs', if Reaches(s, i, j) then per(j) else NOTHING);
    }

    /** A turn, added to what was done before it. */
    method FirstStep(i: nat, j: nat, buf: seq<u8>, m: Option<Message>, env: Env, ghost mark: Call,
        ghost tab: seq<Entry>, ghost qs: seq<seq<R.Entry>>, ghost before: Out) returns (ghost o: Out)
      requires Valid() && i < |s.chan| && j < |s.chan| && m == Known(s, s.chan[i], buf)
      requires tab != [] && Did(tab, qs, before) && before == Each(s, i, j, ToDest(s, i, buf, env, mark))
      modifies cache.table, queues
      ensures Valid() && Did(tab, qs, o) && o == Each(s, i, j + 1, ToDest(s, i, buf, env, mark))
    {
      ghost var tab', qs' := cache.table[..], queues[..];
      FirstTurn(i, j, buf, m, env, mark);
      EachMore(tab, qs, i, j, ToDest(s, i, buf, env, mark), tab', qs');
      o := Each(s, i, j + 1, ToDest(s, i, buf, env, mark));
    }

    method FirstLoop(i: nat, buf: seq<u8>, m: Option<Message>, env: Env, ghost mark: Call, ghost tab: seq<Entry>, ghost qs: seq<seq<R.Entry>>)
        returns (ghost o: Out)
      requires Valid() && i < |s.chan| && m == Known(s, s.chan[i], buf) && tab == cache.table[..] && qs == queues[..]
      modifies cache.table, queues
      ensures Valid() && Did(tab, qs, o) && o == Each(s, i, |s.chan|, ToDest(s, i, buf, env, mark))
    {
      o := NOTHING;
      NothingDone(tab, qs);
      for j := 0 to |s.chan|
        invariant Valid() && Did(tab, qs, o) && o == Each(s, i, j, ToDest(s, i, buf, env, mark))
      {
        o := FirstStep(i, j, buf, m, env, mark, tab, qs, o);
      }
    }

    method SecondLoop(i: nat, buf: seq<u8>, env: Env, ghost mark: Call)
      requires Valid() && i < |s.chan|
      modifies queues
      ensures Valid() && Did(old(cache.table[..]), old(queues[..]), Each(s, i, |s.chan|, ToRelay(s, i, buf, env, mark)))
    {
      ghost var tab, qs, per := cache.table[..], queues[..], ToRelay(s, i, buf, env, mark);
      NothingDone(tab, qs);
      for j := 0 to |s.chan|
        invariant Valid() && Did(tab, qs, Each(s, i, j, per))
      {
        ghost var tab', qs' := cache.table[..], queues[..];
        if Reaches(s, i, j) {
          RelayDest(i, j, buf, env, mark);
        }
        EachMore(tab, qs, i, j, per, tab', qs');
      }
    }

    /** NodeInfo first, then position, telemetry and text. */
    method DecodeMeshtastic(ch: Channel, buf: seq<u8>) returns (m: Option<Message>)
      ensures m == MtMessage(s, ch, buf)
    {
      var d := MeshFirmware.DecodePacket(s.c, ch, buf);
      if d.None? { return None; }
      var p, port, src, pid := d.value.data.payload, d.value.data.port, d.value.src, d.value.pid;
      if port == NODEINFO_PORT && p != [] && s.formats.nodeInfo(p) { return None; }
      if s.positions && port == POSITION_PORT && p != [] {
        var pos := s.formats.position(p);
        if pos.Some? { return Some(Message(pos.value, src, pid)); }
      }
      if s.telemetries && port == TELEMETRY_PORT && p != [] {
        var tel := s.formats.telemetry(p);
        if tel.Some? { return Some(Message(tel.value, src, pid)); }
      }
      var body := MeshFirmware.ExtractMeshtasticBody(s.c, ch, buf, 256);
      if body.None? { return None; }
      var text := MeshFirmware.CutAtNul(body.value);
      m := Some(Message(text, src, pid));
    }

    method DecodeMeshCore(ch: Channel, buf: seq<u8>) returns (m: Option<Message>)
      ensures m == McMessage(s, ch, buf)
    {
      var t := MeshFirmware.ExtractMeshCoreBody(s.c, ch, buf, 256);
      if t.None? { return None; }
      var text := MeshFirmware.CutAtNul(t.value.body);
      m := Some(Message(text, 0, 0));
    }

    /** Decode the packet and hash what it is known by; None when it is not decoded or absorbed. */
    method Identify(i: nat, buf: seq<u8>) returns (h: Option<Hash>, m: Option<Message>)
      requires Valid() && i < |s.chan|
      ensures h == Print(s, s.chan[i], buf) && m == Known(s, s.chan[i], buf)
    {
      var ch := s.chan[i];
      m := None;
      if Opaque(ch) {
        var raw := Fingerprint(buf, 0, 0);
        h := Some(raw);
        return;
      }
      if ch.protocol == SYNC_MESHTASTIC {
        m := DecodeMeshtastic(ch, buf);
      } else if ch.protocol == SYNC_MESHCORE {
        m := DecodeMeshCore(ch, buf);
      }
      if m.None? { return None, None; }
      var mark := Fingerprint(m.value.body, m.value.src, m.value.pid);
      h := Some(mark);
    }

    method IngestAndFanout(i: nat, buf: seq<u8>, env: Env)
      requires Valid() && i < |s.chan|
      modifies cache.table, queues
      ensures Valid() && Did(old(cache.table[..]), old(queues[..]), Ingest(s, old(cache.table[..]), i, buf, env))
    {
      ghost var tab, qs := cache.table[..], queues[..];
      var h, m := Identify(i, buf);
      if h.None? { return; }
      ghost var mark := Call(h.value, env.now);
      assert [mark][..0] == [];
      assert TableAfter(tab, [mark][..0]) == tab;
      var seen := cache.SeenAndRecord(h.value, env.now);
      assert Did(tab, qs, Out([mark], []));
      if seen { return; }
      ghost var tab1, qs1 := cache.table[..], queues[..];
      ghost var first := FirstLoop(i, buf, m, env, mark, tab1, qs1);
      ghost var tab2, qs2 := cache.table[..], queues[..];
      SecondLoop(i, buf, env, mark);
      ghost var second := Each(s, i, |s.chan|, ToRelay(s, i, buf, env, mark));
      DidThen(tab1, qs1, first, tab2, qs2, second);
      DidThen(tab, qs, Out([mark], []), tab1, qs1, first.Then(second));
    }
  }
}
