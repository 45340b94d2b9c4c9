/** What the bridge sends, heard back on the same channel after any relaying, queues nothing. */
module LoopGuard {
  import opened Bytes
  import opened MeshCodec
  import opened DedupModel
  import opened RnsTunnel
  import opened LoopModel

  /** A radio that can hear what is sent on channel `b`. */
  predicate Hears(a: Channel, b: Channel) {
    a == b || (Opaque(b) && a.protocol == b.protocol)
  }

  /** A MeshCore relay rewrites route, transport codes and path and keeps what follows. */
  ghost predicate McRelayed(sent: seq<u8>, heard: seq<u8>) {
    exists rest: seq<u8> :: |rest| >= 4 && McCarries(sent, rest) && McCarries(heard, rest)
  }

  /** What may be heard of a packet: relay fields or path rewritten on a mesh, else the same bytes. */
  ghost predicate Echo(ch: Channel, sent: seq<u8>, heard: seq<u8>) {
    if ch.protocol == SYNC_MESHTASTIC then MtRelayed(sent, heard)
    else if ch.protocol == SYNC_MESHCORE then McRelayed(sent, heard)
    else sent == heard
  }

  /** Any echo is absorbed, or hashes to the recorded mark. */
  ghost predicate EchoKnown(s: Setup, dst: Channel, packet: seq<u8>, mark: Option<Call>) {
    forall ch, heard :: Hears(ch, dst) && Echo(dst, packet, heard) ==>
      var h := Print(s, ch, heard);
      h.None? || (mark.Some? && h.value == mark.value.hash)
  }

  // ---- decoding an echo gives what decoding the original gives ------------------------------

  lemma MtEchoSame(s: Setup, ch: Channel, sent: seq<u8>, heard: seq<u8>)
    requires MtRelayed(sent, heard)
    ensures MtMessage(s, ch, heard) == MtMessage(s, ch, sent)
  {
    MtRelayInvisible(s.c, ch, sent, heard);
  }

  lemma McEchoSame(s: Setup, ch: Channel, sent: seq<u8>, heard: seq<u8>)
    requires McRelayed(sent, heard)
    ensures McMessage(s, ch, heard) == McMessage(s, ch, sent)
  {
    var rest :| |rest| >= 4 && McCarries(sent, rest) && McCarries(heard, rest);
    McPathInvisible(s.c, ch, sent, rest, 256);
    McPathInvisible(s.c, ch, heard, rest, 256);
  }

  lemma EchoPrint(s: Setup, dst: Channel, sent: seq<u8>, ch: Channel, heard: seq<u8>)
    requires Hears(ch, dst) && Echo(dst, sent, heard)
    ensures Print(s, ch, heard) == Print(s, dst, sent)
  {
    if dst.protocol == SYNC_MESHTASTIC { MtEchoSame(s, dst, sent, heard); }
    if dst.protocol == SYNC_MESHCORE { McEchoSame(s, dst, sent, heard); }
  }

  /** So it is enough to know what the packet itself would be known by. */
  lemma KnownByPrint(s: Setup, dst: Channel, packet: seq<u8>, mark: Option<Call>)
    requires var h := Print(s, dst, packet); h.None? || (mark.Some? && h.value == mark.value.hash)
    ensures EchoKnown(s, dst, packet, mark)
  {
    forall ch, heard | Hears(ch, dst) && Echo(dst, packet, heard)
      ensures var h := Print(s, ch, heard); h.None? || (mark.Some? && h.value == mark.value.hash)
    {
      EchoPrint(s, dst, packet, ch, heard);
    }
  }

  // ---- the packets we make ---------------------------------------------------------------------

  lemma WholeText(body: CString)
    ensures UntilNul(body) == body
  {
    UntilNulOf(body, []);
    var none: seq<u8> := [];
    assert body + none == body;
  }

  /** A Meshtastic NodeInfo, or an empty text, is not relayed as text. */
  lemma MtSilent(s: Setup, ch: Channel, buf: seq<u8>, data: Data)
    requires var d := DecodeMt(s.c, ch, buf); d.Some? && d.value.data == data
    requires data.port == NODEINFO_PORT || (data.port == TEXT_PORT && data.payload == [])
    ensures MtMessage(s, ch, buf) == None
  {
  }

  /** A Meshtastic text is read back with its sender and id; an empty one is not read at all. */
  lemma MtTextPrint(s: Setup, ch: Channel, src: u32, pid: u32, body: CString)
    requires ch.protocol == SYNC_MESHTASTIC && EncodeMtText(s.c, ch, src, pid, body, 256).Some?
    ensures var h := Print(s, ch, EncodeMtText(s.c, ch, src, pid, body, 256).value);
            h.None? || h.value == s.hash(body, src, pid)
  {
    var packet := EncodeMtText(s.c, ch, src, pid, body, 256).value;
    DecodeMtPacket(s.c, ch, src, pid, 1, body);
    if body == [] {
      MtSilent(s, ch, packet, Data(TEXT_PORT, body));
    } else {
      MtHeard(s, ch, packet, src, pid, body);
      WholeText(body);
    }
  }

  lemma McKnown(s: Setup, ch: Channel, buf: seq<u8>, ts: u32, body: CString)
    requires ch.protocol == SYNC_MESHCORE
    ensures ExtractMcBody(s.c, ch, buf, 256) == None ==> Print(s, ch, buf) == None
    ensures ExtractMcBody(s.c, ch, buf, 256) == Some(McText(ts, body)) ==> Print(s, ch, buf) == Some(s.hash(body, 0, 0))
  {
    WholeText(body);
  }

  lemma McTextPrint(s: Setup, ch: Channel, ts: u32, body: CString)
    requires Inverts(s.c) && ch.protocol == SYNC_MESHCORE && EncodeMcText(s.c, ch, ts, body, 256).Some?
    ensures var h := Print(s, ch, EncodeMcText(s.c, ch, ts, body, 256).value);
            h.None? || h.value == s.hash(body, 0, 0)
  {
    var pkt := EncodeMcText(s.c, ch, ts, body, 256).value;
    McOwnBody(s.c, ch, ts, body);
    McKnown(s, ch, pkt, ts, body);
  }

  /** Our own MeshCore packet is read back whole; an empty one is not read. */
  lemma McOwnBody(c: Ciphers, ch: Channel, ts: u32, body: CString)
    requires Inverts(c) && EncodeMcText(c, ch, ts, body, 256).Some?
    ensures ExtractMcBody(c, ch, EncodeMcText(c, ch, ts, body, 256).value, 256) == if body == [] then None else Some(McText(ts, body))
  {
    McCarriesOwn(c, ch, ts, body);
    McPathInvisible(c, ch, EncodeMcText(c, ch, ts, body, 256).value, McRest(c, ch, ts, body), 256);
    DecodeMcRestOf(c, ch, ts, body, 256);
  }

  /** A nonempty text we send is heard as exactly that text, with the sender and id we stamped. */
  lemma SentTextHeard(s: Setup, ch: Channel, src: u32, pid: u32, ts: u32, body: CString)
    requires Inverts(s.c) && TextMesh(ch) && body != [] && EncodeForMesh(s.c, ch, src, pid, ts, body).Some?
    ensures var e := SentAs(EncodeForMesh(s.c, ch, src, pid, ts, body).value, ch, src, pid, body);
            Known(s, ch, e.packet) == Some(Message(e.body, e.src, e.pid))
  {
    WholeText(body);
    if ch.protocol == SYNC_MESHTASTIC {
      DecodeMtPacket(s.c, ch, src, pid, 1, body);
      MtHeard(s, ch, EncodeMtText(s.c, ch, src, pid, body, 256).value, src, pid, body);
    } else {
      McOwnBody(s.c, ch, ts, body);
    }
  }

  lemma MtHeard(s: Setup, ch: Channel, buf: seq<u8>, src: u32, pid: u32, payload: seq<u8>)
    requires DecodeMt(s.c, ch, buf) == Some(MtDecoded(src, pid, Data(TEXT_PORT, payload))) && 0 < |payload| < 255
    ensures MtMessage(s, ch, buf) == Some(Message(UntilNul(payload), src, pid))
  {
  }

  /** A MeshCore text "name: text" is heard on Meshtastic as the text, from the name's own virtual node. */
  lemma NameBecomesNode(s: Setup, i: nat, j: nat, name: CString, text: CString, env: Env)
    requires Inverts(s.c) && i < |s.chan| == |s.names| && j < |s.chan| && s.flags.preserve
    requires s.chan[i].protocol == SYNC_MESHCORE && s.chan[j].protocol == SYNC_MESHTASTIC
    requires 1 <= |name| < NAME_MAX && Plain(name, |name|) && 1 <= |text| <= MT_MAX_TEXT
    ensures var o := Text1(s, i, j, 0, name + [COLON, BLANK_CHAR] + text, env);
            && o.sent != []
            && Known(s, s.chan[j], o.sent[|o.sent| - 1].packet) == Some(Message(text, env.virtualId(name), env.pid(j)))
  {
    var body: CString := name + [COLON, BLANK_CHAR] + text;
    NameScanned(name, text, body, 0);
    SentTextHeard(s, s.chan[j], env.virtualId(name), env.pid(j), env.ts(j), text);
  }

  lemma {:induction false} NameScanned(name: CString, text: CString, body: CString, i: nat)
    requires body == name + [COLON, BLANK_CHAR] + text && 1 <= |name| < NAME_MAX && i <= |name|
    requires Plain(name, |name|)
    ensures SenderFrom(body, i) == Some(Sender(name, text))
    decreases |name| - i
  {
    if i < |name| {
      assert body[i] == name[i] && (i + 1 < |name| ==> body[i + 1] == name[i + 1]);
      NameScanned(name, text, body, i + 1);
    } else {
      assert body[..i] == name && body[i + 2..] == text;
    }
  }

  /** A Meshtastic text is heard on MeshCore with its sender's name in front. */
  lemma NodeBecomesName(s: Setup, i: nat, j: nat, srcId: u32, text: CString, env: Env)
    requires Inverts(s.c) && i < |s.chan| == |s.names| && j < |s.chan| && s.flags.preserve && s.flags.tagOrigin
    requires s.chan[i].protocol == SYNC_MESHTASTIC && s.chan[j].protocol == SYNC_MESHCORE
    requires |env.who(srcId)| + 5 + |text| <= 218
    ensures var o := Text1(s, i, j, srcId, text, env);
            && |o.sent| == 1
            && Known(s, s.chan[j], o.sent[0].packet) == Some(Message(env.who(srcId) + AT_MT + [COLON, BLANK_CHAR] + text, 0, 0))
  {
    var body := Attributed(s, env.who(srcId), text);
    assert body == env.who(srcId) + AT_MT + [COLON, BLANK_CHAR] + text;
    SentTextHeard(s, s.chan[j], 0, env.pid(j), env.ts(j), body);
  }

  lemma NodeInfoPrint(s: Setup, ch: Channel, src: u32, pid: u32, card: Card)
    requires ch.protocol == SYNC_MESHTASTIC && EncodeNodeInfo(s.c, ch, src, pid, card, PACKET_BUFFER).Some?
    ensures Print(s, ch, EncodeNodeInfo(s.c, ch, src, pid, card, PACKET_BUFFER).value) == None
  {
    DecodeMtPacket(s.c, ch, src, pid, NODEINFO_PORT, UserBytes(card));
    MtSilent(s, ch, EncodeNodeInfo(s.c, ch, src, pid, card, PACKET_BUFFER).value, Data(NODEINFO_PORT, UserBytes(card)));
  }

  lemma RelayedIsEcho(buf: seq<u8>, node: u32)
    requires |buf| >= 16 && buf[12] % 8 > 0
    ensures MtRelayed(buf, Relayed1(buf, node))
  {
  }

  /** Raw repeats by one bridge after another; None once one of them would drop the packet. */
  function RepeatAll(buf: seq<u8>, nodes: seq<u32>): Option<seq<u8>> {
    if nodes == [] then Some(buf)
    else
      var r := RepeatAll(buf, nodes[..|nodes| - 1]);
      if r.None? || |r.value| < 16 || r.value[12] % 8 == 0 then None else Some(Relayed1(r.value, nodes[|nodes| - 1]))
  }

  /** Whatever bridges there are, a Meshtastic packet is repeated at most as often as its hop limit says. */
  lemma {:induction false} HopsRunOut(buf: seq<u8>, nodes: seq<u32>)
    requires |buf| >= 16 && RepeatAll(buf, nodes).Some?
    ensures |nodes| <= buf[12] % 8 <= 7
    ensures var r := RepeatAll(buf, nodes).value; MtRelayed(buf, r) && r[12] % 8 == buf[12] % 8 - |nodes| && r[12] / 8 == buf[12] / 8
  {
    if nodes != [] { HopsRunOut(buf, nodes[..|nodes| - 1]); }
  }

  // ---- every emission is covered -----------------------------------------------------------------

  /** Each packet sent has a known echo, and its mark was recorded on the way or is `mark`. */
  ghost predicate Covered(s: Setup, o: Out, mark: Call) {
    forall n :: 0 <= n < |o.sent| ==> Covers(s, o.calls, mark, o.sent[n])
  }

  ghost predicate Covers(s: Setup, calls: seq<Call>, mark: Call, e: Emission) {
    && e.dst < |s.chan| && EchoKnown(s, s.chan[e.dst], e.packet, e.mark)
    && (e.mark.Some? ==> e.mark.value in calls || e.mark.value == mark)
  }

  lemma CoversMore(s: Setup, calls: seq<Call>, more: seq<Call>, mark: Call, e: Emission)
    requires Covers(s, calls, mark, e) && forall c :: c in calls ==> c in more
    ensures Covers(s, more, mark, e)
  {
  }

  lemma ThenCovered(s: Setup, a: Out, b: Out, mark: Call)
    requires Covered(s, a, mark) && Covered(s, b, mark)
    ensures Covered(s, a.Then(b), mark)
  {
    var o := a.Then(b);
    forall n | 0 <= n < |o.sent| ensures Covers(s, o.calls, mark, o.sent[n]) {
      if n < |a.sent| { CoversMore(s, a.calls, o.calls, mark, a.sent[n]); }
      else { CoversMore(s, b.calls, o.calls, mark, b.sent[n - |a.sent|]); }
    }
  }

  lemma MarkedCovered(s: Setup, j: nat, at: nat, e: Sent, mark: Call)
    requires j < |s.chan|
    requires RightlyMarked(s, s.chan[j], e)
    ensures Covered(s, Marked1(s, j, at, e), mark)
  {
    var call := Call(s.hash(e.body, e.src, e.pid), at);
    KnownByPrint(s, s.chan[j], e.packet, Some(call));
  }

  /** A text packet for either mesh is known by what SentAs says it will be. */
  lemma MeshTextPrint(s: Setup, ch: Channel, node: u32, pid: u32, ts: u32, body: CString)
    requires Inverts(s.c) && TextMesh(ch) && EncodeForMesh(s.c, ch, node, pid, ts, body).Some?
    ensures RightlyMarked(s, ch, SentAs(EncodeForMesh(s.c, ch, node, pid, ts, body).value, ch, node, pid, body))
  {
    if ch.protocol == SYNC_MESHTASTIC { MtTextPrint(s, ch, node, pid, body); } else { McTextPrint(s, ch, ts, body); }
  }

  lemma SendTextCovered(s: Setup, j: nat, src: u32, body: CString, env: Env, mark: Call)
    requires Inverts(s.c) && j < |s.chan| && TextMesh(s.chan[j])
    ensures Covered(s, SendText(s, j, src, body, env), mark)
  {
    var p := EncodeForMesh(s.c, s.chan[j], src, env.pid(j), env.ts(j), body);
    if p.Some? {
      MeshTextPrint(s, s.chan[j], src, env.pid(j), env.ts(j), body);
      MarkedCovered(s, j, env.at(j), SentAs(p.value, s.chan[j], src, env.pid(j), body), mark);
    }
  }

  lemma AnnounceCovered(s: Setup, j: nat, vid: u32, name: CString, env: Env, mark: Call)
    requires j < |s.chan| && s.chan[j].protocol == SYNC_MESHTASTIC
    ensures Covered(s, Announce(s, j, vid, name, env), mark)
  {
    var p := EncodeNodeInfo(s.c, s.chan[j], vid, env.cardPid(j), env.card(vid, name), PACKET_BUFFER);
    if env.due(vid) && p.Some? {
      NodeInfoPrint(s, s.chan[j], vid, env.cardPid(j), env.card(vid, name));
      KnownByPrint(s, s.chan[j], p.value, None);
    }
  }

  lemma TextCovered(s: Setup, i: nat, j: nat, srcId: u32, body: CString, env: Env, mark: Call)
    requires Inverts(s.c) && i < |s.chan| == |s.names| && j < |s.chan|
    ensures Covered(s, Text1(s, i, j, srcId, body, env), mark)
  {
    if s.chan[j].protocol == SYNC_MESHTASTIC {
      var sender := SenderFrom(body, 0);
      var name := if sender.Some? then sender.value.name else ChannelLabel(s.names[i]);
      var rest := if sender.Some? then sender.value.rest else body;
      var vid := env.virtualId(name);
      SendTextCovered(s, j, s.node, body, env, mark);
      SendTextCovered(s, j, vid, rest, env, mark);
      AnnounceCovered(s, j, vid, name, env, mark);
      ThenCovered(s, Announce(s, j, vid, name, env), SendText(s, j, vid, rest, env), mark);
    } else if s.chan[j].protocol == SYNC_MESHCORE {
      SendTextCovered(s, j, 0, Attributed(s, env.who(srcId), body), env, mark);
      SendTextCovered(s, j, 0, body, env, mark);
    }
  }

  lemma RawCovered(s: Setup, i: nat, j: nat, srcId: u32, buf: seq<u8>, env: Env, mark: Call)
    requires i < |s.chan| && j < |s.chan| && Hears(s.chan[i], s.chan[j])
    requires Print(s, s.chan[i], buf) == Some(mark.hash)
    ensures Covered(s, RawRepeat(s, j, srcId, buf, env, mark), mark)
  {
    var ch := s.chan[j];
    assert Print(s, ch, buf) == Some(mark.hash);
    KnownByPrint(s, ch, buf, Some(mark));
    if ch.protocol == SYNC_MESHTASTIC && |buf| >= 16 && buf[12] % 8 > 0 {
      RelayedIsEcho(buf, s.node);
      EchoPrint(s, ch, buf, ch, Relayed1(buf, s.node));
      KnownByPrint(s, ch, Relayed1(buf, s.node), Some(mark));
    }
  }

  /** The hash recorded for a sent text is the one its packet will be known by. */
  ghost predicate RightlyMarked(s: Setup, ch: Channel, e: Sent) {
    var h := Print(s, ch, e.packet); h.None? || h.value == s.hash(e.body, e.src, e.pid)
  }

  /** A property of outputs that joining keeps. */
  ghost predicate Joins(p: Out -> bool) {
    p(NOTHING) && forall a, b {:trigger a.Then(b)} :: p(a) && p(b) ==> p(a.Then(b))
  }

  lemma {:induction false} FragmentsKeep(p: Out -> bool, s: Setup, j: nat, all: seq<Sent>, at: nat -> nat, n: nat)
    requires n <= |all| && Joins(p)
    requires forall k :: 0 <= k < n ==> p(Marked1(s, j, at(k), all[k]))
    ensures p(Fragments(s, j, all, at, n))
  {
    if n > 0 { FragmentsKeep(p, s, j, all, at, n - 1); }
  }

  lemma {:induction false} EachKeeps(p: Out -> bool, s: Setup, i: nat, n: nat, per: nat -> Out)
    requires Joins(p) && forall j: nat :: j < n ==> p(per(j))
    ensures p(Each(s, i, n, per))
  {
    if n > 0 { EachKeeps(p, s, i, n - 1, per); }
  }

  lemma CoveredJoins(s: Setup, mark: Call)
    ensures Joins(o => Covered(s, o, mark))
  {
    forall a, b {:trigger a.Then(b)} | Covered(s, a, mark) && Covered(s, b, mark) ensures Covered(s, a.Then(b), mark) {
      ThenCovered(s, a, b, mark);
    }
  }

  lemma FragmentPrint(s: Setup, ch: Channel, buf: seq<u8>, pids: nat -> u32, ts: nat -> u32, k: nat)
    requires Inverts(s.c) && k < |Tunnel(s.c, ch, s.node, buf, pids, ts)|
    ensures RightlyMarked(s, ch, Tunnel(s.c, ch, s.node, buf, pids, ts)[k])
  {
    var tag := Tag(buf);
    TunnelAt(s.c, ch, s.node, buf, pids, ts, k);
    FragmentFits(s.c, ch, s.node, tag, buf, pids(k), ts(k), k);
    MeshTextPrint(s, ch, s.node, pids(k), ts(k), Text(tag, buf, RawPerFrag(ch), k));
  }

  // ---- the fan-out ------------------------------------------------------------------------------------

  lemma TunnelCovered(s: Setup, j: nat, buf: seq<u8>, env: Env, mark: Call)
    requires Inverts(s.c) && j < |s.chan|
    ensures Covered(s, Fragments(s, j, TunnelTo(s, j, buf, env), env.fragAt(j), |TunnelTo(s, j, buf, env)|), mark)
  {
    var all := TunnelTo(s, j, buf, env);
    forall k | 0 <= k < |all| ensures Covered(s, Marked1(s, j, env.fragAt(j)(k), all[k]), mark) {
      FragmentPrint(s, s.chan[j], buf, env.fragPid(j), env.fragTs(j), k);
      MarkedCovered(s, j, env.fragAt(j)(k), all[k], mark);
    }
    CoveredJoins(s, mark);
    FragmentsKeep(o => Covered(s, o, mark), s, j, all, env.fragAt(j), |all|);
  }

  lemma ReticulumCovered(s: Setup, i: nat, j: nat, buf: seq<u8>, env: Env, mark: Call)
    requires Inverts(s.c) && i < |s.chan| && j < |s.chan| && s.chan[i].protocol == SYNC_RETICULUM
    requires Print(s, s.chan[i], buf) == Some(mark.hash)
    ensures Covered(s, FromReticulum(s, j, buf, env, mark), mark)
  {
    if s.chan[j].protocol == SYNC_RETICULUM { RawCovered(s, i, j, 0, buf, env, mark); }
    TunnelCovered(s, j, buf, env, mark);
  }

  lemma LoRaWanCovered(s: Setup, i: nat, j: nat, buf: seq<u8>, env: Env, mark: Call)
    requires Inverts(s.c) && i < |s.chan| == |s.names| && j < |s.chan| && s.chan[i].protocol == SYNC_LORAWAN
    requires Print(s, s.chan[i], buf) == Some(mark.hash)
    ensures Covered(s, LwSummary(s, i, j, buf, env), mark)
    ensures Covered(s, LwRelay(s, j, buf, env, mark), mark)
  {
    if s.formats.summary(buf).Some? { TextCovered(s, i, j, 0, s.formats.summary(buf).value, env, mark); }
    if s.chan[j].protocol == SYNC_LORAWAN { RawCovered(s, i, j, 0, buf, env, mark); }
  }

  lemma MeshCovered(s: Setup, i: nat, j: nat, m: Message, buf: seq<u8>, env: Env, mark: Call)
    requires Inverts(s.c) && i < |s.chan| == |s.names| && j < |s.chan|
    requires Print(s, s.chan[i], buf) == Some(mark.hash)
    ensures Covered(s, FromMesh(s, i, j, m, buf, env, mark), mark)
  {
    TextCovered(s, i, j, m.src, m.body, env, mark);
    if SameChannel(s.chan[i], s.chan[j]) { RawCovered(s, i, j, m.src, buf, env, mark); }
  }

  lemma DestCovered(s: Setup, i: nat, j: nat, buf: seq<u8>, env: Env, mark: Call)
    requires Inverts(s.c) && i < |s.chan| == |s.names| && j < |s.chan|
    requires Print(s, s.chan[i], buf) == Some(mark.hash)
    ensures Covered(s, ToDest(s, i, buf, env, mark)(j), mark)
    ensures Covered(s, ToRelay(s, i, buf, env, mark)(j), mark)
  {
    if s.chan[i].protocol == SYNC_RETICULUM { ReticulumCovered(s, i, j, buf, env, mark); }
    else if s.chan[i].protocol == SYNC_LORAWAN { LoRaWanCovered(s, i, j, buf, env, mark); }
    else { MeshCovered(s, i, j, Known(s, s.chan[i], buf).value, buf, env, mark); }
  }

  lemma EachCovered(s: Setup, i: nat, n: nat, per: nat -> Out, mark: Call)
    requires forall j: nat :: j < n ==> Covered(s, per(j), mark)
    ensures Covered(s, Each(s, i, n, per), mark)
  {
    CoveredJoins(s, mark);
    EachKeeps(o => Covered(s, o, mark), s, i, n, per);
  }

  /** Whatever is heard, every packet it makes the bridge send is covered by a record made then. */
  lemma IngestCovered(s: Setup, tab: seq<Entry>, i: nat, buf: seq<u8>, env: Env)
    requires Inverts(s.c) && i < |s.chan| == |s.names|
    ensures var o := Ingest(s, tab, i, buf, env);
            forall n :: 0 <= n < |o.sent| ==> Safe(s, o.calls, o.sent[n])
  {
    var h := Print(s, s.chan[i], buf);
    if h.Some? {
      var mark := Call(h.value, env.now);
      var first, second := ToDest(s, i, buf, env, mark), ToRelay(s, i, buf, env, mark);
      forall j: nat | j < |s.chan| ensures Covered(s, first(j), mark) && Covered(s, second(j), mark) {
        DestCovered(s, i, j, buf, env, mark);
      }
      EachCovered(s, i, |s.chan|, first, mark);
      EachCovered(s, i, |s.chan|, second, mark);
      var fan := FanOut(s, i, buf, env, mark);
      ThenCovered(s, Each(s, i, |s.chan|, first), Each(s, i, |s.chan|, second), mark);
      assert Covered(s, fan, mark);
      forall n | 0 <= n < |fan.sent| ensures Safe(s, [mark] + fan.calls, fan.sent[n]) {
        assert Covers(s, fan.calls, mark, fan.sent[n]);
      }
    }
  }

  /** A packet whose echo is known by a record among `calls`, or absorbed. */
  ghost predicate Safe(s: Setup, calls: seq<Call>, e: Emission) {
    && e.dst < |s.chan| && EchoKnown(s, s.chan[e.dst], e.packet, e.mark)
    && (e.mark.Some? ==> e.mark.value in calls)
  }

  // ---- loop suppression --------------------------------------------------------------------------------

  /** Within the time to live of its record, and not crowded out of the table, an echo's record answers, however long the run. */
  lemma {:induction false} EchoIsSeen(calls: seq<Call>, mark: Call, t: nat)
    requires InOrder(calls) && Steady(TABLE_SIZE, calls) && mark in calls
    requires forall n :: 0 <= n < |calls| ==> calls[n].at <= t
    requires t < mark.at + TTL_MS && !Crowded(LogAfter(calls), mark.hash, TABLE_SIZE)
    ensures IsSeen(TableAfter(Blanks(TABLE_SIZE), calls), mark.hash, t)
  {
    var n :| 0 <= n < |calls| && calls[n] == mark;
    LogIsLast(calls, mark.hash);
    TableRefinesLog(TABLE_SIZE, calls, mark.hash, t);
  }

  /**
   Loop suppression, for any log of records holding the emission's own (however the radios'
   tasks interleaved): its echo, heard by any radio on the channel it was sent on, after any
   relaying, within the time to live and with the table not overrun, queues nothing.
   */
  lemma {:induction false} EchoQueuesNothing(s: Setup, calls: seq<Call>, e: Emission, k: nat, heard: seq<u8>, env: Env)
    requires k < |s.chan| == |s.names| && Safe(s, calls, e)
    requires Hears(s.chan[k], s.chan[e.dst]) && Echo(s.chan[e.dst], e.packet, heard)
    requires InOrder(calls) && Steady(TABLE_SIZE, calls)
    requires forall n :: 0 <= n < |calls| ==> calls[n].at <= env.now
    requires e.mark.Some? ==> env.now < e.mark.value.at + TTL_MS && !Crowded(LogAfter(calls), e.mark.value.hash, TABLE_SIZE)
    ensures Ingest(s, TableAfter(Blanks(TABLE_SIZE), calls), k, heard, env).sent == []
  {
    var h := Print(s, s.chan[k], heard);
    if h.Some? { EchoIsSeen(calls, e.mark.value, env.now); }
  }

  /** A packet heard by a radio. */
  datatype Rx = Rx(radio: nat, buf: seq<u8>, env: Env)

  /** Everything recorded and sent over a run of receptions. */
  function Run(s: Setup, rxs: seq<Rx>): Out
    requires |s.chan| == |s.names| && forall r :: r in rxs ==> r.radio < |s.chan|
  {
    if rxs == [] then NOTHING
    else
      var before, r := Run(s, rxs[..|rxs| - 1]), rxs[|rxs| - 1];
      before.Then(Ingest(s, TableAfter(Blanks(TABLE_SIZE), before.calls), r.radio, r.buf, r.env))
  }

  lemma {:induction false} RunIsSafe(s: Setup, rxs: seq<Rx>)
    requires Inverts(s.c) && |s.chan| == |s.names| && forall r :: r in rxs ==> r.radio < |s.chan|
    ensures forall n :: 0 <= n < |Run(s, rxs).sent| ==> Safe(s, Run(s, rxs).calls, Run(s, rxs).sent[n])
  {
    if rxs != [] {
      var before, r := Run(s, rxs[..|rxs| - 1]), rxs[|rxs| - 1];
      var tab := TableAfter(Blanks(TABLE_SIZE), before.calls);
      RunIsSafe(s, rxs[..|rxs| - 1]);
      IngestCovered(s, tab, r.radio, r.buf, r.env);
      var o, all := Ingest(s, tab, r.radio, r.buf, r.env), Run(s, rxs);
      assert all == before.Then(o);
      forall n | 0 <= n < |all.sent| ensures Safe(s, all.calls, all.sent[n]) {
        if n < |before.sent| {
          assert Safe(s, before.calls, before.sent[n]);
        } else {
          assert Safe(s, o.calls, o.sent[n - |before.sent|]);
        }
      }
    }
  }

  /** Over every run of the bridge from boot: the echo of anything it ever sent queues nothing. */
  lemma {:induction false} NoLoops(s: Setup, rxs: seq<Rx>, n: nat, k: nat, heard: seq<u8>, env: Env)
    requires Inverts(s.c) && k < |s.chan| == |s.names| && forall r :: r in rxs ==> r.radio < |s.chan|
    requires n < |Run(s, rxs).sent|
    requires var all := Run(s, rxs);
             var e := all.sent[n];
             && e.dst < |s.chan| && Hears(s.chan[k], s.chan[e.dst]) && Echo(s.chan[e.dst], e.packet, heard)
             && InOrder(all.calls) && Steady(TABLE_SIZE, all.calls)
             && (forall m :: 0 <= m < |all.calls| ==> all.calls[m].at <= env.now)
             && (e.mark.Some? ==> env.now < e.mark.value.at + TTL_MS && !Crowded(LogAfter(all.calls), e.mark.value.hash, TABLE_SIZE))
    ensures Run(s, rxs + [Rx(k, heard, env)]).sent == Run(s, rxs).sent
  {
    RunIsSafe(s, rxs);
    var all := Run(s, rxs);
    EchoQueuesNothing(s, all.calls, all.sent[n], k, heard, env);
    assert (rxs + [Rx(k, heard, env)])[..|rxs|] == rxs;
  }

  /** Conversely a packet whose hash was not recorded within the time to live, and has not returned, is passed on. */
  lemma {:induction false} FreshPasses(s: Setup, calls: seq<Call>, i: nat, buf: seq<u8>, env: Env)
    requires i < |s.chan| == |s.names| && InOrder(calls) && forall n :: 0 <= n < |calls| ==> calls[n].at <= env.now
    requires Print(s, s.chan[i], buf).Some?
    requires var h, log := Print(s, s.chan[i], buf).value, LogAfter(calls);
             !LiveInLog(log, h, env.now) && !(InTable(TableAfter(Blanks(TABLE_SIZE), calls), h) && h in log && Returned(env.now, log[h]))
    ensures var mark := Call(Print(s, s.chan[i], buf).value, env.now);
            Ingest(s, TableAfter(Blanks(TABLE_SIZE), calls), i, buf, env) == Out([mark], []).Then(FanOut(s, i, buf, env, mark))
  {
    TableRefinesLog(TABLE_SIZE, calls, Print(s, s.chan[i], buf).value, env.now);
  }
}
