/**
 One received packet through the bridge: decode, duplicate guard, fan-out to the other
 radios. And why what the bridge sends never comes round again: its echo is known.
 */
module LoopModel {
  import opened Bytes
  import opened MeshCodec
  import opened DedupModel
  import opened RnsTunnel
  import RouteFifo

  /** Build flags: identity, tagging, nameless senders, RNS repeat, LoRaWAN summary and relay. */
  datatype Flags = Flags(preserve: bool, tagOrigin: bool, noname: bool, rnsRepeat: bool, lwSummary: bool, lwRelay: bool)

  /** What the decoders and formatters of other ports make of a payload, and names known. */
  datatype Formats = Formats(
    nodeInfo: seq<u8> -> bool,
    position: seq<u8> -> Option<CString>,
    telemetry: seq<u8> -> Option<CString>,
    summary: seq<u8> -> Option<CString>)

  datatype Setup = Setup(
    chan: seq<Channel>, names: seq<CString>,
    enabled: nat -> bool, routed: (nat, nat) -> bool,
    node: u32, positions: bool, telemetries: bool,
    flags: Flags, formats: Formats, c: Ciphers,
    hash: (seq<u8>, u32, u32) -> Hash)

  /** An id string, long name and short name for a virtual node's announcement. */
  datatype Card = Card(id: CString, long: CString, short: CString)

  /** Clock readings, random ids and look-ups during one pass, per destination. */
  datatype Env = Env(
    now: nat, at: nat -> nat, pid: nat -> u32, cardPid: nat -> u32, ts: nat -> u32,
    fragAt: nat -> nat -> nat, fragPid: nat -> nat -> u32, fragTs: nat -> nat -> u32,
    virtualId: CString -> u32, card: (u32, CString) -> Card, due: nat -> bool, who: u32 -> CString)

  // ---- what a received packet is known by ------------------------------------------------

  datatype Message = Message(body: CString, src: u32, pid: u32)

  /** The text a Meshtastic packet is bridged as; a NodeInfo is absorbed. */
  function MtMessage(s: Setup, ch: Channel, buf: seq<u8>): Option<Message> {
    var d := DecodeMt(s.c, ch, buf);
    if d.None? then None
    else
      var p, port := d.value.data.payload, d.value.data.port;
      if port == NODEINFO_PORT && p != [] && s.formats.nodeInfo(p) then None
      else if s.positions && port == POSITION_PORT && p != [] && s.formats.position(p).Some? then
        Some(Message(s.formats.position(p).value, d.value.src, d.value.pid))
      else if s.telemetries && port == TELEMETRY_PORT && p != [] && s.formats.telemetry(p).Some? then
        Some(Message(s.formats.telemetry(p).value, d.value.src, d.value.pid))
      else
        var body := ExtractMtBody(s.c, ch, buf, 256);
        if body.None? then None else Some(Message(UntilNul(body.value), d.value.src, d.value.pid))
  }

  function McMessage(s: Setup, ch: Channel, buf: seq<u8>): Option<Message> {
    var t := ExtractMcBody(s.c, ch, buf, 256);
    if t.None? then None else Some(Message(UntilNul(t.value.body), 0, 0))
  }

  predicate Opaque(ch: Channel) {
    ch.protocol == SYNC_RETICULUM || ch.protocol == SYNC_LORAWAN
  }

  /** What the guard hashes: the raw frame, or the decoded text with its sender and id. */
  function Known(s: Setup, ch: Channel, buf: seq<u8>): Option<Message> {
    if ch.protocol == SYNC_MESHTASTIC then MtMessage(s, ch, buf)
    else if ch.protocol == SYNC_MESHCORE then McMessage(s, ch, buf)
    else None
  }

  function Print(s: Setup, ch: Channel, buf: seq<u8>): Option<Hash> {
    if Opaque(ch) then Some(s.hash(buf, 0, 0))
    else
      var m := Known(s, ch, buf);
      if m.None? then None else Some(s.hash(m.value.body, m.value.src, m.value.pid))
  }

  // ---- what the fan-out produces -----------------------------------------------------------

  /** A packet pushed to a radio's queue; `mark` is the recorded hash its echo is known by. */
  datatype Emission = Emission(dst: nat, packet: seq<u8>, at: nat, mark: Option<Call>)

  /** Records made and packets pushed, each in order. */
  datatype Out = Out(calls: seq<Call>, sent: seq<Emission>) {
    function Then(more: Out): Out {
      Out(calls + more.calls, sent + more.sent)
    }
  }

  const NOTHING := Out([], [])

  /** One recorded text packet. */
  function Marked1(s: Setup, j: nat, at: nat, e: Sent): Out {
    var call := Call(s.hash(e.body, e.src, e.pid), at);
    Out([call], [Emission(j, e.packet, at, Some(call))])
  }

  // ---- sender names -------------------------------------------------------------------------

  const NAME_MAX := 32
  const COLON: u8 := 58
  const BLANK_CHAR: u8 := 32

  datatype Sender = Sender(name: CString, rest: CString)

  /** The "<name>: " in front of a MeshCore text, scanning from `i` on. */
  function SenderFrom(body: CString, i: nat): Option<Sender>
    decreases NAME_MAX - i
  {
    if i >= NAME_MAX || i >= |body| then None
    else if body[i] == COLON && i + 1 < |body| && body[i + 1] == BLANK_CHAR then
      if i == 0 then None else Some(Sender(body[..i], body[i + 2..]))
    else if i == 0 && body[i] == BLANK_CHAR then None
    else if body[i] < 0x20 || body[i] > 0x7E then None
    else SenderFrom(body, i + 1)
  }

  /** No name can end before `n`: printable, no ": ", not starting with a blank. */
  ghost predicate Plain(body: CString, n: nat)
    requires n <= |body|
  {
    && (n > 0 ==> body[0] != BLANK_CHAR)
    && (forall k :: 0 <= k < n ==> 0x20 <= body[k] <= 0x7E)
    && (forall k :: 0 <= k < n && k + 1 < |body| ==> !(body[k] == COLON && body[k + 1] == BLANK_CHAR))
  }

  lemma {:induction false} SenderScan(body: CString, i: nat)
    requires i <= |body| && Plain(body, i)
    ensures var r := SenderFrom(body, i);
            && (r.Some? ==> var n := |r.value.name|;
                 && 1 <= n < NAME_MAX && n + 2 <= |body| && Plain(body, n)
                 && body == r.value.name + [COLON, BLANK_CHAR] + r.value.rest)
            && (r.None? ==> forall n :: i <= n && 1 <= n < NAME_MAX && n + 2 <= |body| && Plain(body, n) ==>
                              body[n..n + 2] != [COLON, BLANK_CHAR])
    decreases NAME_MAX - i
  {
    if i >= NAME_MAX || i >= |body| {
    } else if body[i] == COLON && i + 1 < |body| && body[i + 1] == BLANK_CHAR {
      forall n | i < n && n + 2 <= |body| ensures !Plain(body, n) { }
      if i > 0 { assert body == body[..i] + [COLON, BLANK_CHAR] + body[i + 2..]; }
    } else if (i == 0 && body[i] == BLANK_CHAR) || body[i] < 0x20 || body[i] > 0x7E {
      forall n | i < n && n + 2 <= |body| ensures !Plain(body, n) { }
      if i + 2 <= |body| { assert body[i..i + 2][0] == body[i] && body[i..i + 2][1] == body[i + 1]; }
    } else {
      SenderScan(body, i + 1);
      if i + 2 <= |body| { assert body[i..i + 2][0] == body[i] && body[i..i + 2][1] == body[i + 1]; }
    }
  }

  /** A name is found exactly when one of 1..31 plain characters stands before ": ". */
  lemma SenderFound(body: CString)
    ensures var r := SenderFrom(body, 0);
            && (r.Some? ==> 1 <= |r.value.name| < NAME_MAX && body == r.value.name + [COLON, BLANK_CHAR] + r.value.rest)
            && (r.Some? <==> exists n :: 1 <= n < NAME_MAX && n + 2 <= |body| && Plain(body, n)
                                         && body[n..n + 2] == [COLON, BLANK_CHAR])
  {
    SenderScan(body, 0);
    var r := SenderFrom(body, 0);
    if r.Some? {
      var n := |r.value.name|;
      assert body[n..n + 2] == [COLON, BLANK_CHAR];
    }
  }

  // ---- the three ways out --------------------------------------------------------------------

  /** The User message of a NodeInfo. */
  function UserBytes(card: Card): seq<u8>
    requires |card.id| < 128 && |card.long| < 128 && |card.short| < 128
  {
    [0x0A, |card.id|] + card.id + [0x12, |card.long|] + card.long + [0x1A, |card.short|] + card.short
  }

  function EncodeNodeInfo(c: Ciphers, ch: Channel, src: u32, pid: u32, card: Card, cap: nat): Option<seq<u8>> {
    if |card.id| >= 128 || |card.long| >= 128 || |card.short| >= 128 then None
    else
      var data := DataBytes(NODEINFO_PORT, UserBytes(card));
      if MT_HEADER + |data| > cap then None else Some(MtPacket(c, ch, src, pid, data))
  }

  /** Announce a virtual node; no record is made, its echo is absorbed. */
  function Announce(s: Setup, j: nat, vid: u32, name: CString, env: Env): Out
    requires j < |s.chan|
  {
    if !env.due(vid) then NOTHING
    else
      var p := EncodeNodeInfo(s.c, s.chan[j], vid, env.cardPid(j), env.card(vid, name), PACKET_BUFFER);
      if p.None? then NOTHING else Out([], [Emission(j, p.value, env.at(j), None)])
  }

  /** Encode one text, record it, push it. */
  function SendText(s: Setup, j: nat, src: u32, body: CString, env: Env): Out
    requires j < |s.chan|
  {
    var p := EncodeForMesh(s.c, s.chan[j], src, env.pid(j), env.ts(j), body);
    if p.None? then NOTHING else Marked1(s, j, env.at(j), SentAs(p.value, s.chan[j], src, env.pid(j), body))
  }

  // "MC-" and "chan"
  const MC_LABEL: seq<u8> := [77, 67, 45]
  const CHAN: seq<u8> := [99, 104, 97, 110]
  const AT_MT: seq<u8> := [64, 77, 84]

  /** The catch-all label of a channel's nameless senders, cut to its buffer. */
  function ChannelLabel(name: CString): (r: CString) {
    Printed(MC_LABEL + (if name == [] then CHAN else name), 40)
  }

  /** MeshCore to Meshtastic: the sender's name becomes a virtual node. */
  function TextToMt(s: Setup, i: nat, j: nat, body: CString, env: Env): Out
    requires i < |s.chan| == |s.names| && j < |s.chan|
  {
    if !s.flags.preserve || s.chan[i].protocol != SYNC_MESHCORE then SendText(s, j, s.node, body, env)
    else
      var sender := SenderFrom(body, 0);
      if sender.Some? then
        var vid := env.virtualId(sender.value.name);
        Announce(s, j, vid, sender.value.name, env).Then(SendText(s, j, vid, sender.value.rest, env))
      else if s.flags.noname then
        var vid := env.virtualId(ChannelLabel(s.names[i]));
        Announce(s, j, vid, ChannelLabel(s.names[i]), env).Then(SendText(s, j, vid, body, env))
      else SendText(s, j, s.node, body, env)
  }

  /** The sender's name in front of a text, cut to the firmware's buffer. */
  function Attributed(s: Setup, who: CString, body: CString): (r: CString) {
    Printed(who + (if s.flags.tagOrigin then AT_MT else []) + [COLON, BLANK_CHAR] + body, 256)
  }

  /** Meshtastic to MeshCore: the sender's name is put in front. */
  function TextToMc(s: Setup, i: nat, j: nat, srcId: u32, body: CString, env: Env): Out
    requires i < |s.chan| && j < |s.chan|
  {
    if s.flags.preserve && s.chan[i].protocol == SYNC_MESHTASTIC then
      SendText(s, j, 0, Attributed(s, env.who(srcId), body), env)
    else SendText(s, j, 0, body, env)
  }

  /** A decoded text for one destination; Reticulum, LoRaWAN and unknown radios get nothing. */
  function Text1(s: Setup, i: nat, j: nat, srcId: u32, body: CString, env: Env): Out
    requires i < |s.chan| == |s.names| && j < |s.chan|
  {
    if s.chan[j].protocol == SYNC_MESHTASTIC then TextToMt(s, i, j, body, env)
    else if s.chan[j].protocol == SYNC_MESHCORE then TextToMc(s, i, j, srcId, body, env)
    else NOTHING
  }

  /** One hop fewer, relayed by us. */
  function Relayed1(buf: seq<u8>, node: u32): (r: seq<u8>)
    requires |buf| >= 16 && buf[12] % 8 > 0
    ensures |r| == |buf|
  {
    buf[12 := buf[12] - 1][15 := node % 256]
  }

  /** The original bytes again; covered by the record `mark` made when they were heard. */
  function RawRepeat(s: Setup, j: nat, srcId: u32, buf: seq<u8>, env: Env, mark: Call): Out
    requires j < |s.chan|
  {
    if !RouteFifo.Sendable(buf) then NOTHING
    else if s.chan[j].protocol == SYNC_MESHTASTIC then
      if |buf| < 16 || srcId == s.node || buf[12] % 8 == 0 then NOTHING
      else Out([], [Emission(j, Relayed1(buf, s.node), env.at(j), Some(mark))])
    else Out([], [Emission(j, buf, env.at(j), Some(mark))])
  }

  /** The first `n` fragments of a Reticulum frame, each recorded and pushed. */
  function Fragments(s: Setup, j: nat, all: seq<Sent>, at: nat -> nat, n: nat): Out
    requires n <= |all|
  {
    if n == 0 then NOTHING else Fragments(s, j, all, at, n - 1).Then(Marked1(s, j, at(n - 1), all[n - 1]))
  }

  function TunnelTo(s: Setup, j: nat, buf: seq<u8>, env: Env): seq<Sent>
    requires j < |s.chan|
  {
    Tunnel(s.c, s.chan[j], s.node, buf, env.fragPid(j), env.fragTs(j))
  }

  // ---- one packet ---------------------------------------------------------------------------------

  /** What one destination gets. */
  function FromReticulum(s: Setup, j: nat, buf: seq<u8>, env: Env, mark: Call): Out
    requires j < |s.chan|
  {
    if s.flags.rnsRepeat && s.chan[j].protocol == SYNC_RETICULUM then RawRepeat(s, j, 0, buf, env, mark)
    else Fragments(s, j, TunnelTo(s, j, buf, env), env.fragAt(j), |TunnelTo(s, j, buf, env)|)
  }

  function LwSummary(s: Setup, i: nat, j: nat, buf: seq<u8>, env: Env): Out
    requires i < |s.chan| == |s.names| && j < |s.chan|
  {
    if s.flags.lwSummary && s.formats.summary(buf).Some? && TextMesh(s.chan[j]) then
      Text1(s, i, j, 0, s.formats.summary(buf).value, env)
    else NOTHING
  }

  function LwRelay(s: Setup, j: nat, buf: seq<u8>, env: Env, mark: Call): Out
    requires j < |s.chan|
  {
    if s.flags.lwRelay && s.chan[j].protocol == SYNC_LORAWAN then RawRepeat(s, j, 0, buf, env, mark) else NOTHING
  }

  predicate SameChannel(a: Channel, b: Channel) {
    a.protocol == b.protocol && a.channelHash == b.channelHash && |a.key| == |b.key| && a.key == b.key
  }

  function FromMesh(s: Setup, i: nat, j: nat, m: Message, buf: seq<u8>, env: Env, mark: Call): Out
    requires i < |s.chan| == |s.names| && j < |s.chan|
  {
    if s.flags.preserve && SameChannel(s.chan[i], s.chan[j]) then RawRepeat(s, j, m.src, buf, env, mark)
    else Text1(s, i, j, m.src, m.body, env)
  }

  /** Is `j` another enabled radio this one is routed to? */
  predicate Reaches(s: Setup, i: nat, j: nat) {
    j != i && s.enabled(j) && s.routed(i, j)
  }

  /** One loop over the destinations. */
  function Each(s: Setup, i: nat, n: nat, per: nat -> Out): Out {
    if n == 0 then NOTHING
    else Each(s, i, n - 1, per).Then(if Reaches(s, i, n - 1) then per(n - 1) else NOTHING)
  }

  /** All that one destination may get in the first loop, and LoRaWAN's second. */
  function ToDest(s: Setup, i: nat, buf: seq<u8>, env: Env, mark: Call): nat -> Out
    requires i < |s.chan| == |s.names|
  {
    (j: nat) => if j >= |s.chan| then NOTHING
         else if s.chan[i].protocol == SYNC_RETICULUM then FromReticulum(s, j, buf, env, mark)
         else if s.chan[i].protocol == SYNC_LORAWAN then LwSummary(s, i, j, buf, env)
         else if Known(s, s.chan[i], buf).Some? then FromMesh(s, i, j, Known(s, s.chan[i], buf).value, buf, env, mark)
         else NOTHING
  }

  function ToRelay(s: Setup, i: nat, buf: seq<u8>, env: Env, mark: Call): nat -> Out
    requires i < |s.chan|
  {
    (j: nat) => if j < |s.chan| && s.chan[i].protocol == SYNC_LORAWAN then LwRelay(s, j, buf, env, mark) else NOTHING
  }

  function FanOut(s: Setup, i: nat, buf: seq<u8>, env: Env, mark: Call): Out
    requires i < |s.chan| == |s.names|
  {
    Each(s, i, |s.chan|, ToDest(s, i, buf, env, mark)).Then(Each(s, i, |s.chan|, ToRelay(s, i, buf, env, mark)))
  }

  /** A packet heard on radio `i`: nothing if it is not decoded, only a record if it is known. */
  function Ingest(s: Setup, tab: seq<Entry>, i: nat, buf: seq<u8>, env: Env): Out
    requires i < |s.chan| == |s.names|
  {
    var h := Print(s, s.chan[i], buf);
    if h.None? then NOTHING
    else
      var mark := Call(h.value, env.now);
      if IsSeen(tab, h.value, env.now) then Out([mark], [])
      else Out([mark], []).Then(FanOut(s, i, buf, env, mark))
  }
}
