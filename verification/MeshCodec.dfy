/**
 Text packets of the two meshes: what the encoders put on air and what the decoders
 read back, over uninterpreted ciphers.
 */
module MeshCodec {
  import opened Bytes
  import opened Rfc4493

  const SYNC_MESHCORE: u8 := 0x12
  const SYNC_MESHTASTIC: u8 := 0x2B
  const SYNC_RETICULUM: u8 := 0x42
  const SYNC_LORAWAN: u8 := 0x34

  /** A radio's channel; `key` holds the keyLen bytes of key material. */
  datatype Channel = Channel(protocol: u8, key: seq<u8>, channelHash: u8)

  /** AES-CTR keystream bytes, AES-ECB both ways, and the first two HMAC-SHA256 bytes. */
  datatype Ciphers = Ciphers(
    ctr: (seq<u8>, Block, nat) -> u8,
    enc: (seq<u8>, Block) -> Block,
    dec: (seq<u8>, Block) -> Block,
    hmac: (seq<u8>, seq<u8>) -> (u8, u8))

  ghost predicate Inverts(c: Ciphers) {
    forall k: seq<u8>, b: Block :: c.dec(k, c.enc(k, b)) == b
  }

  // ---- protobuf varints ---------------------------------------------------------------

  const TWO64 := 0x1_0000_0000_0000_0000

  datatype Varint = Varint(value: nat, next: nat)

  /** Read a varint at `p`; None when it runs off the end or is longer than 64 bits. */
  function PbVarintFrom(b: seq<u8>, p: nat, shift: nat, v: nat): (r: Option<Varint>)
    ensures r.Some? ==> p < r.value.next <= |b|
    decreases |b| - p
  {
    if p >= |b| then None
    else
      var byte: int := b[p];
      var v' := (v + byte % 128 * Pow2(shift)) % TWO64;
      if byte < 128 then Some(Varint(v', p + 1))
      else if shift + 7 >= 64 then None
      else PbVarintFrom(b, p + 1, shift + 7, v')
  }

  function PbVarint(b: seq<u8>, p: nat): (r: Option<Varint>)
    ensures r.Some? ==> p < r.value.next <= |b|
  {
    PbVarintFrom(b, p, 0, 0)
  }

  /** Step over a field of wire type `wt`. */
  function PbSkip(b: seq<u8>, p: nat, wt: nat): (r: Option<nat>)
    requires p <= |b|
    ensures r.Some? ==> p <= r.value <= |b|
  {
    match wt
    case 0 => var v := PbVarint(b, p); if v.None? then None else Some(v.value.next)
    case 1 => if p + 8 > |b| then None else Some(p + 8)
    case 2 =>
      var v := PbVarint(b, p);
      if v.None? || v.value.next + v.value.value > |b| then None else Some(v.value.next + v.value.value)
    case 5 => if p + 4 > |b| then None else Some(p + 4)
    case _ => None
  }

  /** The Data message: its port and the bytes of its payload field. */
  datatype Data = Data(port: u32, payload: seq<u8>)

  /** One turn of the walk: the position after a field and what it contributed. */
  function WalkField(pt: seq<u8>, p: nat, d: Data): (r: Option<(nat, Data)>)
    requires p < |pt|
    ensures r.Some? ==> p < r.value.0 <= |pt|
  {
    var tag := PbVarint(pt, p);
    if tag.None? then None
    else
      var field, wire, q := tag.value.value / 8 % TWO32, tag.value.value % 8, tag.value.next;
      if field == 1 && wire == 0 then
        var v := PbVarint(pt, q);
        if v.None? then None else Some((v.value.next, d.(port := v.value.value % TWO32)))
      else if field == 2 && wire == 2 then
        var v := PbVarint(pt, q);
        if v.None? || v.value.next + v.value.value > |pt| then None
        else Some((v.value.next + v.value.value, d.(payload := pt[v.value.next..v.value.next + v.value.value])))
      else
        var s := PbSkip(pt, q, wire);
        if s.None? then None else Some((s.value, d))
  }

  /** Walk the fields from `p` on, stopping at the end or at the first malformed one. */
  function Walk(pt: seq<u8>, p: nat, d: Data): Data
    decreases |pt| - p
  {
    if p >= |pt| then d
    else
      var r := WalkField(pt, p, d);
      if r.None? then d else Walk(pt, r.value.0, r.value.1)
  }

  // ---- Meshtastic ----------------------------------------------------------------------

  const MT_HEADER := 16
  const MT_MAX_TEXT := 200
  const TEXT_PORT: u32 := 1
  const POSITION_PORT: u32 := 3
  const NODEINFO_PORT: u32 := 4
  const TELEMETRY_PORT: u32 := 67

  function MtHeader(ch: Channel, src: u32, pid: u32): (r: seq<u8>)
    ensures |r| == MT_HEADER
  {
    [0xFF, 0xFF, 0xFF, 0xFF] + LE32(src) + LE32(pid) + [0x63, ch.channelHash, 0, 0]
  }

  function Nonce(src: u32, pid: u32): Block {
    LE32(pid) + [0, 0, 0, 0] + LE32(src) + [0, 0, 0, 0]
  }

  /** The first `n` keystream bytes. */
  function Stream(c: Ciphers, key: seq<u8>, nonce: Block, n: nat): (r: seq<u8>)
    ensures |r| == n
  {
    if n == 0 then [] else Stream(c, key, nonce, n - 1) + [c.ctr(key, nonce, n - 1)]
  }

  /** AES-CTR over a message: the same operation both ways. */
  function Ctr(c: Ciphers, key: seq<u8>, nonce: Block, s: seq<u8>): (r: seq<u8>)
    ensures |r| == |s|
  {
    XorSeq(s, Stream(c, key, nonce, |s|))
  }

  lemma CtrInvolutive(c: Ciphers, key: seq<u8>, nonce: Block, s: seq<u8>)
    ensures Ctr(c, key, nonce, Ctr(c, key, nonce, s)) == s
  {
    XorSeqInvolutive(s, Stream(c, key, nonce, |s|));
  }

  function LengthVarint(n: nat): (r: seq<u8>)
    requires n < 16384
  {
    if n < 128 then [n] else [n % 128 + 128, n / 128]
  }

  /** The Data protobuf for `payload` on `port`. */
  function DataBytes(port: u8, payload: seq<u8>): seq<u8>
    requires |payload| < 16384
  {
    [0x08, port, 0x12] + LengthVarint(|payload|) + payload
  }

  function MtPacket(c: Ciphers, ch: Channel, src: u32, pid: u32, data: seq<u8>): (r: seq<u8>)
    ensures |r| == MT_HEADER + |data|
  {
    MtHeader(ch, src, pid) + Ctr(c, ch.key, Nonce(src, pid), data)
  }

  function EncodeMtText(c: Ciphers, ch: Channel, src: u32, pid: u32, body: CString, cap: nat): Option<seq<u8>> {
    if |body| > MT_MAX_TEXT then None
    else
      var data := DataBytes(1, body);
      if MT_HEADER + |data| > cap then None else Some(MtPacket(c, ch, src, pid, data))
  }

  /** Sender, packet id and decrypted Data of a packet of this channel. */
  datatype MtDecoded = MtDecoded(src: u32, pid: u32, data: Data)

  function DecodeMt(c: Ciphers, ch: Channel, buf: seq<u8>): Option<MtDecoded> {
    if |buf| < 17 then None
    else if buf[13] != ch.channelHash then None
    else
      var src, pid := FromLE32(buf[4..8]), FromLE32(buf[8..12]);
      if |buf| - MT_HEADER > 240 then None
      else
        var pt := Ctr(c, ch.key, Nonce(src, pid), buf[MT_HEADER..]);
        Some(MtDecoded(src, pid, Walk(pt, 0, Data(0, []))))
  }

  /** The text body, cut to the caller's buffer. */
  function ExtractMtBody(c: Ciphers, ch: Channel, buf: seq<u8>, cap: nat): Option<seq<u8>> {
    if cap < 2 then None
    else
      var d := DecodeMt(c, ch, buf);
      if d.None? || d.value.data.port != TEXT_PORT || d.value.data.payload == [] then None
      else
        var p := d.value.data.payload;
        Some(if |p| < cap - 1 then p else p[..cap - 1])
  }

  lemma OneByteVarint(b: seq<u8>, p: nat)
    requires p < |b| && b[p] < 128
    ensures PbVarint(b, p) == Some(Varint(b[p], p + 1))
  {
    assert Pow2(0) == 1;
  }

  lemma LengthVarintRead(b: seq<u8>, p: nat, n: nat)
    requires n < 16384 && p + |LengthVarint(n)| <= |b|
    requires b[p..p + |LengthVarint(n)|] == LengthVarint(n)
    ensures PbVarint(b, p) == Some(Varint(n, p + |LengthVarint(n)|))
  {
    var s := LengthVarint(n);
    assert b[p] == b[p..p + |s|][0] == s[0];
    if n < 128 {
      OneByteVarint(b, p);
    } else {
      assert b[p + 1] == b[p..p + |s|][1] == s[1];
      assert Pow2(0) == 1 && Pow2(7) == 128;
      assert n == n % 128 + n / 128 * 128;
      var v := (0 + (n % 128 + 128) % 128 * Pow2(0)) % TWO64;
      assert v == n % 128;
      assert PbVarintFrom(b, p + 1, 7, v) == Some(Varint(n, p + 2));
    }
  }

  /** Walking the Data protobuf finds the port and the exact payload, last field wins. */
  lemma WalkDataBytes(port: u8, payload: seq<u8>, d: Data)
    requires |payload| < 16384 && port < 128
    ensures Walk(DataBytes(port, payload), 0, d) == Data(port, payload)
  {
    var b, s := DataBytes(port, payload), LengthVarint(|payload|);
    var end := 3 + |s|;
    assert b[3..end] == s;
    assert b[end..] == payload;
    OneByteVarint(b, 0);
    OneByteVarint(b, 1);
    var d1 := d.(port := port);
    assert WalkField(b, 0, d) == Some((2, d1));
    OneByteVarint(b, 2);
    LengthVarintRead(b, 3, |payload|);
    assert b[end..end + |payload|] == payload;
    assert WalkField(b, 2, d1) == Some((|b|, Data(port, payload)));
    assert Walk(b, |b|, Data(port, payload)) == Data(port, payload);
    assert Walk(b, 2, d1) == Data(port, payload);
  }

  /** A packet we built decodes to the sender, id and data that went in. */
  lemma DecodeMtPacket(c: Ciphers, ch: Channel, src: u32, pid: u32, port: u8, payload: seq<u8>)
    requires port < 128 && |payload| < 16384 && |DataBytes(port, payload)| <= 240
    ensures DecodeMt(c, ch, MtPacket(c, ch, src, pid, DataBytes(port, payload)))
         == Some(MtDecoded(src, pid, Data(port, payload)))
  {
    var data := DataBytes(port, payload);
    var buf, h := MtPacket(c, ch, src, pid, data), MtHeader(ch, src, pid);
    assert buf[..16] == h && buf[16..] == Ctr(c, ch.key, Nonce(src, pid), data);
    assert buf[4..8] == h[4..8] == LE32(src);
    assert buf[8..12] == h[8..12] == LE32(pid);
    assert buf[13] == h[13];
    LE32RoundTrip(src);
    LE32RoundTrip(pid);
    CtrInvolutive(c, ch.key, Nonce(src, pid), data);
    WalkDataBytes(port, payload, Data(0, []));
  }

  /** A relay may rewrite the hop flags, the next hop and the relay byte. */
  ghost predicate MtRelayed(sent: seq<u8>, heard: seq<u8>) {
    && |sent| == |heard| >= MT_HEADER
    && heard[..12] == sent[..12] && heard[13] == sent[13] && heard[16..] == sent[16..]
  }

  /** Those rewrites change nothing the decoder reads, for any packet. */
  lemma MtRelayInvisible(c: Ciphers, ch: Channel, sent: seq<u8>, heard: seq<u8>)
    requires MtRelayed(sent, heard)
    ensures DecodeMt(c, ch, heard) == DecodeMt(c, ch, sent)
  {
    assert heard[4..8] == heard[..12][4..8] && sent[4..8] == sent[..12][4..8];
    assert heard[8..12] == heard[..12][8..12] && sent[8..12] == sent[..12][8..12];
  }

  /** Every NUL-free text of 1..200 bytes survives encoding, relaying and decoding. */
  lemma MtTextRoundTrip(c: Ciphers, ch: Channel, src: u32, pid: u32, body: CString, heard: seq<u8>)
    requires 1 <= |body| <= MT_MAX_TEXT
    requires EncodeMtText(c, ch, src, pid, body, 256).Some? ==> MtRelayed(EncodeMtText(c, ch, src, pid, body, 256).value, heard)
    ensures EncodeMtText(c, ch, src, pid, body, 256).Some?
    ensures ExtractMtBody(c, ch, heard, 256) == Some(body)
    ensures DecodeMt(c, ch, heard) == Some(MtDecoded(src, pid, Data(TEXT_PORT, body)))
  {
    var pkt := EncodeMtText(c, ch, src, pid, body, 256).value;
    DecodeMtPacket(c, ch, src, pid, 1, body);
    MtRelayInvisible(c, ch, pkt, heard);
  }

  // ---- MeshCore ---------------------------------------------------------------------------

  const MC_MAX_PLAIN := 224
  const GRP_TXT_FLOOD: u8 := 0x15

  /** Apply a block function to each 16-byte block. */
  function Ecb(f: (seq<u8>, Block) -> Block, key: seq<u8>, s: seq<u8>): (r: seq<u8>)
    requires |s| % 16 == 0
    ensures |r| == |s|
    decreases |s|
  {
    if s == [] then [] else Ecb(f, key, s[..|s| - 16]) + f(key, s[|s| - 16..])
  }

  lemma {:induction false} EcbInverts(c: Ciphers, key: seq<u8>, s: seq<u8>)
    requires Inverts(c) && |s| % 16 == 0
    ensures Ecb(c.dec, key, Ecb(c.enc, key, s)) == s
    decreases |s|
  {
    if s != [] {
      var front, last: Block := s[..|s| - 16], s[|s| - 16..];
      EcbInverts(c, key, front);
      var e := Ecb(c.enc, key, s);
      assert e[..|e| - 16] == Ecb(c.enc, key, front) && e[|e| - 16..] == c.enc(key, last);
    }
  }

  function RoundUp16(n: nat): (r: nat)
    ensures r % 16 == 0 && n <= r < n + 16
  {
    (n + 15) / 16 * 16
  }

  /** Timestamp, flags, body, terminator, zero padding to whole blocks. */
  function McPlain(ts: u32, body: CString): (r: seq<u8>)
    ensures |r| % 16 == 0 && |r| >= 16
  {
    LE32(ts) + [0] + body + [0] + Zeros(RoundUp16(6 + |body|) - (6 + |body|))
  }

  /** Channel hash, MAC, ciphertext: what follows the path. */
  function McRest(c: Ciphers, ch: Channel, ts: u32, body: CString): (r: seq<u8>)
    ensures |r| == 3 + |McPlain(ts, body)|
  {
    var ct := Ecb(c.enc, ch.key, McPlain(ts, body));
    var m := c.hmac(ch.key, ct);
    [ch.channelHash, m.0, m.1] + ct
  }

  function EncodeMcText(c: Ciphers, ch: Channel, ts: u32, body: CString, cap: nat): Option<seq<u8>> {
    var n := RoundUp16(6 + |body|);
    if n > MC_MAX_PLAIN || 5 + n > cap then None
    else Some([GRP_TXT_FLOOD, 0] + McRest(c, ch, ts, body))
  }

  datatype McText = McText(ts: u32, body: seq<u8>)

  /** Decode what follows the path; the MAC is not checked. */
  function DecodeMcRest(c: Ciphers, ch: Channel, rest: seq<u8>, cap: nat): Option<McText>
    requires cap >= 2
  {
    if |rest| < 3 || rest[0] != ch.channelHash then None
    else
      var ct := rest[3..];
      if |ct| == 0 || |ct| % 16 != 0 || |ct| > MC_MAX_PLAIN then None
      else
        var pt := Ecb(c.dec, ch.key, ct);
        var body := UntilNul(pt[5..]);
        if body == [] then None
        else Some(McText(FromLE32(pt[..4]), if |body| < cap - 1 then body else body[..cap - 1]))
  }

  /** Where what follows the path begins: header, transport codes, path length, path. */
  function RestAt(buf: seq<u8>): (r: Option<nat>)
    ensures r.Some? ==> r.value <= |buf|
  {
    if |buf| < 6 then None
    else
      var h: int := buf[0];
      if h / 64 != 0 || h / 4 % 16 != 5 then None
      else
        var off := if h % 4 == 0 || h % 4 == 3 then 5 else 1;
        if |buf| < off + 1 then None
        else
          var pathLen: int := buf[off];
          if pathLen > 64 || |buf| < off + 1 + pathLen then None else Some(off + 1 + pathLen)
  }

  function ExtractMcBody(c: Ciphers, ch: Channel, buf: seq<u8>, cap: nat): Option<McText> {
    if cap < 2 || RestAt(buf).None? then None
    else DecodeMcRest(c, ch, buf[RestAt(buf).value..], cap)
  }

  /** The shapes a GRP_TXT can be heard in: any route type, transport codes, path. */
  ghost predicate McCarries(heard: seq<u8>, rest: seq<u8>) {
    exists h: u8, transport: seq<u8>, path: seq<u8> ::
      McShape(h, transport, path) && heard == [h] + transport + [|path|] + path + rest
  }

  ghost predicate McShape(h: u8, transport: seq<u8>, path: seq<u8>) {
    && h / 64 == 0 && h / 4 % 16 == 5 && |path| <= 64
    && |transport| == (if h % 4 == 0 || h % 4 == 3 then 4 else 0)
  }

  /** Whatever the route, transport codes and path, the same remainder decodes alike. */
  lemma McPathInvisible(c: Ciphers, ch: Channel, heard: seq<u8>, rest: seq<u8>, cap: nat)
    requires McCarries(heard, rest) && |rest| >= 4 && cap >= 2
    ensures ExtractMcBody(c, ch, heard, cap) == DecodeMcRest(c, ch, rest, cap)
  {
    var h: u8, transport: seq<u8>, path: seq<u8> :|
      McShape(h, transport, path) && heard == [h] + transport + [|path|] + path + rest;
    var off := 1 + |transport|;
    assert heard[off] == |path|;
    assert heard[off + 1 + |path|..] == rest;
  }

  /** The plaintext holds the timestamp and, from byte 5 to its first zero, the body. */
  lemma McPlainParts(ts: u32, body: CString)
    ensures FromLE32(McPlain(ts, body)[..4]) == ts
    ensures UntilNul(McPlain(ts, body)[5..]) == body
  {
    var pt := McPlain(ts, body);
    assert pt[..4] == LE32(ts);
    LE32RoundTrip(ts);
    var pad := [0] + Zeros(RoundUp16(6 + |body|) - (6 + |body|));
    assert pt[5..] == body + pad;
    UntilNulOf(body, pad);
  }

  /** What we put behind the path is read back; an empty text is not read at all. */
  lemma DecodeMcRestOf(c: Ciphers, ch: Channel, ts: u32, body: CString, cap: nat)
    requires Inverts(c) && |body| < cap - 1 && RoundUp16(6 + |body|) <= MC_MAX_PLAIN
    ensures DecodeMcRest(c, ch, McRest(c, ch, ts, body), cap) == if body == [] then None else Some(McText(ts, body))
  {
    McPlainParts(ts, body);
    EcbInverts(c, ch.key, McPlain(ts, body));
    assert McRest(c, ch, ts, body)[3..] == Ecb(c.enc, ch.key, McPlain(ts, body));
  }

  lemma McCarriesOwn(c: Ciphers, ch: Channel, ts: u32, body: CString)
    requires EncodeMcText(c, ch, ts, body, 256).Some?
    ensures McCarries(EncodeMcText(c, ch, ts, body, 256).value, McRest(c, ch, ts, body))
  {
    var pkt := EncodeMcText(c, ch, ts, body, 256).value;
    var none: seq<u8> := [];
    assert McShape(GRP_TXT_FLOOD, none, none);
    assert pkt == [GRP_TXT_FLOOD] + none + [|none|] + none + McRest(c, ch, ts, body);
  }

  /** Every NUL-free text of 1..218 bytes survives encoding, any path, and decoding. */
  lemma McTextRoundTrip(c: Ciphers, ch: Channel, ts: u32, body: CString, heard: seq<u8>)
    requires Inverts(c) && 1 <= |body| <= 218
    requires McCarries(heard, McRest(c, ch, ts, body))
    ensures EncodeMcText(c, ch, ts, body, 256).Some?
    ensures ExtractMcBody(c, ch, heard, 256) == Some(McText(ts, body))
  {
    assert RoundUp16(6 + |body|) <= MC_MAX_PLAIN;
    McPathInvisible(c, ch, heard, McRest(c, ch, ts, body), 256);
    DecodeMcRestOf(c, ch, ts, body, 256);
  }
}
