/**
 Reticulum frames tunnelled over the text meshes: sliced, base64-coded, labelled
 "[rns SS i/n] ", sent as text, and put together again by the labels.
 */
module RnsTunnel {
  import opened Bytes
  import opened MeshCodec
  import opened Base64
  import opened Products
  import LinkFraming
  import MeshFirmware

  const MAX_FRAGS := 8
  const RAW_PER_FRAG_MC := 117
  const RAW_PER_FRAG_MT := 123
  const B64_BUFFER := 200
  const MARKED_BUFFER := 240
  const PACKET_BUFFER := 256

  // ---- slices -------------------------------------------------------------------------

  function FragCount(len: nat, per: nat): nat
    requires per > 0
  {
    (len + per - 1) / per
  }

  function Slice(buf: seq<u8>, per: nat, i: nat): seq<u8>
    requires i * per <= |buf|
  {
    if i * per + per <= |buf| then buf[i * per..i * per + per] else buf[i * per..]
  }

  lemma CountBounds(len: nat, per: nat, i: nat)
    requires per > 0 && i < FragCount(len, per)
    ensures i * per < len
    ensures i + 1 < FragCount(len, per) ==> i * per + per < len
    ensures i + 1 == FragCount(len, per) ==> len <= i * per + per
  {
    var n := FragCount(len, per);
    assert n * per <= len + per - 1 < n * per + per;
    MulGrows(i + 1, n, per);
    if i + 1 < n { MulGrows(i + 2, n, per); }
  }

  /** The slices from the i-th on, end to end. */
  function Joined(buf: seq<u8>, per: nat, i: nat): seq<u8>
    requires per > 0 && i <= FragCount(|buf|, per)
    decreases FragCount(|buf|, per) - i
  {
    if i == FragCount(|buf|, per) then []
    else
      CountBounds(|buf|, per, i);
      Slice(buf, per, i) + Joined(buf, per, i + 1)
  }

  lemma {:induction false} SlicesTile(buf: seq<u8>, per: nat, i: nat)
    requires per > 0 && i <= FragCount(|buf|, per)
    ensures i * per <= |buf| || i == FragCount(|buf|, per)
    ensures Joined(buf, per, i) == if i * per <= |buf| then buf[i * per..] else []
    decreases FragCount(|buf|, per) - i
  {
    if i < FragCount(|buf|, per) {
      CountBounds(|buf|, per, i);
      SlicesTile(buf, per, i + 1);
      assert (i + 1) * per == i * per + per;
      if i + 1 < FragCount(|buf|, per) {
        Cut(buf, i * per, i * per + per);
      } else {
        LastSlice(buf, per, i);
      }
    } else {
      AllCovered(|buf|, per);
    }
  }

  lemma AllJoined(buf: seq<u8>, per: nat)
    requires per > 0
    ensures Joined(buf, per, 0) == buf
  {
    SlicesTile(buf, per, 0);
    assert buf[0..] == buf;
  }

  lemma Cut(buf: seq<u8>, a: nat, b: nat)
    requires a <= b <= |buf|
    ensures buf[a..b] + buf[b..] == buf[a..]
  {
  }

  lemma LastSlice(buf: seq<u8>, per: nat, i: nat)
    requires i * per <= |buf| <= i * per + per
    ensures Slice(buf, per, i) == buf[i * per..]
  {
  }

  lemma AllCovered(len: nat, per: nat)
    requires per > 0
    ensures len <= FragCount(len, per) * per
  {
  }

  // ---- labels -------------------------------------------------------------------------

  const PREFIX_LEN := 13

  function Hex(v: nat): (c: u8)
    requires v < 16
    ensures c > 32
  {
    if v < 10 then 48 + v else 55 + v
  }

  /** "[rns %02X %u/%u] " for counts of one digit. */
  function Prefix(tag: u8, i: nat, n: nat): (p: seq<u8>)
    requires i < 10 && n < 10
    ensures |p| == PREFIX_LEN && 0 !in p
  {
    [91, 114, 110, 115, 32, Hex(tag / 16), Hex(tag % 16), 32, 48 + i, 47, 48 + n, 93, 32]
  }

  /** What snprintf leaves of a text in a buffer of `cap` characters. */
  function Printed(s: seq<u8>, cap: nat): seq<u8>
    requires cap > 0
  {
    if |s| < cap then s else s[..cap - 1]
  }

  /** A fragment's text. */
  function Marked(tag: u8, i: nat, n: nat, slice: seq<u8>): (m: seq<u8>)
    requires i < 10 && n < 10
    ensures |m| == PREFIX_LEN + |Encode(slice)|
  {
    Prefix(tag, i, n) + Encode(slice)
  }

  lemma MarkedIsText(tag: u8, i: nat, n: nat, slice: seq<u8>)
    requires i < 10 && n < 10
    ensures 0 !in Marked(tag, i, n, slice)
  {
    EncodedIsText(slice);
  }

  /** The value of an upper-case hexadecimal digit. */
  function Unhex(c: u8): Option<nat> {
    if 48 <= c < 58 then Some(c - 48) else if 65 <= c < 71 then Some(c - 55) else None
  }

  lemma UnhexHex(v: nat)
    requires v < 16
    ensures Unhex(Hex(v)) == Some(v)
  {
  }

  datatype Fragment = Fragment(tag: nat, index: nat, total: nat, data: seq<u8>)

  /** "[rns XX d/d] " in front. */
  predicate Headed(m: seq<u8>) {
    && |m| >= PREFIX_LEN
    && m[0] == 91 && m[1] == 114 && m[2] == 110 && m[3] == 115 && m[4] == 32
    && Unhex(m[5]).Some? && Unhex(m[6]).Some?
    && m[7] == 32 && 48 <= m[8] < 58 && m[9] == 47 && 48 <= m[10] < 58 && m[11] == 93 && m[12] == 32
  }

  function TagOf(m: seq<u8>): nat
    requires Headed(m)
  {
    16 * Unhex(m[5]).value + Unhex(m[6]).value
  }

  /** A receiver's reading of a fragment's text. */
  function Parse(m: seq<u8>): Option<Fragment> {
    if !Headed(m) then None
    else
      var d := Decode(m[PREFIX_LEN..]);
      if d.None? then None else Some(Fragment(TagOf(m), m[8] - 48, m[10] - 48, d.value))
  }

  lemma PrefixHeads(tag: u8, i: nat, n: nat, rest: seq<u8>)
    requires i < 10 && n < 10
    ensures var m := Prefix(tag, i, n) + rest;
            Headed(m) && TagOf(m) == tag && m[8] == 48 + i && m[10] == 48 + n && m[PREFIX_LEN..] == rest
  {
    UnhexHex(tag / 16);
    UnhexHex(tag % 16);
  }

  lemma ParseMarked(tag: u8, i: nat, n: nat, slice: seq<u8>)
    requires i < 10 && n < 10
    ensures Parse(Marked(tag, i, n, slice)) == Some(Fragment(tag, i, n, slice))
  {
    PrefixHeads(tag, i, n, Encode(slice));
    RoundTrip(slice);
    ParseHeaded(Marked(tag, i, n, slice), slice);
  }

  lemma ParseHeaded(m: seq<u8>, data: seq<u8>)
    requires Headed(m) && Decode(m[PREFIX_LEN..]) == Some(data)
    ensures Parse(m) == Some(Fragment(TagOf(m), m[8] - 48, m[10] - 48, data))
  {
  }

  // ---- putting a frame together again ---------------------------------------------------

  type Parser = seq<u8> -> Option<Fragment>

  /** Not a fragment of the frame with this tag: another text, or a fragment with another tag. */
  predicate Foreign(parse: Parser, m: seq<u8>, tag: u8) {
    parse(m).None? || parse(m).value.tag != tag
  }

  /** The data of the first text heard that is labelled `i` of `tag`. */
  function Pick(parse: Parser, heard: seq<seq<u8>>, tag: u8, i: nat): Option<seq<u8>> {
    if heard == [] then None
    else
      var f := parse(heard[0]);
      if f.Some? && f.value.tag == tag && f.value.index == i then Some(f.value.data) else Pick(parse, heard[1..], tag, i)
  }

  /** How many parts the first text heard of `tag` says there are. */
  function Total(parse: Parser, heard: seq<seq<u8>>, tag: u8): Option<nat> {
    if heard == [] then None
    else if Foreign(parse, heard[0], tag) then Total(parse, heard[1..], tag)
    else Some(parse(heard[0]).value.total)
  }

  /** The parts of `tag` labelled i..n in order. */
  function Reassemble(parse: Parser, heard: seq<seq<u8>>, tag: u8, i: nat, n: nat): Option<seq<u8>>
    decreases n + 1 - i
  {
    if i > n then Some([])
    else
      var part, rest := Pick(parse, heard, tag, i), Reassemble(parse, heard, tag, i + 1, n);
      if part.None? || rest.None? then None else Some(part.value + rest.value)
  }

  /** The frame of a tag, of as many parts as its labels say. */
  function Receive(parse: Parser, heard: seq<seq<u8>>, tag: u8): Option<seq<u8>> {
    var n := Total(parse, heard, tag);
    if n.None? then None else Reassemble(parse, heard, tag, 1, n.value)
  }

  /** Text j is read as part j + 1 of the tag, holding slice j. */
  ghost predicate Labelled(parse: Parser, tag: u8, texts: seq<seq<u8>>, buf: seq<u8>, per: nat)
    requires per > 0
  {
    && |texts| == FragCount(|buf|, per)
    && forall j :: 0 <= j < |texts| ==> j * per <= |buf| && parse(texts[j]) == Some(Fragment(tag, j + 1, |texts|, Slice(buf, per, j)))
  }

  /** All of `texts` and, besides, only what is foreign to the tag. */
  ghost predicate HeardAmong(parse: Parser, heard: seq<seq<u8>>, tag: u8, texts: seq<seq<u8>>) {
    && (forall m :: m in texts ==> m in heard)
    && (forall m :: m in heard ==> m in texts || Foreign(parse, m, tag))
  }

  lemma {:induction false} PickFinds(parse: Parser, heard: seq<seq<u8>>, tag: u8, texts: seq<seq<u8>>, buf: seq<u8>, per: nat, i: nat)
    requires per > 0 && Labelled(parse, tag, texts, buf, per) && i < |texts|
    requires forall m :: m in heard ==> m in texts || Foreign(parse, m, tag)
    requires texts[i] in heard
    ensures i * per <= |buf| && Pick(parse, heard, tag, i + 1) == Some(Slice(buf, per, i))
  {
    var m := heard[0];
    assert m in heard;
    if m == texts[i] {
    } else {
      assert texts[i] in heard[1..];
      if m in texts {
        var j :| 0 <= j < |texts| && m == texts[j];
      }
      PickFinds(parse, heard[1..], tag, texts, buf, per, i);
    }
  }

  lemma {:induction false} TotalFinds(parse: Parser, heard: seq<seq<u8>>, tag: u8, texts: seq<seq<u8>>, buf: seq<u8>, per: nat)
    requires per > 0 && Labelled(parse, tag, texts, buf, per) && texts != []
    requires forall m :: m in heard ==> m in texts || Foreign(parse, m, tag)
    requires texts[0] in heard
    ensures Total(parse, heard, tag) == Some(|texts|)
  {
    var m := heard[0];
    assert m in heard;
    if m in texts {
      var j :| 0 <= j < |texts| && m == texts[j];
    } else {
      TotalFinds(parse, heard[1..], tag, texts, buf, per);
    }
  }

  lemma {:induction false} ReassembleFrom(parse: Parser, heard: seq<seq<u8>>, tag: u8, texts: seq<seq<u8>>, buf: seq<u8>, per: nat, i: nat)
    requires per > 0 && Labelled(parse, tag, texts, buf, per) && i <= |texts| && HeardAmong(parse, heard, tag, texts)
    ensures Reassemble(parse, heard, tag, i + 1, |texts|) == Some(Joined(buf, per, i))
    decreases |texts| - i
  {
    if i < |texts| {
      assert texts[i] in texts;
      PickFinds(parse, heard, tag, texts, buf, per, i);
      ReassembleFrom(parse, heard, tag, texts, buf, per, i + 1);
    }
  }

  /** The text of fragment i of a frame. */
  function Text(tag: u8, buf: seq<u8>, per: nat, i: nat): seq<u8>
    requires per > 0 && FragCount(|buf|, per) <= MAX_FRAGS && i < FragCount(|buf|, per)
  {
    CountBounds(|buf|, per, i);
    Marked(tag, i + 1, FragCount(|buf|, per), Slice(buf, per, i))
  }

  function Texts(tag: u8, buf: seq<u8>, per: nat): (r: seq<seq<u8>>)
    requires per > 0 && FragCount(|buf|, per) <= MAX_FRAGS
    ensures |r| == FragCount(|buf|, per)
  {
    seq(FragCount(|buf|, per), i requires 0 <= i < FragCount(|buf|, per) => Text(tag, buf, per, i))
  }

  lemma TextsLabelled(tag: u8, buf: seq<u8>, per: nat)
    requires per > 0 && FragCount(|buf|, per) <= MAX_FRAGS
    ensures Labelled(Parse, tag, Texts(tag, buf, per), buf, per)
  {
    var texts, n := Texts(tag, buf, per), FragCount(|buf|, per);
    forall j | 0 <= j < n ensures j * per <= |buf| && Parse(texts[j]) == Some(Fragment(tag, j + 1, n, Slice(buf, per, j))) {
      CountBounds(|buf|, per, j);
      ParseMarked(tag, j + 1, n, Slice(buf, per, j));
    }
  }

  lemma TotalHeard(heard: seq<seq<u8>>, tag: u8, buf: seq<u8>, per: nat)
    requires per > 0 && FragCount(|buf|, per) <= MAX_FRAGS && buf != []
    requires HeardAmong(Parse, heard, tag, Texts(tag, buf, per))
    ensures Total(Parse, heard, tag) == Some(FragCount(|buf|, per))
  {
    var texts := Texts(tag, buf, per);
    TextsLabelled(tag, buf, per);
    AllCovered(|buf|, per);
    assert texts != [] && texts[0] in texts;
    TotalFinds(Parse, heard, tag, texts, buf, per);
  }

  /**
   Whatever order the fragments are heard in, however often, and whatever else is heard in
   between, fragments of frames with other tags too: the labels of its tag give back the frame.
   */
  lemma Lossless(heard: seq<seq<u8>>, tag: u8, buf: seq<u8>, per: nat)
    requires per > 0 && FragCount(|buf|, per) <= MAX_FRAGS
    requires HeardAmong(Parse, heard, tag, Texts(tag, buf, per))
    ensures Reassemble(Parse, heard, tag, 1, FragCount(|buf|, per)) == Some(buf)
    ensures buf != [] ==> Receive(Parse, heard, tag) == Some(buf)
  {
    var texts := Texts(tag, buf, per);
    TextsLabelled(tag, buf, per);
    ReassembleFrom(Parse, heard, tag, texts, buf, per, 0);
    AllJoined(buf, per);
    if buf != [] { TotalHeard(heard, tag, buf, per); }
  }

  /** A frame that is on its way, as its tag and bytes. */
  datatype Tagged = Tagged(tag: u8, buf: seq<u8>)

  ghost predicate Distinct(frames: seq<Tagged>) {
    forall k, l :: 0 <= k < l < |frames| ==> frames[k].tag != frames[l].tag
  }

  /** Heard is every fragment of every frame, and nothing else that reads as a fragment. */
  ghost predicate HeardAll(heard: seq<seq<u8>>, frames: seq<Tagged>, per: nat)
    requires per > 0 && forall f :: f in frames ==> FragCount(|f.buf|, per) <= MAX_FRAGS
  {
    && (forall f, m :: f in frames && m in Texts(f.tag, f.buf, per) ==> m in heard)
    && (forall m :: m in heard ==> Parse(m).None? || exists f :: f in frames && m in Texts(f.tag, f.buf, per))
  }

  lemma TextHasTag(m: seq<u8>, f: Tagged, per: nat)
    requires per > 0 && FragCount(|f.buf|, per) <= MAX_FRAGS && m in Texts(f.tag, f.buf, per)
    ensures Parse(m).Some? && Parse(m).value.tag == f.tag
  {
    TextsLabelled(f.tag, f.buf, per);
    var texts := Texts(f.tag, f.buf, per);
    var j :| 0 <= j < |texts| && m == texts[j];
  }

  /** Any number of frames at once: as long as their tags differ, each is put together from the mix. */
  lemma MixLossless(heard: seq<seq<u8>>, frames: seq<Tagged>, per: nat, k: nat)
    requires per > 0 && (forall f :: f in frames ==> FragCount(|f.buf|, per) <= MAX_FRAGS)
    requires Distinct(frames) && HeardAll(heard, frames, per) && k < |frames| && frames[k].buf != []
    ensures Receive(Parse, heard, frames[k].tag) == Some(frames[k].buf)
  {
    var f := frames[k];
    assert f in frames;
    forall m | m in heard ensures m in Texts(f.tag, f.buf, per) || Foreign(Parse, m, f.tag) {
      if Parse(m).Some? {
        var g :| g in frames && m in Texts(g.tag, g.buf, per);
        TextHasTag(m, g, per);
        var l :| 0 <= l < |frames| && g == frames[l];
        if g != f { assert l != k; }
      }
    }
    Lossless(heard, f.tag, f.buf, per);
  }

  // ---- queueing the fragments ---------------------------------------------------------------

  predicate TextMesh(ch: Channel) {
    ch.protocol == SYNC_MESHTASTIC || ch.protocol == SYNC_MESHCORE
  }

  function RawPerFrag(ch: Channel): (n: nat)
    ensures n > 0
  {
    if ch.protocol == SYNC_MESHTASTIC then RAW_PER_FRAG_MT else RAW_PER_FRAG_MC
  }

  /** A frame of the 256 bytes a radio can receive makes one to three fragments. */
  lemma AtMostThree(ch: Channel, buf: seq<u8>)
    requires 1 <= |buf| <= 256
    ensures 1 <= FragCount(|buf|, RawPerFrag(ch)) <= 3
  {
  }

  /** A packet queued, with the text, sender and packet id its echo will be known by. */
  datatype Sent = Sent(packet: seq<u8>, body: CString, src: u32, pid: u32)

  function EncodeForMesh(c: Ciphers, ch: Channel, node: u32, pid: u32, ts: u32, body: CString): Option<seq<u8>> {
    if ch.protocol == SYNC_MESHTASTIC then EncodeMtText(c, ch, node, pid, body, PACKET_BUFFER)
    else EncodeMcText(c, ch, ts, body, PACKET_BUFFER)
  }

  /** Encode into a packet buffer with the mesh's own encoder. */
  method EncodePacket(c: Ciphers, ch: Channel, node: u32, pid: u32, ts: u32, body: CString) returns (packet: Option<seq<u8>>)
    ensures packet == EncodeForMesh(c, ch, node, pid, ts, body)
  {
    var outPkt := new u8[PACKET_BUFFER](_ => 0);
    var outLen: nat;
    if ch.protocol == SYNC_MESHTASTIC {
      outLen := MeshFirmware.EncodeMeshtasticText(c, ch, node, pid, body, outPkt);
    } else {
      outLen := MeshFirmware.EncodeMeshCoreGrpTxt(c, ch, ts, body, outPkt);
    }
    packet := if outLen == 0 then None else Some(outPkt[..outLen]);
  }

  /** What the echo of a text packet decodes to: MeshCore carries neither sender nor id. */
  function SentAs(packet: seq<u8>, ch: Channel, node: u32, pid: u32, body: CString): Sent {
    if ch.protocol == SYNC_MESHTASTIC then Sent(packet, body, node, pid) else Sent(packet, body, 0, 0)
  }

  lemma SliceLength(buf: seq<u8>, per: nat, i: nat)
    requires i * per <= |buf|
    ensures |Slice(buf, per, i)| <= per
  {
  }

  lemma CodedLength(slice: seq<u8>, per: nat)
    requires |slice| <= per <= 123
    ensures |Encode(slice)| <= (per + 2) / 3 * 4 <= 164
  {
    EncodedLength(slice);
  }

  lemma MarkedLength(tag: u8, i: nat, n: nat, slice: seq<u8>, per: nat)
    requires i < 10 && n < 10 && |slice| <= per && (per == RAW_PER_FRAG_MT || per == RAW_PER_FRAG_MC)
    ensures |Encode(slice)| < B64_BUFFER
    ensures |Marked(tag, i, n, slice)| <= (if per == RAW_PER_FRAG_MT then 177 else 169) < MARKED_BUFFER
  {
    CodedLength(slice, per);
  }

  lemma TextLength(ch: Channel, tag: u8, buf: seq<u8>, i: nat)
    requires FragCount(|buf|, RawPerFrag(ch)) <= MAX_FRAGS && i < FragCount(|buf|, RawPerFrag(ch))
    ensures i * RawPerFrag(ch) <= |buf|
    ensures |Encode(Slice(buf, RawPerFrag(ch), i))| < B64_BUFFER
    ensures |Text(tag, buf, RawPerFrag(ch), i)| < MARKED_BUFFER && 0 !in Text(tag, buf, RawPerFrag(ch), i)
    ensures |Text(tag, buf, RawPerFrag(ch), i)| <= if ch.protocol == SYNC_MESHTASTIC then 177 else 169
  {
    var per := RawPerFrag(ch);
    CountBounds(|buf|, per, i);
    SliceLength(buf, per, i);
    var slice := Slice(buf, per, i);
    MarkedLength(tag, i + 1, FragCount(|buf|, per), slice, per);
    MarkedIsText(tag, i + 1, FragCount(|buf|, per), slice);
  }

  /** Every fragment fits its buffers, its encoder, and the 200 and 184 bytes it may have on air. */
  lemma FragmentFits(c: Ciphers, ch: Channel, node: u32, tag: u8, buf: seq<u8>, pid: u32, ts: u32, i: nat)
    requires TextMesh(ch) && FragCount(|buf|, RawPerFrag(ch)) <= MAX_FRAGS && i < FragCount(|buf|, RawPerFrag(ch))
    ensures 0 !in Text(tag, buf, RawPerFrag(ch), i)
    ensures EncodeForMesh(c, ch, node, pid, ts, Text(tag, buf, RawPerFrag(ch), i)).Some?
    ensures |EncodeForMesh(c, ch, node, pid, ts, Text(tag, buf, RawPerFrag(ch), i)).value|
            <= if ch.protocol == SYNC_MESHTASTIC then 200 else 184
  {
    TextLength(ch, tag, buf, i);
    FitsEncoder(c, ch, node, pid, ts, Text(tag, buf, RawPerFrag(ch), i));
  }

  lemma FitsEncoder(c: Ciphers, ch: Channel, node: u32, pid: u32, ts: u32, body: CString)
    requires TextMesh(ch) && |body| <= if ch.protocol == SYNC_MESHTASTIC then 177 else 169
    ensures var p := EncodeForMesh(c, ch, node, pid, ts, body);
            p.Some? && |p.value| <= if ch.protocol == SYNC_MESHTASTIC then 200 else 184
  {
  }

  function FragmentSent(c: Ciphers, ch: Channel, node: u32, tag: u8, buf: seq<u8>, pid: u32, ts: u32, i: nat): Sent
    requires TextMesh(ch) && FragCount(|buf|, RawPerFrag(ch)) <= MAX_FRAGS && i < FragCount(|buf|, RawPerFrag(ch))
  {
    FragmentFits(c, ch, node, tag, buf, pid, ts, i);
    var body: CString := Text(tag, buf, RawPerFrag(ch), i);
    SentAs(EncodeForMesh(c, ch, node, pid, ts, body).value, ch, node, pid, body)
  }

  /** The tag of a frame: the low byte of its CRC. */
  function Tag(buf: seq<u8>): u8 {
    LinkFraming.Crc(buf) % 256
  }

  /** All fragments of a frame, each with its random packet id and the clock's timestamp; none when too many. */
  function Tunnel(c: Ciphers, ch: Channel, node: u32, buf: seq<u8>, pids: nat -> u32, ts: nat -> u32): seq<Sent> {
    var count := FragCount(|buf|, RawPerFrag(ch));
    if !TextMesh(ch) || count > MAX_FRAGS then []
    else
      seq(count, i requires 0 <= i < count => FragmentSent(c, ch, node, Tag(buf), buf, pids(i), ts(i), i))
  }

  lemma TunnelAt(c: Ciphers, ch: Channel, node: u32, buf: seq<u8>, pids: nat -> u32, ts: nat -> u32, i: nat)
    requires i < |Tunnel(c, ch, node, buf, pids, ts)|
    ensures TextMesh(ch) && |Tunnel(c, ch, node, buf, pids, ts)| == FragCount(|buf|, RawPerFrag(ch)) <= MAX_FRAGS
    ensures Tunnel(c, ch, node, buf, pids, ts)[i] == FragmentSent(c, ch, node, Tag(buf), buf, pids(i), ts(i), i)
  {
  }

  /** The texts queued for a frame are its fragments. */
  lemma TunnelTexts(c: Ciphers, ch: Channel, node: u32, buf: seq<u8>, pids: nat -> u32, ts: nat -> u32)
    requires TextMesh(ch) && 1 <= |buf| <= 256
    ensures var out := Tunnel(c, ch, node, buf, pids, ts);
            && FragCount(|buf|, RawPerFrag(ch)) <= 3 && |out| == FragCount(|buf|, RawPerFrag(ch))
            && forall i :: 0 <= i < |out| ==> out[i].body == Texts(Tag(buf), buf, RawPerFrag(ch))[i]
  {
    AtMostThree(ch, buf);
    var out := Tunnel(c, ch, node, buf, pids, ts);
    forall i | 0 <= i < |out| ensures out[i].body == Texts(Tag(buf), buf, RawPerFrag(ch))[i] {
      TunnelAt(c, ch, node, buf, pids, ts, i);
    }
  }

  /**
   End to end: a frame of 1..256 bytes is queued as one to three texts, from which, in any order,
   any number of copies, and among any texts that are not fragments of its tag, the frame is put
   together again by the labels alone.
   */
  lemma TunnelLossless(c: Ciphers, ch: Channel, node: u32, buf: seq<u8>, pids: nat -> u32, ts: nat -> u32, heard: seq<seq<u8>>)
    requires TextMesh(ch) && 1 <= |buf| <= 256
    requires var out := Tunnel(c, ch, node, buf, pids, ts);
             && (forall i :: 0 <= i < |out| ==> out[i].body in heard)
             && (forall m :: m in heard ==> Foreign(Parse, m, Tag(buf)) || exists i :: 0 <= i < |out| && out[i].body == m)
    ensures 1 <= |Tunnel(c, ch, node, buf, pids, ts)| <= 3
    ensures Receive(Parse, heard, Tag(buf)) == Some(buf)
  {
    AtMostThree(ch, buf);
    TunnelTexts(c, ch, node, buf, pids, ts);
    var out, texts := Tunnel(c, ch, node, buf, pids, ts), Texts(Tag(buf), buf, RawPerFrag(ch));
    forall m | m in texts ensures m in heard {
      var i :| 0 <= i < |texts| && texts[i] == m;
      assert out[i].body == m;
    }
    forall m | m in heard && !Foreign(Parse, m, Tag(buf)) ensures m in texts {
      var i :| 0 <= i < |out| && out[i].body == m;
      assert texts[i] == m;
    }
    Lossless(heard, Tag(buf), buf, RawPerFrag(ch));
  }

  /** mbedtls_base64_encode: needs room for the text and a terminator. */
  function Base64Into(slice: seq<u8>, cap: nat): Option<seq<u8>> {
    if |Encode(slice)| + 1 > cap then None else Some(Encode(slice))
  }

  /** Cut, code, label and encode fragment `idx`. */
  method NextFragment(c: Ciphers, ch: Channel, node: u32, buf: seq<u8>, tag: u8, rawPerFrag: nat, idx: nat, totalFrags: nat, pid: u32, ts: u32)
      returns (one: Option<Sent>)
    requires TextMesh(ch) && rawPerFrag == RawPerFrag(ch)
    requires idx < totalFrags == FragCount(|buf|, rawPerFrag) <= MAX_FRAGS
    ensures one == Some(FragmentSent(c, ch, node, tag, buf, pid, ts, idx))
  {
    var slice := CutSlice(buf, rawPerFrag, idx, totalFrags);
    TextLength(ch, tag, buf, idx);
    FragmentFits(c, ch, node, tag, buf, pid, ts, idx);
    one := BuildFragment(c, ch, node, tag, slice, idx, totalFrags, pid, ts);
  }

  method CutSlice(buf: seq<u8>, per: nat, idx: nat, totalFrags: nat) returns (slice: seq<u8>)
    requires per > 0 && idx < totalFrags == FragCount(|buf|, per)
    ensures idx * per <= |buf| && slice == Slice(buf, per, idx)
  {
    CountBounds(|buf|, per, idx);
    var rawStart := idx * per;
    var rawLen := if idx + 1 == totalFrags then |buf| - rawStart else per;
    slice := buf[rawStart..rawStart + rawLen];
  }

  /** Code, label and encode one slice; None where the firmware gives up. */
  method BuildFragment(c: Ciphers, ch: Channel, node: u32, tag: u8, slice: seq<u8>, idx: nat, total: nat, pid: u32, ts: u32)
      returns (one: Option<Sent>)
    requires TextMesh(ch) && idx < total <= MAX_FRAGS && |Encode(slice)| < B64_BUFFER
    requires var m := Marked(tag, idx + 1, total, slice); |m| < MARKED_BUFFER && 0 !in m
    ensures var m: CString := Marked(tag, idx + 1, total, slice);
            var p := EncodeForMesh(c, ch, node, pid, ts, m);
            one == if p.None? then None else Some(SentAs(p.value, ch, node, pid, m))
  {
    var b64 := Base64Into(slice, B64_BUFFER);
    if b64.None? { return None; }
    var marked := Printed(Prefix(tag, idx + 1, total) + b64.value, MARKED_BUFFER);
    assert marked == Marked(tag, idx + 1, total, slice);
    var packet := EncodePacket(c, ch, node, pid, ts, marked);
    if packet.None? { return None; }
    one := Some(SentAs(packet.value, ch, node, pid, marked));
  }
}
