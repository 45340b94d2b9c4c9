/**
 The mesh encoders and decoders in the firmware's form: protobuf walkers that advance a
 position, packets staged and encrypted in place in the caller's buffer.
 */
module MeshFirmware {
  import opened Bytes
  import opened Rfc4493
  import opened MeshCodec
  import PayloadCipher

  /** Read a varint at `p`, advancing byte by byte. */
  method ReadVarint(b: seq<u8>, p0: nat) returns (r: Option<Varint>)
    ensures r == PbVarint(b, p0)
  {
    var p: nat, v: nat, shift: nat := p0, 0, 0;
    while p < |b|
      invariant shift < 64
      invariant PbVarint(b, p0) == PbVarintFrom(b, p, shift, v)
      decreases |b| - p
    {
      var byte: int := b[p];
      p := p + 1;
      v := (v + byte % 128 * Pow2(shift)) % TWO64;
      if byte < 128 { return Some(Varint(v, p)); }
      shift := shift + 7;
      if shift >= 64 { return None; }
    }
    r := None;
  }

  /** Walk the Data protobuf, keeping the last port and payload seen. */
  method WalkData(pt: seq<u8>) returns (d: Data)
    ensures d == Walk(pt, 0, Data(0, []))
  {
    var pos := 0;
    d := Data(0, []);
    while pos < |pt|
      invariant pos <= |pt| && Walk(pt, 0, Data(0, [])) == Walk(pt, pos, d)
      decreases |pt| - pos
    {
      ghost var turn := WalkField(pt, pos, d);
      var tag := ReadVarint(pt, pos);
      if tag.None? { return; }
      var field, wire, q := tag.value.value / 8 % TWO32, tag.value.value % 8, tag.value.next;
      if field == 1 && wire == 0 {
        var v := ReadVarint(pt, q);
        if v.None? { return; }
        d := d.(port := v.value.value % TWO32);
        pos := v.value.next;
      } else if field == 2 && wire == 2 {
        var v := ReadVarint(pt, q);
        if v.None? || v.value.next + v.value.value > |pt| { return; }
        d := d.(payload := pt[v.value.next..v.value.next + v.value.value]);
        pos := v.value.next + v.value.value;
      } else {
        var s := SkipField(pt, q, wire);
        if s.None? { return; }
        pos := s.value;
      }
      assert turn == Some((pos, d));
    }
  }

  method SkipField(b: seq<u8>, p: nat, wt: nat) returns (r: Option<nat>)
    requires p <= |b|
    ensures r == PbSkip(b, p, wt)
  {
    if wt == 0 {
      var v := ReadVarint(b, p);
      return if v.None? then None else Some(v.value.next);
    } else if wt == 1 {
      return if p + 8 > |b| then None else Some(p + 8);
    } else if wt == 2 {
      var v := ReadVarint(b, p);
      return if v.None? || v.value.next + v.value.value > |b| then None else Some(v.value.next + v.value.value);
    } else if wt == 5 {
      return if p + 4 > |b| then None else Some(p + 4);
    }
    r := None;
  }

  /** A text in the caller's buffer; 0, and nothing written, when it does not fit. */
  method EncodeMeshtasticText(c: Ciphers, ch: Channel, src: u32, pid: u32, body: CString, out: array<u8>) returns (n: nat)
    modifies out
    ensures var r := EncodeMtText(c, ch, src, pid, body, out.Length);
            && (n == 0 <==> r.None?)
            && (r.Some? ==> n <= out.Length && out[..n] == r.value)
    ensures n == 0 ==> out[..] == old(out[..])
  {
    if |body| > 200 { return 0; }
    var lenVarintBytes := if |body| < 128 then 1 else 2;
    var pbLen := 2 + 1 + lenVarintBytes + |body|;
    if 16 + pbLen > out.Length { return 0; }

    StagePacket(c, ch, src, pid, DataBytes(1, body), out);
    n := 16 + pbLen;
  }

  /** Stage the Data message behind the header space, write the header, encrypt in place. */
  method StagePacket(c: Ciphers, ch: Channel, src: u32, pid: u32, data: seq<u8>, out: array<u8>)
    requires 16 + |data| <= out.Length
    modifies out
    ensures out[..16 + |data|] == MtPacket(c, ch, src, pid, data)
  {
    var head := MtHeader(ch, src, pid);
    Put(out, 16, data);
    assert out[16..16 + |data|] == data;
    PlaceHeader(out, head, data);
    MaskedTail(out[..], head, data, Stream(c, ch.key, Nonce(src, pid), |data|));
    PayloadCipher.XorRange(out, 16, Stream(c, ch.key, Nonce(src, pid), |data|));
  }

  /** Write the header in front of what is already staged behind it. */
  method PlaceHeader(out: array<u8>, head: seq<u8>, ghost data: seq<u8>)
    requires |head| + |data| <= out.Length && out[|head|..|head| + |data|] == data
    modifies out
    ensures out[..|head| + |data|] == head + data
    ensures out[|head|..] == old(out[|head|..])
  {
    Put(out, 0, head);
    assert out[|head|..|head| + |data|] == out[|head|..][..|data|] == old(out[|head|..])[..|data|];
    assert out[..|head| + |data|] == out[..|head|] + out[|head|..|head| + |data|];
  }

  /** Decrypt a packet of this channel and walk its Data message. */
  method DecodePacket(c: Ciphers, ch: Channel, buf: seq<u8>) returns (r: Option<MtDecoded>)
    ensures r == DecodeMt(c, ch, buf)
  {
    if |buf| < 17 { return None; }
    if buf[13] != ch.channelHash { return None; }
    var src, pid := FromLE32(buf[4..8]), FromLE32(buf[8..12]);
    if |buf| - 16 > 240 { return None; }
    var d := WalkData(Ctr(c, ch.key, Nonce(src, pid), buf[16..]));
    r := Some(MtDecoded(src, pid, d));
  }

  method ExtractMeshtasticBody(c: Ciphers, ch: Channel, buf: seq<u8>, cap: nat) returns (r: Option<seq<u8>>)
    ensures r == ExtractMtBody(c, ch, buf, cap)
  {
    if cap < 2 { return None; }
    var decoded := DecodePacket(c, ch, buf);
    if decoded.None? { return None; }
    var d := decoded.value.data;
    if d.port != 1 || |d.payload| == 0 { return None; }
    var copyLen := if |d.payload| < cap - 1 then |d.payload| else cap - 1;
    assert copyLen == |d.payload| ==> d.payload[..copyLen] == d.payload;
    r := Some(d.payload[..copyLen]);
  }

  /** Blocks of the first `n` bytes processed, the rest still as they were. */
  lemma EcbStep(f: (seq<u8>, Block) -> Block, key: seq<u8>, s: seq<u8>, i: nat)
    requires i % 16 == 0 && i + 16 <= |s|
    ensures Ecb(f, key, s[..i + 16]) == Ecb(f, key, s[..i]) + f(key, s[i..i + 16])
  {
    var t := s[..i + 16];
    assert t[..|t| - 16] == s[..i] && t[|t| - 16..] == s[i..i + 16];
  }

  /** `s` is `plain` with its first `i` bytes replaced by `done`. */
  ghost predicate Halfway(done: seq<u8>, s: seq<u8>, plain: seq<u8>, i: nat) {
    i <= |s| == |plain| && s[..i] == done && s[i..] == plain[i..]
  }

  lemma SameRest(s: seq<u8>, plain: seq<u8>, i: nat, n: nat)
    requires i + n <= |s| == |plain| && s[i..] == plain[i..]
    ensures s[i..i + n] == plain[i..i + n] && s[i + n..] == plain[i + n..]
  {
    assert s[i..][..n] == s[i..i + n] && plain[i..][..n] == plain[i..i + n];
    assert s[i..][n..] == s[i + n..] && plain[i..][n..] == plain[i + n..];
  }

  lemma Pieces(a: seq<u8>, b: seq<u8>, c: seq<u8>)
    ensures (a + b + c)[..|a| + |b|] == a + b && (a + b + c)[|a| + |b|..] == c
  {
  }

  lemma HalfwayStep(done: seq<u8>, e: Block, s: seq<u8>, plain: seq<u8>, i: nat, t: seq<u8>)
    requires Halfway(done, s, plain, i) && i + 16 <= |s|
    requires t == s[..i] + e + s[i + 16..]
    ensures Halfway(done + e, t, plain, i + 16)
  {
    SameRest(s, plain, i, 16);
    Pieces(s[..i], e, s[i + 16..]);
  }

  /** Run a block function over `len` bytes of `buf` from `at` on, block by block in place. */
  method EcbInPlace(f: (seq<u8>, Block) -> Block, key: seq<u8>, buf: array<u8>, at: nat, len: nat)
    requires len % 16 == 0 && at + len <= buf.Length
    modifies buf
    ensures buf[at..at + len] == Ecb(f, key, old(buf[at..at + len]))
    ensures buf[..at] == old(buf[..at]) && buf[at + len..] == old(buf[at + len..])
  {
    ghost var plain := buf[at..at + len];
    var i := 0;
    assert plain[..0] == [];
    while i < len
      invariant i % 16 == 0 && i <= len && Halfway(Ecb(f, key, plain[..i]), buf[at..at + len], plain, i)
      invariant buf[..at] == old(buf[..at]) && buf[at + len..] == old(buf[at + len..])
    {
      EcbStep(f, key, plain, i);
      EcbBlock(f, key, buf, at, len, i, plain, Ecb(f, key, plain[..i]));
      i := i + 16;
    }
    assert plain[..len] == plain;
  }

  method EcbBlock(f: (seq<u8>, Block) -> Block, key: seq<u8>, buf: array<u8>, at: nat, len: nat, i: nat, ghost plain: seq<u8>, ghost done: seq<u8>)
    requires at + len <= buf.Length && i + 16 <= len
    requires Halfway(done, buf[at..at + len], plain, i)
    modifies buf
    ensures Halfway(done + f(key, plain[i..i + 16]), buf[at..at + len], plain, i + 16)
    ensures buf[..at] == old(buf[..at]) && buf[at + len..] == old(buf[at + len..])
  {
    ghost var was := buf[..];
    Window(was, at, len, i);
    SameRest(was[at..at + len], plain, i, 16);
    assert buf[at..at + len] == was[at..at + len] && buf[at + i..at + i + 16] == was[at + i..at + i + 16];
    var e := f(key, buf[at + i..at + i + 16]);
    WriteBlock(buf, at + i, e, was);
    Spliced(was, buf[..], at, len, i, e);
    ghost var now := buf[..];
    assert buf[at..at + len] == now[at..at + len] && buf[..at] == now[..at] && buf[at + len..] == now[at + len..];
    HalfwayStep(done, e, was[at..at + len], plain, i, now[at..at + len]);
  }

  method WriteBlock(buf: array<u8>, p: nat, e: Block, ghost was: seq<u8>)
    requires p + 16 <= buf.Length && was == buf[..]
    modifies buf
    ensures buf[..][..p + 16] == was[..p] + e && buf[..][p + 16..] == was[p + 16..]
  {
    assert was[..p] == buf[..p] && was[p + 16..] == buf[p + 16..];
    Put(buf, p, e);
    assert buf[..][..p + 16] == buf[..p + 16] && buf[..][p + 16..] == buf[p + 16..];
  }

  lemma Window(b: seq<u8>, at: nat, len: nat, i: nat)
    requires i + 16 <= len && at + len <= |b|
    ensures b[at + i..at + i + 16] == b[at..at + len][i..i + 16]
  {
    var w, x := b[at..at + len], b[at + i..at + i + 16];
    var y := w[i..i + 16];
    forall k | 0 <= k < 16 ensures x[k] == y[k] {
      assert w[i + k] == b[at + i + k];
    }
  }

  /** Writing inside a window changes the window there and nothing outside it. */
  lemma Spliced(was: seq<u8>, now: seq<u8>, at: nat, len: nat, i: nat, e: seq<u8>)
    requires i + |e| <= len && at + len <= |was| == |now|
    requires now[..at + i + |e|] == was[..at + i] + e && now[at + i + |e|..] == was[at + i + |e|..]
    ensures now[at..at + len] == was[at..at + len][..i] + e + was[at..at + len][i + |e|..]
    ensures now[..at] == was[..at] && now[at + len..] == was[at + len..]
  {
    var x := at + i + |e|;
    assert now == now[..x] + now[x..];
    var w := was[at..at + len];
    var whole := w[..i] + e + w[i + |e|..];
    var v := now[at..at + len];
    forall k | 0 <= k < len ensures v[k] == whole[k] {
      assert v[k] == now[at + k];
      if at + k < x { assert now[at + k] == (was[..at + i] + e)[at + k]; } else { assert now[at + k] == now[x..][at + k - x]; }
    }
    var front, front' := was[..at], now[..at];
    forall k | 0 <= k < at ensures front'[k] == front[k] {
      assert now[k] == (was[..at + i] + e)[k];
    }
    var v', w' := now[at + len..], was[at + len..];
    forall k | 0 <= k < |was| - at - len ensures v'[k] == w'[k] {
      assert now[at + len + k] == now[x..][at + len + k - x];
    }
  }

  /** Stage the plaintext at offset 5, encrypt it in place, then fill in the header. */
  method EncodeMeshCoreGrpTxt(c: Ciphers, ch: Channel, ts: u32, body: CString, out: array<u8>) returns (n: nat)
    modifies out
    ensures var r := EncodeMcText(c, ch, ts, body, out.Length);
            && (n == 0 <==> r.None?)
            && (r.Some? ==> n <= out.Length && out[..n] == r.value)
    ensures n == 0 ==> out[..] == old(out[..])
  {
    var ptCore := 4 + 1 + |body| + 1;
    var ptLen := RoundUp16(ptCore);
    if ptLen > 224 { return 0; }
    if 5 + ptLen > out.Length { return 0; }
    FillGrpTxt(c, ch, ts, body, out, ptLen);
    n := 5 + ptLen;
  }

  method FillGrpTxt(c: Ciphers, ch: Channel, ts: u32, body: CString, out: array<u8>, ptLen: nat)
    requires ptLen == RoundUp16(6 + |body|) && 5 + ptLen <= out.Length
    modifies out
    ensures out[..5 + ptLen] == [GRP_TXT_FLOOD, 0] + McRest(c, ch, ts, body)
  {
    var plain := McPlain(ts, body);
    Put(out, 5, plain);
    assert out[5..5 + ptLen] == plain;
    EcbInPlace(c.enc, ch.key, out, 5, ptLen);
    FinishGrpTxt(c, ch, ts, body, out, ptLen);
  }

  /** MAC over the ciphertext, and the five bytes in front of it. */
  method FinishGrpTxt(c: Ciphers, ch: Channel, ghost ts: u32, ghost body: CString, out: array<u8>, ptLen: nat)
    requires 5 + ptLen <= out.Length && out[5..5 + ptLen] == Ecb(c.enc, ch.key, McPlain(ts, body))
    modifies out
    ensures out[..5 + ptLen] == [GRP_TXT_FLOOD, 0] + McRest(c, ch, ts, body)
  {
    var ct := out[5..5 + ptLen];
    var m := c.hmac(ch.key, ct);
    var head := [GRP_TXT_FLOOD, 0, ch.channelHash, m.0, m.1];
    PlaceHeader(out, head, ct);
    assert head + ct == [GRP_TXT_FLOOD, 0] + ([ch.channelHash, m.0, m.1] + ct);
  }

  /** Check the header and step over transport codes and path. */
  method SkipPath(buf: seq<u8>) returns (r: Option<nat>)
    ensures r == RestAt(buf)
  {
    if |buf| < 6 { return None; }
    var h: int := buf[0];
    if h / 64 != 0 || h / 4 % 16 != 5 { return None; }
    var off := 1;
    if h % 4 == 0 || h % 4 == 3 {
      if |buf| < off + 4 { return None; }
      off := off + 4;
    }
    if |buf| < off + 1 { return None; }
    var pathLen: int := buf[off];
    off := off + 1;
    if pathLen > 64 || |buf| < off + pathLen { return None; }
    r := Some(off + pathLen);
  }

  /** Decrypt a copy of the ciphertext and cut the body at its first zero byte. */
  method ExtractMeshCoreBody(c: Ciphers, ch: Channel, buf: seq<u8>, cap: nat) returns (r: Option<McText>)
    ensures r == ExtractMcBody(c, ch, buf, cap)
  {
    if cap < 2 { return None; }
    var at := SkipPath(buf);
    if at.None? { return None; }
    r := DecodeRest(c, ch, buf[at.value..], cap);
  }

  method DecodeRest(c: Ciphers, ch: Channel, rest: seq<u8>, cap: nat) returns (r: Option<McText>)
    requires cap >= 2
    ensures r == DecodeMcRest(c, ch, rest, cap)
  {
    if |rest| < 3 { return None; }
    if rest[0] != ch.channelHash { return None; }
    var ctLen := |rest| - 3;
    if ctLen == 0 || ctLen % 16 != 0 || ctLen > 224 { return None; }
    var pt := DecryptBlocks(c, ch, rest[3..]);
    var body := CutAtNul(pt[5..]);
    if |body| == 0 { return None; }
    var copyLen := if |body| < cap - 1 then |body| else cap - 1;
    assert copyLen == |body| ==> body[..copyLen] == body;
    r := Some(McText(FromLE32(pt[..4]), body[..copyLen]));
  }

  method DecryptBlocks(c: Ciphers, ch: Channel, ct: seq<u8>) returns (pt: seq<u8>)
    requires |ct| % 16 == 0
    ensures pt == Ecb(c.dec, ch.key, ct)
  {
    var buf := new u8[|ct|];
    Put(buf, 0, ct);
    assert buf[0..0 + |ct|] == buf[..|ct|] == ct;
    EcbInPlace(c.dec, ch.key, buf, 0, |ct|);
    pt := buf[..];
    assert pt == buf[0..0 + |ct|];
  }

  method CutAtNul(s: seq<u8>) returns (body: CString)
    ensures body == UntilNul(s)
  {
    var n := 0;
    while n < |s| && s[n] != 0
      invariant n <= |s| && forall k :: 0 <= k < n ==> s[k] != 0
    {
      n := n + 1;
    }
    body := s[..n];
    UntilNulOf(body, s[n..]);
    assert s == body + s[n..];
  }
}
