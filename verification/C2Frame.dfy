/**
 The C2 wire frame: header, encrypted payload, truncated CMAC; encrypt-then-MAC under
 two keys derived from the peer's shared key.
 */
module C2Frame {
  import opened Bytes
  import opened Rfc4493
  import Cmac
  import opened PayloadCipher

  const MAGIC_VER: u8 := 0xC2
  const HDR_LEN := 14
  const TAG_LEN := 8
  const MAX_PAYLOAD := 64
  const MIN_FRAME := 22
  const MAX_FRAME := 86

  datatype Packet = Packet(kind: u8, sender: u32, recipient: u32, number: u32, payload: seq<u8>)

  function Label(i: u8): Block {
    [i] + Zeros(15)
  }

  function MacKey(E: Cipher, psk: Block): Block { E(psk, Label(1)) }
  function EncKey(E: Cipher, psk: Block): Block { E(psk, Label(2)) }

  function Header(p: Packet): (r: seq<u8>)
    ensures |r| == HDR_LEN
  {
    [MAGIC_VER, p.kind] + LE32(p.sender) + LE32(p.recipient) + LE32(p.number)
  }

  /** Header and ciphertext: everything the tag covers. */
  function Sealed(E: Cipher, psk: Block, p: Packet): (r: seq<u8>)
    ensures |r| == HDR_LEN + |p.payload|
  {
    Header(p) + Crypt(E, EncKey(E, psk), p.sender, p.number, p.payload)
  }

  function Tag(E: Cipher, psk: Block, sealed: seq<u8>): (r: seq<u8>)
    ensures |r| == TAG_LEN
  {
    Mac(E, MacKey(E, psk), sealed)[..TAG_LEN]
  }

  /** The bytes on air for `p` under the shared key `psk`. */
  function Wire(E: Cipher, psk: Block, p: Packet): (r: seq<u8>)
    ensures |r| == MIN_FRAME + |p.payload|
  {
    var s := Sealed(E, psk, p);
    s + Tag(E, psk, s)
  }

  // ---- building ------------------------------------------------------------------

  method Seal(E: Cipher, psk: Block, p: Packet, out: array<u8>)
    requires HDR_LEN + |p.payload| <= out.Length
    modifies out
    ensures out[..HDR_LEN + |p.payload|] == Sealed(E, psk, p)
    ensures out[HDR_LEN + |p.payload|..] == old(out[HDR_LEN + |p.payload|..])
  {
    var o := HDR_LEN + |p.payload|;
    assert out[HDR_LEN..][|p.payload|..] == out[o..];
    Put(out, 0, Header(p));
    Put(out, HDR_LEN, p.payload);
    assert out[..][..o] == Header(p) + p.payload;
    MaskedTail(out[..], Header(p), p.payload, Keystream(E, EncKey(E, psk), p.sender, p.number, BlockCount(|p.payload|))[..|p.payload|]);
    CryptFrmPayload(E, EncKey(E, psk), p.sender, p.number, out, HDR_LEN, |p.payload|);
  }

  /** Build a complete frame; 0 when the payload is too long or the buffer too small. */
  method BuildFrame(E: Cipher, psk: Block, p: Packet, out: array<u8>) returns (n: nat)
    modifies out
    ensures n > 0 <==> |p.payload| <= MAX_PAYLOAD && MIN_FRAME + |p.payload| <= out.Length
    ensures n > 0 ==> n <= out.Length && out[..n] == Wire(E, psk, p) && out[n..] == old(out[n..])
    ensures n == 0 ==> out[..] == old(out[..])
  {
    if |p.payload| > MAX_PAYLOAD { return 0; }
    var frameLen := HDR_LEN + |p.payload| + TAG_LEN;
    if frameLen > out.Length { return 0; }
    Seal(E, psk, p, out);
    var authLen := HDR_LEN + |p.payload|;
    assert out[authLen..][TAG_LEN..] == out[frameLen..];
    AppendTag(E, psk, out, authLen);
    n := frameLen;
  }

  method AppendTag(E: Cipher, psk: Block, out: array<u8>, authLen: nat)
    requires authLen + TAG_LEN <= out.Length
    modifies out
    ensures out[..authLen + TAG_LEN] == old(out[..authLen]) + Tag(E, psk, old(out[..authLen]))
    ensures out[authLen + TAG_LEN..] == old(out[authLen + TAG_LEN..])
  {
    var full := new u8[16];
    Cmac.AesCmac(E, MacKey(E, psk), out[..authLen], full);
    Put(out, authLen, full[..TAG_LEN]);
  }

  // ---- opening --------------------------------------------------------------------

  /** Compare without an early exit: every difference is or-ed into one byte. */
  method CtEqual(a: seq<u8>, b: seq<u8>) returns (eq: bool)
    requires |a| == |b|
    ensures eq <==> a == b
  {
    var d: u8 := 0;
    for i := 0 to |a|
      invariant d == 0 <==> a[..i] == b[..i]
    {
      DifferenceAccumulates(d, a[i], b[i]);
      assert a[..i + 1] == a[..i] + [a[i]] && b[..i + 1] == b[..i] + [b[i]];
      d := Or8(d, Xor8(a[i], b[i]));
    }
    assert a[..|a|] == a && b[..|b|] == b;
    eq := d == 0;
  }

  /** The header fields and the decrypted payload of a frame of valid length. */
  function Fields(E: Cipher, psk: Block, buf: seq<u8>): Packet
    requires |buf| >= MIN_FRAME
  {
    var sender, number := FromLE32(buf[2..6]), FromLE32(buf[10..14]);
    Packet(buf[1], sender, FromLE32(buf[6..10]), number,
           Crypt(E, EncKey(E, psk), sender, number, buf[HDR_LEN..|buf| - TAG_LEN]))
  }

  function Open(E: Cipher, psk: Block, buf: seq<u8>): Option<Packet> {
    if |buf| < MIN_FRAME || |buf| > MAX_FRAME then None
    else if buf[0] != MAGIC_VER then None
    else
      var authLen := |buf| - TAG_LEN;
      if Tag(E, psk, buf[..authLen]) != buf[authLen..] then None
      else Some(Fields(E, psk, buf))
  }

  method CheckTag(E: Cipher, psk: Block, buf: seq<u8>, authLen: nat) returns (ok: bool)
    requires authLen + TAG_LEN == |buf|
    ensures ok <==> Tag(E, psk, buf[..authLen]) == buf[authLen..]
  {
    var full := new u8[16];
    Cmac.AesCmac(E, MacKey(E, psk), buf[..authLen], full);
    ok := CtEqual(full[..TAG_LEN], buf[authLen..]);
  }

  /** Copy the ciphertext out and decrypt the copy in place. */
  method Decrypt(E: Cipher, key: Block, sender: u32, number: u32, text: seq<u8>) returns (plain: seq<u8>)
    ensures plain == Crypt(E, key, sender, number, text)
  {
    var out := new u8[|text|];
    assert out[0..][|text|..] == [];
    Put(out, 0, text);
    assert out[..] == out[..|text|] == text == out[0..|text|];
    ghost var mask := Keystream(E, key, sender, number, BlockCount(|text|))[..|text|];
    CryptFrmPayload(E, key, sender, number, out, 0, |text|);
    MaskAtParts(text, 0, mask);
    plain := out[..];
    assert plain == plain[0..|text|] && text == text[0..|text|];
  }

  method VerifyAndDecrypt(E: Cipher, psk: Block, buf: seq<u8>) returns (r: Option<Packet>)
    ensures r == Open(E, psk, buf)
  {
    if |buf| < MIN_FRAME || |buf| > MAX_FRAME { return None; }
    if buf[0] != MAGIC_VER { return None; }
    var authLen := |buf| - TAG_LEN;
    var ok := CheckTag(E, psk, buf, authLen);
    if !ok { return None; }
    var sender, number := FromLE32(buf[2..6]), FromLE32(buf[10..14]);
    var plain := Decrypt(E, EncKey(E, psk), sender, number, buf[HDR_LEN..authLen]);
    r := Some(Packet(buf[1], sender, FromLE32(buf[6..10]), number, plain));
  }

  // ---- opening inverts building ------------------------------------------------------

  lemma HeaderParts(p: Packet)
    ensures var h := Header(p);
            && h[0] == MAGIC_VER && h[1] == p.kind
            && h[2..6] == LE32(p.sender) && h[6..10] == LE32(p.recipient) && h[10..14] == LE32(p.number)
  {
  }

  lemma OpenWire(E: Cipher, psk: Block, p: Packet)
    requires |p.payload| <= MAX_PAYLOAD
    ensures Open(E, psk, Wire(E, psk, p)) == Some(p)
  {
    var buf, h := Wire(E, psk, p), Header(p);
    var authLen := |buf| - TAG_LEN;
    var sealed := Sealed(E, psk, p);
    assert buf[..authLen] == sealed;
    assert buf[authLen..] == Tag(E, psk, sealed);
    HeaderParts(p);
    assert buf[..HDR_LEN] == h;
    assert buf[2..6] == h[2..6] && buf[6..10] == h[6..10] && buf[10..14] == h[10..14];
    LE32RoundTrip(p.sender);
    LE32RoundTrip(p.recipient);
    LE32RoundTrip(p.number);
    assert buf[HDR_LEN..authLen] == sealed[HDR_LEN..];
    CryptInvolutive(E, EncKey(E, psk), p.sender, p.number, p.payload);
  }

  lemma FromLE32Injective(s: seq<u8>)
    requires |s| == 4
    ensures LE32(FromLE32(s)) == s
  {
    var b0: int, b1: int, b2: int, b3: int := s[0], s[1], s[2], s[3];
    var v := FromLE32(s);
    assert v / 256 == b1 + 256 * b2 + 65536 * b3;
    assert v / 65536 == b2 + 256 * b3;
    assert v / 16777216 == b3;
    assert s == [s[0], s[1], s[2], s[3]];
  }

  lemma WireOfFields(E: Cipher, psk: Block, buf: seq<u8>)
    requires Open(E, psk, buf).Some?
    ensures buf == Wire(E, psk, Open(E, psk, buf).value)
  {
    var p := Open(E, psk, buf).value;
    var authLen := |buf| - TAG_LEN;
    FromLE32Injective(buf[2..6]);
    FromLE32Injective(buf[6..10]);
    FromLE32Injective(buf[10..14]);
    CryptInvolutive(E, EncKey(E, psk), p.sender, p.number, buf[HDR_LEN..authLen]);
    assert buf[..HDR_LEN] == [buf[0], buf[1]] + buf[2..6] + buf[6..10] + buf[10..14];
    assert buf[..HDR_LEN] == Header(p);
    assert buf[..authLen] == buf[..HDR_LEN] + buf[HDR_LEN..authLen];
    assert buf[..authLen] == Sealed(E, psk, p);
    assert buf == buf[..authLen] + buf[authLen..];
  }

  /**
   A received frame opens to `p` exactly when it is byte for byte the frame built for
   `p`, whatever the block function: nothing else is accepted and nothing is lost.
   */
  lemma OpensExactlyWhatWasBuilt(E: Cipher, psk: Block, buf: seq<u8>, p: Packet)
    ensures Open(E, psk, buf) == Some(p) <==> |p.payload| <= MAX_PAYLOAD && buf == Wire(E, psk, p)
  {
    if |p.payload| <= MAX_PAYLOAD && buf == Wire(E, psk, p) {
      OpenWire(E, psk, p);
    }
    if Open(E, psk, buf) == Some(p) {
      WireOfFields(E, psk, buf);
    }
  }

  /** Changing only the tag of a built frame makes it be rejected. */
  lemma TamperedTagRejected(E: Cipher, psk: Block, p: Packet, tag: seq<u8>)
    requires |tag| == TAG_LEN && tag != Tag(E, psk, Sealed(E, psk, p))
    ensures Open(E, psk, Sealed(E, psk, p) + tag) == None
  {
    var buf := Sealed(E, psk, p) + tag;
    assert buf[..|buf| - TAG_LEN] == Sealed(E, psk, p) && buf[|buf| - TAG_LEN..] == tag;
  }
}
