/**
 The keyed LoRaWAN uplink: building a Data-Up PHYPayload (LoRaWAN 1.0.x, sections 4.3.3
 and 4.4) and reading the cleartext header back.
 */
module Uplink {
  import opened Bytes
  import opened Rfc4493
  import Cmac
  import opened PayloadCipher

  const MAX_APP_PAYLOAD := 242

  /** What an uplink carries; `fcnt` is the full 32-bit counter. */
  datatype Frame = Frame(devAddr: u32, fcnt: u32, fport: u8, confirmed: bool, payload: seq<u8>)
  datatype Keys = Keys(nwk: Block, app: Block)

  function PayloadKey(k: Keys, fport: u8): Block {
    if fport == 0 then k.nwk else k.app
  }

  /** MHDR, DevAddr, FCtrl, low half of FCnt, FPort. */
  function Header(f: Frame): (r: seq<u8>)
    ensures |r| == 9
  {
    [if f.confirmed then 0x80 else 0x40] + LE32(f.devAddr) + [0] + LE32(f.fcnt)[..2] + [f.fport]
  }

  /** Header and encrypted payload: everything the MIC covers. */
  function Message(E: Cipher, k: Keys, f: Frame): (r: seq<u8>)
    ensures |r| == 9 + |f.payload|
  {
    Header(f) + Crypt(E, PayloadKey(k, f.fport), f.devAddr, f.fcnt, f.payload)
  }

  function B0(devAddr: u32, fcnt: u32, len: nat): Block {
    [0x49, 0, 0, 0, 0, 0] + LE32(devAddr) + LE32(fcnt) + [0, len % 256]
  }

  /** Section 4.4: the first four bytes of the CMAC over B0 and the message. */
  function Mic(E: Cipher, k: Keys, devAddr: u32, fcnt: u32, msg: seq<u8>): (r: seq<u8>)
    ensures |r| == 4
  {
    Mac(E, k.nwk, B0(devAddr, fcnt, |msg|) + msg)[..4]
  }

  function PhyPayload(E: Cipher, k: Keys, f: Frame): (r: seq<u8>)
    ensures |r| == 13 + |f.payload|
  {
    var msg := Message(E, k, f);
    msg + Mic(E, k, f.devAddr, f.fcnt, msg)
  }

  /**
   Encode an uplink into the caller's buffer; the result is the frame length, or 0 when
   the payload is over the cap or the buffer too small, and then nothing is written.
   */
  method EncodeUplink(E: Cipher, k: Keys, f: Frame, out: array<u8>) returns (n: nat)
    modifies out
    ensures n > 0 <==> |f.payload| <= MAX_APP_PAYLOAD && 13 + |f.payload| <= out.Length
    ensures n > 0 ==> n <= out.Length && out[..n] == PhyPayload(E, k, f)
    ensures n == 0 ==> out[..] == old(out[..])
    ensures n > 0 ==> out[n..] == old(out[n..])
  {
    if |f.payload| > MAX_APP_PAYLOAD { return 0; }
    var frameLen := 1 + 4 + 1 + 2 + 1 + |f.payload| + 4;
    if frameLen > out.Length { return 0; }

    var o := 9 + |f.payload|;
    ghost var rest := out[frameLen..];
    assert rest == out[o..][4..];
    WriteMessage(E, k, f, out);
    assert out[frameLen..] == out[o..][4..];
    AppendMic(E, k, f, out, o);
    n := frameLen;
  }

  method WriteMessage(E: Cipher, k: Keys, f: Frame, out: array<u8>)
    requires 9 + |f.payload| <= out.Length
    modifies out
    ensures out[..9 + |f.payload|] == Message(E, k, f)
    ensures out[9 + |f.payload|..] == old(out[9 + |f.payload|..])
  {
    var o := 9 + |f.payload|;
    ghost var rest := out[9..][|f.payload|..];
    assert rest == out[o..];
    Put(out, 0, Header(f));
    Put(out, 9, f.payload);
    assert out[..][..o] == Header(f) + f.payload;
    MaskedTail(out[..], Header(f), f.payload, Keystream(E, PayloadKey(k, f.fport), f.devAddr, f.fcnt, BlockCount(|f.payload|))[..|f.payload|]);
    CryptFrmPayload(E, PayloadKey(k, f.fport), f.devAddr, f.fcnt, out, 9, |f.payload|);
  }

  /** Compute the MIC of the message in out[..o] and store it behind it. */
  method AppendMic(E: Cipher, k: Keys, f: Frame, out: array<u8>, o: nat)
    requires o == 9 + |f.payload| && o + 4 <= out.Length
    requires out[..o] == Message(E, k, f)
    modifies out
    ensures out[..o + 4] == PhyPayload(E, k, f)
    ensures out[o + 4..] == old(out[o + 4..])
  {
    var full := new u8[16];
    Cmac.AesCmac(E, k.nwk, B0(f.devAddr, f.fcnt, o) + out[..o], full);
    Put(out, o, full[..4]);
  }

  // ---- reading it back ---------------------------------------------------------

  datatype Meta = Meta(mtype: nat, isData: bool, isJoinReq: bool, devAddr: u32, fctrl: u8, fcnt: nat,
                       hasFport: bool, fport: u8, frmPayloadLen: nat, joinEui: nat, devEui: nat)

  function FromLE64(s: seq<u8>): nat
    requires |s| == 8
  {
    FromLE32(s[..4]) + TWO32 * FromLE32(s[4..])
  }

  /** The cleartext header; None when the frame is too short for what it claims. */
  function ExtractMeta(buf: seq<u8>): (r: Option<Meta>) {
    if |buf| < 1 then None
    else
      var b0: int := buf[0];
      var m := Meta(b0 / 32, 2 <= b0 / 32 <= 5, b0 / 32 == 0, 0, 0, 0, false, 0, 0, 0, 0);
      if m.isData then
        if |buf| < 12 then None
        else
          var fctrl: int, lo: int, hi: int := buf[5], buf[6], buf[7];
          var fhdrEnd := 8 + fctrl % 16;
          if fhdrEnd + 4 > |buf| then None
          else
            var after := |buf| - 4 - fhdrEnd;
            var d := m.(devAddr := FromLE32(buf[1..5]), fctrl := fctrl, fcnt := lo + 256 * hi);
            if after >= 1 then Some(d.(hasFport := true, fport := buf[fhdrEnd], frmPayloadLen := after - 1))
            else Some(d)
      else if m.isJoinReq then
        if |buf| < 23 then None
        else Some(m.(joinEui := FromLE64(buf[1..9]), devEui := FromLE64(buf[9..17])))
      else if |buf| >= 5 then Some(m) else None
  }

  /**
   Every encoded uplink parses back to its type, DevAddr, low counter half, FPort and
   length; its payload field decrypts to the payload; its last four bytes are the
   section 4.4 MIC of what precedes them.
   */
  lemma UplinkRoundTrip(E: Cipher, k: Keys, f: Frame)
    ensures var phy := PhyPayload(E, k, f);
            && ExtractMeta(phy) == Some(Meta(if f.confirmed then 4 else 2, true, false, f.devAddr, 0,
                                             f.fcnt % 65536, true, f.fport, |f.payload|, 0, 0))
            && Crypt(E, PayloadKey(k, f.fport), f.devAddr, f.fcnt, phy[9..|phy| - 4]) == f.payload
            && phy[|phy| - 4..] == Mic(E, k, f.devAddr, f.fcnt, phy[..|phy| - 4])
  {
    var phy := PhyPayload(E, k, f);
    assert phy[..9] == Message(E, k, f)[..9] == Header(f);
    HeaderFields(f, phy, |f.payload|);
    var c := Crypt(E, PayloadKey(k, f.fport), f.devAddr, f.fcnt, f.payload);
    assert phy[9..|phy| - 4] == c;
    CryptInvolutive(E, PayloadKey(k, f.fport), f.devAddr, f.fcnt, f.payload);
    assert phy[..|phy| - 4] == Message(E, k, f);
  }

  lemma HeaderFields(f: Frame, phy: seq<u8>, n: nat)
    requires |phy| == 13 + n && phy[..9] == Header(f)
    ensures ExtractMeta(phy) == Some(Meta(if f.confirmed then 4 else 2, true, false, f.devAddr, 0,
                                          f.fcnt % 65536, true, f.fport, n, 0, 0))
  {
    var h := Header(f);
    HeaderBytes(f);
    assert forall i :: 0 <= i < 9 ==> phy[i] == phy[..9][i];
    assert phy[1..5] == phy[..9][1..5] == LE32(f.devAddr);
    LE32RoundTrip(f.devAddr);
    LowHalf(f.fcnt);
  }

  lemma HeaderBytes(f: Frame)
    ensures var h := Header(f);
            && h[0] == (if f.confirmed then 0x80 else 0x40)
            && h[1..5] == LE32(f.devAddr)
            && h[5] == 0 && h[6] == f.fcnt % 256 && h[7] == f.fcnt / 256 % 256 && h[8] == f.fport
  {
    assert LE32(f.fcnt)[..2] == [f.fcnt % 256, f.fcnt / 256 % 256];
    var h := Header(f);
    assert h == [h[0]] + LE32(f.devAddr) + ([0] + LE32(f.fcnt)[..2] + [f.fport]);
  }

  lemma LowHalf(v: u32)
    ensures v % 65536 == v % 256 + 256 * (v / 256 % 256)
  {
    assert v == 65536 * (v / 65536) + v % 65536;
    assert v / 256 == 256 * (v / 65536) + v / 256 % 256;
  }
}
