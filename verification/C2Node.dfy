/**
 The inbound and outbound C2 paths of one device, over its stored peer table.
 */
module C2Node {
  import opened Bytes
  import opened Rfc4493
  import opened Reservation
  import opened C2Frame
  import P = PeerModel
  import PeerStore
  import S = C2System

  /** The packet of a frame that is authenticated, addressed to us, and not a replay. */
  method AuthInbound(E: Cipher, myId: u32, store: PeerStore.Store, buf: seq<u8>, w: Write) returns (r: Option<Packet>)
    requires store.Valid()
    modifies store, store.peers
    ensures store.Valid()
    ensures var v := S.AuthInbound(E, myId, old(store.Model()), buf, w); store.Model() == v.0 && r == v.1
  {
    if |buf| < MIN_FRAME || |buf| > MAX_FRAME { return None; }
    if buf[0] != MAGIC_VER { return None; }
    var sender, recipient := FromLE32(buf[2..6]), FromLE32(buf[6..10]);
    if recipient != 0 && recipient != myId { return None; }
    var i := store.Resolve(sender);
    if i < 0 { return None; }
    r := VerifyAndDecrypt(E, store.peers[i].psk, buf);
    if r.None? { return; }
    var accepted := store.AcceptInboundSeq(i, r.value.number, w);
    if !accepted { return None; }
  }

  /** Sign a packet for a peer into a frame; empty when there is no such peer or no number. */
  method SendTo(E: Cipher, myId: u32, store: PeerStore.Store, kind: u8, recipient: u32, payload: seq<u8>, w: Write)
    returns (frame: seq<u8>)
    requires store.Valid()
    modifies store, store.peers
    ensures store.Valid()
    ensures var v := S.SendTo(E, myId, old(store.Model()), kind, recipient, payload, w);
            && store.Model() == v.0
            && frame == (if v.1.Some? then v.1.value.1 else [])
  {
    var i := store.Resolve(recipient);
    if i < 0 || |payload| > MAX_PAYLOAD { return []; }
    var psk := store.peers[i].psk;
    var n := store.NextTxSeq(w);
    if n == P.SEQ_INVALID {
      NumbersAreValid(old(store.Model()), w);
      return [];
    }
    var out := new u8[MAX_FRAME];
    var len := BuildFrame(E, psk, Packet(kind, myId, recipient, n, payload), out);
    frame := out[..len];
  }

  /** The invalid marker is never a number that was issued. */
  lemma NumbersAreValid(s: P.State, w: Write)
    requires P.Shaped(s)
    ensures P.NextTxSeq(s, w).issued != Some(P.SEQ_INVALID)
  {
  }
}
