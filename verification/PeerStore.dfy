/**
 The C2 peer store as the firmware keeps it: a static table and counters updated in
 place, each method tied to the value-level operation of PeerModel.
 */
module PeerStore {
  import opened Bytes
  import opened Reservation
  import M = PeerModel
  import opened PeerModel

  class Store {
    var peers: array<Peer>            // s_peer
    var txSeq: u32                    // s_txSeq
    var txReserved: u32               // s_txReserved
    var rxFlash: map<u32, u32>        // flash keys rx_<id>
    var txFlash: u32                  // flash key txseq
    var table: seq<Peer>              // flash blob "peers"

    ghost predicate Valid()
      reads this, peers
    {
      peers.Length == MAX_PEERS && |table| == MAX_PEERS
    }

    ghost function Model(): (s: State)
      requires Valid()
      reads this, peers
      ensures Shaped(s)
    {
      State(peers[..], Counter(txSeq, txReserved), rxFlash, txFlash, table)
    }

    constructor ()
      ensures Valid() && Model() == FRESH && fresh(peers)
    {
      peers := new Peer[MAX_PEERS](_ => NOBODY);
      txSeq, txReserved, rxFlash, txFlash := 1, 0, map[], 0;
      table := [NOBODY, NOBODY, NOBODY, NOBODY];
      new;
      assert peers[..] == FRESH.peers;
    }

    method LoadRxForPeer(id: u32) returns (v: u32)
      requires Valid()
      ensures v == LoadRx(rxFlash, id)
    {
      if id == 0 { return 0; }
      v := if id in rxFlash then rxFlash[id] else 0;
    }

    /** Persist a floor; true only when the write was confirmed. */
    method PersistRxForPeer(id: u32, val: u32, w: Write) returns (ok: bool)
      requires Valid() && id != 0
      modifies this`rxFlash
      ensures rxFlash == if w.Lands() then old(rxFlash)[id := val] else old(rxFlash)
      ensures ok == w.Reported()
    {
      if w.Lands() { rxFlash := rxFlash[id := val]; }
      ok := w.Reported();
    }

    method PersistTxSeq(val: u32, w: Write) returns (ok: bool)
      modifies this`txFlash
      ensures txFlash == if w.Lands() then val else old(txFlash)
      ensures ok == w.Reported()
    {
      if w.Lands() { txFlash := val; }
      ok := w.Reported();
    }

    method AnyConfigured() returns (any: bool)
      requires Valid()
      ensures any <==> M.AnyConfigured(peers[..])
    {
      for i := 0 to MAX_PEERS
        invariant !M.AnyConfigured(peers[..i])
      {
        if peers[i].inUse && peers[i].peerId != 0 {
          assert peers[..][i] == peers[i];
          return true;
        }
      }
      any := false;
      assert peers[..MAX_PEERS] == peers[..];
    }

    /** The saved rows with their floors from flash. */
    method ReloadRows()
      requires Valid()
      modifies peers
      ensures Valid() && peers[..] == M.Begin(old(Model())).peers
    {
      for i := 0 to MAX_PEERS
        invariant forall k :: 0 <= k < i ==> peers[k] == Reloaded(old(Model()), k)
      {
        var p := table[i];
        if p.peerId != 0 {
          var floor := LoadRxForPeer(p.peerId);
          p := p.(rxHighWater := floor);
        }
        peers[i] := p;
      }
      assert peers[..] == M.Begin(old(Model())).peers;
    }

    /** Boot; a build may bring a peer along for an empty table. */
    method Begin(seed: Option<Peer>)
      requires Valid()
      modifies this`txSeq, this`txReserved, peers
      ensures Valid() && Model() == Boot(old(Model()), seed)
    {
      ReloadRows();
      txReserved := txFlash;
      txSeq := if txFlash == 0 then 1 else txFlash;
      var any := AnyConfigured();
      if seed.Some? && !any {
        var floor := LoadRxForPeer(seed.value.peerId);
        ghost var rows := peers[..];
        peers[0] := seed.value.(inUse := true, rxHighWater := floor);
        assert peers[..] == rows[0 := Seeded(old(Model()), seed.value)];
      }
    }

    method SaveTable(ok: bool)
      requires Valid()
      modifies this`table
      ensures Valid() && Model() == M.SaveTable(old(Model()), ok)
    {
      if ok { table := peers[..]; }
    }

    method Resolve(id: u32) returns (i: int)
      requires Valid()
      ensures i == (var k := M.Resolve(peers[..], id); if k == MAX_PEERS then -1 else k)
    {
      if id != 0 {
        for k := 0 to MAX_PEERS
          invariant M.Resolve(peers[..], id) == ResolveFrom(peers[..], id, k)
        {
          if peers[k].inUse && peers[k].peerId == id { return k; }
        }
      }
      i := -1;
    }

    method AcceptInboundSeq(i: int, n: u32, w: Write) returns (ok: bool)
      requires Valid()
      modifies this`rxFlash, peers
      ensures Valid()
      ensures var r := M.AcceptInboundSeq(old(Model()), i, n, w); Model() == r.state && ok == r.ok
    {
      if i < 0 || i >= MAX_PEERS { return false; }
      var p := peers[i];
      if !p.inUse || p.peerId == 0 { return false; }
      if n <= p.rxHighWater { return false; }
      ok := PersistRxForPeer(p.peerId, n, w);
      if !ok { return false; }
      peers[i] := p.(rxHighWater := n);
      assert peers[..] == old(peers[..])[i := p.(rxHighWater := n)];
    }

    method NextTxSeq(w: Write) returns (v: u32)
      requires Valid()
      modifies this`txSeq, this`txReserved, this`txFlash
      ensures Valid()
      ensures var r := M.NextTxSeq(old(Model()), w);
              Model() == r.state && v == (if r.issued.Some? then r.issued.value else SEQ_INVALID)
    {
      v := txSeq;
      if v >= txReserved {
        if v > U32_MAX - 1 - SEQ_RESERVE { return SEQ_INVALID; }
        var nr := v + 1 + SEQ_RESERVE;
        var ok := PersistTxSeq(nr, w);
        if !ok { return SEQ_INVALID; }
        txReserved := nr;
      }
      txSeq := v + 1;
    }

    method SetPeer(i: int, p: Peer)
      requires Valid()
      modifies peers
      ensures Valid() && Model() == M.SetPeer(old(Model()), i, p)
    {
      if i < 0 || i >= MAX_PEERS { return; }
      if p.peerId != peers[i].peerId {
        var floor := LoadRxForPeer(p.peerId);
        peers[i] := p.(rxHighWater := floor);
        assert peers[..] == old(peers[..])[i := p.(rxHighWater := floor)];
        return;
      }
      peers[i] := p;
      assert peers[..] == old(peers[..])[i := p];
    }

    method ClearPeer(i: int)
      requires Valid()
      modifies peers
      ensures Valid() && Model() == M.ClearPeer(old(Model()), i)
    {
      if i < 0 || i >= MAX_PEERS { return; }
      peers[i] := NOBODY;
      assert peers[..] == old(peers[..])[i := NOBODY];
    }
  }
}
