/**
 The LoRaWAN counter store as the firmware keeps it: static slots updated in place,
 backed by flash. Every method is tied to the value-level operation of FcntModel.
 */
module FcntStore {
  import opened Bytes
  import opened Reservation
  import M = FcntModel
  import opened FcntModel

  /** The module's static variables together with the flash behind them. */
  class Store {
    var slots: array<Slot>            // s_dev[i].devAddr with s_fcnt[i] and s_fcntPersisted[i]
    var ext: Slot                     // s_extDevAddr, s_extFcnt, s_extReserved
    var nvs: map<u32, u32>            // flash keys fc_<addr>
    var table: seq<u32>               // flash blob "devs"

    ghost predicate Valid()
      reads this, slots
    {
      slots.Length == MAX_DEVICES && |table| == MAX_DEVICES
    }

    ghost function Model(): (s: State)
      requires Valid()
      reads this, slots
      ensures Shaped(s)
    {
      State(slots[..] + [ext], nvs, table)
    }

    constructor ()
      ensures Valid() && Model() == FRESH && fresh(slots)
    {
      slots := new Slot[MAX_DEVICES](_ => EMPTY);
      ext, nvs, table := EMPTY, map[], seq(MAX_DEVICES, _ => 0);
      new;
      assert slots[..] + [ext] == FRESH.holders;
    }

    method LoadReserved(a: u32) returns (v: u32)
      requires Valid()
      ensures v == Load(nvs, a)
    {
      if a == 0 { return 0; }
      v := if a in nvs then nvs[a] else 0;
    }

    /** Persist a reservation; true only when the write was confirmed. */
    method PersistReserved(a: u32, val: u32, w: Write) returns (ok: bool)
      requires Valid() && a != 0
      modifies this`nvs
      ensures nvs == if w.Lands() then old(nvs)[a := val] else old(nvs)
      ensures ok == w.Reported()
    {
      if w.Lands() { nvs := nvs[a := val]; }
      ok := w.Reported();
    }

    /** The shared fail-closed core; returns FCNT_INVALID when nothing was issued. */
    method AdvanceFcnt(a: u32, c: Counter, w: Write) returns (c': Counter, v: u32)
      requires Valid() && a != 0
      modifies this`nvs
      ensures var r := Advance(FCNT_RESERVE, c, w);
              && c' == r.ctr
              && nvs == (if r.landed.Some? then old(nvs)[a := r.landed.value] else old(nvs))
              && v == (if r.issued.Some? then r.issued.value else FCNT_INVALID)
    {
      c', v := c, c.next;
      if v >= c.reserved {
        if v > U32_MAX - 1 - FCNT_RESERVE { return c, FCNT_INVALID; }
        var nr := v + 1 + FCNT_RESERVE;
        var ok := PersistReserved(a, nr, w);
        if !ok { return c, FCNT_INVALID; }
        c' := c'.(reserved := nr);
      }
      c' := c'.(next := v + 1);
    }

    method NextFcnt(i: int, w: Write) returns (v: u32)
      requires Valid()
      modifies this`nvs, slots
      ensures Valid() && slots == old(slots)
      ensures var r := M.NextFcnt(old(Model()), i, w);
              && Model() == r.state
              && v == (if r.issued.Some? then r.issued.value.value else FCNT_INVALID)
    {
      if i < 0 || i >= MAX_DEVICES { return FCNT_INVALID; }
      var a := slots[i].addr;
      if a == 0 { return FCNT_INVALID; }
      var c;
      c, v := AdvanceFcnt(a, slots[i].ctr, w);
      slots[i] := Slot(a, c);
      assert slots[..] == old(slots[..])[i := Slot(a, c)];
    }

    method NextFcntForDevAddr(a: u32, w: Write) returns (v: u32)
      requires Valid()
      modifies this`nvs, this`ext
      ensures Valid()
      ensures var r := M.NextFcntForDevAddr(old(Model()), a, w);
              && Model() == r.state
              && v == (if r.issued.Some? then r.issued.value.value else FCNT_INVALID)
    {
      if a == 0 { return FCNT_INVALID; }
      if a != ext.addr {
        var reserved := LoadReserved(a);
        ext := Slot(a, Counter(reserved, reserved));
      }
      var c;
      c, v := AdvanceFcnt(a, ext.ctr, w);
      ext := Slot(a, c);
    }

    method SetDevice(i: int, a: u32)
      requires Valid()
      modifies slots
      ensures Valid() && Model() == M.SetDevice(old(Model()), i, a)
    {
      if i < 0 || i >= MAX_DEVICES { return; }
      if a != slots[i].addr {
        var reserved := LoadReserved(a);
        slots[i] := Slot(a, Counter(reserved, reserved));
      }
      assert slots[..] == old(slots[..])[i := slots[i]];
    }

    method ClearDevice(i: int)
      requires Valid()
      modifies slots
      ensures Valid() && Model() == M.ClearDevice(old(Model()), i)
    {
      if i < 0 || i >= MAX_DEVICES { return; }
      slots[i] := EMPTY;
      assert slots[..] == old(slots[..])[i := EMPTY];
    }

    method SaveTable(ok: bool)
      requires Valid()
      modifies this`table
      ensures Valid() && Model() == M.SaveTable(old(Model()), ok)
    {
      if ok {
        table := [slots[0].addr, slots[1].addr, slots[2].addr, slots[3].addr];
        assert table == M.SaveTable(old(Model()), ok).table;
      }
    }

    /** Boot: clear the RAM state and reload every saved identity's reservation. */
    method Begin()
      requires Valid()
      modifies this`ext, slots
      ensures Valid() && Model() == M.Begin(old(Model()))
    {
      ext := EMPTY;
      for i := 0 to MAX_DEVICES
        invariant Valid() && ext == EMPTY
        invariant forall k :: 0 <= k < i ==> slots[k] == Bound(nvs, table[k])
      {
        var reserved := LoadReserved(table[i]);
        slots[i] := Slot(table[i], Counter(reserved, reserved));
      }
      ghost var held := M.Begin(old(Model())).holders;
      assert forall k :: 0 <= k < MAX_DEVICES ==> slots[k] == held[k];
      assert slots[..] + [ext] == held;
    }
  }
}
