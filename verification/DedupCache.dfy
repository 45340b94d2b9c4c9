/** The dedup table as stored: scanning loops over a fixed array, updated in place. */
module DedupCache {
  import opened Bytes
  import opened DedupModel

  /** FNV-1a, byte by byte over the body and then the two words. */
  method HashBytes(body: seq<u8>, srcId: u32, pid: u32) returns (h: Hash)
    ensures h == HashOf(body, srcId, pid)
  {
    h := FNV_OFFSET;
    for i := 0 to |body|
      invariant h == Fnv(FNV_OFFSET, body[..i])
    {
      assert body[..i + 1][..i] == body[..i];
      h := FnvByte(h, body[i]);
    }
    assert body[..|body|] == body;
    h := FoldWord(h, srcId);
    h := FoldWord(h, pid);
  }

  method FoldWord(h0: Hash, v: u32) returns (h: Hash)
    ensures h == Fnv(h0, LE32(v))
  {
    h := h0;
    var bytes := LE32(v);
    for b := 0 to 4
      invariant h == Fnv(h0, bytes[..b])
    {
      assert bytes[..b + 1][..b] == bytes[..b];
      h := FnvByte(h, bytes[b]);
    }
    assert bytes[..4] == bytes;
  }

  /** The first free slot met, and the oldest of the others with its age. */
  datatype Best = Best(free: int, oldest: nat, age: nat)

  class Cache {
    var table: array<Entry>

    ghost predicate Valid()
      reads this
    {
      table.Length == TABLE_SIZE
    }

    constructor ()
      ensures Valid() && fresh(table) && table[..] == Blanks(TABLE_SIZE)
    {
      table := new Entry[TABLE_SIZE](_ => BLANK);
      new;
      assert table[..] == Blanks(TABLE_SIZE);
    }

    method Seen(h: Hash, t: nat) returns (seen: bool)
      requires Valid()
      ensures seen <==> IsSeen(table[..], h, t)
    {
      var now: u32 := t % TWO32;
      for i := 0 to TABLE_SIZE
        invariant forall k :: 0 <= k < i ==> !(table[k].hash == h && Live(t, table[k]))
      {
        ReadMod(t, table[i]);
        if table[i].used && table[i].hash == h && (now - table[i].stamp) % TWO32 < TTL_MS {
          assert table[..][i].hash == h && Live(t, table[..][i]);
          return true;
        }
      }
      seen := false;
    }

    /** Subtracting the wrapped clock reading gives the same age. */
    static lemma ReadMod(t: nat, e: Entry)
      ensures (t % TWO32 - e.stamp) % TWO32 == Age(t, e)
    {
      var q := t / TWO32;
      assert t == TWO32 * q + t % TWO32;
      assert t - e.stamp == TWO32 * q + (t % TWO32 - e.stamp);
    }

    /** What one look at slot `i` makes of it. */
    static ghost function Look(b: Best, e: Entry, t: nat, i: nat): Best {
      if !Live(t, e) then (if b.free < 0 then b.(free := i) else b)
      else if Age(t, e) >= b.age then Best(b.free, i, Age(t, e))
      else b
    }

    static ghost function Looked(tab: seq<Entry>, t: nat, i: nat): Best
      requires i <= |tab|
    {
      if i == 0 then Best(-1, 0, 0) else Look(Looked(tab, t, i - 1), tab[i - 1], t, i - 1)
    }

    /** What the scan has found in the first `i` slots. */
    static ghost predicate Scanned(tab: seq<Entry>, t: nat, i: nat, b: Best) {
      && i <= |tab|
      && (if b.free < 0 then b.free == -1 && FindFree(tab, t, 0) == FindFree(tab, t, i)
          else b.free == FindFree(tab, t, 0) && b.free < i)
      && (if i == 0 then b == Best(-1, 0, 0)
          else b.oldest < i && (b.free < 0 ==> b.oldest == Oldest(tab, t, i) && b.age == Age(t, tab[b.oldest])))
    }

    static lemma LookScans(tab: seq<Entry>, t: nat, i: nat, b: Best)
      requires i < |tab| && Scanned(tab, t, i, b)
      ensures Scanned(tab, t, i + 1, Look(b, tab[i], t, i))
    {
    }

    static lemma {:induction false} LookedScans(tab: seq<Entry>, t: nat, i: nat)
      requires i <= |tab|
      ensures Scanned(tab, t, i, Looked(tab, t, i))
    {
      if i > 0 {
        LookedScans(tab, t, i - 1);
        LookScans(tab, t, i - 1, Looked(tab, t, i - 1));
      }
    }

    static ghost predicate NoneOwn(tab: seq<Entry>, h: Hash, i: nat) {
      i <= |tab| && forall k :: 0 <= k < i ==> !(tab[k].used && tab[k].hash == h)
    }

    static lemma {:induction false} FindsBehind(tab: seq<Entry>, h: Hash, i: nat)
      requires NoneOwn(tab, h, i)
      ensures FindHash(tab, h, 0) == FindHash(tab, h, i)
    {
      if i > 0 { FindsBehind(tab, h, i - 1); }
    }

    /** The scan stops at the hash's own slot. */
    static lemma OwnSlot(tab: seq<Entry>, h: Hash, t: nat, i: nat)
      requires NoneOwn(tab, h, i) && i < |tab| && tab[i].used && tab[i].hash == h
      ensures SlotFor(tab, h, t) == i
    {
      FindsBehind(tab, h, i);
    }

    /** Or ends without one. */
    static lemma NoOwnSlot(tab: seq<Entry>, h: Hash, t: nat)
      requires tab != [] && NoneOwn(tab, h, |tab|)
      ensures var b := Looked(tab, t, |tab|); SlotFor(tab, h, t) == if b.free >= 0 then b.free else b.oldest
    {
      FindsBehind(tab, h, |tab|);
      LookedScans(tab, t, |tab|);
    }

    /** The slot for `h`: its own, or a free or expired one, or the oldest. */
    method ScanFor(h: Hash, t: nat) returns (slot: nat, own: bool)
      requires Valid()
      ensures slot < table.Length && slot == SlotFor(table[..], h, t)
      ensures own ==> table[slot].used && table[slot].hash == h
    {
      var now: u32 := t % TWO32;
      var freeSlot, oldest, oldestAge := -1, 0, 0;
      ghost var tab := table[..];
      var i := 0;
      while i < TABLE_SIZE
        invariant 0 <= i <= TABLE_SIZE && oldest >= 0 && oldestAge >= 0
        invariant NoneOwn(tab, h, i) && Best(freeSlot, oldest, oldestAge) == Looked(tab, t, i)
      {
        ReadMod(t, table[i]);
        var age := (now - table[i].stamp) % TWO32;
        if table[i].used && table[i].hash == h {
          OwnSlot(tab, h, t, i);
          return i, true;
        }
        if !table[i].used {
          if freeSlot < 0 { freeSlot := i; }
        } else if age >= TTL_MS {
          if freeSlot < 0 { freeSlot := i; }
        } else if age >= oldestAge {
          oldestAge, oldest := age, i;
        }
        i := i + 1;
      }
      NoOwnSlot(tab, h, t);
      return if freeSlot >= 0 then freeSlot else oldest, false;
    }

    /** Record or refresh `h`. */
    method InsertHash(h: Hash, t: nat)
      requires Valid()
      modifies table
      ensures Valid() && table[..] == Insert(old(table[..]), h, t)
    {
      var slot, own := ScanFor(h, t);
      if own {
        table[slot] := table[slot].(stamp := t % TWO32);
      } else {
        table[slot] := Entry(h, t % TWO32, true);
      }
    }

    method SeenAndRecord(h: Hash, t: nat) returns (seen: bool)
      requires Valid()
      modifies table
      ensures Valid() && table[..] == Insert(old(table[..]), h, t)
      ensures seen <==> IsSeen(old(table[..]), h, t)
    {
      seen := Seen(h, t);
      InsertHash(h, t);
    }

    method Record(h: Hash, t: nat)
      requires Valid()
      modifies table
      ensures Valid() && table[..] == Insert(old(table[..]), h, t)
    {
      InsertHash(h, t);
    }
  }
}
