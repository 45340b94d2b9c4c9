/** A destination's outbound queue, as a first-in first-out sequence. */
module RouteFifo {
  import opened Bytes

  const MAX_PACKET := 256

  datatype Entry = Entry(data: seq<u8>, enqueueMs: u32)

  /** Age of an entry as unsigned 32-bit subtraction gives it; age limit 0 means none. */
  predicate Stale(e: Entry, t: nat, maxAge: nat) {
    maxAge > 0 && (t - e.enqueueMs) % TWO32 > maxAge
  }

  predicate Sendable(data: seq<u8>) { 0 < |data| <= MAX_PACKET }

  /** Appending to a full queue drops its oldest entry. */
  function Overflow(q: seq<Entry>, cap: nat): nat
  {
    if |q| == cap && cap > 0 then 1 else 0
  }

  function PushTo(q: seq<Entry>, cap: nat, e: Entry): (r: seq<Entry>)
    ensures |q| <= cap && cap > 0 ==> |r| <= cap
  {
    q[Overflow(q, cap)..] + [e]
  }

  /** How many entries at the front are stale. */
  function StalePrefix(q: seq<Entry>, t: nat, maxAge: nat): (n: nat)
    ensures n <= |q|
    ensures forall i :: 0 <= i < n ==> Stale(q[i], t, maxAge)
    ensures n < |q| ==> !Stale(q[n], t, maxAge)
  {
    if q == [] || !Stale(q[0], t, maxAge) then 0 else 1 + StalePrefix(q[1..], t, maxAge)
  }

  /** A 32-bit counter advanced by `k`. */
  function Plus(d: u32, k: nat): u32 {
    (d + k) % TWO32
  }

  lemma PlusPlus(d: u32, k: nat, n: nat)
    ensures Plus(Plus(d, k), n) == Plus(d, k + n)
  {
    assert d + k == TWO32 * ((d + k) / TWO32) + (d + k) % TWO32;
    assert d + (k + n) == TWO32 * ((d + k) / TWO32) + ((d + k) % TWO32 + n);
  }

  datatype Popped = Popped(rest: seq<Entry>, out: Option<Entry>)

  /** Discard the stale entries in front and take the first fresh one. */
  function PopFrom(q: seq<Entry>, t: nat, maxAge: nat): Popped {
    var n := StalePrefix(q, t, maxAge);
    if n == |q| then Popped([], None) else Popped(q[n + 1..], Some(q[n]))
  }

  /** One more stale entry in front changes nothing but the count. */
  lemma PopSkips(q: seq<Entry>, t: nat, maxAge: nat)
    requires q != [] && Stale(q[0], t, maxAge)
    ensures PopFrom(q, t, maxAge) == PopFrom(q[1..], t, maxAge)
    ensures StalePrefix(q, t, maxAge) == 1 + StalePrefix(q[1..], t, maxAge)
  {
    var n := StalePrefix(q[1..], t, maxAge);
    if n < |q| - 1 {
      assert q[1..][n + 1..] == q[n + 2..];
      assert q[1..][n] == q[n + 1];
    }
  }

  /** Part of the stale prefix of `q0` is gone and counted; what remains pops alike. */
  ghost predicate Skipping(q0: seq<Entry>, d0: u32, q: seq<Entry>, d: u32, t: nat, maxAge: nat) {
    && PopFrom(q, t, maxAge) == PopFrom(q0, t, maxAge)
    && Plus(d, StalePrefix(q, t, maxAge)) == Plus(d0, StalePrefix(q0, t, maxAge))
  }

  lemma SkipOne(q0: seq<Entry>, d0: u32, q: seq<Entry>, d: u32, t: nat, maxAge: nat)
    requires Skipping(q0, d0, q, d, t, maxAge) && q != [] && Stale(q[0], t, maxAge)
    ensures Skipping(q0, d0, q[1..], Plus(d, 1), t, maxAge)
  {
    PopSkips(q, t, maxAge);
    PlusPlus(d, 1, StalePrefix(q[1..], t, maxAge));
  }
}

/** The same queue as stored: a ring of slots with head, tail, count and a drop counter. */
module RouteQueue {
  import opened Bytes
  import opened Rings
  import opened RouteFifo

  class Queue {
    var ring: array<Entry>
    var head: nat
    var tail: nat
    var count: nat
    var dropped: u32
    const maxAge: nat

    ghost predicate Valid()
      reads this
    {
      && 0 < ring.Length && head < ring.Length && tail < ring.Length && count <= ring.Length
      && tail == Wrap(head + count, ring.Length)
    }

    /** The queued entries, oldest first. */
    ghost function Contents(): (q: seq<Entry>)
      requires Valid()
      reads this, ring
      ensures |q| == count
    {
      Unroll(ring[..], head, count)
    }

    constructor (depth: nat, maxAgeMs: nat)
      requires depth > 0
      ensures Valid() && fresh(ring) && ring.Length == depth && maxAge == maxAgeMs
      ensures Contents() == [] && dropped == 0
    {
      ring := new Entry[depth](_ => Entry([], 0));
      head, tail, count, dropped, maxAge := 0, 0, 0, 0, maxAgeMs;
    }

    /** Drop the oldest entry. */
    method Advance()
      requires Valid() && count > 0
      modifies this`head, this`count
      ensures Valid() && Contents() == old(Contents())[1..] && ring[old(head)] == old(Contents())[0]
    {
      UnrollPop(ring[..], head, count);
      WrapIsMod(head + 1, ring.Length);
      WrapIsMod(head + count, ring.Length);
      head := (head + 1) % ring.Length;
      count := count - 1;
    }

    method Push(data: seq<u8>, t: nat) returns (ok: bool)
      requires Valid()
      modifies this`head, this`tail, this`count, this`dropped, ring
      ensures Valid() && ok == Sendable(data)
      ensures Contents() == if ok then PushTo(old(Contents()), ring.Length, Entry(data, t % TWO32)) else old(Contents())
      ensures dropped == if ok then Plus(old(dropped), Overflow(old(Contents()), ring.Length)) else old(dropped)
    {
      if |data| == 0 || |data| > MAX_PACKET { return false; }
      if count == ring.Length {
        Advance();
        dropped := Plus(dropped, 1);
      }
      Append(Entry(data, t % TWO32));
      ok := true;
    }

    method Append(e: Entry)
      requires Valid() && count < ring.Length
      modifies this`tail, this`count, ring
      ensures Valid() && Contents() == old(Contents()) + [e]
    {
      ghost var was := ring[..];
      UnrollPush(was, head, count, e);
      ring[tail] := e;
      assert ring[..] == was[tail := e];
      WrapIsMod(tail + 1, ring.Length);
      tail := (tail + 1) % ring.Length;
      count := count + 1;
    }

    /** Take entries from the front until one is fresh. */
    method Pop(t: nat) returns (out: Option<Entry>)
      requires Valid()
      modifies this`head, this`count, this`dropped
      ensures Valid() && Popped(Contents(), out) == PopFrom(old(Contents()), t, maxAge)
      ensures dropped == Plus(old(dropped), StalePrefix(old(Contents()), t, maxAge))
    {
      ghost var q0, d0 := Contents(), dropped;
      while count > 0
        invariant Valid() && Skipping(q0, d0, Contents(), dropped, t, maxAge)
      {
        ghost var q := Contents();
        var e := ring[head];
        Advance();
        var aged := Aged(e, t);
        if aged {
          SkipOne(q0, d0, q, dropped, t, maxAge);
          dropped := Plus(dropped, 1);
          continue;
        }
        assert PopFrom(q, t, maxAge) == Popped(q[1..], Some(e));
        return Some(e);
      }
      assert Contents() == [];
      out := None;
    }

    method Aged(e: Entry, t: nat) returns (aged: bool)
      ensures aged == Stale(e, t, maxAge)
    {
      var now: u32 := t % TWO32;
      AgeOfReading(t, e.enqueueMs);
      aged := maxAge > 0 && (now - e.enqueueMs) % TWO32 > maxAge;
    }

    static lemma AgeOfReading(t: nat, stamp: u32)
      ensures (t % TWO32 - stamp) % TWO32 == (t - stamp) % TWO32
    {
      assert t == TWO32 * (t / TWO32) + t % TWO32;
      assert t - stamp == TWO32 * (t / TWO32) + (t % TWO32 - stamp);
    }
  }
}
