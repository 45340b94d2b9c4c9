/**
 Reserve-before-issue counters: the core shared by the LoRaWAN uplink counter and
 the C2 outbound sequence. A block of values is written to flash before its first
 value is handed out, and a write that is not confirmed issues nothing.
 */
module Reservation {
  import opened Bytes

  const U32_MAX: u32 := 0xFFFF_FFFF

  /** What a flash write did. An unconfirmed write reached the flash but was not reported. */
  datatype Write = Confirmed | Failed | Unconfirmed {
    predicate Lands() { Confirmed? || Unconfirmed? }
    predicate Reported() { Confirmed? }
  }

  /** `next` is the value to issue; values below `reserved` are confirmed in flash. */
  datatype Counter = Counter(next: u32, reserved: u32)

  /** The counter after one call, what landed in flash, and the value handed out. */
  datatype Outcome = Outcome(ctr: Counter, landed: Option<u32>, issued: Option<u32>)

  predicate Exhausted(block: u32, v: u32) {
    v > U32_MAX - 1 - block
  }

  function Advance(block: u32, c: Counter, w: Write): (r: Outcome)
    ensures r.issued.Some? ==>
              && r.issued.value == c.next
              && r.ctr.next == c.next + 1 <= r.ctr.reserved
              && (r.ctr.reserved == c.reserved || r.landed == Some(r.ctr.reserved))
    ensures r.issued.None? ==> r.ctr == c
    ensures r.landed.Some? ==> r.landed.value == c.next + 1 + block && c.next >= c.reserved
    ensures r.landed.None? ==> r.ctr.reserved == c.reserved
  {
    var v := c.next;
    if v >= c.reserved then
      if Exhausted(block, v) then Outcome(c, None, None)
      else
        var nr := v + 1 + block;
        var landed := if w.Lands() then Some(nr) else None;
        if w.Reported() then Outcome(Counter(v + 1, nr), landed, Some(v))
        else Outcome(c, landed, None)
    else Outcome(Counter(v + 1, c.reserved), None, Some(v))
  }
}
