/** The ring of recent operator messages: twelve slots overwritten in turn, read newest first. */
module MessageRing {
  import opened Bytes

  const MSG_RING := 12
  const MSG_TEXT_MAX := 48

  datatype Message = Message(fromId: u32, atSec: u32, text: seq<u8>)

  /** A message as stored: whole seconds, text cut to its buffer. */
  function Stored(fromId: u32, text: seq<u8>, t: nat): Message {
    Message(fromId, t % TWO32 / 1000, if |text| < MSG_TEXT_MAX then text else text[..MSG_TEXT_MAX])
  }

  function Min(a: nat, b: nat): nat { if a < b then a else b }

  class Ring {
    var slots: array<Message>
    var count: nat
    var head: nat
    ghost var history: seq<Message>     // everything ever stored

    /** Of everything stored, the last `count` messages stand in their slots. */
    ghost predicate Valid()
      reads this, slots
    {
      && slots.Length == MSG_RING && count == Min(|history|, MSG_RING) && head == |history| % MSG_RING
      && forall k :: |history| - count <= k < |history| ==> slots[k % MSG_RING] == history[k]
    }

    constructor ()
      ensures Valid() && history == [] && fresh(slots)
    {
      slots := new Message[MSG_RING](_ => Message(0, 0, []));
      count, head, history := 0, 0, [];
    }

    method Store(fromId: u32, text: seq<u8>, t: nat)
      requires Valid()
      modifies this`count, this`head, this`history, slots
      ensures Valid() && history == old(history) + [Stored(fromId, text, t)]
    {
      ghost var n := |history|;
      slots[head] := Stored(fromId, text, t);
      history := history + [Stored(fromId, text, t)];
      head := (head + 1) % MSG_RING;
      if count < MSG_RING { count := count + 1; }
      forall k | n + 1 - count <= k < n + 1 ensures slots[k % MSG_RING] == history[k] {
        if k < n { OtherSlot(n, k); }
      }
    }

    static lemma OtherSlot(n: nat, k: nat)
      requires n - MSG_RING < k < n
      ensures k % MSG_RING != n % MSG_RING
    {
    }

    /** The i-th newest message. */
    method Recent(i: nat) returns (m: Message)
      requires Valid() && i < count
      ensures m == history[|history| - 1 - i]
    {
      SlotBack(|history|, i);
      m := slots[(head + MSG_RING - 1 - i) % MSG_RING];
      assert m == slots[(|history| - 1 - i) % MSG_RING];
    }

    static lemma SlotBack(n: nat, i: nat)
      requires i < n && i < MSG_RING
      ensures (n % MSG_RING + MSG_RING - 1 - i) % MSG_RING == (n - 1 - i) % MSG_RING
    {
    }
  }
}
