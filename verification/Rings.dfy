/** A ring buffer's contents as a sequence: `count` slots from `head` on, wrapping. */
module Rings {

  /** An index below twice the ring size, brought back into the ring. */
  function Wrap(i: nat, n: nat): (r: nat)
    requires i < 2 * n
    ensures r < n
  {
    if i < n then i else i - n
  }

  lemma WrapIsMod(i: nat, n: nat)
    requires i < 2 * n
    ensures i % n == Wrap(i, n)
  {
    if i >= n {
      assert i == n * 1 + (i - n);
      assert i / n == 1 by {
        assert (i - n) / n == 0;
        assert i / n == (i - n) / n + 1;
      }
    }
  }

  function Unroll<T>(ring: seq<T>, head: nat, count: nat): (q: seq<T>)
    requires head < |ring| && count <= |ring|
    ensures |q| == count
  {
    seq(count, i requires 0 <= i < count => ring[Wrap(head + i, |ring|)])
  }

  lemma UnrollAt<T>(ring: seq<T>, head: nat, count: nat, i: nat)
    requires head < |ring| && i < count <= |ring|
    ensures Unroll(ring, head, count)[i] == ring[Wrap(head + i, |ring|)]
  {
  }

  /** Writing behind the last element appends it. */
  lemma UnrollPush<T>(ring: seq<T>, head: nat, count: nat, x: T)
    requires head < |ring| && count < |ring|
    ensures Unroll(ring[Wrap(head + count, |ring|) := x], head, count + 1) == Unroll(ring, head, count) + [x]
  {
    var ring' := ring[Wrap(head + count, |ring|) := x];
    var a, b := Unroll(ring', head, count + 1), Unroll(ring, head, count) + [x];
    forall i | 0 <= i < |a| ensures a[i] == b[i] {
      UnrollAt(ring', head, count + 1, i);
      if i < count { UnrollAt(ring, head, count, i); }
    }
  }

  /** Advancing the head drops the first element. */
  lemma UnrollPop<T>(ring: seq<T>, head: nat, count: nat)
    requires head < |ring| && 0 < count <= |ring|
    ensures Unroll(ring, Wrap(head + 1, |ring|), count - 1) == Unroll(ring, head, count)[1..]
    ensures Unroll(ring, head, count)[0] == ring[head]
  {
    var a, b := Unroll(ring, Wrap(head + 1, |ring|), count - 1), Unroll(ring, head, count)[1..];
    UnrollAt(ring, head, count, 0);
    forall i | 0 <= i < |a| ensures a[i] == b[i] {
      UnrollAt(ring, Wrap(head + 1, |ring|), count - 1, i);
      UnrollAt(ring, head, count, i + 1);
    }
  }
}
