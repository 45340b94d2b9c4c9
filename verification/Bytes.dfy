/**
 Bytes, machine words and the exclusive-or the ciphers are built from.

 A byte is an integer in 0..255 so that lengths, counters and field offsets stay
 ordinary arithmetic; exclusive-or is given bit by bit.
 */
module Bytes {

  type u8 = b: int | 0 <= b < 256
  type u16 = x: int | 0 <= x < 0x1_0000
  type u32 = x: int | 0 <= x < 0x1_0000_0000

  const TWO32 := 0x1_0000_0000

  datatype Option<+T> = None | Some(value: T)

  // ---- little-endian words ------------------------------------------------

  /** The four bytes of `v`, least significant first. */
  function LE32(v: u32): (r: seq<u8>)
    ensures |r| == 4
  {
    [v % 256, v / 256 % 256, v / 65536 % 256, v / 16777216]
  }

  /** The word held by four little-endian bytes. */
  function FromLE32(s: seq<u8>): u32
    requires |s| == 4
  {
    var b0: int, b1: int, b2: int, b3: int := s[0], s[1], s[2], s[3];
    b0 + 256 * b1 + 65536 * b2 + 16777216 * b3
  }

  lemma LE32RoundTrip(v: u32)
    ensures FromLE32(LE32(v)) == v
  {
    assert v == 256 * (v / 256) + v % 256;
    assert v / 256 == 256 * (v / 65536) + v / 256 % 256;
    assert v / 65536 == 256 * (v / 16777216) + v / 65536 % 256;
  }

  /** Two words with the same little-endian bytes are the same word. */
  lemma LE32Injective(v: u32, w: u32)
    requires LE32(v) == LE32(w)
    ensures v == w
  {
    LE32RoundTrip(v);
    LE32RoundTrip(w);
  }

  // ---- exclusive-or --------------------------------------------------------

  function Pow2(n: nat): (r: nat)
    ensures r > 0
  {
    if n == 0 then 1 else 2 * Pow2(n - 1)
  }

  /** Exclusive-or of the low `n` bits of `a` and `b`. */
  function XorBits(a: nat, b: nat, n: nat): (r: nat)
    ensures r < Pow2(n)
  {
    if n == 0 then 0
    else (if a % 2 == b % 2 then 0 else 1) + 2 * XorBits(a / 2, b / 2, n - 1)
  }

  /** Inclusive-or of the low `n` bits of `a` and `b`. */
  function OrBits(a: nat, b: nat, n: nat): (r: nat)
    ensures r < Pow2(n)
  {
    if n == 0 then 0
    else (if a % 2 + b % 2 > 0 then 1 else 0) + 2 * OrBits(a / 2, b / 2, n - 1)
  }

  lemma Pow2Of8()
    ensures Pow2(8) == 256
  {
    assert Pow2(3) == 8;
    assert Pow2(6) == 64;
  }

  function Xor8(a: u8, b: u8): u8 {
    Pow2Of8();
    XorBits(a, b, 8)
  }

  function Or8(a: u8, b: u8): u8 {
    Pow2Of8();
    OrBits(a, b, 8)
  }

  /** The low bit of an exclusive-or, and the rest of it. */
  lemma XorBitsHalves(a: nat, k: nat, n: nat)
    requires n > 0
    ensures XorBits(a, k, n) % 2 == (if a % 2 == k % 2 then 0 else 1)
    ensures XorBits(a, k, n) / 2 == XorBits(a / 2, k / 2, n - 1)
  {
    var low, high := if a % 2 == k % 2 then 0 else 1, XorBits(a / 2, k / 2, n - 1);
    assert (low + 2 * high) / 2 == high && (low + 2 * high) % 2 == low;
  }

  lemma {:induction false} XorBitsInvolutive(a: nat, k: nat, n: nat)
    requires a < Pow2(n)
    ensures XorBits(XorBits(a, k, n), k, n) == a
  {
    if n > 0 {
      XorBitsInvolutive(a / 2, k / 2, n - 1);
      XorBitsHalves(a, k, n);
      var x := XorBits(a, k, n);
      calc {
        XorBits(x, k, n);
        (if x % 2 == k % 2 then 0 else 1) + 2 * XorBits(x / 2, k / 2, n - 1);
        (if x % 2 == k % 2 then 0 else 1) + 2 * (a / 2);
        a % 2 + 2 * (a / 2);
        a;
      }
    }
  }

  lemma {:induction false} XorBitsZero(a: nat, n: nat)
    requires a < Pow2(n)
    ensures XorBits(a, 0, n) == a
  {
    if n > 0 { XorBitsZero(a / 2, n - 1); }
  }

  lemma {:induction false} XorBitsEqual(a: nat, b: nat, n: nat)
    requires a < Pow2(n) && b < Pow2(n)
    ensures XorBits(a, b, n) == 0 <==> a == b
  {
    if n > 0 { XorBitsEqual(a / 2, b / 2, n - 1); }
  }

  lemma {:induction false} OrBitsZero(a: nat, b: nat, n: nat)
    requires a < Pow2(n) && b < Pow2(n)
    ensures OrBits(a, b, n) == 0 <==> a == 0 && b == 0
  {
    if n > 0 { OrBitsZero(a / 2, b / 2, n - 1); }
  }

  /** Masking twice with the same key byte gives the byte back. */
  lemma Xor8Involutive(a: u8, k: u8)
    ensures Xor8(Xor8(a, k), k) == a
  {
    Pow2Of8();
    XorBitsInvolutive(a, k, 8);
  }

  lemma Xor8Zero(a: u8)
    ensures Xor8(a, 0) == a
  {
    Pow2Of8();
    XorBitsZero(a, 8);
  }

  /** `d | (a ^ b)` is zero exactly when `d` was and the two bytes agree. */
  lemma DifferenceAccumulates(d: u8, a: u8, b: u8)
    ensures Or8(d, Xor8(a, b)) == 0 <==> d == 0 && a == b
  {
    Pow2Of8();
    XorBitsEqual(a, b, 8);
    OrBitsZero(d, Xor8(a, b), 8);
  }

  // ---- byte strings --------------------------------------------------------

  function Zeros(n: nat): (r: seq<u8>)
    ensures |r| == n && forall i :: 0 <= i < n ==> r[i] == 0
  {
    seq(n, _ => 0)
  }

  /** Bytewise exclusive-or of two strings of the same length. */
  function XorSeq(a: seq<u8>, b: seq<u8>): (r: seq<u8>)
    requires |a| == |b|
    ensures |r| == |a|
  {
    seq(|a|, i requires 0 <= i < |a| => Xor8(a[i], b[i]))
  }

  lemma XorSeqInvolutive(a: seq<u8>, k: seq<u8>)
    requires |a| == |k|
    ensures XorSeq(XorSeq(a, k), k) == a
  {
    forall i | 0 <= i < |a| ensures XorSeq(XorSeq(a, k), k)[i] == a[i] {
      Xor8Involutive(a[i], k[i]);
    }
  }

  /** `b` with the bytes from `at` on masked by `m`. */
  function MaskAt(b: seq<u8>, at: nat, m: seq<u8>): (r: seq<u8>)
    requires at + |m| <= |b|
    ensures |r| == |b|
  {
    seq(|b|, k requires 0 <= k < |b| => if at <= k < at + |m| then Xor8(b[k], m[k - at]) else b[k])
  }

  /** Around the masked stretch nothing changes; the stretch is an exclusive-or. */
  lemma MaskAtParts(b: seq<u8>, at: nat, m: seq<u8>)
    requires at + |m| <= |b|
    ensures var r := MaskAt(b, at, m);
            r[..at] == b[..at] && r[at..at + |m|] == XorSeq(b[at..at + |m|], m) && r[at + |m|..] == b[at + |m|..]
  {
  }

  /** Masking a stretch and then the stretch behind it masks both. */
  lemma MaskAtAppend(b: seq<u8>, at: nat, m: seq<u8>, more: seq<u8>)
    requires at + |m| + |more| <= |b|
    ensures MaskAt(MaskAt(b, at, m), at + |m|, more) == MaskAt(b, at, m + more)
  {
    var one, both := MaskAt(MaskAt(b, at, m), at + |m|, more), MaskAt(b, at, m + more);
    forall k | 0 <= k < |b| ensures one[k] == both[k] {
      if at <= k < at + |m| {
        assert (m + more)[k - at] == m[k - at];
      } else if at + |m| <= k < at + |m| + |more| {
        assert (m + more)[k - at] == more[k - at - |m|];
      }
    }
  }

  lemma SplitFront(r: seq<u8>, o: nat, n: nat)
    requires o <= n <= |r|
    ensures r[..n] == r[..o] + r[o..n] && r[..n][..o] == r[..o] && r[..n][o..] == r[o..n]
  {
  }

  /** A buffer staged with a header and plaintext, once its tail is masked. */
  lemma MaskedTail(staged: seq<u8>, head: seq<u8>, data: seq<u8>, mask: seq<u8>)
    requires |head| + |data| <= |staged| && staged[..|head| + |data|] == head + data && |mask| == |data|
    ensures var r, n := MaskAt(staged, |head|, mask), |head| + |data|;
            r[..n] == head + XorSeq(data, mask) && r[n..] == staged[n..]
  {
    var r, o, n := MaskAt(staged, |head|, mask), |head|, |head| + |data|;
    SplitFront(staged, o, n);
    TwoParts(head, data);
    assert staged[..o] == head && staged[o..n] == data;
    MaskAtParts(staged, o, mask);
    SplitFront(r, o, n);
  }

  lemma TwoParts(a: seq<u8>, b: seq<u8>)
    ensures (a + b)[..|a|] == a && (a + b)[|a|..] == b
  {
  }

  /** Copy `s` into `out` from `at` on. */
  method Put(out: array<u8>, at: nat, s: seq<u8>)
    requires at + |s| <= out.Length
    modifies out
    ensures out[..at + |s|] == old(out[..at]) + s
    ensures out[at + |s|..] == old(out[at + |s|..])
  {
    forall k | 0 <= k < |s| { out[at + k] := s[k]; }
    assert out[..at] == old(out[..at]);
    assert out[at..at + |s|] == s;
  }

  /** A C string: no zero byte inside. */
  type CString = s: seq<u8> | 0 !in s

  /** What `strlen` leaves of a buffer: everything before its first zero byte. */
  function UntilNul(s: seq<u8>): (r: CString)
    ensures r <= s
    ensures |r| < |s| ==> s[|r|] == 0
  {
    if s == [] || s[0] == 0 then [] else [s[0]] + UntilNul(s[1..])
  }

  /** A string without a zero byte, followed by one or by nothing, is read back whole. */
  lemma {:induction false} UntilNulOf(s: CString, rest: seq<u8>)
    requires rest == [] || rest[0] == 0
    ensures UntilNul(s + rest) == s
  {
    if s == [] {
      assert s + rest == rest;
    } else {
      assert (s + rest)[1..] == s[1..] + rest;
      assert forall c :: c in s[1..] ==> c in s;
      UntilNulOf(s[1..], rest);
    }
  }
}
