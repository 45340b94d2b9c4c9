/**
 AES-CMAC as RFC 4493 states it: sections 2.3 (subkeys) and 2.4 (the MAC), over an
 arbitrary block function. A 128-bit string is a block of 16 bytes, read big-endian.
 */
module Rfc4493 {
  import opened Bytes

  type Block = s: seq<u8> | |s| == 16 witness Zeros(16)
  type Cipher = (Block, Block) -> Block      // key and input block

  function Pow256(n: nat): (r: nat)
    ensures r > 0
  {
    if n == 0 then 1 else 256 * Pow256(n - 1)
  }

  /** The number a big-endian byte string denotes. */
  function Val(s: seq<u8>): nat {
    if s == [] then 0 else 256 * Val(s[..|s| - 1]) + s[|s| - 1]
  }

  /** `n` written as `len` big-endian bytes. */
  function ToBytes(n: nat, len: nat): (r: seq<u8>)
    ensures |r| == len
  {
    if len == 0 then [] else ToBytes(n / 256, len - 1) + [n % 256]
  }

  const ZERO: Block := Zeros(16)
  const RB: Block := Zeros(15) + [0x87]

  /** `b << 1` on 128 bits. */
  function Shl(b: Block): Block {
    ToBytes(2 * Val(b) % Pow256(16), 16)
  }

  predicate Msb(b: Block) {
    2 * Val(b) >= Pow256(16)
  }

  function Double(b: Block): Block {
    if Msb(b) then XorSeq(Shl(b), RB) else Shl(b)
  }

  function K1(E: Cipher, key: Block): Block {
    Double(E(key, ZERO))
  }

  function K2(E: Cipher, key: Block): Block {
    Double(K1(E, key))
  }

  /** Append one 1 bit and then zeros up to 128 bits. */
  function Pad(s: seq<u8>): Block
    requires |s| < 16
  {
    s + [0x80] + Zeros(15 - |s|)
  }

  /** The chaining value after the complete blocks of `s`. */
  function Chain(E: Cipher, key: Block, s: seq<u8>): Block
    requires |s| % 16 == 0
    decreases |s|
  {
    if s == [] then ZERO
    else E(key, XorSeq(Chain(E, key, s[..|s| - 16]), s[|s| - 16..]))
  }

  /** How many bytes come before the last block, which may be short or empty. */
  function Body(len: nat): (r: nat)
    ensures r % 16 == 0 && r <= len && len - r <= 16 && (len > 0 ==> len - r > 0)
  {
    if len == 0 then 0 else 16 * ((len - 1) / 16)
  }

  function Last(E: Cipher, key: Block, m: seq<u8>): Block {
    var rest := m[Body(|m|)..];
    if |rest| == 16 then XorSeq(rest, K1(E, key)) else XorSeq(Pad(rest), K2(E, key))
  }

  function Mac(E: Cipher, key: Block, m: seq<u8>): Block {
    E(key, XorSeq(Chain(E, key, m[..Body(|m|)]), Last(E, key, m)))
  }

  // ---- big-endian numbers ------------------------------------------------------

  lemma {:induction false} ValBelow(s: seq<u8>)
    ensures Val(s) < Pow256(|s|)
  {
    if s != [] { ValBelow(s[..|s| - 1]); }
  }

  lemma {:induction false} ToBytesOfVal(s: seq<u8>)
    ensures ToBytes(Val(s), |s|) == s
  {
    if s != [] {
      var front, last := s[..|s| - 1], s[|s| - 1];
      ToBytesOfVal(front);
      assert Val(s) / 256 == Val(front) && Val(s) % 256 == last;
      assert s == front + [last];
    }
  }

  lemma {:induction false} ValFront(b: u8, s: seq<u8>)
    ensures Val([b] + s) == b * Pow256(|s|) + Val(s)
  {
    if s == [] {
      assert [b] + s == [b];
      assert Val([b][..0]) == 0;
    } else {
      var s', last := s[..|s| - 1], s[|s| - 1];
      ValFront(b, s');
      assert ([b] + s)[..|s|] == [b] + s';
      calc {
        Val([b] + s);
        256 * Val([b] + s') + last;
        256 * (b * Pow256(|s'|)) + 256 * Val(s') + last;
        b * Pow256(|s|) + Val(s);
      }
    }
  }

  lemma TopByte(b: int, p: int, r: int)
    requires 0 <= r < p
    ensures 2 * (b * p + r) >= 256 * p <==> b >= 128
  {
    if b >= 128 { assert b * p >= 128 * p; } else { assert b * p <= 127 * p; }
  }

  /** The top bit of a block is the top bit of its first byte. */
  lemma MsbIsFirst(b: Block)
    ensures Msb(b) <==> b[0] >= 128
  {
    var rest := b[1..];
    assert b == [b[0]] + rest;
    ValFront(b[0], rest);
    ValBelow(rest);
    TopByte(b[0], Pow256(15), Val(rest));
  }
}
