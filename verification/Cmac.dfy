/**
 The firmware's self-contained AES-CMAC: byte-array loops with an explicit carry,
 proved equal to Rfc4493 for every block function, key and message.
 */
module Cmac {
  import opened Bytes
  import Products
  import opened Rfc4493

  /** Shift 16 bytes left by one bit, carrying from each byte into the one before it. */
  method CmacShiftLeft(input: array<u8>, output: array<u8>)
    requires input.Length == 16 && output.Length == 16 && input != output
    modifies output
    ensures output[..] == Shl(input[..])
  {
    var carry := CarryLoop(input, output);
    ShiftedValue(input[..], output[..], carry);
  }

  /** From the last byte to the first. */
  method CarryLoop(input: array<u8>, output: array<u8>) returns (carry: u8)
    requires input.Length == 16 && output.Length == 16 && input != output
    modifies output
    ensures carry <= 1 && Doubled(input[..], output[..], carry)
  {
    carry := 0;
    var i := 15;
    assert input[16..] == [] && output[16..] == [];
    while i >= 0
      invariant -1 <= i <= 15 && carry <= 1
      invariant Doubled(input[i + 1..], output[i + 1..], carry)
    {
      carry := ShiftByte(input, output, i, carry);
      i := i - 1;
    }
    assert input[0..] == input[..] && output[0..] == output[..];
  }

  /** `y` with the carry in front of it is twice `x`. */
  ghost predicate Doubled(x: seq<u8>, y: seq<u8>, carry: int) {
    |x| == |y| && Val(y) + carry * Pow256(|y|) == 2 * Val(x)
  }

  /** One turn of the loop: byte `i` doubled, the old carry in, the new one out. */
  method ShiftByte(input: array<u8>, output: array<u8>, i: nat, carry: u8) returns (up: u8)
    requires input.Length == 16 && output.Length == 16 && input != output && i < 16 && carry <= 1
    requires Doubled(input[i + 1..], output[i + 1..], carry)
    modifies output
    ensures up <= 1 && Doubled(input[i..], output[i..], up)
  {
    var b: int := input[i];
    ghost var x, y := input[i + 1..], output[i + 1..];
    output[i] := (2 * b + carry) % 256;
    up := if b >= 128 then 1 else 0;
    assert output[i + 1..] == y && |x| == |y| == 15 - i;
    DoubledByte(b, carry, output[i], up);
    CarryStep(b, carry, output[i], up, x, y);
    assert input[i..] == [input[i]] + x;
    assert output[i..] == [output[i]] + y;
  }

  lemma DoubledByte(b: int, carry: int, low: int, up: int)
    requires 0 <= b < 256 && 0 <= carry <= 1 && low == (2 * b + carry) % 256 && up == if b >= 128 then 1 else 0
    ensures low + 256 * up == 2 * b + carry
  {
  }

  /** One byte of the carry loop, on the numbers the tails denote. */
  lemma CarryStep(b: u8, carry: int, low: u8, up: int, x: seq<u8>, y: seq<u8>)
    requires low + 256 * up == 2 * b + carry
    requires Doubled(x, y, carry)
    ensures Doubled([b] + x, [low] + y, up)
  {
    ValFront(low, y);
    ValFront(b, x);
    CarryArithmetic(b, carry, low, up, Pow256(|y|));
  }

  lemma CarryArithmetic(b: int, carry: int, low: int, up: int, p: int)
    requires low + 256 * up == 2 * b + carry
    ensures low * p + up * (256 * p) == 2 * (b * p) + carry * p
  {
    calc {
      low * p + up * (256 * p);
      (low + 256 * up) * p;
      (2 * b + carry) * p;
      2 * (b * p) + carry * p;
    }
  }

  lemma ShiftedValue(x: Block, y: Block, carry: int)
    requires carry == 0 || carry == 1
    requires Doubled(x, y, carry)
    ensures y == Shl(x)
  {
    ValBelow(y);
    Remainder(Val(y), carry, Pow256(16), 2 * Val(x));
    ToBytesOfVal(y);
  }

  lemma Remainder(r: int, q: int, m: int, n: int)
    requires 0 <= r < m && n == r + q * m
    ensures n % m == r
  {
    Products.QuotientIs(m, q, r);
    assert n == m * q + r;
    assert n == m * (n / m) + n % m;
  }

  /** Conditionally fold in the constant: only the last byte changes. */
  lemma FoldRb(b: Block)
    ensures XorSeq(b, RB) == b[15 := Xor8(b[15], 0x87)]
  {
    forall i | 0 <= i < 16 ensures XorSeq(b, RB)[i] == b[15 := Xor8(b[15], 0x87)][i] {
      Xor8Zero(b[i]);
    }
  }

  /** `k1 := Double(L)` in place. */
  method CmacDouble(l: array<u8>, k: array<u8>)
    requires l.Length == 16 && k.Length == 16 && l != k
    modifies k
    ensures k[..] == Double(l[..])
  {
    CmacShiftLeft(l, k);
    ghost var shifted := k[..];
    MsbIsFirst(l[..]);
    FoldRb(shifted);
    if l[0] >= 0x80 {
      k[15] := Xor8(k[15], 0x87);
      assert k[..] == shifted[15 := Xor8(shifted[15], 0x87)];
    }
  }

  method CmacSubkeys(E: Cipher, key: Block, k1: array<u8>, k2: array<u8>)
    requires k1.Length == 16 && k2.Length == 16 && k1 != k2
    modifies k1, k2
    ensures k1[..] == K1(E, key) && k2[..] == K2(E, key)
  {
    var l := new u8[16];
    var e := E(key, Zeros(16));
    forall i | 0 <= i < 16 { l[i] := e[i]; }
    assert l[..] == E(key, ZERO);
    CmacDouble(l, k1);
    CmacDouble(k1, k2);
  }

  /** Fill `y` with the exclusive-or of two blocks. */
  method XorInto(y: array<u8>, a: Block, b: Block)
    requires y.Length == 16
    modifies y
    ensures y[..] == XorSeq(a, b)
  {
    for j := 0 to 16
      invariant forall k :: 0 <= k < j ==> y[k] == Xor8(a[k], b[k])
    {
      y[j] := Xor8(a[j], b[j]);
    }
  }

  /** The last block: complete and masked with K1, or padded and masked with K2. */
  method LastBlock(msg: seq<u8>, start: nat, k1: Block, k2: Block, mLast: array<u8>)
    requires start == Body(|msg|) && mLast.Length == 16
    modifies mLast
    ensures mLast[..] == (if |msg| - start == 16 then XorSeq(msg[start..], k1) else XorSeq(Pad(msg[start..]), k2))
  {
    var lastComplete := |msg| > 0 && |msg| % 16 == 0;
    if lastComplete {
      XorInto(mLast, msg[start..], k1);
    } else {
      var rem := |msg| % 16;
      ghost var padded := Pad(msg[start..]);
      for i := 0 to 16
        invariant forall k :: 0 <= k < i ==> mLast[k] == Xor8(padded[k], k2[k])
      {
        var b: u8 := if i < rem then msg[start + i] else if i == rem then 0x80 else 0;
        mLast[i] := Xor8(b, k2[i]);
      }
      assert mLast[..] == XorSeq(padded, k2);
    }
  }

  /** One complete message block extends the chain. */
  lemma ChainStep(E: Cipher, key: Block, msg: seq<u8>, i: nat)
    requires 16 * (i + 1) <= |msg|
    ensures Chain(E, key, msg[..16 * (i + 1)])
         == E(key, XorSeq(Chain(E, key, msg[..16 * i]), msg[16 * i..16 * (i + 1)]))
  {
    var s := msg[..16 * (i + 1)];
    assert s[..|s| - 16] == msg[..16 * i];
    assert s[|s| - 16..] == msg[16 * i..16 * (i + 1)];
  }

  /** Run the complete blocks before the last one through the chain. */
  method ChainBlocks(E: Cipher, key: Block, msg: seq<u8>, n: nat) returns (x: Block)
    requires n > 0 && 16 * (n - 1) <= |msg|
    ensures x == Chain(E, key, msg[..16 * (n - 1)])
  {
    x := Zeros(16);
    var y := new u8[16];
    var i := 0;
    assert msg[..0] == [];
    while i + 1 < n
      invariant 0 <= i < n
      invariant x == Chain(E, key, msg[..16 * i])
    {
      XorInto(y, x, msg[16 * i..16 * (i + 1)]);
      ChainStep(E, key, msg, i);
      x := E(key, y[..]);
      i := i + 1;
    }
  }

  /** The 16-byte tag of `msg` is that of RFC 4493, for every length including zero. */
  method AesCmac(E: Cipher, key: Block, msg: seq<u8>, mac: array<u8>)
    requires mac.Length == 16
    modifies mac
    ensures mac[..] == Mac(E, key, msg)
  {
    var k1, k2 := new u8[16], new u8[16];
    CmacSubkeys(E, key, k1, k2);
    var n := if |msg| == 0 then 1 else (|msg| + 15) / 16;
    var mLast := new u8[16];
    LastBlock(msg, (n - 1) * 16, k1[..], k2[..], mLast);
    var x := ChainBlocks(E, key, msg, n);
    var y := new u8[16];
    XorInto(y, x, mLast[..]);
    var t := E(key, y[..]);
    forall k | 0 <= k < 16 { mac[k] := t[k]; }
    assert mac[..] == t;
  }
}
