/**
 FRMPayload encryption (LoRaWAN 1.0.x, section 4.3.3): the keystream S = S_1 | S_2 | ...
 with S_i = AES(K, A_i), and the firmware's loop that masks a buffer in place with it.
 The C2 channel reuses it with the sender id as DevAddr and the sequence as FCnt.
 */
module PayloadCipher {
  import opened Bytes
  import opened Rfc4493

  /** The block A_i: tag 0x01, direction 0, device, counter, block index. */
  function ABlock(devAddr: u32, fcnt: u32, i: nat): (r: Block) {
    [0x01, 0, 0, 0, 0, 0] + LE32(devAddr) + LE32(fcnt) + [0, i % 256]
  }

  /** S_1 | ... | S_k. */
  function Keystream(E: Cipher, key: Block, devAddr: u32, fcnt: u32, k: nat): (r: seq<u8>)
    ensures |r| == 16 * k
  {
    if k == 0 then [] else Keystream(E, key, devAddr, fcnt, k - 1) + E(key, ABlock(devAddr, fcnt, k))
  }

  function BlockCount(len: nat): nat {
    (len + 15) / 16
  }

  /** Mask `p` with the first |p| bytes of the keystream. */
  function Crypt(E: Cipher, key: Block, devAddr: u32, fcnt: u32, p: seq<u8>): (r: seq<u8>)
    ensures |r| == |p|
  {
    XorSeq(p, Keystream(E, key, devAddr, fcnt, BlockCount(|p|))[..|p|])
  }

  /** Encryption and decryption are the same operation. */
  lemma CryptInvolutive(E: Cipher, key: Block, devAddr: u32, fcnt: u32, p: seq<u8>)
    ensures Crypt(E, key, devAddr, fcnt, Crypt(E, key, devAddr, fcnt, p)) == p
  {
    XorSeqInvolutive(p, Keystream(E, key, devAddr, fcnt, BlockCount(|p|))[..|p|]);
  }

  /** Mask the |m| bytes of `buf` from `at` on with `m`. */
  method XorRange(buf: array<u8>, at: nat, m: seq<u8>)
    requires at + |m| <= buf.Length
    modifies buf
    ensures buf[..] == MaskAt(old(buf[..]), at, m)
  {
    for j := 0 to |m|
      invariant forall k :: 0 <= k < buf.Length ==>
                  buf[k] == if at <= k < at + j then Xor8(old(buf[k]), m[k - at]) else old(buf[k])
    {
      buf[at + j] := Xor8(buf[at + j], m[j]);
    }
  }

  /** How many bytes the first `i` keystream blocks cover of a `len`-byte payload. */
  function Covered(i: nat, len: nat): (d: nat)
    ensures d <= len && d <= 16 * i
  {
    if 16 * i < len then 16 * i else len
  }

  /** The masks of blocks 1..i extend those of blocks 1..i-1. */
  lemma MaskGrows(E: Cipher, key: Block, devAddr: u32, fcnt: u32, i: nat, len: nat)
    requires 1 <= i && 16 * (i - 1) < len
    ensures Covered(i, len) - 16 * (i - 1) <= 16
    ensures Keystream(E, key, devAddr, fcnt, i)[..Covered(i, len)]
         == Keystream(E, key, devAddr, fcnt, i - 1) + E(key, ABlock(devAddr, fcnt, i))[..Covered(i, len) - 16 * (i - 1)]
  {
  }

  /** Everything of the A blocks but the index. */
  method PrepareBlock(a: array<u8>, devAddr: u32, fcnt: u32)
    requires a.Length == 16
    modifies a
    ensures a[..] == ABlock(devAddr, fcnt, 0)
  {
    var head := ABlock(devAddr, fcnt, 0);
    forall k | 0 <= k < 16 { a[k] := head[k]; }
    assert a[..] == head;
  }

  /** Write the block index into the last byte of a prepared A block. */
  method SetIndex(a: array<u8>, devAddr: u32, fcnt: u32, i: nat)
    requires a.Length == 16 && a[..15] == ABlock(devAddr, fcnt, 0)[..15]
    modifies a
    ensures a[..] == ABlock(devAddr, fcnt, i) && a[..15] == ABlock(devAddr, fcnt, 0)[..15]
  {
    a[15] := i % 256;
    assert a[..15] == old(a[..15]);
    assert a[..] == a[..15] + [i % 256];
  }

  /** Mask `piece` behind the `n` bytes already masked by `m`. */
  method MaskMore(buf: array<u8>, at: nat, n: nat, piece: seq<u8>, ghost m: seq<u8>, ghost start: seq<u8>)
    requires |m| == n && at + n + |piece| <= buf.Length == |start|
    requires buf[..] == MaskAt(start, at, m)
    modifies buf
    ensures buf[..] == MaskAt(start, at, m + piece)
  {
    MaskAtAppend(start, at, m, piece);
    XorRange(buf, at + n, piece);
  }

  /** The part of keystream block `i` that falls on a payload of `len` bytes. */
  method Piece(E: Cipher, key: Block, devAddr: u32, fcnt: u32, a: array<u8>, i: nat, len: nat) returns (piece: seq<u8>)
    requires 1 <= i && 16 * (i - 1) < len
    requires a.Length == 16 && a[..15] == ABlock(devAddr, fcnt, 0)[..15]
    modifies a
    ensures a[..15] == ABlock(devAddr, fcnt, 0)[..15]
    ensures |piece| == Covered(i, len) - 16 * (i - 1)
    ensures Keystream(E, key, devAddr, fcnt, i)[..Covered(i, len)] == Keystream(E, key, devAddr, fcnt, i - 1) + piece
  {
    SetIndex(a, devAddr, fcnt, i);
    var s := E(key, a[..]);
    var off := (i - 1) * 16;
    var take := if len - off < 16 then len - off else 16;
    MaskGrows(E, key, devAddr, fcnt, i, len);
    piece := s[..take];
  }

  /** Extend the mask by one block's piece. */
  lemma MaskReaches(E: Cipher, key: Block, devAddr: u32, fcnt: u32, m: seq<u8>, piece: seq<u8>, i: nat, len: nat)
    requires 1 <= i && 16 * (i - 1) < len
    requires m == Mask(E, key, devAddr, fcnt, i - 1, len)
    requires Keystream(E, key, devAddr, fcnt, i)[..Covered(i, len)] == Keystream(E, key, devAddr, fcnt, i - 1) + piece
    ensures m + piece == Mask(E, key, devAddr, fcnt, i, len)
    ensures |m| == 16 * (i - 1)
  {
  }

  /** The mask that blocks 1..i lay over a payload of `len` bytes. */
  ghost function Mask(E: Cipher, key: Block, devAddr: u32, fcnt: u32, i: nat, len: nat): (m: seq<u8>)
    ensures |m| == Covered(i, len)
  {
    Keystream(E, key, devAddr, fcnt, i)[..Covered(i, len)]
  }

  /** After blocks 1..i: the A block is prepared for any index, and the masks are laid over the payload. */
  ghost predicate Masked(E: Cipher, key: Block, devAddr: u32, fcnt: u32, a: seq<u8>, b: seq<u8>, start: seq<u8>, at: nat, i: nat, len: nat)
    requires at + len <= |start|
  {
    && |a| == 16 && a[..15] == ABlock(devAddr, fcnt, 0)[..15]
    && b == MaskAt(start, at, Mask(E, key, devAddr, fcnt, i, len))
  }

  /** One turn of the loop. */
  method MaskBlock(E: Cipher, key: Block, devAddr: u32, fcnt: u32, buf: array<u8>, a: array<u8>, at: nat, len: nat, i: nat, ghost start: seq<u8>)
    requires at + len <= buf.Length == |start| && a != buf && 1 <= i && 16 * (i - 1) < len
    requires Masked(E, key, devAddr, fcnt, a[..], buf[..], start, at, i - 1, len)
    modifies buf, a
    ensures Masked(E, key, devAddr, fcnt, a[..], buf[..], start, at, i, len)
  {
    ghost var m := Mask(E, key, devAddr, fcnt, i - 1, len);
    assert a[..15] == a[..][..15];
    var piece := Piece(E, key, devAddr, fcnt, a, i, len);
    MaskReaches(E, key, devAddr, fcnt, m, piece, i, len);
    MaskMore(buf, at, (i - 1) * 16, piece, m, start);
    assert a[..][..15] == a[..15];
  }

  lemma NothingMasked(E: Cipher, key: Block, devAddr: u32, fcnt: u32, b: seq<u8>, at: nat, len: nat)
    requires at + len <= |b|
    ensures MaskAt(b, at, Mask(E, key, devAddr, fcnt, 0, len)) == b
  {
  }

  /** Mask `len` bytes of `buf` from `at` on, in place; the rest of the buffer is untouched. */
  method CryptFrmPayload(E: Cipher, key: Block, devAddr: u32, fcnt: u32, buf: array<u8>, at: nat, len: nat)
    requires at + len <= buf.Length
    modifies buf
    ensures buf[..] == MaskAt(old(buf[..]), at, Keystream(E, key, devAddr, fcnt, BlockCount(len))[..len])
  {
    ghost var start := buf[..];
    NothingMasked(E, key, devAddr, fcnt, start, at, len);
    if len == 0 { return; }
    var a := new u8[16];
    PrepareBlock(a, devAddr, fcnt);
    var blocks := (len + 15) / 16;
    var i := 1;
    while i <= blocks
      invariant 1 <= i <= blocks + 1
      invariant Masked(E, key, devAddr, fcnt, a[..], buf[..], start, at, i - 1, len)
    {
      MaskBlock(E, key, devAddr, fcnt, buf, a, at, len, i, start);
      i := i + 1;
    }
  }

  /** The block layout loses nothing: device, counter and block index can be read back. */
  lemma ABlockInjective(d1: u32, f1: u32, i1: nat, d2: u32, f2: u32, i2: nat)
    requires i1 < 256 && i2 < 256
    requires ABlock(d1, f1, i1) == ABlock(d2, f2, i2)
    ensures d1 == d2 && f1 == f2 && i1 == i2
  {
    var x, y := ABlock(d1, f1, i1), ABlock(d2, f2, i2);
    assert x[6..10] == LE32(d1) && y[6..10] == LE32(d2);
    assert x[10..14] == LE32(f1) && y[10..14] == LE32(f2);
    assert x[15] == i1 && y[15] == i2;
    LE32Injective(d1, d2);
    LE32Injective(f1, f2);
  }
}
