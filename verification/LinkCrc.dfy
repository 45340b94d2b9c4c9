/**
 CRC-16/CCITT as the link computes it, and which corruptions it is bound to notice.
 Link bytes are 8-bit vectors: here exclusive-or is what everything is about.
 */
module LinkCrc {
  import opened Folds

  type byte = bv8
  type crc = bv16

  const INIT: crc := 0xFFFF

  /** One shift of the register. */
  function Shift(c: crc): crc {
    if c & 0x8000 != 0 then (c << 1) ^ 0x1021 else c << 1
  }

  function Shift8(c: crc): crc {
    Shift(Shift(Shift(Shift(Shift(Shift(Shift(Shift(c))))))))
  }

  /** The byte meets the high half of the register. */
  function Meet(c: crc, d: byte): crc {
    c ^ ((d as crc) << 8)
  }

  /** Feed one byte. */
  function Update(c: crc, d: byte): crc {
    Shift8(Meet(c, d))
  }

  function Crc16(s: seq<byte>): crc {
    Fold(Update, INIT, s)
  }

  // ---- the nested loops ------------------------------------------------------------

  method EightShifts(c0: crc) returns (c: crc)
    ensures c == Times(Shift, c0, 8)
  {
    c := c0;
    for b := 0 to 8
      invariant c == Times(Shift, c0, b)
    {
      c := Shift(c);
    }
  }

  method AddByte(c0: crc, d: byte) returns (c: crc)
    ensures c == Update(c0, d)
  {
    c := EightShifts(Meet(c0, d));
    TimesOf8(Shift, Meet(c0, d));
  }

  method ComputeCrc16(s: seq<byte>) returns (c: crc)
    ensures c == Crc16(s)
  {
    c := INIT;
    for i := 0 to |s|
      invariant c == Fold(Update, INIT, s[..i])
    {
      assert s[..i + 1][..i] == s[..i];
      c := AddByte(c, s[i]);
    }
    assert s[..|s|] == s;
  }

  // ---- what a step keeps -------------------------------------------------------------

  predicate IsXor(a: crc, b: crc, c: crc) { c == a ^ b }
  predicate IsXorByte(a: byte, b: byte, c: byte) { c == a ^ b }
  predicate IsZero(a: crc) { a == 0 }

  lemma ShlXor(a: crc, b: crc)
    ensures (a ^ b) << 1 == (a << 1) ^ (b << 1)
  {
  }

  lemma MsbXor(a: crc, b: crc)
    ensures (a ^ b) & 0x8000 == (a & 0x8000) ^ (b & 0x8000)
  {
  }

  lemma MsbCases(a: crc)
    ensures a & 0x8000 == 0 || a & 0x8000 == 0x8000
  {
  }

  lemma XorCancels(x: crc, y: crc, p: crc)
    ensures (x ^ p) ^ (y ^ p) == x ^ y
  {
  }

  lemma XorSwap(x: crc, y: crc, p: crc)
    ensures (x ^ p) ^ y == (x ^ y) ^ p
  {
  }

  lemma XorAssociates(x: crc, y: crc, p: crc)
    ensures x ^ (y ^ p) == (x ^ y) ^ p
  {
  }

  lemma ShiftLinear(a: crc, b: crc)
    ensures Shift(a ^ b) == Shift(a) ^ Shift(b)
  {
    ShlXor(a, b);
    MsbXor(a, b);
    MsbCases(a);
    MsbCases(b);
    XorCancels(a << 1, b << 1, 0x1021);
    XorSwap(a << 1, b << 1, 0x1021);
    XorAssociates(a << 1, b << 1, 0x1021);
  }

  lemma ShiftZero(a: crc)
    ensures Shift(a) == 0 <==> a == 0
  {
  }

  lemma ShiftKeepsXor()
    ensures Keeps3(Shift, IsXor)
  {
    forall a: crc, b: crc, c: crc | IsXor(a, b, c) ensures IsXor(Shift(a), Shift(b), Shift(c)) {
      ShiftLinear(a, b);
    }
  }

  lemma ShiftKeepsZero()
    ensures KeepsIff(Shift, IsZero)
  {
    forall a: crc ensures IsZero(Shift(a)) <==> IsZero(a) {
      ShiftZero(a);
    }
  }

  lemma MeetXor(a: crc, b: crc, c: crc, d: byte, e: byte, f: byte)
    requires IsXor(a, b, c) && IsXorByte(d, e, f)
    ensures IsXor(Meet(a, d), Meet(b, e), Meet(c, f))
  {
    WidenXor(d, e);
    XorRegroup(a, b, (d as crc) << 8, (e as crc) << 8);
  }

  lemma WidenXor(d: byte, e: byte)
    ensures ((d ^ e) as crc) << 8 == ((d as crc) << 8) ^ ((e as crc) << 8)
  {
  }

  lemma XorRegroup(a: crc, b: crc, x: crc, y: crc)
    ensures (a ^ b) ^ (x ^ y) == (a ^ x) ^ (b ^ y)
  {
  }

  lemma MeetNothing(c: crc)
    ensures Meet(c, 0) == c
  {
  }

  lemma Shift8KeepsXor(a: crc, b: crc, c: crc)
    requires IsXor(a, b, c)
    ensures IsXor(Shift8(a), Shift8(b), Shift8(c))
  {
    ShiftKeepsXor();
    EightKeep3(Shift, IsXor, a, b, c);
  }

  lemma UpdateKeepsXor(a: crc, b: crc, c: crc, d: byte, e: byte, f: byte)
    requires IsXor(a, b, c) && IsXorByte(d, e, f)
    ensures IsXor(Update(a, d), Update(b, e), Update(c, f))
  {
    MeetXor(a, b, c, d, e, f);
    Shift8KeepsXor(Meet(a, d), Meet(b, e), Meet(c, f));
  }

  lemma UpdateIsLinear()
    ensures FoldKeeps3(Update, IsXor, IsXorByte)
  {
    forall a: crc, b: crc, c: crc, d: byte, e: byte, f: byte | IsXor(a, b, c) && IsXorByte(d, e, f)
      ensures IsXor(Update(a, d), Update(b, e), Update(c, f))
    {
      UpdateKeepsXor(a, b, c, d, e, f);
    }
  }

  /** A zero byte leaves a zero register zero and a nonzero one nonzero. */
  lemma UpdateZero(c: crc)
    ensures IsZero(Update(c, 0)) <==> IsZero(c)
  {
    MeetNothing(c);
    ShiftKeepsZero();
    EightKeepIff(Shift, IsZero, c);
  }

  // ---- error patterns over whole messages ----------------------------------------------

  /** Bytewise exclusive-or of an error pattern onto a message. */
  ghost predicate Corrupted(s: seq<byte>, e: seq<byte>, r: seq<byte>) {
    |s| == |e| == |r| && forall i :: 0 <= i < |s| ==> IsXorByte(s[i], e[i], r[i])
  }

  lemma XorSame(a: crc, b: crc, c: crc)
    requires IsXor(a, b, c)
    ensures c == a <==> IsZero(b)
  {
  }

  lemma InitXor()
    ensures IsXor(INIT, 0, INIT)
  {
  }

  /** The CRC of a corrupted message is the old one, off by what the pattern alone leaves in a zero register. */
  lemma CorruptionXor(s: seq<byte>, e: seq<byte>, r: seq<byte>)
    requires Corrupted(s, e, r)
    ensures IsXor(Crc16(s), Fold(Update, 0, e), Crc16(r))
  {
    UpdateIsLinear();
    InitXor();
    FoldRelated3(Update, IsXor, IsXorByte, INIT, 0, INIT, s, e, r);
  }

  /** The CRC of a corrupted message differs exactly when the pattern alone does not vanish. */
  lemma CorruptionVisibleIff(s: seq<byte>, e: seq<byte>, r: seq<byte>)
    requires Corrupted(s, e, r)
    ensures Crc16(r) != Crc16(s) <==> !IsZero(Fold(Update, 0, e))
  {
    CorruptionXor(s, e, r);
    XorSame(Fold(Update, INIT, s), Fold(Update, 0, e), Fold(Update, INIT, r));
  }

  ghost predicate Quiet(s: seq<byte>) {
    forall i :: 0 <= i < |s| ==> s[i] == 0
  }

  /** An undisturbed stretch leaves a zero difference zero and a nonzero one nonzero. */
  lemma QuietKeeps(c: crc, s: seq<byte>)
    requires Quiet(s)
    ensures IsZero(Fold(Update, c, s)) <==> IsZero(c)
  {
    forall a: crc ensures IsZero(Update(a, 0)) <==> IsZero(a) { UpdateZero(a); }
    FoldKeepIff(Update, IsZero, 0, c, s);
  }

  /** A disturbed stretch between quiet ones is seen when it is seen on its own. */
  lemma SurroundedByQuiet(before: seq<byte>, mid: seq<byte>, after: seq<byte>)
    requires Quiet(before) && Quiet(after) && !IsZero(Fold(Update, 0, mid))
    ensures !IsZero(Fold(Update, 0, before + mid + after))
  {
    FoldAppend(Update, 0, before + mid, after);
    FoldAppend(Update, 0, before, mid);
    QuietKeeps(0, before);
    QuietKeeps(Fold(Update, 0, mid), after);
  }

  /** The 16 bits `v`, starting `s` bits into three bytes, most significant bit first. */
  predicate Window(e0: byte, e1: byte, e2: byte, v: bv24, s: bv24) {
    s <= 8 && v <= 0xFFFF && ((e0 as bv24) << 16) | ((e1 as bv24) << 8) | (e2 as bv24) == v << (s as int)
  }

  /** The same in the order a UART sends them: least significant bit of each byte first. */
  predicate WireWindow(e0: byte, e1: byte, e2: byte, v: bv24, s: bv24) {
    s <= 8 && v <= 0xFFFF && ((e2 as bv24) << 16) | ((e1 as bv24) << 8) | (e0 as bv24) == v << (s as int)
  }

  /** A nonzero pattern of at most 16 consecutive bits cannot leave the register at zero. */
  lemma BurstBits(e0: byte, e1: byte, e2: byte, v: bv24, s: bv24)
    requires Window(e0, e1, e2, v, s) && v != 0
    ensures !IsZero(Update(Update(Update(0, e0), e1), e2))
  {
  }

  lemma WireBurstBits(e0: byte, e1: byte, e2: byte, v: bv24, s: bv24)
    requires WireWindow(e0, e1, e2, v, s) && v != 0
    ensures !IsZero(Update(Update(Update(0, e0), e1), e2))
  {
  }

  /**
   Any burst of at most 16 consecutive bits, in either bit order, wherever it falls in a
   message and however long the message is, changes the CRC.
   */
  lemma BurstChangesCrc(s: seq<byte>, before: seq<byte>, e0: byte, e1: byte, e2: byte, v: bv24, w: bv24, after: seq<byte>, r: seq<byte>)
    requires Quiet(before) && Quiet(after) && Corrupted(s, before + [e0, e1, e2] + after, r)
    requires (Window(e0, e1, e2, v, w) || WireWindow(e0, e1, e2, v, w)) && v != 0
    ensures Crc16(r) != Crc16(s)
  {
    if Window(e0, e1, e2, v, w) { BurstBits(e0, e1, e2, v, w); } else { WireBurstBits(e0, e1, e2, v, w); }
    FoldThree(Update, 0, e0, e1, e2);
    SurroundedByQuiet(before, [e0, e1, e2], after);
    CorruptionVisibleIff(s, before + [e0, e1, e2] + after, r);
  }

  lemma ByteBits(e: byte)
    requires e != 0
    ensures !IsZero(Update(0, e))
  {
  }

  /** A single damaged byte changes the CRC, even in a message shorter than a window. */
  lemma ByteChangesCrc(s: seq<byte>, before: seq<byte>, e: byte, after: seq<byte>, r: seq<byte>)
    requires Quiet(before) && Quiet(after) && Corrupted(s, before + [e] + after, r) && e != 0
    ensures Crc16(r) != Crc16(s)
  {
    ByteBits(e);
    FoldOne(Update, 0, e);
    SurroundedByQuiet(before, [e], after);
    CorruptionVisibleIff(s, before + [e] + after, r);
  }
}
