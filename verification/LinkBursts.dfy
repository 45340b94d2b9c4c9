/**
 Damage to a frame anywhere but in its preamble and length: exactly when the parser delivers
 the damaged frame, which bursts it never delivers, and the shortest that it does.
 */
module LinkBursts {
  import opened Bytes
  import opened Folds
  import opened LinkCrc
  import opened LinkFraming

  // ---- words and their bytes ---------------------------------------------------------------

  /** The 16-bit word of two bytes, low byte first. */
  function Word(lo: byte, hi: byte): crc {
    ((hi as crc) << 8) | (lo as crc)
  }

  predicate IsWord(c: crc, lo: byte, hi: byte) { c == Word(lo, hi) }

  lemma WordXor(lo: byte, hi: byte, x: byte, y: byte, lo': byte, hi': byte)
    requires IsXorByte(lo, x, lo') && IsXorByte(hi, y, hi')
    ensures IsXor(Word(lo, hi), Word(x, y), Word(lo', hi'))
  {
  }

  lemma JoinBits(lo: byte, hi: byte, w: crc)
    requires w == ((hi as crc) << 8) | (lo as crc)
    ensures w as int == lo as int + 256 * (hi as int)
  {
  }

  lemma WordJoin(lo: byte, hi: byte)
    ensures Word(lo, hi) as int == (lo as int) + 256 * (hi as int)
  {
    JoinBits(lo, hi, Word(lo, hi));
  }

  lemma JoinIsWord(lo: byte, hi: byte)
    ensures Join(lo as int, hi as int) == Word(lo, hi) as int
  {
    WordJoin(lo, hi);
  }

  /** The two bytes of a word. */
  lemma WordSplits(c: crc) returns (lo: byte, hi: byte)
    ensures IsWord(c, lo, hi)
  {
    lo, hi := (c & 0xFF) as bv8, (c >> 8) as bv8;
  }

  lemma SameWord(a: crc, b: crc)
    ensures a as int == b as int <==> a == b
  {
    CrcIsWord(a);
    CrcIsWord(b);
  }

  lemma XorInjective(a: crc, p: crc, q: crc)
    ensures a ^ p == a ^ q <==> p == q
  {
  }

  /** Whether two words off by `p` and by `q` from equal ones are equal. */
  lemma OffBy(a: crc, p: crc, b: crc, q: crc, c: crc)
    requires IsXor(a, p, b) && IsXor(a, q, c)
    ensures b == c <==> p == q
  {
    XorInjective(a, p, q);
  }

  // ---- bytes whose last two match the rest -----------------------------------------------------

  /** The last two bytes are the CRC of those before, low byte first. */
  ghost predicate Closed(s: seq<byte>)
    requires |s| >= 2
  {
    IsWord(Crc16(s[..|s| - 2]), s[|s| - 2], s[|s| - 1])
  }

  /** The last two bytes are what those before leave in a register that starts at zero. */
  ghost predicate Matches(e: seq<byte>)
    requires |e| >= 2
  {
    IsWord(Fold(Update, 0, e[..|e| - 2]), e[|e| - 2], e[|e| - 1])
  }

  lemma SameOff(a: crc, p: crc, b: crc, t0: byte, t1: byte, x: byte, y: byte, lo: byte, hi: byte)
    requires IsXor(a, p, b) && IsWord(a, t0, t1) && IsXorByte(t0, x, lo) && IsXorByte(t1, y, hi)
    ensures IsWord(b, lo, hi) <==> IsWord(p, x, y)
  {
    WordXor(t0, t1, x, y, lo, hi);
    OffBy(a, p, b, Word(x, y), Word(lo, hi));
  }

  lemma MatchBits(s: seq<byte>, e: seq<byte>, r: seq<byte>, t0: byte, t1: byte, x: byte, y: byte, lo: byte, hi: byte)
    requires Corrupted(s, e, r) && IsWord(Crc16(s), t0, t1)
    requires IsXorByte(t0, x, lo) && IsXorByte(t1, y, hi)
    ensures IsWord(Crc16(r), lo, hi) <==> IsWord(Fold(Update, 0, e), x, y)
  {
    CorruptionXor(s, e, r);
    SameOff(Crc16(s), Fold(Update, 0, e), Crc16(r), t0, t1, x, y, lo, hi);
  }

  lemma CorruptedFront(s: seq<byte>, e: seq<byte>, r: seq<byte>, n: nat)
    requires Corrupted(s, e, r) && n <= |s|
    ensures Corrupted(s[..n], e[..n], r[..n])
  {
  }

  /** Damage leaves closed bytes closed exactly when the error pattern matches itself. */
  lemma ClosedIff(s: seq<byte>, e: seq<byte>, r: seq<byte>)
    requires |s| >= 2 && Corrupted(s, e, r) && Closed(s)
    ensures Closed(r) <==> Matches(e)
  {
    var n := |s| - 2;
    CorruptedFront(s, e, r, n);
    MatchBits(s[..n], e[..n], r[..n], s[n], s[n + 1], e[n], e[n + 1], r[n], r[n + 1]);
  }

  // ---- exactly which damaged frames are delivered ----------------------------------------------

  lemma MatchIff(s: seq<u8>, lo: byte, hi: byte)
    ensures Crc(s) == Join(lo as int, hi as int) <==> IsWord(Crc16(Bits(s)), lo, hi)
  {
    JoinIsWord(lo, hi);
    SameWord(Crc16(Bits(s)), Word(lo, hi));
  }

  lemma ByteBack(b: byte)
    ensures (b as int) as bv8 == b
  {
  }

  lemma BitsEnd(s: seq<u8>, lo: byte, hi: byte)
    ensures var r := Bits(s + [lo as int, hi as int]);
            |r| == |s| + 2 && r[..|s|] == Bits(s) && r[|s|] == lo && r[|s| + 1] == hi
  {
    ByteBack(lo);
    ByteBack(hi);
  }

  lemma ClosedBits(s: seq<u8>, lo: byte, hi: byte)
    ensures Closed(Bits(s + [lo as int, hi as int])) <==> Crc(s) == Join(lo as int, hi as int)
  {
    MatchIff(s, lo, hi);
    BitsEnd(s, lo, hi);
  }

  /** The bytes of a frame behind its preamble. */
  function Tail(f: Frame): (r: seq<u8>)
    requires |f.payload| <= MAX_PAYLOAD
    ensures |r| == 6 + |f.payload|
  {
    Head(f) + f.payload + Trailer(Crc, Head(f) + f.payload)
  }

  /** What arrives for `f` when the error pattern `e` hits it behind its preamble and spares its length. */
  ghost predicate Garbled(f: Frame, e: seq<byte>, h: seq<u8>, payload: seq<u8>, lo: byte, hi: byte)
    requires |f.payload| <= MAX_PAYLOAD
  {
    && |h| == 4 && |payload| == |f.payload| && h[2] == Head(f)[2] && h[3] == Head(f)[3]
    && Corrupted(Bits(Tail(f)), e, Bits(h + payload + [lo as int, hi as int]))
  }

  lemma TrailerBytes(n: u16, lo: u8, hi: u8)
    requires n == Join(lo, hi)
    ensures n % 256 == lo && n / 256 == hi
  {
    SplitJoin(lo, hi);
  }

  lemma TailClosed(f: Frame)
    requires |f.payload| <= MAX_PAYLOAD
    ensures Closed(Bits(Tail(f)))
  {
    var body := Head(f) + f.payload;
    var lo, hi := WordSplits(Crc16(Bits(body)));
    MatchIff(body, lo, hi);
    TrailerBytes(Crc(body), lo as int, hi as int);
    ClosedBits(body, lo, hi);
  }

  /** A preamble, a header and what it announces: delivered exactly when the check agrees. */
  lemma DeliveredIff(k: Check, p: Parser, h: seq<u8>, payload: seq<u8>, lo: u8, hi: u8)
    requires p == Hunt || p == Half
    requires |h| == 4 && Join(h[2], h[3]) == |payload| <= MAX_PAYLOAD
    ensures Feed(k, p, [PRE0, PRE1] + h + payload + [lo, hi])
            == Turn(Hunt, if k(h + payload) == Join(lo, hi) then [Frame(h[0], h[1], payload)] else [])
  {
    var buf := payload + [lo, hi];
    WholeFrame(k, p, h, buf);
    assert buf[..|payload|] == payload;
    assert [PRE0, PRE1] + h + payload + [lo, hi] == [PRE0, PRE1] + h + buf;
  }

  lemma CrcMatches(f: Frame, e: seq<byte>, h: seq<u8>, payload: seq<u8>, lo: byte, hi: byte)
    requires |f.payload| <= MAX_PAYLOAD && Garbled(f, e, h, payload, lo, hi)
    ensures Crc(h + payload) == Join(lo as int, hi as int) <==> Matches(e)
  {
    ClosedBits(h + payload, lo, hi);
    TailClosed(f);
    ClosedIff(Bits(Tail(f)), e, Bits(h + payload + [lo as int, hi as int]));
  }

  /**
   A frame damaged anywhere behind its preamble but in its length is delivered exactly when the
   error in its CRC bytes is what the error before them leaves in a register that starts at
   zero; whatever the frame was. Otherwise nothing is delivered.
   */
  lemma GarbledDeliveredIff(p: Parser, f: Frame, e: seq<byte>, h: seq<u8>, payload: seq<u8>, lo: byte, hi: byte)
    requires p == Hunt || p == Half
    requires |f.payload| <= MAX_PAYLOAD && Garbled(f, e, h, payload, lo, hi)
    ensures Feed(Crc, p, [PRE0, PRE1] + h + payload + [lo as int, hi as int])
            == Turn(Hunt, if Matches(e) then [Frame(h[0], h[1], payload)] else [])
  {
    JoinSplit(|f.payload|);
    CrcMatches(f, e, h, payload, lo, hi);
    DeliveredIff(Crc, p, h, payload, lo as int, hi as int);
  }

  // ---- bursts that may reach into the CRC bytes -----------------------------------------------------

  /** At most 14 consecutive bits of three bytes, in the order a UART sends them. */
  predicate WireBurst(e0: byte, e1: byte, e2: byte, v: bv24, s: bv24) {
    s <= 10 && 0 < v <= 0x3FFF && ((e2 as bv24) << 16) | ((e1 as bv24) << 8) | (e0 as bv24) == v << (s as int)
  }

  /** At most 12 consecutive bits of three bytes, most significant bit first. */
  predicate MsbBurst(e0: byte, e1: byte, e2: byte, v: bv24, s: bv24) {
    s <= 12 && 0 < v <= 0x0FFF && ((e0 as bv24) << 16) | ((e1 as bv24) << 8) | (e2 as bv24) == v << (s as int)
  }

  /** It changes the register before the CRC bytes ... */
  ghost predicate SeenBefore(e0: byte, e1: byte, e2: byte) { !IsZero(Update(Update(Update(0, e0), e1), e2)) }

  /** ... or not to what it makes of the first CRC byte ... */
  ghost predicate SeenInto(e0: byte, e1: byte, e2: byte) { Update(Update(0, e0), e1) != e2 as crc }

  /** ... or not to what it makes of both. */
  ghost predicate SeenOver(e0: byte, e1: byte, e2: byte) { Update(0, e0) != ((e2 as crc) << 8) | (e1 as crc) }

  lemma WireBefore(e0: byte, e1: byte, e2: byte, v: bv24, s: bv24)
    requires WireBurst(e0, e1, e2, v, s)
    ensures SeenBefore(e0, e1, e2)
  {
  }

  lemma WireInto(e0: byte, e1: byte, e2: byte, v: bv24, s: bv24)
    requires WireBurst(e0, e1, e2, v, s)
    ensures SeenInto(e0, e1, e2)
  {
  }

  lemma WireOver(e0: byte, e1: byte, e2: byte, v: bv24, s: bv24)
    requires WireBurst(e0, e1, e2, v, s)
    ensures SeenOver(e0, e1, e2)
  {
  }

  lemma MsbBefore(e0: byte, e1: byte, e2: byte, v: bv24, s: bv24)
    requires MsbBurst(e0, e1, e2, v, s)
    ensures SeenBefore(e0, e1, e2)
  {
  }

  lemma MsbInto(e0: byte, e1: byte, e2: byte, v: bv24, s: bv24)
    requires MsbBurst(e0, e1, e2, v, s)
    ensures SeenInto(e0, e1, e2)
  {
  }

  lemma MsbOver(e0: byte, e1: byte, e2: byte, v: bv24, s: bv24)
    requires MsbBurst(e0, e1, e2, v, s)
    ensures SeenOver(e0, e1, e2)
  {
  }

  lemma Seen(e0: byte, e1: byte, e2: byte, v: bv24, s: bv24)
    requires WireBurst(e0, e1, e2, v, s) || MsbBurst(e0, e1, e2, v, s)
    ensures SeenBefore(e0, e1, e2) && SeenInto(e0, e1, e2) && SeenOver(e0, e1, e2)
  {
    if WireBurst(e0, e1, e2, v, s) {
      WireBefore(e0, e1, e2, v, s);
      WireInto(e0, e1, e2, v, s);
      WireOver(e0, e1, e2, v, s);
    } else {
      MsbBefore(e0, e1, e2, v, s);
      MsbInto(e0, e1, e2, v, s);
      MsbOver(e0, e1, e2, v, s);
    }
  }

  lemma WordZero(c: crc)
    ensures IsWord(c, 0, 0) <==> IsZero(c)
  {
  }

  lemma WordLow(c: crc, b: byte)
    ensures IsWord(c, b, 0) <==> c == b as crc
  {
  }

  /** After an undisturbed stretch the register is still zero. */
  lemma QuietZero(before: seq<byte>)
    requires Quiet(before)
    ensures Fold(Update, 0, before) == 0
  {
    QuietKeeps(0, before);
  }

  lemma AfterQuiet1(before: seq<byte>, e0: byte)
    requires Quiet(before)
    ensures Fold(Update, 0, before + [e0]) == Update(0, e0)
  {
    QuietZero(before);
    FoldAppend(Update, 0, before, [e0]);
    FoldOne(Update, 0, e0);
  }

  lemma AfterQuiet2(before: seq<byte>, e0: byte, e1: byte)
    requires Quiet(before)
    ensures Fold(Update, 0, before + [e0, e1]) == Update(Update(0, e0), e1)
  {
    AfterQuiet1(before, e0);
    FoldAppend(Update, 0, before + [e0], [e1]);
    FoldOne(Update, Update(0, e0), e1);
    assert before + [e0, e1] == before + [e0] + [e1];
  }

  lemma BeforeMismatch(before: seq<byte>, e0: byte, e1: byte, e2: byte, after: seq<byte>)
    requires Quiet(before) && Quiet(after) && |after| >= 2 && SeenBefore(e0, e1, e2)
    ensures !Matches(before + [e0, e1, e2] + after)
  {
    var e, quiet := before + [e0, e1, e2] + after, after[..|after| - 2];
    FoldThree(Update, 0, e0, e1, e2);
    SurroundedByQuiet(before, [e0, e1, e2], quiet);
    assert e[..|e| - 2] == before + [e0, e1, e2] + quiet;
    assert e[|e| - 2] == 0 && e[|e| - 1] == 0;
    WordZero(Fold(Update, 0, e[..|e| - 2]));
  }

  lemma IntoMismatch(before: seq<byte>, e0: byte, e1: byte, e2: byte, last: byte)
    requires Quiet(before) && last == 0 && SeenInto(e0, e1, e2)
    ensures !Matches(before + [e0, e1, e2] + [last])
  {
    var e := before + [e0, e1, e2] + [last];
    assert e[..|e| - 2] == before + [e0, e1];
    AfterQuiet2(before, e0, e1);
    WordLow(Update(Update(0, e0), e1), e2);
  }

  lemma OverMismatch(before: seq<byte>, e0: byte, e1: byte, e2: byte)
    requires Quiet(before) && SeenOver(e0, e1, e2)
    ensures !Matches(before + [e0, e1, e2])
  {
    var e := before + [e0, e1, e2];
    assert e[..|e| - 2] == before + [e0];
    AfterQuiet1(before, e0);
  }

  lemma BurstMismatch(before: seq<byte>, e0: byte, e1: byte, e2: byte, after: seq<byte>)
    requires Quiet(before) && Quiet(after) && SeenBefore(e0, e1, e2) && SeenInto(e0, e1, e2) && SeenOver(e0, e1, e2)
    ensures !Matches(before + [e0, e1, e2] + after)
  {
    if |after| >= 2 {
      BeforeMismatch(before, e0, e1, e2, after);
    } else if |after| == 1 {
      IntoMismatch(before, e0, e1, e2, after[0]);
      assert after == [after[0]];
    } else {
      OverMismatch(before, e0, e1, e2);
      assert before + [e0, e1, e2] + after == before + [e0, e1, e2];
    }
  }

  /**
   A frame hit by one burst of at most 14 consecutive bits in the order the UART sends them, or
   12 most significant bit first, is never delivered in any form, wherever behind the preamble
   the burst falls, in the CRC bytes too, as long as it spares the length.
   */
  lemma ShortBurstNeverDelivered(p: Parser, f: Frame, before: seq<byte>, e0: byte, e1: byte, e2: byte, v: bv24, s: bv24, after: seq<byte>,
                                 h: seq<u8>, payload: seq<u8>, lo: byte, hi: byte)
    requires p == Hunt || p == Half
    requires Quiet(before) && Quiet(after) && (WireBurst(e0, e1, e2, v, s) || MsbBurst(e0, e1, e2, v, s))
    requires |f.payload| <= MAX_PAYLOAD && Garbled(f, before + [e0, e1, e2] + after, h, payload, lo, hi)
    ensures Feed(Crc, p, [PRE0, PRE1] + h + payload + [lo as int, hi as int]) == Turn(Hunt, [])
  {
    Seen(e0, e1, e2, v, s);
    BurstMismatch(before, e0, e1, e2, after);
    GarbledDeliveredIff(p, f, before + [e0, e1, e2] + after, h, payload, lo, hi);
  }

  // ---- the shortest bursts that escape --------------------------------------------------------------

  function NoError(n: nat): (e: seq<byte>)
    ensures |e| == n && Quiet(e)
  {
    seq(n, _ => 0)
  }

  function Flip(b: u8, d: byte): u8 {
    ((b as bv8) ^ d) as int
  }

  lemma FlipBack(b: u8, d: byte)
    ensures IsXorByte(b as bv8, d, Flip(b, d) as bv8)
  {
  }

  lemma XorMoves(b: byte, d: byte)
    requires IsXorByte(b, d, b)
    ensures d == 0
  {
  }

  lemma FlipMoves(b: u8, d: byte)
    requires d != 0
    ensures Flip(b, d) != b
  {
    FlipBack(b, d);
    if Flip(b, d) == b { XorMoves(b as bv8, d); }
  }

  lemma NoFlip(b: byte)
    ensures IsXorByte(b, 0, b)
  {
  }

  /** 15 consecutive bits in the order a UART sends them, or 13 most significant bit first. */
  predicate Escapes(d: byte, x: byte, y: byte) {
    || (d == 0x98 && x == 0xB1 && y == 0x02 && WireWindow(d, x, y, 0x5633, 3))
    || (d == 0x01 && x == 0x21 && y == 0x10 && Window(d, x, y, 0x1211, 4))
  }

  lemma SomeEscape()
    ensures Escapes(0x98, 0xB1, 0x02) && Escapes(0x01, 0x21, 0x10)
  {
  }

  lemma EscapeBits(d: byte, x: byte, y: byte)
    requires Escapes(d, x, y)
    ensures IsWord(Update(0, d), x, y) && d != 0
  {
  }

  lemma EscapeMatches(n: nat, d: byte, x: byte, y: byte)
    requires Escapes(d, x, y)
    ensures Matches(NoError(n) + [d, x, y])
  {
    var e := NoError(n) + [d, x, y];
    assert e[..|e| - 2] == NoError(n) + [d];
    AfterQuiet1(NoError(n), d);
    EscapeBits(d, x, y);
  }

  lemma CorruptedMore(s: seq<byte>, e: seq<byte>, r: seq<byte>, b: byte, d: byte, c: byte)
    requires Corrupted(s, e, r) && IsXorByte(b, d, c)
    ensures Corrupted(s + [b], e + [d], r + [c])
  {
  }

  lemma NotCorrupted(s: seq<byte>)
    ensures Corrupted(s, NoError(|s|), s)
  {
    forall i | 0 <= i < |s| ensures IsXorByte(s[i], NoError(|s|)[i], s[i]) { NoFlip(s[i]); }
  }

  lemma BitsMore(s: seq<u8>, a: u8)
    ensures Bits(s + [a]) == Bits(s) + [a as bv8]
  {
  }

  lemma FlipOne(s: seq<u8>, e: seq<byte>, s': seq<u8>, a: u8, d: byte)
    requires Corrupted(Bits(s), e, Bits(s'))
    ensures Corrupted(Bits(s + [a]), e + [d], Bits(s' + [Flip(a, d)]))
  {
    BitsMore(s, a);
    BitsMore(s', Flip(a, d));
    FlipBack(a, d);
    CorruptedMore(Bits(s), e, Bits(s'), a as bv8, d, Flip(a, d) as bv8);
  }

  lemma Three<T>(s: seq<T>, a: T, b: T, c: T)
    ensures s + [a] + [b] + [c] == s + [a, b, c]
  {
  }

  /** Flipping bits in the last three of some bytes. */
  lemma FlipLast(s: seq<u8>, a: u8, b: u8, c: u8, d: byte, x: byte, y: byte)
    ensures Corrupted(Bits(s + [a, b, c]), NoError(|s|) + [d, x, y], Bits(s + [Flip(a, d), Flip(b, x), Flip(c, y)]))
  {
    var e, r := NoError(|s|), s + [Flip(a, d)];
    NotCorrupted(Bits(s));
    FlipOne(s, e, s, a, d);
    FlipOne(s + [a], e + [d], r, b, x);
    FlipOne(s + [a] + [b], e + [d] + [x], r + [Flip(b, x)], c, y);
    Three(s, a, b, c);
    Three(e, d, x, y);
    Three(s, Flip(a, d), Flip(b, x), Flip(c, y));
  }

  lemma Escaped(f: Frame, d: byte, x: byte, y: byte) returns (payload: seq<u8>, lo: byte, hi: byte)
    requires 0 < |f.payload| <= MAX_PAYLOAD && d != 0
    ensures Garbled(f, NoError(3 + |f.payload|) + [d, x, y], Head(f), payload, lo, hi) && payload != f.payload
  {
    var m, t := |f.payload| - 1, Trailer(Crc, Head(f) + f.payload);
    var front, last := f.payload[..m], f.payload[m];
    payload, lo, hi := front + [Flip(last, d)], (t[0] as bv8) ^ x, (t[1] as bv8) ^ y;
    FlipLast(Head(f) + front, last, t[0], t[1], d, x, y);
    assert f.payload == front + [last];
    assert Tail(f) == (Head(f) + front) + [last, t[0], t[1]];
    assert Head(f) + payload + [lo as int, hi as int] == (Head(f) + front) + [Flip(last, d), Flip(t[0], x), Flip(t[1], y)];
    FlipMoves(last, d);
    assert payload[m] != f.payload[m];
  }

  /** Every frame with a payload has a damaged form, by a burst of 15 (or 13) bits, that is delivered in its place. */
  lemma EscapingBurst(p: Parser, f: Frame, d: byte, x: byte, y: byte) returns (payload: seq<u8>, lo: byte, hi: byte)
    requires p == Hunt || p == Half
    requires 0 < |f.payload| <= MAX_PAYLOAD && Escapes(d, x, y)
    ensures Garbled(f, NoError(3 + |f.payload|) + [d, x, y], Head(f), payload, lo, hi) && payload != f.payload
    ensures Feed(Crc, p, [PRE0, PRE1] + Head(f) + payload + [lo as int, hi as int]) == Turn(Hunt, [Frame(f.kind, f.radio, payload)])
  {
    EscapeBits(d, x, y);
    payload, lo, hi := Escaped(f, d, x, y);
    EscapeMatches(3 + |f.payload|, d, x, y);
    GarbledDeliveredIff(p, f, NoError(3 + |f.payload|) + [d, x, y], Head(f), payload, lo, hi);
  }
}
