/** Base64 as section 4 of RFC 4648 gives it: alphabet, padding, and decoding. */
module Base64 {
  import opened Bytes
  import opened Products

  const PAD: u8 := 61

  function Digit(v: nat): (c: u8)
    requires v < 64
    ensures c != PAD && c != 0
  {
    if v < 26 then 65 + v else if v < 52 then 71 + v else if v < 62 then v - 4 else if v == 62 then 43 else 47
  }

  function Value(c: u8): (r: Option<nat>)
    ensures r.Some? ==> r.value < 64
  {
    if 65 <= c <= 90 then Some(c - 65)
    else if 97 <= c <= 122 then Some(c - 71)
    else if 48 <= c <= 57 then Some(c + 4)
    else if c == 43 then Some(62)
    else if c == 47 then Some(63)
    else None
  }

  lemma ValueOfDigit(v: nat)
    requires v < 64
    ensures Value(Digit(v)) == Some(v)
  {
  }

  // The four sextets of three bytes.
  function Sextet0(a: u8): nat { a / 4 }
  function Sextet1(a: u8, b: u8): (v: nat) ensures v < 64 { a % 4 * 16 + b / 16 }
  function Sextet2(b: u8, c: u8): (v: nat) ensures v < 64 { b % 16 * 4 + c / 64 }
  function Sextet3(c: u8): (v: nat) ensures v < 64 { c % 64 }

  /** Four characters for one, two or three bytes. */
  function Group(s: seq<u8>): (g: seq<u8>)
    requires 1 <= |s| <= 3
    ensures |g| == 4 && 0 !in g
  {
    if |s| == 1 then [Digit(Sextet0(s[0])), Digit(Sextet1(s[0], 0)), PAD, PAD]
    else if |s| == 2 then [Digit(Sextet0(s[0])), Digit(Sextet1(s[0], s[1])), Digit(Sextet2(s[1], 0)), PAD]
    else [Digit(Sextet0(s[0])), Digit(Sextet1(s[0], s[1])), Digit(Sextet2(s[1], s[2])), Digit(Sextet3(s[2]))]
  }

  function Encode(s: seq<u8>): (t: seq<u8>) {
    if s == [] then []
    else if |s| <= 3 then Group(s)
    else Group(s[..3]) + Encode(s[3..])
  }

  lemma {:induction false} EncodedLength(s: seq<u8>)
    ensures |Encode(s)| == (|s| + 2) / 3 * 4
  {
    if |s| > 3 {
      EncodedLength(s[3..]);
      Thirds(|s|, |Encode(s[3..])|, |Encode(s)|);
    } else if s != [] {
      assert Encode(s) == Group(s);
    }
  }

  lemma Thirds(n: nat, rest: nat, whole: nat)
    requires n > 3 && rest == (n - 3 + 2) / 3 * 4 && whole == 4 + rest
    ensures whole == (n + 2) / 3 * 4
  {
  }

  lemma {:induction false} EncodedIsText(s: seq<u8>)
    ensures 0 !in Encode(s)
  {
    if |s| > 3 { EncodedIsText(s[3..]); }
  }

  // The three bytes of four sextets.
  function Byte0(v0: nat, v1: nat): u8 requires v0 < 64 && v1 < 64 { v0 * 4 + v1 / 16 }
  function Byte1(v1: nat, v2: nat): u8 requires v1 < 64 && v2 < 64 { v1 % 16 * 16 + v2 / 4 }
  function Byte2(v2: nat, v3: nat): u8 requires v2 < 64 && v3 < 64 { v2 % 4 * 64 + v3 }

  /** The bytes of four characters; padding means fewer than three, and its spare bits are zero. */
  function Ungroup(g: seq<u8>): (r: Option<seq<u8>>)
    requires |g| == 4
    ensures r.Some? ==> 1 <= |r.value| <= 3
  {
    var v0, v1, v2, v3 := Value(g[0]), Value(g[1]), Value(g[2]), Value(g[3]);
    if v0.None? || v1.None? then None
    else if g[2] == PAD then
      if g[3] == PAD && v1.value % 16 == 0 then Some([Byte0(v0.value, v1.value)]) else None
    else if v2.None? then None
    else if g[3] == PAD then
      if v2.value % 4 == 0 then Some([Byte0(v0.value, v1.value), Byte1(v1.value, v2.value)]) else None
    else if v3.None? then None
    else Some([Byte0(v0.value, v1.value), Byte1(v1.value, v2.value), Byte2(v2.value, v3.value)])
  }

  /** Only the last group may be padded. */
  function Decode(t: seq<u8>): Option<seq<u8>> {
    if t == [] then Some([])
    else if |t| < 4 then None
    else
      var g, rest := Ungroup(t[..4]), Decode(t[4..]);
      if g.None? || rest.None? || (|g.value| < 3 && |t| > 4) then None else Some(g.value + rest.value)
  }

  /** Cutting three bytes into sextets and putting them together again. */
  lemma BytesOfSextets(a: u8, b: u8, c: u8)
    ensures Byte0(Sextet0(a), Sextet1(a, b)) == a
    ensures Byte1(Sextet1(a, b), Sextet2(b, c)) == b
    ensures Byte2(Sextet2(b, c), Sextet3(c)) == c
    ensures b == 0 ==> Sextet1(a, b) % 16 == 0
    ensures c == 0 ==> Sextet2(b, c) % 4 == 0
  {
    Split(a % 4, b / 16, 16);
    Split(b % 16, c / 64, 4);
  }

  lemma SextetsOfBytes(v0: nat, v1: nat, v2: nat, v3: nat)
    requires v0 < 64 && v1 < 64 && v2 < 64 && v3 < 64
    ensures Sextet0(Byte0(v0, v1)) == v0
    ensures Sextet1(Byte0(v0, v1), Byte1(v1, v2)) == v1
    ensures Sextet2(Byte1(v1, v2), Byte2(v2, v3)) == v2
    ensures Sextet3(Byte2(v2, v3)) == v3
    ensures v1 % 16 == 0 ==> Sextet1(Byte0(v0, v1), 0) == v1
    ensures v2 % 4 == 0 ==> Sextet2(Byte1(v1, v2), 0) == v2
  {
    Split(v0, v1 / 16, 4);
    Split(v1 % 16, v2 / 4, 16);
    Split(v2 % 4, v3, 64);
  }

  lemma Split(hi: nat, lo: nat, n: nat)
    requires lo < n
    ensures (hi * n + lo) / n == hi && (hi * n + lo) % n == lo
  {
    QuotientIs(n, hi, lo);
  }

  lemma UngroupThree(v0: nat, v1: nat, v2: nat, v3: nat)
    requires v0 < 64 && v1 < 64 && v2 < 64 && v3 < 64
    ensures Ungroup([Digit(v0), Digit(v1), Digit(v2), Digit(v3)]) == Some([Byte0(v0, v1), Byte1(v1, v2), Byte2(v2, v3)])
  {
    ValueOfDigit(v0);
    ValueOfDigit(v1);
    ValueOfDigit(v2);
    ValueOfDigit(v3);
  }

  lemma UngroupTwo(v0: nat, v1: nat, v2: nat)
    requires v0 < 64 && v1 < 64 && v2 < 64 && v2 % 4 == 0
    ensures Ungroup([Digit(v0), Digit(v1), Digit(v2), PAD]) == Some([Byte0(v0, v1), Byte1(v1, v2)])
  {
    ValueOfDigit(v0);
    ValueOfDigit(v1);
    ValueOfDigit(v2);
  }

  lemma UngroupOne(v0: nat, v1: nat)
    requires v0 < 64 && v1 < 64 && v1 % 16 == 0
    ensures Ungroup([Digit(v0), Digit(v1), PAD, PAD]) == Some([Byte0(v0, v1)])
  {
    ValueOfDigit(v0);
    ValueOfDigit(v1);
  }

  lemma ThreeBytes(a: u8, b: u8, c: u8)
    ensures Ungroup(Group([a, b, c])) == Some([a, b, c])
  {
    BytesOfSextets(a, b, c);
    UngroupThree(Sextet0(a), Sextet1(a, b), Sextet2(b, c), Sextet3(c));
  }

  lemma TwoBytes(a: u8, b: u8)
    ensures Ungroup(Group([a, b])) == Some([a, b])
  {
    BytesOfSextets(a, b, 0);
    UngroupTwo(Sextet0(a), Sextet1(a, b), Sextet2(b, 0));
  }

  lemma OneByte(a: u8)
    ensures Ungroup(Group([a])) == Some([a])
  {
    LoneSextets(a);
    UngroupOne(Sextet0(a), Sextet1(a, 0));
  }

  lemma LoneSextets(a: u8)
    ensures Sextet1(a, 0) % 16 == 0 && Byte0(Sextet0(a), Sextet1(a, 0)) == a
  {
    assert a % 4 * 16 / 16 == a % 4;
  }

  lemma UngroupGroup(s: seq<u8>)
    requires 1 <= |s| <= 3
    ensures Ungroup(Group(s)) == Some(s)
  {
    if |s| == 1 {
      assert s == [s[0]];
      OneByte(s[0]);
    } else if |s| == 2 {
      assert s == [s[0], s[1]];
      TwoBytes(s[0], s[1]);
    } else {
      assert s == [s[0], s[1], s[2]];
      ThreeBytes(s[0], s[1], s[2]);
    }
  }

  /** Decoding gives back every byte string. */
  lemma {:induction false} RoundTrip(s: seq<u8>)
    ensures Decode(Encode(s)) == Some(s)
  {
    var t := Encode(s);
    if s == [] {
    } else if |s| <= 3 {
      UngroupGroup(s);
      assert t[..4] == Group(s) && t[4..] == [];
      assert Decode(t[4..]) == Some([]);
      assert s + [] == s;
    } else {
      UngroupGroup(s[..3]);
      RoundTrip(s[3..]);
      assert t[..4] == Group(s[..3]) && t[4..] == Encode(s[3..]);
      assert s[..3] + s[3..] == s;
    }
  }

  lemma UngroupCanonical(g: seq<u8>)
    requires |g| == 4 && Ungroup(g).Some?
    ensures Group(Ungroup(g).value) == g
  {
    if g[2] == PAD {
      assert g == [g[0], g[1], PAD, PAD];
      PaddedTwice(g[0], g[1]);
    } else if g[3] == PAD {
      assert g == [g[0], g[1], g[2], PAD];
      PaddedOnce(g[0], g[1], g[2]);
    } else {
      assert g == [g[0], g[1], g[2], g[3]];
      Unpadded(g[0], g[1], g[2], g[3]);
    }
  }

  lemma PaddedTwice(a: u8, b: u8)
    requires Ungroup([a, b, PAD, PAD]).Some?
    ensures Group(Ungroup([a, b, PAD, PAD]).value) == [a, b, PAD, PAD]
  {
    DigitOfValue(a);
    DigitOfValue(b);
    LoneByte(Value(a).value, Value(b).value);
  }

  lemma LoneByte(v0: nat, v1: nat)
    requires v0 < 64 && v1 < 64 && v1 % 16 == 0
    ensures Sextet0(Byte0(v0, v1)) == v0 && Sextet1(Byte0(v0, v1), 0) == v1
  {
  }

  lemma PaddedOnce(a: u8, b: u8, c: u8)
    requires c != PAD && Ungroup([a, b, c, PAD]).Some?
    ensures Group(Ungroup([a, b, c, PAD]).value) == [a, b, c, PAD]
  {
    DigitOfValue(a);
    DigitOfValue(b);
    DigitOfValue(c);
    SextetsOfBytes(Value(a).value, Value(b).value, Value(c).value, 0);
  }

  lemma Unpadded(a: u8, b: u8, c: u8, d: u8)
    requires c != PAD && d != PAD && Ungroup([a, b, c, d]).Some?
    ensures Group(Ungroup([a, b, c, d]).value) == [a, b, c, d]
  {
    DigitOfValue(a);
    DigitOfValue(b);
    DigitOfValue(c);
    DigitOfValue(d);
    SextetsOfBytes(Value(a).value, Value(b).value, Value(c).value, Value(d).value);
  }

  lemma DigitOfValue(c: u8)
    requires Value(c).Some?
    ensures Digit(Value(c).value) == c
  {
  }

  /** And whatever decodes is the encoding of what it decodes to: the code is one-to-one. */
  lemma {:induction false} Canonical(t: seq<u8>)
    requires Decode(t).Some?
    ensures Encode(Decode(t).value) == t
  {
    if t != [] {
      UngroupCanonical(t[..4]);
      Canonical(t[4..]);
      var g, rest := Ungroup(t[..4]).value, Decode(t[4..]).value;
      if rest == [] {
        assert Encode(rest) == [] && t[4..] == [];
        assert g + rest == g;
      } else {
        assert |t[4..]| > 0;
        assert (g + rest)[..3] == g && (g + rest)[3..] == rest;
      }
      assert t == t[..4] + t[4..];
    }
  }
}
