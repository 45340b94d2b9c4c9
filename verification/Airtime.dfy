/** LoRa time on air, after the symbol formula of Semtech AN1200.13, over the reals. */
module Airtime {
  import opened Bytes
  import opened Products

  const PREAMBLE_SYMBOLS := 8

  /** Spreading factor, bandwidth in kHz, coding-rate denominator. */
  datatype Modulation = Modulation(sf: u8, bw: real, crDenom: u8)

  function Clamp(x: int, lo: int, hi: int): (r: int)
    requires lo <= hi
    ensures lo <= r <= hi
  {
    if x < lo then lo else if x > hi then hi else x
  }

  function SymbolMs(sf: nat, bw: real): (r: real)
    requires bw > 0.0
    ensures r > 0.0
  {
    Pow2(sf) as real / bw
  }

  /** Coded blocks: as many as are begun by `bits` bits, `perBlock` to a block. */
  function Blocks(bits: int, perBlock: nat): nat
    requires perBlock > 0
  {
    if bits > 0 then (bits + perBlock - 1) / perBlock else 0
  }

  /** Eight symbols, and CR + 4 for every block of 4(SF - 2DE) bits begun. */
  function PayloadSymbols(len: nat, sf: nat, cr: nat, lowRate: bool): (r: nat)
    requires sf >= 5
    ensures r >= 8
  {
    8 + Blocks(8 * len - 4 * sf + 28 + 16, 4 * (sf - (if lowRate then 2 else 0))) * (cr + 4)
  }

  /** Preamble, sync and payload, `ms` a symbol. */
  function OnAir(payload: nat, ms: real): real {
    (PREAMBLE_SYMBOLS as real + 4.25 + payload as real) * ms
  }

  function Rounded(toa: real): int {
    (toa + 0.999).Floor
  }

  function MsOf(m: Modulation): (r: real)
    ensures r > 0.0
  {
    SymbolMs(Clamp(m.sf, 5, 12), if m.bw <= 0.0 then 125.0 else m.bw)
  }

  function SymbolsOf(len: nat, m: Modulation): nat {
    PayloadSymbols(len, Clamp(m.sf, 5, 12), Clamp(m.crDenom - 4, 1, 4), MsOf(m) >= 16.0)
  }

  /** Whole milliseconds on air, as the firmware rounds them. */
  function AirMs(len: nat, m: Modulation): (r: nat) {
    RoundedIsNat(SymbolsOf(len, m), MsOf(m));
    Rounded(OnAir(SymbolsOf(len, m), MsOf(m)))
  }

  lemma RoundedIsNat(n: nat, ms: real)
    requires ms > 0.0
    ensures Rounded(OnAir(n, ms)) >= 0
  {
    RealMul(0.0, PREAMBLE_SYMBOLS as real + 4.25 + n as real, ms);
  }

  // ---- the firmware's steps -------------------------------------------------------------

  /** Truncate the quotient and correct it upwards. */
  method CeilOfRatio(a: nat, b: nat) returns (n: int)
    requires a > 0 && b > 0
    ensures n == Blocks(a, b)
  {
    var x := a as real / b as real;
    n := x.Floor;
    CeilBounds(a, b, x);
    if n as real < x { n := n + 1; }
  }

  lemma CeilBounds(a: nat, b: nat, x: real)
    requires a > 0 && b > 0 && x == a as real / b as real
    ensures var n := x.Floor; Blocks(a, b) == if n as real < x then n + 1 else n
  {
    var q, r := a / b, a % b;
    assert a == b * q + r;
    if r == 0 {
      Exact(x, q, b);
      assert a + b - 1 == b * q + (b - 1);
      QuotientIs(b, q, b - 1);
    } else {
      Between(x, q, b, r);
      assert a + b - 1 == b * (q + 1) + (r - 1);
      QuotientIs(b, q + 1, r - 1);
    }
  }

  lemma Exact(x: real, q: nat, b: nat)
    requires b > 0 && x * b as real == (b * q) as real
    ensures x == q as real
  {
    assert (x - q as real) * b as real == 0.0;
  }

  lemma Between(x: real, q: nat, b: nat, r: nat)
    requires 0 < r < b && x * b as real == (b * q + r) as real
    ensures q as real < x < q as real + 1.0
  {
    RealCancel(q as real, x, b as real);
    RealCancel(x, q as real + 1.0, b as real);
  }

  method CountSymbols(len: nat, sf: int, cr: int, tSym: real) returns (n: int)
    requires 5 <= sf <= 12 && 1 <= cr <= 4
    ensures n == PayloadSymbols(len, sf, cr, tSym >= 16.0)
  {
    var de := if tSym >= 16.0 then 1 else 0;
    var num, den := 8 * len - 4 * sf + 28 + 16, 4 * (sf - 2 * de);
    n := 8;
    if num > 0 && den > 0 {
      var blocks := CeilOfRatio(num, den);
      n := n + blocks * (cr + 4);
    }
  }

  method Within(x: int, lo: int, hi: int) returns (r: int)
    requires lo <= hi
    ensures r == Clamp(x, lo, hi)
  {
    r := x;
    if r < lo { r := lo; }
    if r > hi { r := hi; }
  }

  method SymbolTime(sf: nat, m: Modulation) returns (ms: real)
    requires sf == Clamp(m.sf, 5, 12)
    ensures ms == MsOf(m)
  {
    var bw := m.bw;
    if bw <= 0.0 { bw := 125.0; }
    ms := SymbolMs(sf, bw);
  }

  method EstimateAirtimeMs(len: nat, m: Modulation) returns (ms: nat)
    ensures ms == AirMs(len, m)
  {
    var sf := Within(m.sf, 5, 12);
    var cr := Within(m.crDenom - 4, 1, 4);
    var tSym := SymbolTime(sf, m);
    var payloadSymb := CountSymbols(len, sf, cr, tSym);
    var toa := RoundUp(payloadSymb, tSym);
    ms := toa;
  }

  method RoundUp(payloadSymb: nat, tSym: real) returns (ms: int)
    ensures ms == Rounded(OnAir(payloadSymb, tSym))
  {
    var toa := (PREAMBLE_SYMBOLS as real + 4.25) * tSym + payloadSymb as real * tSym;
    ms := (toa + 0.999).Floor;
  }

  // ---- bounds ------------------------------------------------------------------------

  lemma {:induction false} Pow2Grows(a: nat, b: nat)
    requires a <= b
    ensures Pow2(a) <= Pow2(b)
  {
    if a < b { Pow2Grows(a, b - 1); }
  }

  lemma SymbolsBound(len: nat, m: Modulation)
    requires len <= 256
    ensures SymbolsOf(len, m) <= 1392
  {
    var sf, cr, low := Clamp(m.sf, 5, 12), Clamp(m.crDenom - 4, 1, 4), MsOf(m) >= 16.0;
    BlocksBound(8 * len - 4 * sf + 28 + 16, 4 * (sf - (if low then 2 else 0)));
    MulBound(Blocks(8 * len - 4 * sf + 28 + 16, 4 * (sf - (if low then 2 else 0))), cr + 4);
  }

  lemma MulBound(n: nat, k: nat)
    requires n <= 173 && k <= 8
    ensures n * k <= 1384
  {
    MulGrows(n, 173, k);
  }

  lemma BlocksBound(bits: int, perBlock: nat)
    requires bits <= 2072 && perBlock >= 12
    ensures Blocks(bits, perBlock) <= 173
  {
    if bits > 0 {
      var n := bits - 1;
      assert n + perBlock == perBlock * (n / perBlock + 1) + n % perBlock;
      QuotientIs(perBlock, n / perBlock + 1, n % perBlock);
      QuotientByMore(n, 12, perBlock);
    }
  }

  lemma SymbolMsBound(sf: nat, bw: real)
    requires sf <= 12 && bw >= 7.0
    ensures SymbolMs(sf, bw) <= 600.0
  {
    Pow2Grows(sf, 12);
    assert Pow2(4) == 16;
    assert Pow2(8) == 256;
    assert Pow2(12) == 4096;
    RealMul(7.0, bw, 600.0);
    RealCancel(SymbolMs(sf, bw), 600.0, bw);
  }

  lemma OnAirBound(n: nat, ms: real)
    requires n <= 1392 && 0.0 < ms <= 600.0
    ensures Rounded(OnAir(n, ms)) <= 900_000
  {
    ProductBound(PREAMBLE_SYMBOLS as real + 4.25 + n as real, ms, 1405.0, 600.0);
  }

  /** Any packet at any spreading factor and SX1262 bandwidth stays under 15 minutes on air. */
  lemma AirtimeBounded(len: nat, m: Modulation)
    requires len <= 256 && m.bw >= 7.0
    ensures AirMs(len, m) <= 900_000
  {
    SymbolMsBound(Clamp(m.sf, 5, 12), m.bw);
    SymbolsBound(len, m);
    OnAirBound(SymbolsOf(len, m), MsOf(m));
  }

  /** A longer packet is never on the air for less time. */
  lemma LongerTakesLonger(a: nat, b: nat, m: Modulation)
    requires a <= b
    ensures AirMs(a, m) <= AirMs(b, m)
  {
    MoreSymbols(a, b, Clamp(m.sf, 5, 12), Clamp(m.crDenom - 4, 1, 4), MsOf(m) >= 16.0);
    OnAirGrows(SymbolsOf(a, m), SymbolsOf(b, m), MsOf(m));
  }

  lemma OnAirGrows(x: nat, y: nat, ms: real)
    requires x <= y && ms > 0.0
    ensures Rounded(OnAir(x, ms)) <= Rounded(OnAir(y, ms))
  {
    var base := PREAMBLE_SYMBOLS as real + 4.25;
    RealMul(base + x as real, base + y as real, ms);
  }

  lemma MoreSymbols(a: nat, b: nat, sf: nat, cr: nat, low: bool)
    requires a <= b && 5 <= sf <= 12
    ensures PayloadSymbols(a, sf, cr, low) <= PayloadSymbols(b, sf, cr, low)
  {
    var p := 4 * (sf - (if low then 2 else 0));
    var m, n := 8 * a - 4 * sf + 28 + 16, 8 * b - 4 * sf + 28 + 16;
    if m > 0 { QuotientGrows(m + p - 1, n + p - 1, p); }
    MulGrows(Blocks(m, p), Blocks(n, p), cr + 4);
  }
}
