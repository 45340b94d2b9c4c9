/**
 The link's frames and the byte-at-a-time parser, on whole streams.
 */
module LinkFraming {
  import opened Bytes
  import opened LinkCrc

  const PRE0: u8 := 0xAA
  const PRE1: u8 := 0x55
  const HEADER_LEN := 6
  const CRC_LEN := 2
  const MAX_PAYLOAD := 300
  const MAX_FRAME := 308

  datatype Frame = Frame(kind: u8, radio: u8, payload: seq<u8>)

  /** The check over a frame's covered bytes; framing is the same for any 16-bit check. */
  type Check = seq<u8> -> u16

  // ---- the CRC on integer bytes ----------------------------------------------------

  function Bits(s: seq<u8>): (r: seq<byte>)
    ensures |r| == |s|
  {
    seq(|s|, i requires 0 <= i < |s| => s[i] as bv8)
  }

  lemma CrcIsWord(c: crc)
    ensures 0 <= c as int < 65536 && (c as int) as bv16 == c
  {
  }

  function Crc(s: seq<u8>): u16
  {
    CrcIsWord(Crc16(Bits(s)));
    Crc16(Bits(s)) as int
  }

  // ---- building a frame ------------------------------------------------------------

  function Join(lo: u8, hi: u8): nat {
    var a: int, b: int := lo, hi;
    a + 256 * b
  }

  lemma JoinSplit(n: nat)
    requires n < 65536
    ensures Join(n % 256, n / 256) == n
  {
  }

  lemma SplitJoin(lo: u8, hi: u8)
    ensures Join(lo, hi) < 65536 && Join(lo, hi) % 256 == lo && Join(lo, hi) / 256 == hi
  {
  }

  /** Type, radio and length: the header bytes the CRC covers. */
  function Head(f: Frame): (h: seq<u8>)
    requires |f.payload| <= MAX_PAYLOAD
    ensures |h| == 4
  {
    [f.kind, f.radio, |f.payload| % 256, |f.payload| / 256]
  }

  function Trailer(k: Check, body: seq<u8>): (t: seq<u8>)
    ensures |t| == CRC_LEN
  {
    [k(body) % 256, k(body) / 256]
  }

  /** The bytes of a frame on the wire. */
  function Build(k: Check, f: Frame): (r: seq<u8>)
    requires |f.payload| <= MAX_PAYLOAD
    ensures |r| == HEADER_LEN + |f.payload| + CRC_LEN
  {
    [PRE0, PRE1] + Head(f) + f.payload + Trailer(k, Head(f) + f.payload)
  }

  method CrcOfBytes(s: seq<u8>) returns (c: int)
    ensures c == Crc(s)
  {
    var r := ComputeCrc16(Bits(s));
    c := r as int;
  }

  /** Fill the caller's buffer; 0 when the payload is too long or the buffer too small. */
  method BuildFrame(out: array<u8>, f: Frame) returns (n: nat)
    modifies out
    ensures n > 0 <==> |f.payload| <= MAX_PAYLOAD && HEADER_LEN + |f.payload| + CRC_LEN <= out.Length
    ensures n > 0 ==> n <= out.Length && out[..n] == Build(Crc, f)
    ensures n == 0 ==> out[..] == old(out[..])
  {
    var len := |f.payload|;
    if len > MAX_PAYLOAD { return 0; }
    var total := HEADER_LEN + len + CRC_LEN;
    if total > out.Length { return 0; }
    var head := Head(f);
    forall i | 0 <= i < 6 { out[i] := ([PRE0, PRE1] + head)[i]; }
    forall i | 0 <= i < len { out[6 + i] := f.payload[i]; }
    assert out[..6] == [PRE0, PRE1] + head;
    assert out[6..6 + len] == f.payload;
    assert out[2..6 + len] == head + f.payload;
    var c := CrcOfBytes(out[2..6 + len]);
    out[6 + len] := c % 256;
    out[6 + len + 1] := c / 256;
    assert out[..total] == out[..6] + out[6..6 + len] + out[6 + len..total];
    assert out[6 + len..total] == Trailer(Crc, head + f.payload);
    n := total;
  }

  // ---- the parser --------------------------------------------------------------------

  datatype Parser =
    | Hunt                                        // waiting for AA
    | Half                                        // seen AA, waiting for 55
    | Hdr(h: seq<u8>)                           // collecting type, radio, length
    | Body(h: seq<u8>, buf: seq<u8>)          // collecting payload and CRC

  /** Bytes still expected in the current frame. */
  ghost predicate Wellformed(p: Parser) {
    match p
    case Hunt => true
    case Half => true
    case Hdr(h) => |h| < 4
    case Body(h, buf) => |h| == 4 && Join(h[2], h[3]) <= MAX_PAYLOAD && |buf| < Join(h[2], h[3]) + CRC_LEN
  }

  datatype Turn = Turn(parser: Parser, out: seq<Frame>)

  function Finish(k: Check, h: seq<u8>, buf: seq<u8>): seq<Frame>
    requires |h| == 4 && |buf| == Join(h[2], h[3]) + CRC_LEN
  {
    var n := Join(h[2], h[3]);
    if k(h + buf[..n]) == Join(buf[n], buf[n + 1]) then [Frame(h[0], h[1], buf[..n])] else []
  }

  /** One byte. */
  function Step(k: Check, p: Parser, b: u8): (t: Turn)
    requires Wellformed(p)
    ensures Wellformed(t.parser)
  {
    match p
    case Hunt => Turn(if b == PRE0 then Half else Hunt, [])
    case Half => Turn(if b == PRE1 then Hdr([]) else if b == PRE0 then Half else Hunt, [])
    case Hdr(h) =>
      var h' := h + [b];
      if |h'| < 4 then Turn(Hdr(h'), [])
      else if Join(h'[2], h'[3]) > MAX_PAYLOAD then Turn(Hunt, [])
      else Turn(Body(h', []), [])
    case Body(h, buf) =>
      var buf' := buf + [b];
      if |buf'| == Join(h[2], h[3]) + CRC_LEN then Turn(Hunt, Finish(k, h, buf')) else Turn(Body(h, buf'), [])
  }

  /** A whole stream. */
  function Feed(k: Check, p: Parser, s: seq<u8>): (t: Turn)
    requires Wellformed(p)
    ensures Wellformed(t.parser)
    decreases |s|
  {
    if s == [] then Turn(p, [])
    else
      var one := Step(k, p, s[0]);
      var rest := Feed(k, one.parser, s[1..]);
      Turn(rest.parser, one.out + rest.out)
  }

  /** The first byte's turn, and the rest, with and without more behind. */
  lemma FeedHead(k: Check, p: Parser, s: seq<u8>, t: seq<u8>) returns (p': Parser, out: seq<Frame>)
    requires Wellformed(p) && s != []
    ensures Wellformed(p')
    ensures Feed(k, p, s) == Turn(Feed(k, p', s[1..]).parser, out + Feed(k, p', s[1..]).out)
    ensures Feed(k, p, s + t) == Turn(Feed(k, p', s[1..] + t).parser, out + Feed(k, p', s[1..] + t).out)
  {
    var one := Step(k, p, s[0]);
    p', out := one.parser, one.out;
    assert (s + t)[0] == s[0] && (s + t)[1..] == s[1..] + t;
  }

  lemma Assoc<T>(a: seq<T>, b: seq<T>, c: seq<T>)
    ensures (a + b) + c == a + (b + c)
  {
  }

  /** Feeding `s` and then `t`, where the parser is `q` in between. */
  lemma {:induction false} FeedThen(k: Check, p: Parser, s: seq<u8>, q: Parser, t: seq<u8>)
    requires Wellformed(p) && Wellformed(q) && Feed(k, p, s).parser == q
    ensures Feed(k, p, s + t) == Turn(Feed(k, q, t).parser, Feed(k, p, s).out + Feed(k, q, t).out)
    decreases |s|
  {
    if s == [] {
      assert s + t == t;
      assert Feed(k, p, s) == Turn(p, []);
    } else {
      var p', out := FeedHead(k, p, s, t);
      FeedThen(k, p', s[1..], q, t);
      Assoc(out, Feed(k, p', s[1..]).out, Feed(k, q, t).out);
    }
  }

  // ---- frames come out ------------------------------------------------------------------

  /** Collecting: bytes short of the end only fill the buffer. */
  lemma {:induction false} FillBody(k: Check, h: seq<u8>, buf: seq<u8>, s: seq<u8>)
    requires Wellformed(Body(h, buf)) && |buf| + |s| <= Join(h[2], h[3]) + CRC_LEN
    ensures Feed(k, Body(h, buf), s) ==
            if |buf| + |s| == Join(h[2], h[3]) + CRC_LEN then Turn(Hunt, Finish(k, h, buf + s))
            else Turn(Body(h, buf + s), [])
    decreases |s|
  {
    if s == [] {
      assert buf + s == buf;
    } else {
      assert buf + s == (buf + [s[0]]) + s[1..];
      if |s| == 1 {
        assert s[1..] == [] && buf + s == buf + [s[0]];
        assert Feed(k, Hunt, s[1..]) == Turn(Hunt, []);
      } else {
        FillBody(k, h, buf + [s[0]], s[1..]);
      }
    }
  }

  lemma TakeHeader(k: Check, h: seq<u8>)
    requires |h| == 4
    ensures Feed(k, Hdr([]), h) == Turn(if Join(h[2], h[3]) > MAX_PAYLOAD then Hunt else Body(h, []), [])
  {
    var none: seq<u8> := [];
    assert none + [h[0]] == [h[0]];
    assert [h[0]] + [h[1]] == [h[0], h[1]];
    assert [h[0], h[1]] + [h[2]] == [h[0], h[1], h[2]];
    assert [h[0], h[1], h[2]] + [h[3]] == h;
    assert h[1..][1..][1..][1..] == [];
    var last := Step(k, Hdr([h[0], h[1], h[2]]), h[3]);
    assert Feed(k, last.parser, h[1..][1..][1..][1..]) == Turn(last.parser, []);
    assert Feed(k, Hdr([h[0], h[1], h[2]]), h[1..][1..][1..]) == last;
    assert Feed(k, Hdr([h[0], h[1]]), h[1..][1..]) == last;
    assert Feed(k, Hdr([h[0]]), h[1..]) == last;
  }

  lemma TakePreamble(k: Check, p: Parser)
    requires p == Hunt || p == Half
    ensures Feed(k, p, [PRE0, PRE1]) == Turn(Hdr([]), [])
  {
    var s := [PRE0, PRE1];
    assert s[1..] == [PRE1] && s[1..][1..] == [];
    assert Step(k, p, PRE0) == Turn(Half, []);
    assert Step(k, Half, PRE1) == Turn(Hdr([]), []);
    assert Feed(k, Hdr([]), s[1..][1..]) == Turn(Hdr([]), []);
    assert Feed(k, Half, s[1..]) == Turn(Hdr([]), []);
  }

  lemma TakeStart(k: Check, p: Parser, h: seq<u8>)
    requires p == Hunt || p == Half
    requires |h| == 4 && Join(h[2], h[3]) <= MAX_PAYLOAD
    ensures Feed(k, p, [PRE0, PRE1] + h) == Turn(Body(h, []), [])
  {
    TakePreamble(k, p);
    TakeHeader(k, h);
    FeedThen(k, p, [PRE0, PRE1], Hdr([]), h);
  }

  /** From hunting, a preamble, header and body of the announced length end in Finish. */
  lemma WholeFrame(k: Check, p: Parser, h: seq<u8>, buf: seq<u8>)
    requires p == Hunt || p == Half
    requires |h| == 4 && Join(h[2], h[3]) <= MAX_PAYLOAD && |buf| == Join(h[2], h[3]) + CRC_LEN
    ensures Feed(k, p, [PRE0, PRE1] + h + buf) == Turn(Hunt, Finish(k, h, buf))
  {
    TakeStart(k, p, h);
    FillBody(k, h, [], buf);
    var none: seq<u8> := [];
    assert none + buf == buf;
    FeedThen(k, p, [PRE0, PRE1] + h, Body(h, []), buf);
  }

  /** A built frame is delivered, once, and the parser is hunting again. */
  lemma BuiltFrameDelivered(k: Check, p: Parser, f: Frame)
    requires p == Hunt || p == Half
    requires |f.payload| <= MAX_PAYLOAD
    ensures Feed(k, p, Build(k, f)) == Turn(Hunt, [f])
  {
    var h, body := Head(f), Head(f) + f.payload;
    var buf := f.payload + Trailer(k, body);
    JoinSplit(|f.payload|);
    assert Build(k, f) == [PRE0, PRE1] + h + buf;
    WholeFrame(k, p, h, buf);
    assert buf[..|f.payload|] == f.payload;
    JoinSplit(k(body));
    assert buf[|f.payload|] == Trailer(k, body)[0] && buf[|f.payload| + 1] == Trailer(k, body)[1];
  }

  /** No adjacent AA 55 pair. */
  ghost predicate NoSync(s: seq<u8>) {
    forall i :: 0 <= i < |s| - 1 ==> !(s[i] == PRE0 && s[i + 1] == PRE1)
  }

  /** Garbage without a preamble delivers nothing and leaves the parser hunting. */
  lemma {:induction false} GarbageIgnored(k: Check, p: Parser, g: seq<u8>)
    requires p == Hunt || p == Half
    requires NoSync(g) && (p == Half && g != [] ==> g[0] != PRE1)
    ensures var t := Feed(k, p, g); (t.parser == Hunt || t.parser == Half) && t.out == []
    decreases |g|
  {
    if g != [] {
      var one := Step(k, p, g[0]);
      assert one.parser == Half ==> g[0] == PRE0;
      assert NoSync(g[1..]) by {
        forall i | 0 <= i < |g[1..]| - 1 ensures !(g[1..][i] == PRE0 && g[1..][i + 1] == PRE1) {
          assert g[1..][i] == g[i + 1] && g[1..][i + 1] == g[i + 2];
        }
      }
      assert |g| > 1 && g[0] == PRE0 ==> g[0 + 1] != PRE1;
      GarbageIgnored(k, one.parser, g[1..]);
    }
  }

  /** Garbage, frame, garbage, frame, ... */
  function Interleave(k: Check, gs: seq<seq<u8>>, fs: seq<Frame>): seq<u8>
    requires |gs| == |fs| && forall f :: f in fs ==> |f.payload| <= MAX_PAYLOAD
  {
    if fs == [] then [] else gs[0] + Build(k, fs[0]) + Interleave(k, gs[1..], fs[1..])
  }

  /** One stretch of garbage and one frame. */
  lemma OneRound(k: Check, g: seq<u8>, f: Frame, rest: seq<u8>)
    requires NoSync(g) && |f.payload| <= MAX_PAYLOAD
    ensures Feed(k, Hunt, g + Build(k, f) + rest).out == [f] + Feed(k, Hunt, rest).out
  {
    GarbageIgnored(k, Hunt, g);
    var p := Feed(k, Hunt, g).parser;
    BuiltFrameDelivered(k, p, f);
    Chain3(k, g, p, Build(k, f), [f], rest);
  }

  lemma Chain3(k: Check, g: seq<u8>, p: Parser, w: seq<u8>, fs: seq<Frame>, rest: seq<u8>)
    requires Wellformed(p) && Feed(k, Hunt, g) == Turn(p, []) && Feed(k, p, w) == Turn(Hunt, fs)
    ensures Feed(k, Hunt, g + w + rest).out == fs + Feed(k, Hunt, rest).out
  {
    Chain2(k, g, p, w, fs);
    FeedThen(k, Hunt, g + w, Hunt, rest);
  }

  lemma Chain2(k: Check, g: seq<u8>, p: Parser, w: seq<u8>, fs: seq<Frame>)
    requires Wellformed(p) && Feed(k, Hunt, g) == Turn(p, []) && Feed(k, p, w) == Turn(Hunt, fs)
    ensures Feed(k, Hunt, g + w) == Turn(Hunt, fs)
  {
    FeedThen(k, Hunt, g, p, w);
    assert [] + fs == fs;
  }

  /**
   Any sequence of frames separated, preceded and followed by garbage without AA 55
   pairs is delivered exactly, in order, and nothing else is.
   */
  lemma {:induction false} StreamDelivered(k: Check, gs: seq<seq<u8>>, fs: seq<Frame>, tail: seq<u8>)
    requires |gs| == |fs| && forall f :: f in fs ==> |f.payload| <= MAX_PAYLOAD
    requires (forall g :: g in gs ==> NoSync(g)) && NoSync(tail)
    ensures Feed(k, Hunt, Interleave(k, gs, fs) + tail).out == fs
  {
    if fs == [] {
      GarbageIgnored(k, Hunt, tail);
      assert Interleave(k, gs, fs) + tail == tail;
    } else {
      var rest := Interleave(k, gs[1..], fs[1..]) + tail;
      StreamDelivered(k, gs[1..], fs[1..], tail);
      OneRound(k, gs[0], fs[0], rest);
      assert Interleave(k, gs, fs) + tail == gs[0] + Build(k, fs[0]) + rest;
    }
  }

  // ---- nothing else comes out ---------------------------------------------------------------

  /** The bytes of the frame being collected. */
  function Pending(p: Parser): seq<u8> {
    match p
    case Hunt => []
    case Half => [PRE0]
    case Hdr(h) => [PRE0, PRE1] + h
    case Body(h, buf) => [PRE0, PRE1] + h + buf
  }

  /** A delivered frame is exactly the built frame just completed. */
  lemma DeliveredWasBuilt(k: Check, p: Parser, b: u8)
    requires Wellformed(p) && Step(k, p, b).out != []
    ensures var f := Step(k, p, b).out[0];
            && Step(k, p, b) == Turn(Hunt, [f])
            && |f.payload| <= MAX_PAYLOAD
            && Pending(p) + [b] == Build(k, f)
  {
    var h, buf := p.h, p.buf + [b];
    var n := Join(h[2], h[3]);
    var f := Frame(h[0], h[1], buf[..n]);
    SplitJoin(h[2], h[3]);
    assert Head(f) == h;
    SplitJoin(buf[n], buf[n + 1]);
    assert buf == buf[..n] + [buf[n], buf[n + 1]];
    assert Pending(p) + [b] == [PRE0, PRE1] + h + buf;
  }

  /** A byte that delivers nothing turns some pending bytes into garbage and keeps the rest. */
  lemma SilentStep(k: Check, p: Parser, b: u8) returns (g: seq<u8>)
    requires Wellformed(p) && Step(k, p, b).out == []
    ensures Pending(p) + [b] == g + Pending(Step(k, p, b).parser)
  {
    var q := Step(k, p, b).parser;
    match p {
      case Hunt => g := if q == Half then [] else [b];
      case Half => g := if q == Hunt then [PRE0, b] else if q == Half then [PRE0] else [];
      case Hdr(h) =>
        if q == Hunt { g := Pending(p) + [b]; } else {
          g := [];
          assert Pending(p) + [b] == [PRE0, PRE1] + (h + [b]);
        }
      case Body(h, buf) =>
        if q == Hunt { g := Pending(p) + [b]; } else {
          g := [];
          assert Pending(p) + [b] == [PRE0, PRE1] + h + (buf + [b]);
        }
    }
  }

  /** `s` is garbage and frames `fs` in turn, and then `tail`. */
  ghost predicate ParsesAs(k: Check, s: seq<u8>, fs: seq<Frame>, gs: seq<seq<u8>>, tail: seq<u8>) {
    && |gs| == |fs| && (forall f :: f in fs ==> |f.payload| <= MAX_PAYLOAD)
    && s == Interleave(k, gs, fs) + tail
  }

  lemma PrependGarbage(k: Check, s: seq<u8>, g: seq<u8>, rest: seq<u8>, gs: seq<seq<u8>>, fs: seq<Frame>, tail: seq<u8>)
      returns (gs': seq<seq<u8>>, tail': seq<u8>)
    requires s == g + rest && ParsesAs(k, rest, fs, gs, tail)
    ensures ParsesAs(k, s, fs, gs', tail')
  {
    if fs == [] {
      gs', tail' := gs, g + tail;
      assert rest == tail;
      assert s == Interleave(k, gs', fs) + tail';
    } else {
      gs', tail' := [g + gs[0]] + gs[1..], tail;
      assert gs'[1..] == gs[1..];
      var more := Interleave(k, gs[1..], fs[1..]);
      assert g + (gs[0] + Build(k, fs[0]) + more + tail) == (g + gs[0]) + Build(k, fs[0]) + more + tail;
    }
  }

  lemma PrependFrame(k: Check, s: seq<u8>, f: Frame, rest: seq<u8>, gs: seq<seq<u8>>, fs: seq<Frame>, tail: seq<u8>)
    requires |f.payload| <= MAX_PAYLOAD && s == Build(k, f) + rest && ParsesAs(k, rest, fs, gs, tail)
    ensures ParsesAs(k, s, [f] + fs, [[]] + gs, tail)
  {
    var gs', fs' := [[]] + gs, [f] + fs;
    assert gs'[1..] == gs && fs'[1..] == fs;
    assert gs'[0] + Build(k, f) == Build(k, f);
  }

  lemma FeedFirst(k: Check, p: Parser, s: seq<u8>)
    requires Wellformed(p) && s != []
    ensures Feed(k, p, s).out == Step(k, p, s[0]).out + Feed(k, Step(k, p, s[0]).parser, s[1..]).out
    ensures Pending(p) + s == (Pending(p) + [s[0]]) + s[1..]
  {
  }

  lemma {:induction false} DeliveredParses(k: Check, p: Parser, s: seq<u8>) returns (gs: seq<seq<u8>>, tail: seq<u8>)
    requires Wellformed(p)
    ensures ParsesAs(k, Pending(p) + s, Feed(k, p, s).out, gs, tail)
    decreases |s|
  {
    if s == [] {
      gs, tail := [], Pending(p);
      assert Pending(p) + s == Interleave(k, gs, []) + tail;
    } else {
      FeedFirst(k, p, s);
      var one := Step(k, p, s[0]);
      var fs := Feed(k, one.parser, s[1..]).out;
      gs, tail := DeliveredParses(k, one.parser, s[1..]);
      if one.out == [] {
        gs, tail := ParseSilent(k, p, s, fs, gs, tail);
      } else {
        ParseDelivered(k, p, s, fs, gs, tail);
        gs := [[]] + gs;
      }
    }
  }

  lemma ParseSilent(k: Check, p: Parser, s: seq<u8>, fs: seq<Frame>, gs: seq<seq<u8>>, tail: seq<u8>)
      returns (gs': seq<seq<u8>>, tail': seq<u8>)
    requires Wellformed(p) && s != [] && Step(k, p, s[0]).out == []
    requires ParsesAs(k, Pending(Step(k, p, s[0]).parser) + s[1..], fs, gs, tail)
    ensures ParsesAs(k, Pending(p) + s, [] + fs, gs', tail')
  {
    var g := SilentStep(k, p, s[0]);
    var q := Step(k, p, s[0]).parser;
    assert Pending(p) + s == (Pending(p) + [s[0]]) + s[1..] == g + (Pending(q) + s[1..]);
    gs', tail' := PrependGarbage(k, Pending(p) + s, g, Pending(q) + s[1..], gs, fs, tail);
    assert [] + fs == fs;
  }

  lemma ParseBuilt(k: Check, pending: seq<u8>, s: seq<u8>, f: Frame, fs: seq<Frame>, gs: seq<seq<u8>>, tail: seq<u8>)
    requires s != [] && |f.payload| <= MAX_PAYLOAD && pending + [s[0]] == Build(k, f)
    requires ParsesAs(k, s[1..], fs, gs, tail)
    ensures ParsesAs(k, pending + s, [f] + fs, [[]] + gs, tail)
  {
    assert pending + s == (pending + [s[0]]) + s[1..];
    PrependFrame(k, pending + s, f, s[1..], gs, fs, tail);
  }

  lemma ParseDelivered(k: Check, p: Parser, s: seq<u8>, fs: seq<Frame>, gs: seq<seq<u8>>, tail: seq<u8>)
    requires Wellformed(p) && s != [] && Step(k, p, s[0]).out != []
    requires ParsesAs(k, Pending(Step(k, p, s[0]).parser) + s[1..], fs, gs, tail)
    ensures ParsesAs(k, Pending(p) + s, Step(k, p, s[0]).out + fs, [[]] + gs, tail)
  {
    DeliveredWasBuilt(k, p, s[0]);
    var rest := s[1..];
    assert Pending(Hunt) + rest == rest;
    ParseBuilt(k, Pending(p), s, Step(k, p, s[0]).out[0], fs, gs, tail);
  }

  /**
   Whatever the stream, every delivered frame stands in it as the exact bytes of a built
   frame, the frames being disjoint and in order.
   */
  lemma OnlyBuiltFramesDelivered(k: Check, s: seq<u8>)
    ensures exists gs: seq<seq<u8>>, tail: seq<u8> :: ParsesAs(k, s, Feed(k, Hunt, s).out, gs, tail)
  {
    var gs, tail := DeliveredParses(k, Hunt, s);
    assert Pending(Hunt) + s == s;
  }

  // ---- resynchronisation -----------------------------------------------------------------------

  /** How many more bytes the parser can stay inside a frame. */
  ghost function Remaining(p: Parser): nat
    requires Wellformed(p)
  {
    match p
    case Hunt => 0
    case Half => 0
    case Hdr(h) => (4 - |h|) + MAX_PAYLOAD + CRC_LEN
    case Body(h, buf) => Join(h[2], h[3]) + CRC_LEN - |buf|
  }

  /** From any state the parser is out of a frame again within MAX_FRAME bytes. */
  lemma {:induction false} LeavesFrame(k: Check, p: Parser, s: seq<u8>)
    requires Wellformed(p) && |s| >= Remaining(p)
    ensures exists n :: 0 <= n <= Remaining(p) <= MAX_FRAME && n <= |s| && !InFrame(Feed(k, p, s[..n]).parser)
    decreases |s|
  {
    if !InFrame(p) {
      assert s[..0] == [] && !InFrame(Feed(k, p, s[..0]).parser);
    } else {
      var q := Step(k, p, s[0]).parser;
      LeavesFrame(k, q, s[1..]);
      var n :| 0 <= n <= Remaining(q) && n <= |s[1..]| && !InFrame(Feed(k, q, s[1..][..n]).parser);
      assert s[..n + 1][0] == s[0] && s[..n + 1][1..] == s[1..][..n];
      assert !InFrame(Feed(k, p, s[..n + 1]).parser);
    }
  }

  predicate InFrame(p: Parser) {
    p.Hdr? || p.Body?
  }

  // ---- corrupted frames ---------------------------------------------------------------------------

  /** A frame whose body no longer matches its CRC bytes, its length intact, is dropped. */
  lemma MismatchDropped(k: Check, p: Parser, h: seq<u8>, payload: seq<u8>, lo: u8, hi: u8)
    requires p == Hunt || p == Half
    requires |h| == 4 && Join(h[2], h[3]) == |payload| <= MAX_PAYLOAD
    requires k(h + payload) != Join(lo, hi)
    ensures Feed(k, p, [PRE0, PRE1] + h + payload + [lo, hi]) == Turn(Hunt, [])
  {
    var buf := payload + [lo, hi];
    WholeFrame(k, p, h, buf);
    assert buf[..|payload|] == payload;
    assert [PRE0, PRE1] + h + payload + [lo, hi] == [PRE0, PRE1] + h + buf;
  }

  /** Damage to the covered bytes of a frame that leaves its length field alone. */
  ghost predicate Damaged(f: Frame, e: seq<byte>, h: seq<u8>, payload: seq<u8>)
    requires |f.payload| <= MAX_PAYLOAD
  {
    && |h| == 4 && |payload| == |f.payload|
    && h[2] == Head(f)[2] && h[3] == Head(f)[3]
    && Corrupted(Bits(Head(f) + f.payload), e, Bits(h + payload))
  }

  lemma CrcDiffers(a: seq<u8>, b: seq<u8>)
    requires Crc16(Bits(a)) != Crc16(Bits(b))
    ensures Crc(a) != Crc(b)
  {
    CrcIsWord(Crc16(Bits(a)));
    CrcIsWord(Crc16(Bits(b)));
  }

  /** When the damage changes the check, the frame is dropped. */
  lemma DamageDropped(k: Check, p: Parser, f: Frame, h: seq<u8>, payload: seq<u8>)
    requires p == Hunt || p == Half
    requires |f.payload| <= MAX_PAYLOAD && |h| == 4 && |payload| == |f.payload|
    requires h[2] == Head(f)[2] && h[3] == Head(f)[3]
    requires k(h + payload) != k(Head(f) + f.payload)
    ensures Feed(k, p, [PRE0, PRE1] + h + payload + Trailer(k, Head(f) + f.payload)) == Turn(Hunt, [])
  {
    var t := Trailer(k, Head(f) + f.payload);
    JoinSplit(|f.payload|);
    JoinSplit(k(Head(f) + f.payload));
    MismatchDropped(k, p, h, payload, t[0], t[1]);
    assert t == [t[0], t[1]];
  }

  /**
   A frame whose type, radio or payload is hit by one burst of at most 16 consecutive bits, in
   either bit order, while its length and its CRC bytes arrive intact, is never delivered in
   any form. For damage that reaches into the CRC bytes see LinkBursts.
   */
  lemma BurstNeverDelivered(p: Parser, f: Frame, before: seq<byte>, e0: byte, e1: byte, e2: byte, v: bv24, w: bv24, after: seq<byte>,
                            h: seq<u8>, payload: seq<u8>)
    requires p == Hunt || p == Half
    requires |f.payload| <= MAX_PAYLOAD && Quiet(before) && Quiet(after)
    requires Damaged(f, before + [e0, e1, e2] + after, h, payload)
    requires (Window(e0, e1, e2, v, w) || WireWindow(e0, e1, e2, v, w)) && v != 0
    ensures Feed(Crc, p, [PRE0, PRE1] + h + payload + Trailer(Crc, Head(f) + f.payload)) == Turn(Hunt, [])
  {
    BurstChangesCrc(Bits(Head(f) + f.payload), before, e0, e1, e2, v, w, after, Bits(h + payload));
    CrcDiffers(h + payload, Head(f) + f.payload);
    DamageDropped(Crc, p, f, h, payload);
  }

  /** A frame with one byte of its type, radio or payload damaged in any way is never delivered. */
  lemma ByteNeverDelivered(p: Parser, f: Frame, before: seq<byte>, e: byte, after: seq<byte>, h: seq<u8>, payload: seq<u8>)
    requires p == Hunt || p == Half
    requires |f.payload| <= MAX_PAYLOAD && Quiet(before) && Quiet(after) && e != 0
    requires Damaged(f, before + [e] + after, h, payload)
    ensures Feed(Crc, p, [PRE0, PRE1] + h + payload + Trailer(Crc, Head(f) + f.payload)) == Turn(Hunt, [])
  {
    ByteChangesCrc(Bits(Head(f) + f.payload), before, e, after, Bits(h + payload));
    CrcDiffers(h + payload, Head(f) + f.payload);
    DamageDropped(Crc, p, f, h, payload);
  }

  /** A frame damaged in its CRC bytes alone is never delivered, however they are damaged. */
  lemma CrcDamageNeverDelivered(p: Parser, f: Frame, lo: u8, hi: u8)
    requires p == Hunt || p == Half
    requires |f.payload| <= MAX_PAYLOAD && [lo, hi] != Trailer(Crc, Head(f) + f.payload)
    ensures Feed(Crc, p, [PRE0, PRE1] + Head(f) + f.payload + [lo, hi]) == Turn(Hunt, [])
  {
    SplitJoin(lo, hi);
    JoinSplit(|f.payload|);
    MismatchDropped(Crc, p, Head(f), f.payload, lo, hi);
  }
}
