/**
 The two parsers as the two firmwares hold them: state enum, counters and fixed buffers
 updated byte by byte. Both take the value-level step of LinkFraming.
 */
module LinkParsers {
  import opened Bytes
  import opened LinkFraming

  datatype RxState = StPre0 | StPre1 | StHdr | StPayload

  /** After `i` bytes of `s` the parser is `p`, has handed on `frames`, and the rest goes as from the start. */
  ghost predicate Fed(k: Check, start: Parser, s: seq<u8>, i: nat, p: Parser, frames: seq<Frame>)
    requires Wellformed(start) && Wellformed(p) && i <= |s|
  {
    Feed(k, start, s) == Turn(Feed(k, p, s[i..]).parser, frames + Feed(k, p, s[i..]).out)
  }

  lemma FedStart(k: Check, start: Parser, s: seq<u8>)
    requires Wellformed(start)
    ensures Fed(k, start, s, 0, start, [])
  {
    assert s[0..] == s;
  }

  lemma FedMore(k: Check, start: Parser, s: seq<u8>, i: nat, p: Parser, frames: seq<Frame>)
    requires Wellformed(start) && Wellformed(p) && i < |s| && Fed(k, start, s, i, p, frames)
    ensures Fed(k, start, s, i + 1, Step(k, p, s[i]).parser, frames + Step(k, p, s[i]).out)
  {
    var one := Step(k, p, s[i]);
    assert s[i..][0] == s[i] && s[i..][1..] == s[i + 1..];
    Assoc(frames, one.out, Feed(k, one.parser, s[i + 1..]).out);
  }

  lemma FedEnd(k: Check, start: Parser, s: seq<u8>, p: Parser, frames: seq<Frame>)
    requires Wellformed(start) && Wellformed(p) && Fed(k, start, s, |s|, p, frames)
    ensures Feed(k, start, s) == Turn(p, frames)
  {
    assert s[|s|..] == [];
  }

  /** A header byte: collect, or judge the length. */
  lemma StepHeader(k: Check, h: seq<u8>, b: u8)
    requires |h| < 4
    ensures var h' := h + [b];
            Step(k, Hdr(h), b) == Turn(if |h'| < 4 then Hdr(h') else if Join(h'[2], h'[3]) > MAX_PAYLOAD then Hunt else Body(h', []), [])
  {
  }

  /** The host's UartLink. */
  class HostParser {
    var st: RxState
    var hdr: array<u8>
    var hdrCount: nat
    var payLen: nat
    var payCount: nat
    var buf: array<u8>
    var handled: seq<Frame>           // frames passed to handleFrame

    ghost predicate Valid()
      reads this, hdr
    {
      && hdr.Length == 4 && buf.Length == MAX_PAYLOAD + CRC_LEN
      && (st == StHdr ==> hdrCount < 4)
      && (st == StPayload ==> payLen == Join(hdr[2], hdr[3]) <= MAX_PAYLOAD && payCount < payLen + CRC_LEN)
    }

    ghost function Model(): (p: Parser)
      requires Valid()
      reads this, hdr, buf
      ensures Wellformed(p)
    {
      match st
      case StPre0 => Hunt
      case StPre1 => Half
      case StHdr => Hdr(hdr[..hdrCount])
      case StPayload => Body(hdr[..], buf[..payCount])
    }

    constructor ()
      ensures Valid() && Model() == Hunt && handled == [] && fresh(hdr) && fresh(buf)
    {
      st, hdrCount, payLen, payCount, handled := StPre0, 0, 0, 0, [];
      hdr := new u8[4](_ => 0);
      buf := new u8[MAX_PAYLOAD + CRC_LEN](_ => 0);
    }

    method FeedByte(b: u8)
      requires Valid()
      modifies this, hdr, buf
      ensures Valid() && hdr == old(hdr) && buf == old(buf)
      ensures var t := Step(Crc, old(Model()), b); Model() == t.parser && handled == old(handled) + t.out
    {
      match st {
        case StPre0 =>
          if b == PRE0 { st := StPre1; }
        case StPre1 =>
          if b == PRE1 { st, hdrCount := StHdr, 0; }
          else if b == PRE0 { /* stay: could be the real start */ }
          else { st := StPre0; }
        case StHdr =>
          HeaderByte(b);
        case StPayload =>
          PayloadByte(b);
      }
    }

    /** Drain the bytes at hand. */
    method FeedAll(s: seq<u8>)
      requires Valid()
      modifies this, hdr, buf
      ensures Valid() && hdr == old(hdr) && buf == old(buf)
      ensures var t := Feed(Crc, old(Model()), s); Model() == t.parser && handled == old(handled) + t.out
    {
      ghost var start, frames: seq<Frame> := Model(), [];
      FedStart(Crc, start, s);
      var i := 0;
      while i < |s|
        invariant 0 <= i <= |s| && Valid() && hdr == old(hdr) && buf == old(buf)
        invariant handled == old(handled) + frames && Fed(Crc, start, s, i, Model(), frames)
      {
        FedMore(Crc, start, s, i, Model(), frames);
        ghost var t := Step(Crc, Model(), s[i]);
        FeedByte(s[i]);
        Assoc(old(handled), frames, t.out);
        frames := frames + t.out;
        i := i + 1;
      }
      FedEnd(Crc, start, s, Model(), frames);
    }

    method HeaderByte(b: u8)
      requires Valid() && st == StHdr
      modifies this`st, this`hdrCount, this`payLen, this`payCount, hdr
      ensures Valid()
      ensures Step(Crc, old(Model()), b) == Turn(Model(), [])
    {
      ghost var h := hdr[..hdrCount];
      StepHeader(Crc, h, b);
      hdr[hdrCount] := b;
      hdrCount := hdrCount + 1;
      assert hdr[..hdrCount] == h + [b];
      if hdrCount == 4 {
        assert hdr[..4] == hdr[..];
        payLen := Join(hdr[2], hdr[3]);
        if payLen > MAX_PAYLOAD { st := StPre0; return; }
        payCount := 0;
        st := StPayload;
      }
    }

    method PayloadByte(b: u8)
      requires Valid() && st == StPayload
      modifies this`st, this`payCount, this`handled, buf
      ensures Valid()
      ensures var t := Step(Crc, old(Model()), b); Model() == t.parser && handled == old(handled) + t.out
    {
      buf[payCount] := b;
      payCount := payCount + 1;
      assert buf[..payCount] == old(buf[..payCount]) + [b];
      if payCount == payLen + CRC_LEN {
        var rxCrc := Join(buf[payLen], buf[payLen + 1]);
        var sum := CrcOfBytes(hdr[..] + buf[..payLen]);
        assert buf[..payLen] == buf[..payCount][..payLen];
        if sum == rxCrc {
          handled := handled + [Frame(hdr[0], hdr[1], buf[..payLen])];
        }
        st := StPre0;
      }
    }
  }

  /** The co-processor's own copy of the state machine. */
  class CoprocParser {
    var st: RxState
    var hdr: array<u8>
    var hdrCount: nat
    var payLen: nat
    var payCount: nat
    var buf: array<u8>
    var handled: seq<Frame>           // frames passed to handleHostFrame

    ghost predicate Valid()
      reads this, hdr
    {
      && hdr.Length == 4 && buf.Length == MAX_PAYLOAD + CRC_LEN
      && (st == StHdr ==> hdrCount < 4)
      && (st == StPayload ==> payLen == Join(hdr[2], hdr[3]) <= MAX_PAYLOAD && payCount < payLen + CRC_LEN)
    }

    ghost function Model(): (p: Parser)
      requires Valid()
      reads this, hdr, buf
      ensures Wellformed(p)
    {
      if st == StPre0 then Hunt
      else if st == StPre1 then Half
      else if st == StHdr then Hdr(hdr[..hdrCount])
      else Body(hdr[..], buf[..payCount])
    }

    constructor ()
      ensures Valid() && Model() == Hunt && handled == [] && fresh(hdr) && fresh(buf)
    {
      st, hdrCount, payLen, payCount, handled := StPre0, 0, 0, 0, [];
      hdr := new u8[4](_ => 0);
      buf := new u8[MAX_PAYLOAD + CRC_LEN](_ => 0);
    }

    method FeedByte(b: u8)
      requires Valid()
      modifies this, hdr, buf
      ensures Valid() && hdr == old(hdr) && buf == old(buf)
      ensures var t := Step(Crc, old(Model()), b); Model() == t.parser && handled == old(handled) + t.out
    {
      if st == StPre0 {
        if b == PRE0 { st := StPre1; }
      } else if st == StPre1 {
        if b == PRE1 { st, hdrCount := StHdr, 0; }
        else if b != PRE0 { st := StPre0; }
      } else if st == StHdr {
        AddHeader(b);
      } else {
        AddPayload(b);
      }
    }

    method AddHeader(b: u8)
      requires Valid() && st == StHdr
      modifies this`st, this`hdrCount, this`payLen, this`payCount, hdr
      ensures Valid()
      ensures Step(Crc, old(Model()), b) == Turn(Model(), [])
    {
      ghost var h := hdr[..hdrCount];
      StepHeader(Crc, h, b);
      hdr[hdrCount] := b;
      hdrCount := hdrCount + 1;
      assert hdr[..hdrCount] == h + [b];
      if hdrCount == 4 {
        assert hdr[..4] == hdr[..];
        payLen := Join(hdr[2], hdr[3]);
        if payLen > MAX_PAYLOAD { st := StPre0; }
        else { payCount, st := 0, StPayload; }
      }
    }

    /** Drain the bytes at hand. */
    method FeedAll(s: seq<u8>)
      requires Valid()
      modifies this, hdr, buf
      ensures Valid() && hdr == old(hdr) && buf == old(buf)
      ensures var t := Feed(Crc, old(Model()), s); Model() == t.parser && handled == old(handled) + t.out
    {
      ghost var start, frames: seq<Frame> := Model(), [];
      FedStart(Crc, start, s);
      var i := 0;
      while i < |s|
        invariant 0 <= i <= |s| && Valid() && hdr == old(hdr) && buf == old(buf)
        invariant handled == old(handled) + frames && Fed(Crc, start, s, i, Model(), frames)
      {
        FedMore(Crc, start, s, i, Model(), frames);
        ghost var t := Step(Crc, Model(), s[i]);
        FeedByte(s[i]);
        Assoc(old(handled), frames, t.out);
        frames := frames + t.out;
        i := i + 1;
      }
      FedEnd(Crc, start, s, Model(), frames);
    }

    method AddPayload(b: u8)
      requires Valid() && st == StPayload
      modifies this`st, this`payCount, this`handled, buf
      ensures Valid()
      ensures var t := Step(Crc, old(Model()), b); Model() == t.parser && handled == old(handled) + t.out
    {
      buf[payCount] := b;
      payCount := payCount + 1;
      assert buf[..payCount] == old(buf[..payCount]) + [b];
      if payCount == payLen + CRC_LEN {
        var rxCrc := Join(buf[payLen], buf[payLen + 1]);
        var sum := CrcOfBytes(hdr[..] + buf[..payLen]);
        assert buf[..payLen] == buf[..payCount][..payLen];
        if sum == rxCrc {
          handled := handled + [Frame(hdr[0], hdr[1], buf[..payLen])];
        }
        st := StPre0;
      }
    }
  }

  /** Fed the same bytes, the two parsers stay in the same state and hand on the same frames. */
  method Lockstep(host: HostParser, coproc: CoprocParser, s: seq<u8>)
    requires host.Valid() && coproc.Valid() && host.Model() == coproc.Model()
    requires {host, host.hdr, host.buf} !! {coproc, coproc.hdr, coproc.buf}
    modifies host, host.hdr, host.buf, coproc, coproc.hdr, coproc.buf
    ensures host.Valid() && coproc.Valid() && host.Model() == coproc.Model()
    ensures var out := Feed(Crc, old(host.Model()), s).out;
            host.handled == old(host.handled) + out && coproc.handled == old(coproc.handled) + out
  {
    host.FeedAll(s);
    coproc.FeedAll(s);
  }
}
