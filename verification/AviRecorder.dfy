/** The recording task: header first, frames as they come, index and patches at the end. */
module AviRecorder {
  import opened Bytes
  import opened AviFormat

  const MAX_FRAMES := 3000

  // ---- files ---------------------------------------------------------------------------

  /** `b` with `s` written at `at`, growing if need be. */
  function Overwrite(b: seq<u8>, at: nat, s: seq<u8>): seq<u8>
    requires at <= |b|
  {
    if at + |s| <= |b| then b[..at] + s + b[at + |s|..] else b[..at] + s
  }

  class File {
    var bytes: seq<u8>
    var pos: nat

    ghost predicate Valid()
      reads this
    {
      pos <= |bytes|
    }

    constructor ()
      ensures Valid() && bytes == [] && pos == 0
    {
      bytes, pos := [], 0;
    }

    method Write(s: seq<u8>)
      requires Valid()
      modifies this
      ensures Valid() && bytes == Overwrite(old(bytes), old(pos), s) && pos == old(pos) + |s|
    {
      bytes := Overwrite(bytes, pos, s);
      pos := pos + |s|;
    }

    /** At the end of the file writing appends. */
    method Append(s: seq<u8>)
      requires Valid() && pos == |bytes|
      modifies this
      ensures Valid() && bytes == old(bytes) + s && pos == |bytes|
    {
      ghost var b := bytes;
      Write(s);
      assert b[..|b|] == b;
      assert s == [] ==> bytes == b + s;
    }

    method Seek(p: nat)
      requires Valid() && p <= |bytes|
      modifies this`pos
      ensures Valid() && pos == p
    {
      pos := p;
    }
  }

  // ---- the header buffer -------------------------------------------------------------------

  lemma ZerosAdd(a: nat, b: nat)
    ensures Zeros(a) + Zeros(b) == Zeros(a + b)
  {
  }

  /** Written up to `p`, zero behind. */
  ghost predicate Filled(hd: array<u8>, p: seq<u8>)
    reads hd
  {
    hd.Length == 224 && |p| <= 224 && hd[..] == p + Zeros(224 - |p|)
  }

  /** Copy `s` to offset `at`, behind all that is written. */
  method Fill(hd: array<u8>, at: nat, s: seq<u8>, ghost p: seq<u8>)
    requires Filled(hd, p) && |p| == at && at + |s| <= 224
    modifies hd
    ensures Filled(hd, p + s)
  {
    ghost var was := hd[..];
    assert was[..at] == p;
    assert was[at + |s|..] == Zeros(224 - at - |s|);
    Put(hd, at, s);
    assert hd[..] == hd[..at + |s|] + hd[at + |s|..];
  }

  /** Bytes left zero count as written. */
  lemma Skip(hd: array<u8>, p: seq<u8>, n: nat)
    requires Filled(hd, p) && |p| + n <= 224
    ensures Filled(hd, p + Zeros(n))
  {
    ZerosAdd(n, 224 - |p| - n);
    assert p + Zeros(224 - |p|) == (p + Zeros(n)) + Zeros(224 - |p| - n);
  }

  /** Regrouping what is written. */
  lemma Same(hd: array<u8>, p: seq<u8>, q: seq<u8>)
    requires Filled(hd, p) && p == q
    ensures Filled(hd, q)
  {
  }

  method FillOpening(le: Coder, hd: array<u8>, ghost p: seq<u8>)
    requires Filled(hd, p) && |p| == 12
    modifies hd
    ensures Filled(hd, p + Opening(le))
  {
    Fill(hd, 12, LIST, p);
    Fill(hd, 16, le(192), p + LIST);
    Fill(hd, 20, HDRL, p + LIST + le(192));
    Fill(hd, 24, AVIH, p + LIST + le(192) + HDRL);
    Fill(hd, 28, le(56), p + LIST + le(192) + HDRL + AVIH);
    Same(hd, p + LIST + le(192) + HDRL + AVIH + le(56), p + Opening(le));
  }

  method FillAvih(le: Coder, hd: array<u8>, w: u32, h: u32, ghost p: seq<u8>)
    requires Filled(hd, p) && |p| == 32
    modifies hd
    ensures Filled(hd, p + Zeros(4) + AvihFlags(le) + Zeros(4) + AvihTail(le, w, h))
  {
    Skip(hd, p, 4);
    Skip(hd, p + Zeros(4), 8);
    Fill(hd, 44, le(KEYFRAME), p + Zeros(4) + Zeros(8));
    ghost var q := p + Zeros(4) + AvihFlags(le);
    Same(hd, p + Zeros(4) + Zeros(8) + le(KEYFRAME), q);
    Skip(hd, q, 4);
    FillAvihTail(le, hd, w, h, q + Zeros(4));
  }

  method FillAvihTail(le: Coder, hd: array<u8>, w: u32, h: u32, ghost p: seq<u8>)
    requires Filled(hd, p) && |p| == 52
    modifies hd
    ensures Filled(hd, p + AvihTail(le, w, h))
  {
    Skip(hd, p, 4);
    Fill(hd, 56, le(1), p + Zeros(4));
    Skip(hd, p + Zeros(4) + le(1), 4);
    Fill(hd, 64, le(w), p + Zeros(4) + le(1) + Zeros(4));
    Fill(hd, 68, le(h), p + Zeros(4) + le(1) + Zeros(4) + le(w));
    Skip(hd, p + Zeros(4) + le(1) + Zeros(4) + le(w) + le(h), 16);
    Same(hd, p + Zeros(4) + le(1) + Zeros(4) + le(w) + le(h) + Zeros(16), p + AvihTail(le, w, h));
  }

  method FillMiddle(le: Coder, hd: array<u8>, ghost p: seq<u8>)
    requires Filled(hd, p) && |p| == 88
    modifies hd
    ensures Filled(hd, p + Middle(le))
  {
    Fill(hd, 88, LIST, p);
    Fill(hd, 92, le(116), p + LIST);
    Fill(hd, 96, STRL, p + LIST + le(116));
    Fill(hd, 100, STRH, p + LIST + le(116) + STRL);
    Fill(hd, 104, le(56), p + LIST + le(116) + STRL + STRH);
    Same(hd, p + LIST + le(116) + STRL + STRH + le(56), p + Middle(le));
  }

  method FillStrh(le: Coder, hd: array<u8>, w: u32, h: u32, ghost p: seq<u8>)
    requires Filled(hd, p) && |p| == 108
    modifies hd
    ensures Filled(hd, p + StrhHead() + Zeros(4) + StrhRate(le) + Zeros(4) + StrhTail(w, h))
  {
    Fill(hd, 108, VIDS, p);
    Fill(hd, 112, MJPG, p + VIDS);
    Skip(hd, p + VIDS + MJPG, 12);
    ghost var q := p + StrhHead();
    Same(hd, p + VIDS + MJPG + Zeros(12), q);
    Skip(hd, q, 4);
    q := q + Zeros(4);
    Fill(hd, 132, le(1000000), q);
    Skip(hd, q + le(1000000), 4);
    Same(hd, q + le(1000000) + Zeros(4), q + StrhRate(le));
    q := q + StrhRate(le);
    Skip(hd, q, 4);
    q := q + Zeros(4);
    Skip(hd, q, 16);
    Fill(hd, 160, [w % 256, w / 256 % 256, h % 256, h / 256 % 256], q + Zeros(16));
    Same(hd, q + Zeros(16) + [w % 256, w / 256 % 256, h % 256, h / 256 % 256], q + StrhTail(w, h));
  }

  method FillClosing(le: Coder, hd: array<u8>, w: u32, h: u32, ghost p: seq<u8>)
    requires Filled(hd, p) && |p| == 164
    modifies hd
    ensures Filled(hd, p + Closing(le, w, h))
  {
    Fill(hd, 164, STRF, p);
    Fill(hd, 168, le(40), p + STRF);
    FillStrf(le, hd, w, h, p + STRF + le(40));
    Same(hd, p + STRF + le(40) + Strf(le, w, h), p + Closing(le, w, h));
  }

  method FillStrf(le: Coder, hd: array<u8>, w: u32, h: u32, ghost p: seq<u8>)
    requires Filled(hd, p) && |p| == 172
    modifies hd
    ensures Filled(hd, p + Strf(le, w, h))
  {
    Fill(hd, 172, le(40), p);
    Fill(hd, 176, le(w), p + le(40));
    Fill(hd, 180, le(h), p + le(40) + le(w));
    Fill(hd, 184, [1, 0, 24, 0], p + le(40) + le(w) + le(h));
    Fill(hd, 188, MJPG, p + le(40) + le(w) + le(h) + [1, 0, 24, 0]);
    Fill(hd, 192, le(w * h * 3), p + le(40) + le(w) + le(h) + [1, 0, 24, 0] + MJPG);
    Skip(hd, p + le(40) + le(w) + le(h) + [1, 0, 24, 0] + MJPG + le(w * h * 3), 16);
    Same(hd, p + le(40) + le(w) + le(h) + [1, 0, 24, 0] + MJPG + le(w * h * 3) + Zeros(16), p + Strf(le, w, h));
  }

  method FillFront(le: Coder, hd: array<u8>, w: u32, h: u32)
    requires Filled(hd, []) && le(0) == Zeros(4)
    modifies hd
    ensures Filled(hd, RIFF + le(0) + (AVI_ + Opening(le)) + le(0) + AvihFlags(le) + le(0) + AvihTail(le, w, h))
  {
    ghost var p: seq<u8> := [];
    Fill(hd, 0, RIFF, p);
    Same(hd, p + RIFF, RIFF);
    Skip(hd, RIFF, 4);
    Fill(hd, 8, AVI_, RIFF + le(0));
    FillOpening(le, hd, RIFF + le(0) + AVI_);
    p := RIFF + le(0) + (AVI_ + Opening(le));
    Same(hd, RIFF + le(0) + AVI_ + Opening(le), p);
    FillAvih(le, hd, w, h, p);
  }

  method FillBack(le: Coder, hd: array<u8>, w: u32, h: u32, ghost p: seq<u8>)
    requires Filled(hd, p) && |p| == 88 && le(0) == Zeros(4)
    modifies hd
    ensures Filled(hd, p + Middle(le) + StrhHead() + le(0) + StrhRate(le) + le(0) + StrhTail(w, h) + Closing(le, w, h) + LIST + le(0) + MOVI)
  {
    FillMiddle(le, hd, p);
    FillStrh(le, hd, w, h, p + Middle(le));
    ghost var q := p + Middle(le) + StrhHead() + le(0) + StrhRate(le) + le(0) + StrhTail(w, h);
    FillClosing(le, hd, w, h, q);
    Fill(hd, 212, LIST, q + Closing(le, w, h));
    Skip(hd, q + Closing(le, w, h) + LIST, 4);
    Fill(hd, 220, MOVI, q + Closing(le, w, h) + LIST + le(0));
  }

  lemma Brackets(p: seq<u8>, t: seq<u8>, m: seq<u8>, s: seq<u8>, z: seq<u8>, r: seq<u8>, st: seq<u8>, c: seq<u8>, l: seq<u8>, v: seq<u8>)
    ensures p + t + m + s + z + r + z + st + c + l + z + v == p + (t + m + s) + z + r + z + (st + c + l) + z + v
  {
    assert p + t + m + s == p + (t + m + s);
    var q := p + (t + m + s) + z + r + z;
    assert q + st + c + l == q + (st + c + l);
  }

  /** The header with its patched fields still zero. */
  method BuildHeader(le: Coder, w: u32, h: u32) returns (hd: array<u8>)
    requires le(0) == Zeros(4)
    ensures fresh(hd) && hd[..] == Header(le, 0, 0, 0, 0, 0, 0, w, h)
  {
    hd := new u8[224](_ => 0);
    ghost var none: seq<u8> := [];
    assert hd[..] == none + Zeros(224);
    FillFront(le, hd, w, h);
    ghost var p := RIFF + le(0) + (AVI_ + Opening(le)) + le(0) + AvihFlags(le) + le(0);
    FillBack(le, hd, w, h, p + AvihTail(le, w, h));
    Brackets(p, AvihTail(le, w, h), Middle(le), StrhHead(), le(0), StrhRate(le), StrhTail(w, h), Closing(le, w, h), LIST, MOVI);
    assert Zeros(0) == [];
    assert hd[..] == hd[..] + [];
  }

  // ---- patching ------------------------------------------------------------------------------

  function Concat(ps: seq<seq<u8>>): seq<u8> {
    if ps == [] then [] else Concat(ps[..|ps| - 1]) + ps[|ps| - 1]
  }

  lemma ConcatUpTo(ps: seq<seq<u8>>, i: nat)
    requires i < |ps|
    ensures Concat(ps[..i + 1]) == Concat(ps[..i]) + ps[i]
  {
    assert ps[..i + 1][..i] == ps[..i];
  }

  /** Overwriting one part with another of its length. */
  lemma {:induction false} OverwritePart(ps: seq<seq<u8>>, i: nat, s: seq<u8>)
    requires i < |ps| && |s| == |ps[i]|
    ensures |Concat(ps[..i])| + |s| <= |Concat(ps)|
    ensures Overwrite(Concat(ps), |Concat(ps[..i])|, s) == Concat(ps[i := s])
  {
    var n := |ps| - 1;
    var at := |Concat(ps[..i])|;
    if i == n {
      assert ps[i := s][..n] == ps[..n];
      assert Concat(ps)[..at] == Concat(ps[..n]);
      assert Concat(ps)[at + |s|..] == [];
    } else {
      var front := ps[..n];
      assert front[..i] == ps[..i];
      OverwritePart(front, i, s);
      assert ps[i := s][..n] == front[i := s];
      OverwriteEarlier(Concat(front), ps[n], at, s);
    }
  }

  lemma OverwriteEarlier(b: seq<u8>, rest: seq<u8>, at: nat, s: seq<u8>)
    requires at + |s| <= |b|
    ensures Overwrite(b + rest, at, s) == Overwrite(b, at, s) + rest
  {
    CutSum(b, rest, at);
    CutSum(b, rest, at + |s|);
    ThreeParts(b[..at] + s, b[at + |s|..], rest);
  }

  lemma CutSum(b: seq<u8>, rest: seq<u8>, k: nat)
    requires k <= |b|
    ensures (b + rest)[..k] == b[..k] && (b + rest)[k..] == b[k..] + rest
  {
  }

  /** The header's parts, the six patched fields at odd places, and what follows. */
  function Parts(le: Coder, riff: int, us: u32, n: nat, us2: u32, n2: nat, movi: int, w: u32, h: u32, rest: seq<u8>): (r: seq<seq<u8>>)
    ensures |r| == 14
  {
    [RIFF, le(riff), AVI_ + Opening(le), le(us), AvihFlags(le), le(n), AvihTail(le, w, h) + Middle(le) + StrhHead(),
     le(us2), StrhRate(le), le(n2), StrhTail(w, h) + Closing(le, w, h) + LIST, le(movi), MOVI, rest]
  }

  ghost predicate Shaped(ps: seq<seq<u8>>) {
    && |ps| == 14 && |ps[0]| == 4 && |ps[1]| == 4 && |ps[2]| == 24 && |ps[3]| == 4 && |ps[4]| == 12 && |ps[5]| == 4 && |ps[6]| == 76
    && |ps[7]| == 4 && |ps[8]| == 8 && |ps[9]| == 4 && |ps[10]| == 72 && |ps[11]| == 4
  }

  lemma Places(ps: seq<seq<u8>>)
    requires Shaped(ps)
    ensures |Concat(ps[..1])| == 4 && |Concat(ps[..3])| == 32 && |Concat(ps[..5])| == 48
    ensures |Concat(ps[..7])| == 128 && |Concat(ps[..9])| == 140 && |Concat(ps[..11])| == 216
  {
    assert Concat(ps[..0]) == [];
    ConcatUpTo(ps, 0);
    ConcatUpTo(ps, 1);
    ConcatUpTo(ps, 2);
    ConcatUpTo(ps, 3);
    ConcatUpTo(ps, 4);
    ConcatUpTo(ps, 5);
    ConcatUpTo(ps, 6);
    ConcatUpTo(ps, 7);
    ConcatUpTo(ps, 8);
    ConcatUpTo(ps, 9);
    ConcatUpTo(ps, 10);
  }

  lemma SevenParts(ps: seq<seq<u8>>)
    requires |ps| >= 7
    ensures Concat(ps[..7]) == ps[0] + ps[1] + ps[2] + ps[3] + ps[4] + ps[5] + ps[6]
  {
    assert Concat(ps[..0]) == [];
    ConcatUpTo(ps, 0);
    assert [] + ps[0] == ps[0];
    ConcatUpTo(ps, 1);
    ConcatUpTo(ps, 2);
    ConcatUpTo(ps, 3);
    ConcatUpTo(ps, 4);
    ConcatUpTo(ps, 5);
    ConcatUpTo(ps, 6);
  }

  lemma FourteenParts(ps: seq<seq<u8>>)
    requires |ps| == 14
    ensures Concat(ps) == ps[0] + ps[1] + ps[2] + ps[3] + ps[4] + ps[5] + ps[6] + ps[7] + ps[8] + ps[9] + ps[10] + ps[11] + ps[12] + ps[13]
  {
    SevenParts(ps);
    ConcatUpTo(ps, 7);
    ConcatUpTo(ps, 8);
    ConcatUpTo(ps, 9);
    ConcatUpTo(ps, 10);
    ConcatUpTo(ps, 11);
    ConcatUpTo(ps, 12);
    ConcatUpTo(ps, 13);
    assert ps[..14] == ps;
  }

  lemma PartsOf(le: Coder, riff: int, us: u32, n: nat, us2: u32, n2: nat, movi: int, w: u32, h: u32, rest: seq<u8>)
    ensures Concat(Parts(le, riff, us, n, us2, n2, movi, w, h, rest)) == Header(le, riff, us, n, us2, n2, movi, w, h) + rest
    ensures Shaped(Parts(le, riff, us, n, us2, n2, movi, w, h, rest))
  {
    FourteenParts(Parts(le, riff, us, n, us2, n2, movi, w, h, rest));
  }

  /** Seek and write one four-byte field. */
  method Patch(f: File, at: nat, v: Code, ghost ps: seq<seq<u8>>, ghost i: nat)
    requires f.Valid() && f.bytes == Concat(ps) && i < |ps| && |ps[i]| == 4 && |Concat(ps[..i])| == at
    modifies f
    ensures f.Valid() && f.bytes == Concat(ps[i := v])
  {
    OverwritePart(ps, i, v);
    f.Seek(at);
    f.Write(v);
  }

  method PatchThree(f: File, at1: nat, v1: Code, at2: nat, v2: Code, at3: nat, v3: Code, ghost ps: seq<seq<u8>>, ghost i: nat)
    requires f.Valid() && Shaped(ps) && f.bytes == Concat(ps)
    requires (i == 1 && at1 == 4 && at2 == 32 && at3 == 48) || (i == 7 && at1 == 128 && at2 == 140 && at3 == 216)
    modifies f
    ensures f.Valid() && Shaped(ps[i := v1][i + 2 := v2][i + 4 := v3]) && f.bytes == Concat(ps[i := v1][i + 2 := v2][i + 4 := v3])
  {
    Places(ps);
    Patch(f, at1, v1, ps, i);
    Places(ps[i := v1]);
    Patch(f, at2, v2, ps[i := v1], i + 2);
    Places(ps[i := v1][i + 2 := v2]);
    Patch(f, at3, v3, ps[i := v1][i + 2 := v2], i + 4);
  }

  /** All six fields, given as they are to be written. */
  method PatchAll(le: Coder, f: File, size: Code, timing: Code, count: Code, list: Code,
      ghost riff: int, ghost us: u32, ghost n: nat, ghost movi: int, ghost w: u32, ghost h: u32, ghost rest: seq<u8>)
    requires f.Valid() && f.bytes == Header(le, 0, 0, 0, 0, 0, 0, w, h) + rest
    requires size == le(riff) && timing == le(us) && count == le(n) && list == le(movi)
    modifies f
    ensures f.Valid() && f.bytes == Header(le, riff, us, n, us, n, movi, w, h) + rest
  {
    ghost var ps := Parts(le, 0, 0, 0, 0, 0, 0, w, h, rest);
    PartsOf(le, 0, 0, 0, 0, 0, 0, w, h, rest);
    PatchThree(f, 4, size, 32, timing, 48, count, ps, 1);
    ps := ps[1 := le(riff)][3 := le(us)][5 := le(n)];
    PatchThree(f, 128, timing, 140, count, 216, list, ps, 7);
    ps := ps[7 := le(us)][9 := le(n)][11 := le(movi)];
    assert ps == Parts(le, riff, us, n, us, n, movi, w, h, rest);
    PartsOf(le, riff, us, n, us, n, movi, w, h, rest);
  }

  // ---- recording -----------------------------------------------------------------------------------

  /** A camera frame, or none this time round (camera or bus busy). */
  datatype Shot = Shot(frame: seq<u8>, w: u16, h: u16)

  /** The frames recorded: all that came, up to the cap. */
  function Recorded(shots: seq<Option<Shot>>): (fs: seq<seq<u8>>)
    ensures |fs| <= MAX_FRAMES
  {
    if shots == [] then []
    else
      var fs, last := Recorded(shots[..|shots| - 1]), shots[|shots| - 1];
      if last.Some? && |fs| < MAX_FRAMES then fs + [last.value.frame] else fs
  }

  /** The first shot, which gives the picture size. */
  function First(shots: seq<Option<Shot>>): Option<Shot> {
    if shots == [] then None
    else
      var f := First(shots[..|shots| - 1]);
      if f.Some? then f else shots[|shots| - 1]
  }

  datatype IdxEnt = IdxEnt(off: nat, len: nat)

  /** Alike in 32 bits. */
  ghost predicate Alike(n: int, m: int) {
    n % TWO32 == m % TWO32
  }

  /** Offsets and lengths noted so far. */
  ghost predicate Noted(le: Coder, idx: seq<IdxEnt>, fs: seq<seq<u8>>) {
    && |fs| <= |idx|
    && forall i :: 0 <= i < |fs| ==> Alike(idx[i].off, Offset(le, fs, i)) && Alike(idx[i].len, |fs[i]|)
  }

  /** Numbers alike in 32 bits are written alike. */
  ghost predicate Wraps(le: Coder) {
    le(0) == Zeros(4) && forall n, m {:trigger Alike(n, m)} :: Alike(n, m) ==> le(n) == le(m)
  }

  lemma LEWraps()
    ensures Wraps(LE)
  {
  }

  lemma {:induction false} FirstWhenRecorded(shots: seq<Option<Shot>>)
    ensures Recorded(shots) == [] <==> First(shots).None?
  {
    if shots != [] { FirstWhenRecorded(shots[..|shots| - 1]); }
  }

  lemma NotedMore(le: Coder, idx: seq<IdxEnt>, idx': seq<IdxEnt>, fs: seq<seq<u8>>, f: seq<u8>)
    requires Noted(le, idx, fs) && |fs| < |idx|
    requires |idx'| == |idx| && idx'[..|fs|] == idx[..|fs|]
    requires Alike(idx'[|fs|].off, MoviSize(le, fs)) && Alike(idx'[|fs|].len, |f|)
    ensures Noted(le, idx', fs + [f])
  {
    forall i | 0 <= i < |fs + [f]|
      ensures Alike(idx'[i].off, Offset(le, fs + [f], i)) && Alike(idx'[i].len, |(fs + [f])[i]|)
    {
      assert (fs + [f])[..i] == fs[..i];
      if i < |fs| {
        assert idx'[i] == idx'[..|fs|][i] == idx[i];
      } else {
        assert fs[..|fs|] == fs;
      }
    }
  }

  /** Chunk header, frame, padding. */
  method WriteFrame(le: Coder, f: File, frame: seq<u8>)
    requires f.Valid() && f.pos == |f.bytes|
    modifies f
    ensures f.Valid() && f.pos == |f.bytes| && f.bytes == old(f.bytes) + Chunk(le, DC, frame)
  {
    ghost var b := f.bytes;
    f.Append(DC + le(|frame|));
    f.Append(frame);
    if |frame| % 2 == 1 { f.Append([0]); }
    assert f.bytes == b + Chunk(le, DC, frame);
  }

  method WriteEntry(le: Coder, f: File, e: IdxEnt, ghost off: nat, ghost len: nat)
    requires f.Valid() && f.pos == |f.bytes| && Wraps(le) && Alike(e.off, off) && Alike(e.len, len)
    modifies f
    ensures f.Valid() && f.pos == |f.bytes| && f.bytes == old(f.bytes) + Entry(le, off, len)
  {
    assert le(off) == le(e.off) && le(len) == le(e.len);
    f.Append(DC + le(KEYFRAME) + le(e.off) + le(e.len));
  }

  lemma ThreeParts(a: seq<u8>, b: seq<u8>, c: seq<u8>)
    ensures a + b + c == a + (b + c)
  {
  }

  lemma NotedAt(le: Coder, idx: seq<IdxEnt>, fs: seq<seq<u8>>, i: nat)
    requires Noted(le, idx, fs) && i < |fs|
    ensures i < |idx| && Alike(idx[i].off, Offset(le, fs, i)) && Alike(idx[i].len, |fs[i]|)
  {
  }

  lemma IndexStep(le: Coder, pre: seq<u8>, fs: seq<seq<u8>>, i: nat)
    requires i < |fs|
    ensures pre + Index(le, fs, i) + Entry(le, Offset(le, fs, i), |fs[i]|) == pre + Index(le, fs, i + 1)
  {
    assert Index(le, fs, i + 1) == Index(le, fs, i) + Entry(le, Offset(le, fs, i), |fs[i]|);
  }

  method WriteEntries(le: Coder, f: File, idx: array<IdxEnt>, ghost fs: seq<seq<u8>>, frames: nat)
    requires f.Valid() && f.pos == |f.bytes| && frames == |fs| && Noted(le, idx[..], fs) && Wraps(le)
    modifies f
    ensures f.Valid() && f.pos == |f.bytes| && f.bytes == old(f.bytes) + Index(le, fs, frames)
  {
    ghost var pre := f.bytes;
    for i := 0 to frames
      invariant f.Valid() && f.pos == |f.bytes| && f.bytes == pre + Index(le, fs, i)
    {
      NotedAt(le, idx[..], fs, i);
      WriteEntry(le, f, idx[i], Offset(le, fs, i), |fs[i]|);
      IndexStep(le, pre, fs, i);
    }
  }

  /** The index: its chunk header and an entry per frame. */
  method WriteIndex(le: Coder, f: File, idx: array<IdxEnt>, ghost fs: seq<seq<u8>>, frames: nat)
    requires f.Valid() && f.pos == |f.bytes| && frames == |fs| && Noted(le, idx[..], fs) && Wraps(le)
    modifies f
    ensures f.Valid() && f.pos == |f.bytes| && f.bytes == old(f.bytes) + (IDX1 + le(16 * frames) + Index(le, fs, frames))
  {
    ghost var b := f.bytes;
    f.Append(IDX1 + le(frames * 16));
    WriteEntries(le, f, idx, fs, frames);
    IndexWhole(le, b, fs, frames);
  }

  lemma IndexWhole(le: Coder, b: seq<u8>, fs: seq<seq<u8>>, frames: nat)
    requires frames == |fs|
    ensures b + (IDX1 + le(frames * 16)) + Index(le, fs, frames) == b + (IDX1 + le(16 * frames) + Index(le, fs, frames))
  {
  }

  /** The first frame brings the header with it. */
  method StartFile(le: Coder, f: File, w: u32, h: u32)
    requires le(0) == Zeros(4) && f.Valid() && f.pos == 0 && f.bytes == []
    modifies f
    ensures f.Valid() && f.pos == |f.bytes| && f.bytes == Header(le, 0, 0, 0, 0, 0, 0, w, h) + Movi(le, [])
  {
    var hd := BuildHeader(le, w, h);
    f.Append(hd[..]);
  }

  /** Note where the frame goes. */
  method NoteFrame(le: Coder, idx: array<IdxEnt>, frames: nat, moviBytes: u32, len: nat, ghost fs: seq<seq<u8>>, ghost f: seq<u8>)
    requires frames == |fs| < idx.Length && len == |f|
    requires Noted(le, idx[..], fs) && Alike(moviBytes, MoviSize(le, fs))
    modifies idx
    ensures Noted(le, idx[..], fs + [f])
  {
    ghost var was := idx[..];
    idx[frames] := IdxEnt(moviBytes, len % TWO32);
    assert idx[..][..frames] == was[..frames];
    NotedMore(le, was, idx[..], fs, f);
  }

  lemma MoreMovi(le: Coder, fs: seq<seq<u8>>, f: seq<u8>)
    ensures Movi(le, fs + [f]) == Movi(le, fs) + Chunk(le, DC, f)
    ensures MoviSize(le, fs + [f]) == MoviSize(le, fs) + 8 + |f| + |f| % 2
  {
    MoviLast(le, fs + [f], fs, f);
  }

  /** Header if it is the first, then the frame. */
  method PlaceFrame(le: Coder, f: File, frames: nat, s: Shot, ghost w: u32, ghost h: u32, ghost fs: seq<seq<u8>>)
    requires le(0) == Zeros(4) && frames == |fs| && f.Valid() && f.pos == |f.bytes|
    requires if fs == [] then f.bytes == [] && w == s.w && h == s.h
             else f.bytes == Header(le, 0, 0, 0, 0, 0, 0, w, h) + Movi(le, fs)
    modifies f
    ensures f.Valid() && f.pos == |f.bytes| && f.bytes == Header(le, 0, 0, 0, 0, 0, 0, w, h) + Movi(le, fs + [s.frame])
  {
    if frames == 0 { StartFile(le, f, s.w, s.h); }
    WriteFrame(le, f, s.frame);
    MoreMovi(le, fs, s.frame);
    ThreeParts(Header(le, 0, 0, 0, 0, 0, 0, w, h), Movi(le, fs), Chunk(le, DC, s.frame));
  }

  /** The running size with the frame's chunk added. */
  method Tally(le: Coder, moviBytes: u32, len: nat, ghost fs: seq<seq<u8>>, ghost f: seq<u8>) returns (sum: u32)
    requires Alike(moviBytes, MoviSize(le, fs)) && len == |f|
    ensures Alike(sum, MoviSize(le, fs + [f]))
  {
    MoreMovi(le, fs, f);
    sum := Advance(moviBytes, len);
    AdvanceWraps(moviBytes, MoviSize(le, fs), len);
  }

  /** One turn of the recording loop. */
  method TakeShot(le: Coder, f: File, idx: array<IdxEnt>, frames: nat, moviBytes: u32, s: Shot, ghost w: u32, ghost h: u32, ghost fs: seq<seq<u8>>)
      returns (moviBytes': u32)
    requires le(0) == Zeros(4) && frames == |fs| < idx.Length
    requires f.Valid() && f.pos == |f.bytes| && Noted(le, idx[..], fs) && Alike(moviBytes, MoviSize(le, fs))
    requires if fs == [] then f.bytes == [] && w == s.w && h == s.h
             else f.bytes == Header(le, 0, 0, 0, 0, 0, 0, w, h) + Movi(le, fs)
    modifies f, idx
    ensures f.Valid() && f.pos == |f.bytes| && Noted(le, idx[..], fs + [s.frame]) && Alike(moviBytes', MoviSize(le, fs + [s.frame]))
    ensures f.bytes == Header(le, 0, 0, 0, 0, 0, 0, w, h) + Movi(le, fs + [s.frame])
  {
    PlaceFrame(le, f, frames, s, w, h, fs);
    NoteFrame(le, idx, frames, moviBytes, |s.frame|, fs, s.frame);
    moviBytes' := Tally(le, moviBytes, |s.frame|, fs, s.frame);
  }

  /** The running size: eight bytes of chunk header, the frame, its padding. */
  function Advance(moviBytes: u32, len: nat): u32 {
    (moviBytes + 8 + (len + len % 2) % TWO32) % TWO32
  }

  lemma AdvanceWraps(moviBytes: u32, size: nat, len: nat)
    requires Alike(moviBytes, size)
    ensures Alike(Advance(moviBytes, len), size + 8 + len + len % 2)
  {
    var b := len + len % 2;
    Multiple(size);
    Multiple(b);
    assert moviBytes % TWO32 == moviBytes;
    AddMultiple(moviBytes + 8 + b % TWO32, size / TWO32 + b / TWO32);
  }

  lemma Multiple(n: nat)
    ensures n == TWO32 * (n / TWO32) + n % TWO32
  {
  }

  lemma AddMultiple(n: int, k: int)
    ensures Alike(n, n + TWO32 * k) && Alike(n % TWO32, n + TWO32 * k)
  {
  }

  /** Where the recording stands after `seen`: frames noted and counted, header and movie written. */
  ghost predicate Going(le: Coder, seen: seq<Option<Shot>>, idx: seq<IdxEnt>, bytes: seq<u8>, frames: nat, moviBytes: u32, w: u32, h: u32) {
    var fs := Recorded(seen);
    && frames == |fs| && Noted(le, idx, fs) && Alike(moviBytes, MoviSize(le, fs))
    && (frames == 0 <==> First(seen).None?)
    && if frames == 0 then bytes == []
       else w == First(seen).value.w && h == First(seen).value.h && bytes == Header(le, 0, 0, 0, 0, 0, 0, w, h) + Movi(le, fs)
  }

  lemma GoingStart(le: Coder, idx: seq<IdxEnt>)
    ensures Going(le, [], idx, [], 0, 4, 0, 0)
  {
  }

  /** One turn of the loop: maybe a frame. */
  method NextShot(le: Coder, f: File, idx: array<IdxEnt>, frames: nat, moviBytes: u32, s: Option<Shot>, ghost w: u32, ghost h: u32, ghost seen: seq<Option<Shot>>)
      returns (frames': nat, moviBytes': u32, ghost w': u32, ghost h': u32)
    requires le(0) == Zeros(4) && frames < MAX_FRAMES == idx.Length
    requires f.Valid() && f.pos == |f.bytes| && Going(le, seen, idx[..], f.bytes, frames, moviBytes, w, h)
    modifies f, idx
    ensures f.Valid() && f.pos == |f.bytes| && Going(le, seen + [s], idx[..], f.bytes, frames', moviBytes', w', h')
  {
    ghost var fs := Recorded(seen);
    frames', moviBytes', w', h' := frames, moviBytes, w, h;
    if s.Some? {
      if frames == 0 { w', h' := s.value.w, s.value.h; }
      moviBytes' := TakeShot(le, f, idx, frames, moviBytes, s.value, w', h', fs);
      frames' := frames + 1;
    }
    OneMore(seen, s);
  }

  lemma OneMore(seen: seq<Option<Shot>>, s: Option<Shot>)
    requires |Recorded(seen)| < MAX_FRAMES
    ensures Recorded(seen + [s]) == if s.Some? then Recorded(seen) + [s.value.frame] else Recorded(seen)
    ensures First(seen + [s]) == if First(seen).Some? then First(seen) else s
  {
    assert (seen + [s])[..|seen|] == seen;
  }

  lemma NextPrefix<T>(s: seq<T>, i: nat)
    requires i < |s|
    ensures s[..i + 1] == s[..i] + [s[i]]
  {
  }

  /** The recording loop. */
  method TakeAll(le: Coder, f: File, idx: array<IdxEnt>, shots: seq<Option<Shot>>)
      returns (frames: nat, moviBytes: u32, ghost i: nat, ghost w: u32, ghost h: u32)
    requires le(0) == Zeros(4) && idx.Length == MAX_FRAMES && f.Valid() && f.bytes == [] && f.pos == 0
    modifies f, idx
    ensures i <= |shots| && (i == |shots| || frames == MAX_FRAMES)
    ensures f.Valid() && f.pos == |f.bytes| && Going(le, shots[..i], idx[..], f.bytes, frames, moviBytes, w, h)
  {
    var at := 0;
    frames, moviBytes, i, w, h := 0, 4, 0, 0, 0;
    GoingStart(le, idx[..]);
    assert shots[..0] == [];
    while at < |shots| && frames < MAX_FRAMES
      invariant i == at <= |shots| && frames <= MAX_FRAMES
      invariant f.Valid() && f.pos == |f.bytes| && Going(le, shots[..i], idx[..], f.bytes, frames, moviBytes, w, h)
    {
      frames, moviBytes, w, h := NextShot(le, f, idx, frames, moviBytes, shots[at], w, h, shots[..i]);
      NextPrefix(shots, i);
      at, i := at + 1, i + 1;
    }
  }

  /** What is left when the card's bus cannot be had at the end: frames behind a header never patched. */
  ghost function Unfinished(le: Coder, shots: seq<Option<Shot>>): seq<u8> {
    if First(shots).None? then []
    else Header(le, 0, 0, 0, 0, 0, 0, First(shots).value.w, First(shots).value.h) + Movi(le, Recorded(shots))
  }

  /**
   Record all shots and, if the bus is `locked` for it, finish the file, or remove it when nothing
   came. True for a finished file.
   */
  method Record(le: Coder, f: File, shots: seq<Option<Shot>>, elapsedMs: u32, locked: bool) returns (kept: bool)
    requires Wraps(le) && f.Valid() && f.bytes == [] && f.pos == 0
    modifies f
    ensures kept <==> locked && First(shots).Some?
    ensures locked && !kept ==> f.bytes == []
    ensures !locked ==> f.bytes == Unfinished(le, shots)
    ensures kept ==> Recorded(shots) != []
    ensures kept ==> f.bytes == Avi(le, PerFrame(elapsedMs, |Recorded(shots)|), First(shots).value.w, First(shots).value.h, Recorded(shots))
  {
    var idx := new IdxEnt[MAX_FRAMES](_ => IdxEnt(0, 0));
    var frames, moviBytes, i, w, h := TakeAll(le, f, idx, shots);
    CapReached(shots, i);
    kept := false;
    if locked {
      if frames != 0 {
        Finalize(le, f, idx, frames, moviBytes, elapsedMs, w, h, Recorded(shots));
        kept := true;
      }
    }
  }

  /** Microseconds per frame, on 32 bits. */
  function PerFrame(elapsedMs: u32, n: nat): u32
    requires n > 0
  {
    elapsedMs * 1000 % TWO32 / n
  }

  /** Once the cap is reached, or all shots are seen, nothing more is recorded. */
  lemma {:induction false} CapReached(shots: seq<Option<Shot>>, i: nat)
    requires i <= |shots| && (i == |shots| || |Recorded(shots[..i])| == MAX_FRAMES)
    ensures Recorded(shots[..i]) == Recorded(shots)
    ensures First(shots[..i]).Some? ==> First(shots) == First(shots[..i])
    ensures First(shots[..i]).None? ==> First(shots).None?
    decreases |shots|
  {
    if i == |shots| {
      assert shots[..i] == shots;
    } else {
      var front := shots[..|shots| - 1];
      assert front[..i] == shots[..i];
      CapReached(front, i);
      FirstWhenRecorded(shots[..i]);
    }
  }

  /** The RIFF length, counted from what was written. */
  method RiffSize(le: Coder, moviBytes: u32, frames: nat, ghost fs: seq<seq<u8>>) returns (size: int)
    requires frames == |fs| && Alike(moviBytes, MoviSize(le, fs))
    ensures Alike(size, FileSize(le, fs) - 8)
  {
    var total := (224 + (moviBytes - 4) + 8 + frames * 16) % TWO32;
    TotalWraps(moviBytes, MoviSize(le, fs), frames);
    size := total - 8;
  }

  /** Patch the sizes, counts and timing of a file that holds header, frames and index. */
  method Close(le: Coder, f: File, size: int, moviBytes: u32, us: u32, frames: nat, ghost w: u32, ghost h: u32, ghost fs: seq<seq<u8>>)
    requires Wraps(le) && frames == |fs| && Alike(size, FileSize(le, fs) - 8) && Alike(moviBytes, MoviSize(le, fs))
    requires f.Valid()
    requires f.bytes == Header(le, 0, 0, 0, 0, 0, 0, w, h) + (Movi(le, fs) + (IDX1 + le(16 * |fs|) + Index(le, fs, |fs|)))
    modifies f
    ensures f.Valid() && f.bytes == Avi(le, us, w, h, fs)
  {
    CodedAlike(le, size, FileSize(le, fs) - 8);
    CodedAlike(le, moviBytes, MoviSize(le, fs));
    PatchAll(le, f, le(size), le(us), le(frames), le(moviBytes), FileSize(le, fs) - 8, us, |fs|, MoviSize(le, fs), w, h,
             Movi(le, fs) + (IDX1 + le(16 * |fs|) + Index(le, fs, |fs|)));
    FlatApart(le, us, w, h, fs);
  }

  /** Append the index, then patch. */
  method Finalize(le: Coder, f: File, idx: array<IdxEnt>, frames: nat, moviBytes: u32, elapsedMs: u32, ghost w: u32, ghost h: u32, ghost fs: seq<seq<u8>>)
    requires Wraps(le) && frames == |fs| && 0 < frames && Noted(le, idx[..], fs)
    requires f.Valid() && f.pos == |f.bytes| && f.bytes == Header(le, 0, 0, 0, 0, 0, 0, w, h) + Movi(le, fs)
    requires Alike(moviBytes, MoviSize(le, fs))
    modifies f
    ensures f.Valid() && f.bytes == Avi(le, PerFrame(elapsedMs, frames), w, h, fs)
  {
    var usPerFrame := PerFrame(elapsedMs, frames);
    WriteIndex(le, f, idx, fs, frames);
    ThreeParts(Header(le, 0, 0, 0, 0, 0, 0, w, h), Movi(le, fs), IDX1 + le(16 * |fs|) + Index(le, fs, |fs|));
    var size := RiffSize(le, moviBytes, frames, fs);
    Close(le, f, size, moviBytes, usPerFrame, frames, w, h, fs);
  }

  lemma CodedAlike(le: Coder, n: int, m: int)
    requires Wraps(le) && Alike(n, m)
    ensures le(n) == le(m)
  {
  }

  /** The header patched with the true sizes, the frames and the index are the nested file. */
  lemma FlatApart(le: Coder, us: u32, w: u32, h: u32, fs: seq<seq<u8>>)
    ensures Header(le, FileSize(le, fs) - 8, us, |fs|, us, |fs|, MoviSize(le, fs), w, h)
              + (Movi(le, fs) + (IDX1 + le(16 * |fs|) + Index(le, fs, |fs|)))
         == Avi(le, us, w, h, fs)
  {
    FlatIsNested(le, us, w, h, fs);
    ThreeParts(Header(le, FileSize(le, fs) - 8, us, |fs|, us, |fs|, MoviSize(le, fs), w, h), Movi(le, fs),
               IDX1 + le(16 * |fs|) + Index(le, fs, |fs|));
  }

  lemma TotalWraps(moviBytes: u32, movi: nat, frames: nat)
    requires Alike(moviBytes, movi)
    ensures Alike((224 + (moviBytes - 4) + 8 + frames * 16) % TWO32 - 8, 224 + (movi - 4) + 8 + 16 * frames - 8)
  {
    var t, u := 224 + (moviBytes - 4) + 8 + frames * 16, 224 + (movi - 4) + 8 + 16 * frames;
    assert movi == TWO32 * (movi / TWO32) + movi % TWO32;
    assert u - 8 == TWO32 * (movi / TWO32) + (t - 8);
    assert t == TWO32 * (t / TWO32) + t % TWO32;
    assert t - 8 == TWO32 * (t / TWO32) + (t % TWO32 - 8);
  }

  // ---- the file a player gets -----------------------------------------------------------------------

  /**
   A recording under 4 GiB plays: seeking by the index gives exactly the frames recorded,
   and so does reading the movie list from end to end.
   */
  lemma RecordingReads(us: u32, w: u32, h: u32, fs: seq<seq<u8>>, i: nat)
    requires FileSize(LE, fs) < TWO32
    ensures ReadFrame(FromLE, Avi(LE, us, w, h, fs), i) == if i < |fs| then Some(fs[i]) else None
    ensures Split(FromLE, Movi(LE, fs)) == Some(Items(fs))
  {
    LEReads();
    FlatIsNested(LE, us, w, h, fs);
    IndexAgrees(LE, FromLE, us, w, h, fs, i);
    MovieTiles(LE, FromLE, fs);
  }

  lemma RiffField(le: Coder, us: u32, w: u32, h: u32, fs: seq<seq<u8>>)
    ensures |Avi(le, us, w, h, fs)| == FileSize(le, fs) && Avi(le, us, w, h, fs)[4..8] == le(FileSize(le, fs) - 8)
  {
    FlatIsNested(le, us, w, h, fs);
    FirstField(le, FileSize(le, fs) - 8, us, |fs|, MoviSize(le, fs), w, h);
    assert Flat(le, us, w, h, fs)[4..8] == Header(le, FileSize(le, fs) - 8, us, |fs|, us, |fs|, MoviSize(le, fs), w, h)[4..8];
  }

  lemma FirstField(le: Coder, riff: int, us: u32, n: nat, movi: int, w: u32, h: u32)
    ensures Header(le, riff, us, n, us, n, movi, w, h)[4..8] == le(riff)
  {
  }

  /** Four bytes give a number back exactly when 32 bits hold it. */
  ghost predicate ReadsExactly(le: Coder, get: Reader) {
    forall n: nat {:trigger le(n)} :: get(le(n)) == n <==> n < TWO32
  }

  lemma LEReadsExactly()
    ensures ReadsExactly(LE, FromLE)
  {
    forall n: nat {:trigger LE(n)} ensures FromLE(LE(n)) == n <==> n < TWO32 {
      LE32RoundTrip(n % TWO32);
    }
  }

  /** The announced file length is the true one exactly when 32 bits hold it. */
  lemma RiffSizeTrueIff(le: Coder, get: Reader, us: u32, w: u32, h: u32, fs: seq<seq<u8>>)
    requires ReadsExactly(le, get)
    ensures var b := Avi(le, us, w, h, fs);
            |b| >= 8 && (get(b[4..8]) == |b| - 8 <==> FileSize(le, fs) - 8 < TWO32)
  {
    RiffField(le, us, w, h, fs);
  }

  /** A player that follows the index finds frame i for every i and nothing else; so does one that walks the movie. */
  ghost predicate Plays(b: seq<u8>, fs: seq<seq<u8>>) {
    && (forall i: nat :: ReadFrame(FromLE, b, i) == if i < |fs| then Some(fs[i]) else None)
    && 224 + |Movi(LE, fs)| <= |b| && b[224..224 + |Movi(LE, fs)|] == Movi(LE, fs)
    && Split(FromLE, b[224..224 + |Movi(LE, fs)|]) == Some(Items(fs))
  }

  lemma MovieInside(us: u32, w: u32, h: u32, fs: seq<seq<u8>>)
    ensures var b := Avi(LE, us, w, h, fs);
            224 + |Movi(LE, fs)| <= |b| && b[224..224 + |Movi(LE, fs)|] == Movi(LE, fs)
  {
    FlatIsNested(LE, us, w, h, fs);
    Middle3(Header(LE, FileSize(LE, fs) - 8, us, |fs|, us, |fs|, MoviSize(LE, fs), w, h), Movi(LE, fs), IDX1 + LE(16 * |fs|) + Index(LE, fs, |fs|));
  }

  lemma Middle3(a: seq<u8>, b: seq<u8>, c: seq<u8>)
    ensures (a + b + c)[|a|..|a| + |b|] == b
  {
  }

  lemma RecordingPlays(us: u32, w: u32, h: u32, fs: seq<seq<u8>>)
    requires FileSize(LE, fs) < TWO32
    ensures Plays(Avi(LE, us, w, h, fs), fs)
  {
    MovieInside(us, w, h, fs);
    RecordingReads(us, w, h, fs, 0);
    forall i: nat ensures ReadFrame(FromLE, Avi(LE, us, w, h, fs), i) == if i < |fs| then Some(fs[i]) else None {
      RecordingReads(us, w, h, fs, i);
    }
  }

  /** A file left unfinished announces no length, and a player finds no frame in it. */
  lemma UnfinishedReadsNothing(shots: seq<Option<Shot>>, i: nat)
    ensures var b := Unfinished(LE, shots);
            ReadFrame(FromLE, b, i) == None && (b != [] ==> |b| >= 224 && FromLE(b[4..8]) == 0)
  {
    if First(shots).Some? {
      var head := Header(LE, 0, 0, 0, 0, 0, 0, First(shots).value.w, First(shots).value.h);
      var b := Unfinished(LE, shots);
      FirstField(LE, 0, 0, 0, 0, First(shots).value.w, First(shots).value.h);
      HeadEnds(LE, 0, 0, 0, 0, First(shots).value.w, First(shots).value.h);
      LEReads();
      assert b[4..8] == head[4..8] && b[216..220] == head[216..220] && b[220..224] == head[220..224];
    }
  }

  /**
   The recording with the firmware's own little-endian fields: below 4 GiB the file plays every
   frame recorded, and it announces its true length exactly when 32 bits hold it. When the bus
   cannot be had at the end, the file stays unfinished.
   */
  method RecordMovie(f: File, shots: seq<Option<Shot>>, elapsedMs: u32, locked: bool) returns (kept: bool)
    requires f.Valid() && f.bytes == [] && f.pos == 0
    modifies f
    ensures kept <==> locked && First(shots).Some?
    ensures locked && !kept ==> f.bytes == []
    ensures !locked ==> f.bytes == Unfinished(LE, shots)
    ensures kept && |f.bytes| < TWO32 ==> Plays(f.bytes, Recorded(shots))
    ensures kept ==> |f.bytes| == FileSize(LE, Recorded(shots)) >= 8
    ensures kept ==> (FromLE(f.bytes[4..8]) == |f.bytes| - 8 <==> |f.bytes| - 8 < TWO32)
  {
    LEWraps();
    kept := Record(LE, f, shots, elapsedMs, locked);
    if kept {
      ghost var us, w, h, fs := PerFrame(elapsedMs, |Recorded(shots)|), First(shots).value.w, First(shots).value.h, Recorded(shots);
      LEReadsExactly();
      RiffField(LE, us, w, h, fs);
      RiffSizeTrueIff(LE, FromLE, us, w, h, fs);
      if FileSize(LE, fs) < TWO32 { RecordingPlays(us, w, h, fs); }
    }
  }
}
