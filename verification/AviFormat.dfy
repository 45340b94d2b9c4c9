/**
 The recorder's file format. A RIFF file is chunks within chunks, each announcing the
 length of what it holds; and a reader that uses the index, and one that does not.
 */
module AviFormat {
  import opened Bytes

  type Code = s: seq<u8> | |s| == 4 witness [0, 0, 0, 0]

  const RIFF: Code := [82, 73, 70, 70]
  const AVI_: Code := [65, 86, 73, 32]
  const LIST: Code := [76, 73, 83, 84]
  const HDRL: Code := [104, 100, 114, 108]
  const AVIH: Code := [97, 118, 105, 104]
  const STRL: Code := [115, 116, 114, 108]
  const STRH: Code := [115, 116, 114, 104]
  const VIDS: Code := [118, 105, 100, 115]
  const MJPG: Code := [77, 74, 80, 71]
  const STRF: Code := [115, 116, 114, 102]
  const MOVI: Code := [109, 111, 118, 105]
  const IDX1: Code := [105, 100, 120, 49]
  const DC: Code := [48, 48, 100, 99]

  const KEYFRAME: u32 := 0x10

  /** How a number is written in four bytes, and read. */
  type Coder = int -> Code
  type Reader = Code -> nat

  /** Little-endian, 32 bits. */
  function LE(n: int): Code {
    LE32(n % TWO32)
  }

  function FromLE(c: Code): nat {
    FromLE32(c)
  }

  ghost predicate Reads(le: Coder, get: Reader) {
    forall n :: 0 <= n < TWO32 ==> get(le(n)) == n
  }

  lemma LEReads()
    ensures Reads(LE, FromLE)
  {
    forall n | 0 <= n < TWO32 ensures FromLE(LE(n)) == n { LERead(n); }
  }

  lemma LERead(n: u32)
    ensures FromLE(LE(n)) == n
  {
    LE32RoundTrip(n);
  }

  function Pad(n: nat): (r: seq<u8>)
    ensures |r| == n % 2
  {
    if n % 2 == 1 then [0] else []
  }

  /** Code, length, contents, padding to an even length. */
  function Chunk(le: Coder, id: Code, body: seq<u8>): (r: seq<u8>)
    ensures |r| == 8 + |body| + |body| % 2
  {
    id + le(|body|) + body + Pad(|body|)
  }

  function List(le: Coder, kind: Code, body: seq<u8>): seq<u8> {
    Chunk(le, LIST, kind + body)
  }

  // ---- the parts ------------------------------------------------------------------------

  // The main header: microseconds per frame, flags, frame count, streams, size.
  function AvihFlags(le: Coder): (r: seq<u8>)
    ensures |r| == 12
  {
    Zeros(8) + le(KEYFRAME)
  }

  function AvihTail(le: Coder, w: u32, h: u32): (r: seq<u8>)
    ensures |r| == 36
  {
    Zeros(4) + le(1) + Zeros(4) + le(w) + le(h) + Zeros(16)
  }

  function Avih(le: Coder, us: u32, n: nat, w: u32, h: u32): (r: seq<u8>)
    ensures |r| == 56
  {
    le(us) + AvihFlags(le) + le(n) + AvihTail(le, w, h)
  }

  // The stream header: type and codec, scale and rate, length, rectangle.
  function StrhHead(): (r: seq<u8>)
    ensures |r| == 20
  {
    VIDS + MJPG + Zeros(12)
  }

  function StrhRate(le: Coder): (r: seq<u8>)
    ensures |r| == 8
  {
    le(1000000) + Zeros(4)
  }

  function StrhTail(w: u32, h: u32): (r: seq<u8>)
    ensures |r| == 20
  {
    Zeros(16) + [w % 256, w / 256 % 256, h % 256, h / 256 % 256]
  }

  function Strh(le: Coder, us: u32, n: nat, w: u32, h: u32): (r: seq<u8>)
    ensures |r| == 56
  {
    StrhHead() + le(us) + StrhRate(le) + le(n) + StrhTail(w, h)
  }

  /** The stream format: a bitmap header. */
  function Strf(le: Coder, w: u32, h: u32): (r: seq<u8>)
    ensures |r| == 40
  {
    le(40) + le(w) + le(h) + [1, 0, 24, 0] + MJPG + le(w * h * 3) + Zeros(16)
  }

  /** One "00dc" chunk for each frame. */
  function Movi(le: Coder, fs: seq<seq<u8>>): seq<u8> {
    if fs == [] then [] else Movi(le, fs[..|fs| - 1]) + Chunk(le, DC, fs[|fs| - 1])
  }

  /** Where frame i's chunk begins, counted from the "movi" code. */
  function Offset(le: Coder, fs: seq<seq<u8>>, i: nat): nat
    requires i <= |fs|
  {
    4 + |Movi(le, fs[..i])|
  }

  function Entry(le: Coder, off: nat, len: nat): (r: seq<u8>)
    ensures |r| == 16
  {
    DC + le(KEYFRAME) + le(off) + le(len)
  }

  /** The index of the first `n` frames. */
  function Index(le: Coder, fs: seq<seq<u8>>, n: nat): (r: seq<u8>)
    requires n <= |fs|
    ensures |r| == 16 * n
  {
    if n == 0 then [] else Index(le, fs, n - 1) + Entry(le, Offset(le, fs, n - 1), |fs[n - 1]|)
  }

  function Hdrl(le: Coder, us: u32, n: nat, w: u32, h: u32): seq<u8> {
    Chunk(le, AVIH, Avih(le, us, n, w, h)) + List(le, STRL, Chunk(le, STRH, Strh(le, us, n, w, h)) + Chunk(le, STRF, Strf(le, w, h)))
  }

  /** The whole file, as nested chunks: every length is that of what is inside. */
  function Avi(le: Coder, us: u32, w: u32, h: u32, fs: seq<seq<u8>>): seq<u8> {
    Chunk(le, RIFF, AVI_ + List(le, HDRL, Hdrl(le, us, |fs|, w, h)) + List(le, MOVI, Movi(le, fs)) + Chunk(le, IDX1, Index(le, fs, |fs|)))
  }

  // Bytes 12 to 32 and 88 to 108: the chunk codes and lengths around the headers.
  function Opening(le: Coder): (r: seq<u8>)
    ensures |r| == 20
  {
    LIST + le(192) + HDRL + AVIH + le(56)
  }

  function Middle(le: Coder): (r: seq<u8>)
    ensures |r| == 20
  {
    LIST + le(116) + STRL + STRH + le(56)
  }

  function Closing(le: Coder, w: u32, h: u32): (r: seq<u8>)
    ensures |r| == 48
  {
    STRF + le(40) + Strf(le, w, h)
  }

  /** The header up to and including the "movi" code, with its six patched fields. */
  function Header(le: Coder, riff: int, us: u32, n: nat, us2: u32, n2: nat, movi: int, w: u32, h: u32): (r: seq<u8>)
    ensures |r| == 224
  {
    RIFF + le(riff) + (AVI_ + Opening(le)) + le(us) + AvihFlags(le) + le(n) + (AvihTail(le, w, h) + Middle(le) + StrhHead())
    + le(us2) + StrhRate(le) + le(n2) + (StrhTail(w, h) + Closing(le, w, h) + LIST) + le(movi) + MOVI
  }

  // ---- the flat file is the nested one ------------------------------------------------------

  lemma StrlFlat(le: Coder, strh: seq<u8>, strf: seq<u8>)
    requires |strh| == 56 && |strf| == 40
    ensures List(le, STRL, Chunk(le, STRH, strh) + Chunk(le, STRF, strf)) == Middle(le) + strh + (STRF + le(40) + strf)
  {
    var inner := Chunk(le, STRH, strh) + Chunk(le, STRF, strf);
    assert Chunk(le, STRH, strh) == STRH + le(56) + strh;
    assert Chunk(le, STRF, strf) == STRF + le(40) + strf;
    assert |STRL + inner| == 116;
    assert Chunk(le, LIST, STRL + inner) == LIST + le(116) + (STRL + inner);
  }

  lemma HdrlFlat(le: Coder, avih: seq<u8>, strl: seq<u8>)
    requires |avih| == 56 && |strl| == 124
    ensures List(le, HDRL, Chunk(le, AVIH, avih) + strl) == Opening(le) + avih + strl
  {
    var inner := Chunk(le, AVIH, avih) + strl;
    assert Chunk(le, AVIH, avih) == AVIH + le(56) + avih;
    assert |HDRL + inner| == 192;
    assert Chunk(le, LIST, HDRL + inner) == LIST + le(192) + (HDRL + inner);
  }

  /** Brackets do not matter. */
  lemma Regroup(a: seq<u8>, o: seq<u8>, us: seq<u8>, f: seq<u8>, n: seq<u8>, t: seq<u8>, m: seq<u8>, sh: seq<u8>, r: seq<u8>, st: seq<u8>, c: seq<u8>, z: seq<u8>)
    ensures (a + o) + us + f + n + (t + m + sh) + us + r + n + (st + c + z)
         == a + (o + (us + f + n + t) + (m + (sh + us + r + n + st) + c)) + z
  {
    assert (a + o) + us + f + n + (t + m + sh) == a + (o + (us + f + n + t) + m) + sh;
    assert a + (o + (us + f + n + t) + (m + (sh + us + r + n + st) + c)) + z
        == (a + (o + (us + f + n + t) + m) + sh) + us + r + n + (st + c + z);
  }

  /** What stands before the frames, as in the nested file, for any sizes. */
  lemma HeaderFlat(le: Coder, riff: int, us: u32, n: nat, movi: int, w: u32, h: u32)
    ensures Header(le, riff, us, n, us, n, movi, w, h)
         == (RIFF + le(riff) + AVI_) + List(le, HDRL, Hdrl(le, us, n, w, h)) + LIST + le(movi) + MOVI
  {
    StrlFlat(le, Strh(le, us, n, w, h), Strf(le, w, h));
    HdrlFlat(le, Avih(le, us, n, w, h), Middle(le) + Strh(le, us, n, w, h) + Closing(le, w, h));
    assert RIFF + le(riff) + (AVI_ + Opening(le)) == (RIFF + le(riff) + AVI_) + Opening(le);
    Regroup(RIFF + le(riff) + AVI_, Opening(le), le(us), AvihFlags(le), le(n), AvihTail(le, w, h), Middle(le), StrhHead(),
            StrhRate(le), StrhTail(w, h), Closing(le, w, h), LIST);
  }

  lemma {:induction false} MoviEven(le: Coder, fs: seq<seq<u8>>)
    ensures |Movi(le, fs)| % 2 == 0
  {
    if fs != [] {
      MoviEven(le, fs[..|fs| - 1]);
      ChunkEven(le, DC, fs[|fs| - 1]);
    }
  }

  lemma ChunkEven(le: Coder, id: Code, body: seq<u8>)
    ensures |Chunk(le, id, body)| % 2 == 0
  {
  }

  function MoviSize(le: Coder, fs: seq<seq<u8>>): nat { 4 + |Movi(le, fs)| }

  function FileSize(le: Coder, fs: seq<seq<u8>>): nat { 224 + |Movi(le, fs)| + 8 + 16 * |fs| }

  /** The file as it is written: header, frames, index, one after the other. */
  function Flat(le: Coder, us: u32, w: u32, h: u32, fs: seq<seq<u8>>): seq<u8> {
    Header(le, FileSize(le, fs) - 8, us, |fs|, us, |fs|, MoviSize(le, fs), w, h) + Movi(le, fs) + (IDX1 + le(16 * |fs|) + Index(le, fs, |fs|))
  }

  lemma EvenChunk(le: Coder, id: Code, body: seq<u8>)
    requires |body| % 2 == 0
    ensures Chunk(le, id, body) == id + le(|body|) + body
  {
  }

  lemma FlatIsNested(le: Coder, us: u32, w: u32, h: u32, fs: seq<seq<u8>>)
    ensures Flat(le, us, w, h, fs) == Avi(le, us, w, h, fs)
    ensures |Avi(le, us, w, h, fs)| == FileSize(le, fs)
  {
    var hdrl, movi, idx := List(le, HDRL, Hdrl(le, us, |fs|, w, h)), Movi(le, fs), Index(le, fs, |fs|);
    HeaderFlat(le, FileSize(le, fs) - 8, us, |fs|, MoviSize(le, fs), w, h);
    HdrlLength(le, us, |fs|, w, h);
    MoviEven(le, fs);
    Nested(le, Header(le, FileSize(le, fs) - 8, us, |fs|, us, |fs|, MoviSize(le, fs), w, h), hdrl, movi, idx);
  }

  lemma Replace(a: seq<u8>, b: seq<u8>, c: seq<u8>, d: seq<u8>)
    requires a == b
    ensures a + c + d == b + c + d
  {
  }

  /** Lengths that count what is inside make the flat file the nested one. */
  lemma Nested(le: Coder, header: seq<u8>, hdrl: seq<u8>, movi: seq<u8>, idx: seq<u8>)
    requires |hdrl| == 200 && |movi| % 2 == 0 && |idx| % 2 == 0
    requires header == (RIFF + le(224 + |movi| + 8 + |idx| - 8) + AVI_) + hdrl + LIST + le(4 + |movi|) + MOVI
    ensures var size := 224 + |movi| + 8 + |idx|;
            && header + movi + (IDX1 + le(|idx|) + idx)
               == Chunk(le, RIFF, AVI_ + hdrl + List(le, MOVI, movi) + Chunk(le, IDX1, idx))
            && |Chunk(le, RIFF, AVI_ + hdrl + List(le, MOVI, movi) + Chunk(le, IDX1, idx))| == size
  {
    var size := 224 + |movi| + 8 + |idx|;
    EvenChunk(le, LIST, MOVI + movi);
    EvenChunk(le, IDX1, idx);
    Assemble(le, size - 8, hdrl, 4 + |movi|, movi, IDX1 + le(|idx|) + idx);
    var inside := AVI_ + hdrl + (LIST + le(4 + |movi|) + (MOVI + movi)) + (IDX1 + le(|idx|) + idx);
    assert |inside| == size - 8;
    EvenChunk(le, RIFF, inside);
    Replace(header, (RIFF + le(size - 8) + AVI_) + hdrl + LIST + le(4 + |movi|) + MOVI, movi, IDX1 + le(|idx|) + idx);
  }

  lemma HdrlLength(le: Coder, us: u32, n: nat, w: u32, h: u32)
    ensures |List(le, HDRL, Hdrl(le, us, n, w, h))| == 200
  {
    StrlFlat(le, Strh(le, us, n, w, h), Strf(le, w, h));
    HdrlFlat(le, Avih(le, us, n, w, h), Middle(le) + Strh(le, us, n, w, h) + Closing(le, w, h));
  }

  lemma Assemble(le: Coder, size: int, hdrl: seq<u8>, moviSize: int, movi: seq<u8>, idx: seq<u8>)
    ensures ((RIFF + le(size) + AVI_) + hdrl + LIST + le(moviSize) + MOVI) + movi + idx
         == RIFF + le(size) + (AVI_ + hdrl + (LIST + le(moviSize) + (MOVI + movi)) + idx)
  {
  }

  // ---- reading it back ---------------------------------------------------------------------------

  datatype Item = Item(id: seq<u8>, body: seq<u8>)

  /** A stretch of bytes taken apart into chunks that fill it exactly. */
  function Split(get: Reader, b: seq<u8>): Option<seq<Item>> {
    if b == [] then Some([])
    else if |b| < 8 then None
    else
      var len := get(b[4..8]);
      var end := 8 + len + len % 2;
      if end > |b| then None
      else
        var rest := Split(get, b[end..]);
        if rest.None? then None else Some([Item(b[..4], b[8..8 + len])] + rest.value)
  }

  lemma ChunkSlices(le: Coder, id: Code, body: seq<u8>, rest: seq<u8>)
    ensures var b, n := Chunk(le, id, body) + rest, |body|;
            && |b| == 8 + n + n % 2 + |rest| && b[..4] == id && b[4..8] == le(n) && b[8..8 + n] == body && b[8 + n + n % 2..] == rest
  {
  }

  lemma SplitKnown(get: Reader, b: seq<u8>, n: nat, rest: seq<u8>)
    requires |b| >= 8 + n + n % 2 && get(b[4..8]) == n && b[8 + n + n % 2..] == rest && Split(get, rest).Some?
    ensures Split(get, b) == Some([Item(b[..4], b[8..8 + n])] + Split(get, rest).value)
  {
  }

  lemma SplitFirst(le: Coder, get: Reader, id: Code, body: seq<u8>, rest: seq<u8>)
    requires Reads(le, get) && |body| < TWO32 && Split(get, rest).Some?
    ensures Split(get, Chunk(le, id, body) + rest) == Some([Item(id, body)] + Split(get, rest).value)
  {
    ChunkSlices(le, id, body, rest);
    SplitKnown(get, Chunk(le, id, body) + rest, |body|, rest);
  }

  lemma SplitOne(le: Coder, get: Reader, id: Code, body: seq<u8>)
    requires Reads(le, get) && |body| < TWO32
    ensures Split(get, Chunk(le, id, body)) == Some([Item(id, body)])
  {
    var none: seq<u8>, end: seq<Item> := [], [];
    assert Split(get, none) == Some(end);
    SplitFirst(le, get, id, body, none);
    assert Chunk(le, id, body) + none == Chunk(le, id, body);
    assert [Item(id, body)] + end == [Item(id, body)];
  }

  function Items(fs: seq<seq<u8>>): (r: seq<Item>)
    ensures |r| == |fs|
  {
    seq(|fs|, i requires 0 <= i < |fs| => Item(DC, fs[i]))
  }

  ghost predicate Small(fs: seq<seq<u8>>) {
    forall i :: 0 <= i < |fs| ==> |fs[i]| < TWO32
  }

  lemma {:induction false} MoviFrom(le: Coder, fs: seq<seq<u8>>, i: nat)
    requires i <= |fs|
    ensures Movi(le, fs[..i]) <= Movi(le, fs)
    decreases |fs|
  {
    if i < |fs| {
      var front := fs[..|fs| - 1];
      MoviFrom(le, front, i);
      assert front[..i] == fs[..i];
    } else {
      assert fs[..i] == fs;
    }
  }

  lemma {:induction false} MoviFront(le: Coder, fs: seq<seq<u8>>)
    requires fs != []
    ensures Movi(le, fs) == Chunk(le, DC, fs[0]) + Movi(le, fs[1..])
  {
    var none: seq<seq<u8>>, n := [], |fs| - 1;
    if n == 0 {
      assert fs[..0] == none && fs[1..] == none;
      assert Movi(le, none) == [];
    } else {
      var front, last, tail := fs[..n], fs[n], fs[1..];
      MoviFront(le, front);
      assert tail[..n - 1] == front[1..] && tail[n - 1] == last;
      assert front[0] == fs[0];
      MoviLast(le, tail, front[1..], last);
      MoviLast(le, fs, front, last);
    }
  }

  lemma MoviLast(le: Coder, fs: seq<seq<u8>>, front: seq<seq<u8>>, last: seq<u8>)
    requires fs != [] && fs[..|fs| - 1] == front && fs[|fs| - 1] == last
    ensures Movi(le, fs) == Movi(le, front) + Chunk(le, DC, last)
  {
  }

  lemma ItemsFront(fs: seq<seq<u8>>)
    requires fs != []
    ensures Items(fs) == [Item(DC, fs[0])] + Items(fs[1..])
  {
  }

  /** The movie list holds exactly the frames, in order. */
  lemma {:induction false} SplitMovi(le: Coder, get: Reader, fs: seq<seq<u8>>)
    requires Reads(le, get) && Small(fs)
    ensures Split(get, Movi(le, fs)) == Some(Items(fs))
  {
    if fs == [] {
      assert Movi(le, fs) == [];
    } else {
      SplitMovi(le, get, fs[1..]);
      MoviFront(le, fs);
      ItemsFront(fs);
      SplitFirst(le, get, DC, fs[0], Movi(le, fs[1..]));
    }
  }

  lemma {:induction false} FramesFit(le: Coder, fs: seq<seq<u8>>)
    requires |Movi(le, fs)| < TWO32
    ensures Small(fs)
  {
    if fs != [] {
      FramesFit(le, fs[..|fs| - 1]);
      assert forall i :: 0 <= i < |fs| - 1 ==> fs[i] == fs[..|fs| - 1][i];
    }
  }

  lemma SplitTwo(le: Coder, get: Reader, a: Code, x: seq<u8>, b: Code, y: seq<u8>)
    requires Reads(le, get) && |x| < TWO32 && |y| < TWO32
    ensures Split(get, Chunk(le, a, x) + Chunk(le, b, y)) == Some([Item(a, x), Item(b, y)])
  {
    SplitOne(le, get, b, y);
    SplitFirst(le, get, a, x, Chunk(le, b, y));
    assert [Item(a, x)] + [Item(b, y)] == [Item(a, x), Item(b, y)];
  }

  lemma SplitThree(le: Coder, get: Reader, a: Code, x: seq<u8>, b: Code, y: seq<u8>, c: Code, z: seq<u8>)
    requires Reads(le, get) && |x| < TWO32 && |y| < TWO32 && |z| < TWO32
    ensures Split(get, Chunk(le, a, x) + Chunk(le, b, y) + Chunk(le, c, z)) == Some([Item(a, x), Item(b, y), Item(c, z)])
  {
    SplitTwo(le, get, b, y, c, z);
    SplitFirst(le, get, a, x, Chunk(le, b, y) + Chunk(le, c, z));
    assert Chunk(le, a, x) + Chunk(le, b, y) + Chunk(le, c, z) == Chunk(le, a, x) + (Chunk(le, b, y) + Chunk(le, c, z));
    assert [Item(a, x)] + [Item(b, y), Item(c, z)] == [Item(a, x), Item(b, y), Item(c, z)];
  }

  /** The contents of the RIFF chunk behind "AVI ". */
  function Contents(le: Coder, us: u32, w: u32, h: u32, fs: seq<seq<u8>>): seq<u8> {
    List(le, HDRL, Hdrl(le, us, |fs|, w, h)) + List(le, MOVI, Movi(le, fs)) + Chunk(le, IDX1, Index(le, fs, |fs|))
  }

  /** The file is one RIFF chunk; in it are the headers, the movie and the index, and nothing else. */
  lemma FileTiles(le: Coder, get: Reader, us: u32, w: u32, h: u32, fs: seq<seq<u8>>)
    requires Reads(le, get) && |Avi(le, us, w, h, fs)| < TWO32
    ensures Split(get, Avi(le, us, w, h, fs)) == Some([Item(RIFF, AVI_ + Contents(le, us, w, h, fs))])
    ensures Split(get, Contents(le, us, w, h, fs)) == Some([Item(LIST, HDRL + Hdrl(le, us, |fs|, w, h)),
              Item(LIST, MOVI + Movi(le, fs)), Item(IDX1, Index(le, fs, |fs|))])
  {
    ThreeInOne(le, get, Hdrl(le, us, |fs|, w, h), Movi(le, fs), Index(le, fs, |fs|));
  }

  lemma ThreeInOne(le: Coder, get: Reader, hdrl: seq<u8>, movi: seq<u8>, idx: seq<u8>)
    requires Reads(le, get)
    requires |Chunk(le, RIFF, AVI_ + List(le, HDRL, hdrl) + List(le, MOVI, movi) + Chunk(le, IDX1, idx))| < TWO32
    ensures var inner := List(le, HDRL, hdrl) + List(le, MOVI, movi) + Chunk(le, IDX1, idx);
            && Split(get, Chunk(le, RIFF, AVI_ + List(le, HDRL, hdrl) + List(le, MOVI, movi) + Chunk(le, IDX1, idx)))
               == Some([Item(RIFF, AVI_ + inner)])
            && Split(get, inner) == Some([Item(LIST, HDRL + hdrl), Item(LIST, MOVI + movi), Item(IDX1, idx)])
  {
    SplitThree(le, get, LIST, HDRL + hdrl, LIST, MOVI + movi, IDX1, idx);
    OneRiff(le, get, List(le, HDRL, hdrl), List(le, MOVI, movi), Chunk(le, IDX1, idx));
  }

  lemma OneRiff(le: Coder, get: Reader, a: seq<u8>, b: seq<u8>, c: seq<u8>)
    requires Reads(le, get) && |AVI_ + a + b + c| < TWO32
    ensures Split(get, Chunk(le, RIFF, AVI_ + a + b + c)) == Some([Item(RIFF, AVI_ + (a + b + c))])
  {
    assert AVI_ + a + b + c == AVI_ + (a + b + c);
    SplitOne(le, get, RIFF, AVI_ + (a + b + c));
  }

  /** The lists of headers are filled exactly too. */
  lemma HeadersTile(le: Coder, get: Reader, us: u32, n: nat, w: u32, h: u32)
    requires Reads(le, get)
    ensures Split(get, Hdrl(le, us, n, w, h)) == Some([Item(AVIH, Avih(le, us, n, w, h)),
              Item(LIST, STRL + (Chunk(le, STRH, Strh(le, us, n, w, h)) + Chunk(le, STRF, Strf(le, w, h))))])
    ensures Split(get, Chunk(le, STRH, Strh(le, us, n, w, h)) + Chunk(le, STRF, Strf(le, w, h)))
         == Some([Item(STRH, Strh(le, us, n, w, h)), Item(STRF, Strf(le, w, h))])
  {
    var strh, strf := Strh(le, us, n, w, h), Strf(le, w, h);
    SplitTwo(le, get, AVIH, Avih(le, us, n, w, h), LIST, STRL + (Chunk(le, STRH, strh) + Chunk(le, STRF, strf)));
    SplitTwo(le, get, STRH, strh, STRF, strf);
  }

  /** And the movie list holds the frames, every one, in order. */
  lemma MovieTiles(le: Coder, get: Reader, fs: seq<seq<u8>>)
    requires Reads(le, get) && |Movi(le, fs)| < TWO32
    ensures Split(get, Movi(le, fs)) == Some(Items(fs))
  {
    FramesFit(le, fs);
    SplitMovi(le, get, fs);
  }

  // ---- reading by the index --------------------------------------------------------------------------

  /** Frame i as a player seeks it: movie length, index entry, chunk. */
  function ReadFrame(get: Reader, b: seq<u8>, i: nat): Option<seq<u8>> {
    if |b| < 224 then None
    else
      var at := 220 + get(b[216..220]);
      if at + 8 > |b| || b[at..at + 4] != IDX1 || get(b[at + 4..at + 8]) < 16 * i + 16 then None
      else ReadEntry(get, b, at + 8 + 16 * i)
  }

  function ReadEntry(get: Reader, b: seq<u8>, e: nat): Option<seq<u8>> {
    if e + 16 > |b| || b[e..e + 4] != DC then None
    else
      var c, len := 220 + get(b[e + 8..e + 12]), get(b[e + 12..e + 16]);
      if c + 8 + len > |b| || b[c..c + 4] != DC || get(b[c + 4..c + 8]) != len then None
      else Some(b[c + 8..c + 8 + len])
  }

  /** `s` stands in `b` at `at`. */
  ghost predicate Holds(b: seq<u8>, at: nat, s: seq<u8>) {
    at + |s| <= |b| && b[at..at + |s|] == s
  }

  lemma HoldsIn(pre: seq<u8>, b: seq<u8>, post: seq<u8>, at: nat, s: seq<u8>)
    requires Holds(b, at, s)
    ensures Holds(pre + b + post, |pre| + at, s)
  {
    assert (pre + b + post)[|pre| + at..|pre| + at + |s|] == b[at..at + |s|];
  }

  lemma HoldsEarlier(b: seq<u8>, post: seq<u8>, at: nat, s: seq<u8>)
    requires Holds(b, at, s)
    ensures Holds(b + post, at, s)
  {
    assert (b + post)[at..at + |s|] == b[at..at + |s|];
  }

  lemma {:induction false} IndexAt(le: Coder, fs: seq<seq<u8>>, n: nat, i: nat)
    requires i < n <= |fs|
    ensures Holds(Index(le, fs, n), 16 * i, Entry(le, Offset(le, fs, i), |fs[i]|))
  {
    if i < n - 1 {
      IndexAt(le, fs, n - 1, i);
      HoldsEarlier(Index(le, fs, n - 1), Entry(le, Offset(le, fs, n - 1), |fs[n - 1]|), 16 * i, Entry(le, Offset(le, fs, i), |fs[i]|));
    }
  }

  /** Frame i's chunk stands in the movie at its offset. */
  lemma {:induction false} MoviAt(le: Coder, fs: seq<seq<u8>>, i: nat)
    requires i < |fs|
    ensures Holds(Movi(le, fs), |Movi(le, fs[..i])|, Chunk(le, DC, fs[i]))
  {
    var n := |fs| - 1;
    var front := fs[..n];
    MoviLast(le, fs, front, fs[n]);
    if i < n {
      MoviAt(le, front, i);
      assert front[..i] == fs[..i];
      HoldsEarlier(Movi(le, front), Chunk(le, DC, fs[n]), |Movi(le, fs[..i])|, Chunk(le, DC, fs[i]));
    }
  }

  lemma EntryFields(le: Coder, b: seq<u8>, e: nat, off: nat, len: nat)
    requires Holds(b, e, Entry(le, off, len))
    ensures b[e..e + 4] == DC && b[e + 8..e + 12] == le(off) && b[e + 12..e + 16] == le(len)
  {
    var en := Entry(le, off, len);
    assert en[0..4] == DC && en[8..12] == le(off) && en[12..16] == le(len);
    Inside(b, e, en, 0, 4);
    Inside(b, e, en, 8, 12);
    Inside(b, e, en, 12, 16);
  }

  lemma ChunkFields(le: Coder, b: seq<u8>, c: nat, id: Code, f: seq<u8>)
    requires Holds(b, c, Chunk(le, id, f))
    ensures c + 8 + |f| <= |b|
    ensures b[c..c + 4] == id && b[c + 4..c + 8] == le(|f|) && b[c + 8..c + 8 + |f|] == f
  {
    var ck := Chunk(le, id, f);
    assert ck[0..4] == id && ck[4..8] == le(|f|) && ck[8..8 + |f|] == f;
    Inside(b, c, ck, 0, 4);
    Inside(b, c, ck, 4, 8);
    Inside(b, c, ck, 8, 8 + |f|);
  }

  lemma Inside(b: seq<u8>, at: nat, s: seq<u8>, lo: nat, hi: nat)
    requires Holds(b, at, s) && lo <= hi <= |s|
    ensures b[at + lo..at + hi] == s[lo..hi]
  {
    forall k | 0 <= k < hi - lo ensures b[at + lo..at + hi][k] == s[lo..hi][k] {
      assert s[lo + k] == b[at..at + |s|][lo + k];
    }
  }

  /** An entry that names a chunk's place and length is read as that chunk's contents. */
  lemma EntryRead(le: Coder, get: Reader, b: seq<u8>, e: nat, off: nat, f: seq<u8>)
    requires Reads(le, get) && off < TWO32 && |f| < TWO32
    requires Holds(b, e, Entry(le, off, |f|)) && Holds(b, 220 + off, Chunk(le, DC, f))
    ensures ReadEntry(get, b, e) == Some(f)
  {
    EntryFields(le, b, e, off, |f|);
    ChunkFields(le, b, 220 + off, DC, f);
  }

  /**
   Every index entry leads to exactly the frame it is for, whatever lengths the frames have,
   and there is an entry for each frame and no more.
   */
  lemma IndexAgrees(le: Coder, get: Reader, us: u32, w: u32, h: u32, fs: seq<seq<u8>>, i: nat)
    requires Reads(le, get) && FileSize(le, fs) < TWO32
    ensures ReadFrame(get, Flat(le, us, w, h, fs), i) == if i < |fs| then Some(fs[i]) else None
  {
    HeadEnds(le, FileSize(le, fs) - 8, us, |fs|, MoviSize(le, fs), w, h);
    IndexOfFrames(le, get, Header(le, FileSize(le, fs) - 8, us, |fs|, us, |fs|, MoviSize(le, fs), w, h), fs, i);
  }

  lemma IndexOfFrames(le: Coder, get: Reader, head: seq<u8>, fs: seq<seq<u8>>, i: nat)
    requires Reads(le, get) && FileSize(le, fs) < TWO32
    requires |head| == 224 && head[216..220] == le(MoviSize(le, fs))
    ensures ReadFrame(get, head + Movi(le, fs) + (IDX1 + le(16 * |fs|) + Index(le, fs, |fs|)), i)
         == if i < |fs| then Some(fs[i]) else None
  {
    var f, at := [], 0;
    if i < |fs| {
      FrameHeld(le, fs, i);
      f, at := fs[i], |Movi(le, fs[..i])|;
    }
    var movi, idx, n := Movi(le, fs), Index(le, fs, |fs|), |fs|;
    assert i < n ==> Holds(idx, 16 * i, Entry(le, 4 + at, |f|)) && Holds(movi, at, Chunk(le, DC, f));
    FindFrame(le, get, head, movi, idx, n, i, f, at);
  }

  lemma FrameHeld(le: Coder, fs: seq<seq<u8>>, i: nat)
    requires i < |fs| && FileSize(le, fs) < TWO32
    ensures |fs[i]| < TWO32
    ensures Holds(Index(le, fs, |fs|), 16 * i, Entry(le, 4 + |Movi(le, fs[..i])|, |fs[i]|))
    ensures Holds(Movi(le, fs), |Movi(le, fs[..i])|, Chunk(le, DC, fs[i]))
  {
    FramesFit(le, fs);
    IndexAt(le, fs, |fs|, i);
    MoviAt(le, fs, i);
  }

  lemma HeadEnds(le: Coder, riff: int, us: u32, n: nat, movi: int, w: u32, h: u32)
    ensures Header(le, riff, us, n, us, n, movi, w, h)[216..220] == le(movi)
    ensures Header(le, riff, us, n, us, n, movi, w, h)[220..224] == MOVI
  {
  }

  lemma IndexPlace(head: seq<u8>, movi: seq<u8>, size: Code, idx: seq<u8>)
    requires |head| == 224
    ensures var b, m := head + movi + (IDX1 + size + idx), 224 + |movi|;
            && |b| == m + 8 + |idx| && b[216..220] == head[216..220] && b[m..m + 4] == IDX1 && b[m + 4..m + 8] == size
  {
    var b := head + movi + (IDX1 + size + idx);
    assert b == head + (movi + IDX1 + size + idx);
    assert b == (head + movi) + IDX1 + size + idx;
  }

  lemma FindFrame(le: Coder, get: Reader, head: seq<u8>, movi: seq<u8>, idx: seq<u8>, n: nat, i: nat, f: seq<u8>, at: nat)
    requires Reads(le, get) && |head| == 224 && head[216..220] == le(4 + |movi|)
    requires |idx| == 16 * n && 232 + |movi| + 16 * n < TWO32 && |f| < TWO32
    requires i < n ==> Holds(idx, 16 * i, Entry(le, 4 + at, |f|)) && Holds(movi, at, Chunk(le, DC, f))
    ensures ReadFrame(get, head + movi + (IDX1 + le(16 * n) + idx), i) == if i < n then Some(f) else None
  {
    IndexPlace(head, movi, le(16 * n), idx);
    if i < n { FoundFrame(le, get, head, movi, le(16 * n), idx, i, f, at); }
  }

  lemma FoundFrame(le: Coder, get: Reader, head: seq<u8>, movi: seq<u8>, size: Code, idx: seq<u8>, i: nat, f: seq<u8>, at: nat)
    requires Reads(le, get) && |head| == 224 && 4 + |movi| < TWO32 && |f| < TWO32
    requires Holds(idx, 16 * i, Entry(le, 4 + at, |f|)) && Holds(movi, at, Chunk(le, DC, f))
    ensures ReadEntry(get, head + movi + (IDX1 + size + idx), 232 + |movi| + 16 * i) == Some(f)
  {
    var b := head + movi + (IDX1 + size + idx);
    var none: seq<u8> := [];
    HoldsIn(head + movi + IDX1 + size, idx, none, 16 * i, Entry(le, 4 + at, |f|));
    assert head + movi + IDX1 + size + idx + none == b;
    HoldsIn(head, movi, IDX1 + size + idx, at, Chunk(le, DC, f));
    EntryRead(le, get, b, 232 + |movi| + 16 * i, 4 + at, f);
  }
}
