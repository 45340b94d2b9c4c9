/** The photo listing: the newest files the caller has room for, newest first, in the caller's array. */
module PhotoList {
  import opened Bytes

  datatype Photo = Photo(idx: u32, size: u32, video: bool)

  // ---- multisets and updates ------------------------------------------------------------

  lemma SwapIn(s: seq<Photo>, k: nat, x: Photo)
    requires k < |s|
    ensures multiset(s[k := x]) + multiset{s[k]} == multiset(s) + multiset{x}
  {
    assert s == s[..k] + [s[k]] + s[k + 1..];
    assert s[k := x] == s[..k] + [x] + s[k + 1..];
  }

  /** Newest first. */
  ghost predicate Descending(s: seq<Photo>) {
    forall i, j :: 0 <= i < j < |s| ==> s[i].idx >= s[j].idx
  }

  /** Nothing left out is newer than anything kept. */
  ghost predicate Newest(kept: seq<Photo>, out: seq<Photo>) {
    forall i, j :: 0 <= i < |kept| && 0 <= j < |out| ==> kept[i].idx >= out[j].idx
  }

  /** `kept` are the newest of `all` there is room for; the others are left out. */
  ghost predicate Selects(kept: seq<Photo>, out: seq<Photo>, all: seq<Photo>, cap: nat) {
    && multiset(kept) + multiset(out) == multiset(all) && Newest(kept, out)
    && |kept| == (if |all| < cap then |all| else cap)
  }

  // ---- collecting -------------------------------------------------------------------------

  /** The first of the oldest among the first `n`. */
  method OldestOf(a: array<Photo>, n: nat) returns (mn: nat)
    requires 0 < n <= a.Length
    ensures mn < n && forall i :: 0 <= i < n ==> a[mn].idx <= a[i].idx
  {
    mn := 0;
    for i := 1 to n
      invariant mn < n && forall k :: 0 <= k < i ==> a[mn].idx <= a[k].idx
    {
      if a[i].idx < a[mn].idx { mn := i; }
    }
  }

  lemma AddKept(kept: seq<Photo>, out: seq<Photo>, all: seq<Photo>, cap: nat, p: Photo)
    requires Selects(kept, out, all, cap) && |all| < cap
    ensures Selects(kept + [p], out, all + [p], cap) && out == []
  {
    assert |multiset(kept)| + |multiset(out)| == |multiset(all)|;
  }

  lemma AddOut(kept: seq<Photo>, out: seq<Photo>, all: seq<Photo>, cap: nat, p: Photo)
    requires Selects(kept, out, all, cap) && |all| >= cap
    requires forall i :: 0 <= i < |kept| ==> kept[i].idx >= p.idx
    ensures Selects(kept, out + [p], all + [p], cap)
  {
  }

  lemma Displace(kept: seq<Photo>, out: seq<Photo>, all: seq<Photo>, cap: nat, p: Photo, mn: nat)
    requires Selects(kept, out, all, cap) && |all| >= cap && mn < |kept|
    requires forall i :: 0 <= i < |kept| ==> kept[mn].idx <= kept[i].idx
    requires p.idx > kept[mn].idx
    ensures Selects(kept[mn := p], out + [kept[mn]], all + [p], cap)
  {
    SwapIn(kept, mn, p);
    var kept', out' := kept[mn := p], out + [kept[mn]];
    forall i, j | 0 <= i < |kept'| && 0 <= j < |out'| ensures kept'[i].idx >= out'[j].idx {
      if j < |out| { assert kept[mn].idx >= out[j].idx; }
    }
  }

  /** One directory entry: take it while there is room, else let it displace the oldest if newer. */
  method Consider(p: Photo, a: array<Photo>, n: nat, ghost out: seq<Photo>, ghost all: seq<Photo>) returns (n': nat, ghost out': seq<Photo>)
    requires n <= a.Length && a.Length > 0 && Selects(a[..n], out, all, a.Length)
    modifies a
    ensures n' <= a.Length && Selects(a[..n'], out', all + [p], a.Length)
  {
    ghost var kept := a[..n];
    n', out' := n, out;
    if n < a.Length {
      AddKept(kept, out, all, a.Length, p);
      a[n] := p;
      n' := n + 1;
      assert a[..n'] == kept + [p];
    } else {
      var mn := OldestOf(a, n);
      if p.idx > a[mn].idx {
        Displace(kept, out, all, a.Length, p, mn);
        out' := out + [a[mn]];
        a[mn] := p;
        assert a[..n] == kept[mn := p];
      } else {
        AddOut(kept, out, all, a.Length, p);
        out' := out + [p];
      }
    }
  }

  /** Walk the directory, displacing the oldest once the array is full. */
  method Collect(entries: seq<Photo>, a: array<Photo>) returns (n: nat, ghost out: seq<Photo>)
    requires a.Length > 0
    modifies a
    ensures n <= a.Length && Selects(a[..n], out, entries, a.Length)
  {
    n, out := 0, [];
    assert a[..0] == [] && entries[..0] == [];
    for i := 0 to |entries|
      invariant n <= a.Length && Selects(a[..n], out, entries[..i], a.Length)
    {
      assert entries[..i + 1] == entries[..i] + [entries[i]];
      n, out := Consider(entries[i], a, n, out, entries[..i]);
    }
    assert entries[..|entries|] == entries;
  }

  // ---- sorting ---------------------------------------------------------------------------------

  /** With `k` in the hole at `j`: sorted on both sides of the hole, and `k` newer than all behind it. */
  ghost predicate Hole(s: seq<Photo>, i: nat, j: nat, k: Photo)
    requires j <= i < |s|
  {
    && Descending(s[..j] + s[j + 1..i + 1])
    && forall m :: j < m <= i ==> s[m].idx < k.idx
  }

  /** One write, seen through the first `n` entries. */
  method Write(a: array<Photo>, n: nat, j: nat, p: Photo)
    requires j < n <= a.Length
    modifies a
    ensures a[..n] == old(a[..n])[j := p] && a[n..] == old(a[n..])
  {
    a[j] := p;
  }

  /** Slide smaller entries up and drop entry `i` into its place among the sorted ones before it. */
  method InsertOne(a: array<Photo>, i: nat, n: nat)
    requires i < n <= a.Length && Descending(a[..n][..i])
    modifies a
    ensures Descending(a[..n][..i + 1]) && multiset(a[..n]) == old(multiset(a[..n])) && a[n..] == old(a[n..])
  {
    var k := a[i];
    ghost var start := a[..n];
    OpenHole(start, i);
    var j := i;
    while j > 0 && a[j - 1].idx < k.idx
      invariant j <= i && Hole(a[..n], i, j, k)
      invariant multiset(a[..n][j := k]) == multiset(start) && a[n..] == old(a[n..])
    {
      ghost var was := a[..n];
      Write(a, n, j, a[j - 1]);
      SlideUp(was, a[..n], i, j, k);
      j := j - 1;
    }
    FillHole(a[..n], i, j, k);
    Write(a, n, j, k);
  }

  lemma OpenHole(s: seq<Photo>, i: nat)
    requires i < |s| && Descending(s[..i])
    ensures Hole(s, i, i, s[i]) && s[i := s[i]] == s
  {
    assert s[..i] + s[i + 1..i + 1] == s[..i];
  }

  lemma Swapped(p: seq<Photo>, q: seq<Photo>, x: Photo, y: Photo)
    ensures multiset(p + [x, y] + q) == multiset(p + [y, x] + q)
  {
    assert multiset([x, y]) == multiset([y, x]);
  }

  lemma SlideUp(s: seq<Photo>, t: seq<Photo>, i: nat, j: nat, k: Photo)
    requires 0 < j <= i < |s| && Hole(s, i, j, k) && s[j - 1].idx < k.idx && t == s[j := s[j - 1]]
    ensures Hole(t, i, j - 1, k)
    ensures multiset(t[j - 1 := k]) == multiset(s[j := k])
  {
    assert t[..j - 1] + t[j..i + 1] == s[..j] + s[j + 1..i + 1];
    assert t[j - 1 := k] == s[..j - 1] + [k, s[j - 1]] + s[j + 1..];
    assert s[j := k] == s[..j - 1] + [s[j - 1], k] + s[j + 1..];
    Swapped(s[..j - 1], s[j + 1..], k, s[j - 1]);
  }

  lemma FillHole(s: seq<Photo>, i: nat, j: nat, k: Photo)
    requires j <= i < |s| && Hole(s, i, j, k) && (j > 0 ==> s[j - 1].idx >= k.idx)
    ensures Descending(s[j := k][..i + 1])
  {
    var t, r := s[j := k][..i + 1], s[..j] + s[j + 1..i + 1];
    forall x, y | 0 <= x < y < |t| ensures t[x].idx >= t[y].idx {
      if y < j {
        assert r[x] == s[x] && r[y] == s[y];
      } else if x < j && y == j {
        assert r[x] == s[x] && r[j - 1] == s[j - 1];
      } else if x < j {
        assert r[x] == s[x] && r[y - 1] == s[y];
      } else if x == j {
        assert s[y].idx < k.idx;
      } else {
        assert r[x - 1] == s[x] && r[y - 1] == s[y];
      }
    }
  }

  method SortNewestFirst(a: array<Photo>, n: nat)
    requires n <= a.Length
    modifies a
    ensures Descending(a[..n]) && multiset(a[..n]) == old(multiset(a[..n]))
  {
    var i := 1;
    while i < n
      invariant 1 <= i && (n > 0 ==> i <= n && Descending(a[..n][..i]))
      invariant multiset(a[..n]) == old(multiset(a[..n]))
    {
      InsertOne(a, i, n);
      i := i + 1;
    }
    assert a[..n][..n] == a[..n];
  }

  /** The listing: as many entries as fit, none of the others newer, newest first. */
  method List(entries: seq<Photo>, a: array<Photo>) returns (n: nat, ghost out: seq<Photo>)
    modifies a
    ensures a.Length == 0 ==> n == 0
    ensures a.Length > 0 ==> n <= a.Length && Selects(a[..n], out, entries, a.Length) && Descending(a[..n])
  {
    n, out := 0, [];
    if a.Length == 0 { return; }
    n, out := Collect(entries, a);
    ghost var kept := a[..n];
    SortNewestFirst(a, n);
    NewestOfSame(kept, a[..n], out);
  }

  /** Which entries are kept does not depend on their order. */
  lemma NewestOfSame(s: seq<Photo>, t: seq<Photo>, out: seq<Photo>)
    requires Newest(s, out) && multiset(s) == multiset(t)
    ensures Newest(t, out) && |s| == |t|
  {
    assert |multiset(s)| == |multiset(t)|;
    forall i, j | 0 <= i < |t| && 0 <= j < |out| ensures t[i].idx >= out[j].idx {
      assert t[i] in multiset(t);
      assert t[i] in multiset(s);
      var k :| 0 <= k < |s| && s[k] == t[i];
    }
  }
}
