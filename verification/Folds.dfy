/** Folding a function over a string, and relations that every step keeps. */
module Folds {

  function Fold<C, B>(f: (C, B) -> C, c: C, s: seq<B>): C {
    if s == [] then c else f(Fold(f, c, s[..|s| - 1]), s[|s| - 1])
  }

  function Times<C>(g: C -> C, c: C, n: nat): C {
    if n == 0 then c else g(Times(g, c, n - 1))
  }

  lemma {:induction false} FoldAppend<C, B>(f: (C, B) -> C, c: C, s: seq<B>, t: seq<B>)
    ensures Fold(f, c, s + t) == Fold(f, Fold(f, c, s), t)
  {
    if t == [] {
      assert s + t == s;
    } else {
      var n := |t| - 1;
      FoldAppend(f, c, s, t[..n]);
      assert (s + t)[..|s| + n] == s + t[..n];
    }
  }

  lemma FoldOne<C, B>(f: (C, B) -> C, c: C, b: B)
    ensures Fold(f, c, [b]) == f(c, b)
  {
    assert [b][..0] == [];
    assert Fold(f, c, []) == c;
  }

  lemma FoldThree<C, B>(f: (C, B) -> C, c: C, b0: B, b1: B, b2: B)
    ensures Fold(f, c, [b0, b1, b2]) == f(f(f(c, b0), b1), b2)
  {
    assert [b0, b1, b2] == [b0] + [b1] + [b2];
    FoldAppend(f, c, [b0] + [b1], [b2]);
    FoldAppend(f, c, [b0], [b1]);
    FoldOne(f, c, b0);
    FoldOne(f, f(c, b0), b1);
    FoldOne(f, f(f(c, b0), b1), b2);
  }

  lemma TimesOf8<C>(g: C -> C, c: C)
    ensures Times(g, c, 8) == g(g(g(g(g(g(g(g(c))))))))
  {
    assert Times(g, c, 0) == c;
    assert Times(g, c, 1) == g(Times(g, c, 0));
    assert Times(g, c, 2) == g(Times(g, c, 1));
    assert Times(g, c, 3) == g(Times(g, c, 2));
    assert Times(g, c, 4) == g(Times(g, c, 3));
    assert Times(g, c, 5) == g(Times(g, c, 4));
    assert Times(g, c, 6) == g(Times(g, c, 5));
    assert Times(g, c, 7) == g(Times(g, c, 6));
  }

  /** Always true; names three values a step law is to be used on. */
  ghost predicate At<C>(a: C, b: C, c: C) { true }

  /** Three values in relation stay in relation under a step function. */
  ghost predicate Keeps3<C(!new)>(g: C -> C, r: (C, C, C) -> bool) {
    forall a: C, b: C, c: C {:trigger At(a, b, c)} :: r(a, b, c) ==> r(g(a), g(b), g(c))
  }

  lemma EightKeep3<C(!new)>(g: C -> C, r: (C, C, C) -> bool, a: C, b: C, c: C)
    requires Keeps3(g, r) && r(a, b, c)
    ensures r(g(g(g(g(g(g(g(g(a)))))))), g(g(g(g(g(g(g(g(b)))))))), g(g(g(g(g(g(g(g(c)))))))))
  {
    assert At(a, b, c);
    assert At(g(a), g(b), g(c));
    assert At(g(g(a)), g(g(b)), g(g(c)));
    assert At(g(g(g(a))), g(g(g(b))), g(g(g(c))));
    var a4, b4, c4 := g(g(g(g(a)))), g(g(g(g(b)))), g(g(g(g(c))));
    assert At(a4, b4, c4);
    assert At(g(a4), g(b4), g(c4));
    assert At(g(g(a4)), g(g(b4)), g(g(c4)));
    assert At(g(g(g(a4))), g(g(g(b4))), g(g(g(c4))));
  }

  ghost predicate FoldKeeps3<C(!new), B(!new)>(f: (C, B) -> C, r: (C, C, C) -> bool, q: (B, B, B) -> bool) {
    forall a: C, b: C, c: C, x: B, y: B, z: B :: r(a, b, c) && q(x, y, z) ==> r(f(a, x), f(b, y), f(c, z))
  }

  lemma {:induction false} FoldRelated3<C(!new), B(!new)>(
      f: (C, B) -> C, r: (C, C, C) -> bool, q: (B, B, B) -> bool,
      a: C, b: C, c: C, s: seq<B>, t: seq<B>, u: seq<B>)
    requires FoldKeeps3(f, r, q) && r(a, b, c) && |s| == |t| == |u|
    requires forall i :: 0 <= i < |s| ==> q(s[i], t[i], u[i])
    ensures r(Fold(f, a, s), Fold(f, b, t), Fold(f, c, u))
  {
    if s != [] {
      FoldRelated3(f, r, q, a, b, c, s[..|s| - 1], t[..|t| - 1], u[..|u| - 1]);
    }
  }

  /** A property the step function neither makes nor breaks. */
  ghost predicate KeepsIff<C(!new)>(g: C -> C, p: C -> bool) {
    forall a: C :: p(g(a)) <==> p(a)
  }

  lemma EightKeepIff<C(!new)>(g: C -> C, p: C -> bool, a: C)
    requires KeepsIff(g, p)
    ensures p(g(g(g(g(g(g(g(g(a)))))))))  <==> p(a)
  {
    var a4 := g(g(g(g(a))));
    assert p(g(a4)) <==> p(a4);
    assert p(g(g(a4))) <==> p(g(a4));
    assert p(g(g(g(a4)))) <==> p(g(g(a4)));
    assert p(a4) <==> p(g(g(g(a))));
  }

  lemma {:induction false} FoldKeepIff<C(!new), B(!new)>(f: (C, B) -> C, p: C -> bool, b: B, c: C, s: seq<B>)
    requires forall a: C :: p(f(a, b)) <==> p(a)
    requires forall i :: 0 <= i < |s| ==> s[i] == b
    ensures p(Fold(f, c, s)) <==> p(c)
  {
    if s != [] { FoldKeepIff(f, p, b, c, s[..|s| - 1]); }
  }
}
