/** Symbols in error and the syndromes they make: power sums of the error values.
    Power sums determine the values, so the shortest register for the syndromes
    of few errors is zero at the inverse of the place of each. */
module RsErrors {
  import opened GfTables
  import opened Gf
  import opened Rs
  import BM = BerlekampMassey

  /** A symbol in error: what was added to it, and the exponent of the power of
      the primitive element that belongs to its place. */
  datatype Err = Err(x: nat, y: Symbol)

  /** The c-th power sum. */
  function Sum(es: seq<Err>, c: nat): Symbol {
    if es == [] then 0 else Add(Sum(es[..|es| - 1], c), Act(es[|es| - 1].x * c, es[|es| - 1].y))
  }

  predicate DifferentPlaces(es: seq<Err>) {
    forall i, j :: 0 <= i < j < |es| ==> es[i].x % 255 != es[j].x % 255
  }

  // ----- Exponents -----

  /** The exponent of the inverse, from 1 to 255. */
  function Inv(x: nat): (i: nat)
    ensures 1 <= i <= 255
  {
    255 - x % 255
  }

  lemma {:induction false} Turns(u: nat, x: Symbol)
    ensures Act(255 * u, x) == x
  {
    hide Act;
    ActPeriod(255 * u, x);
    assert (255 * u) % 255 == 0;
    ActNone(x);
  }

  /** An exponent and its inverse undo each other, t times. */
  lemma Undone(x: nat, n: nat, t: nat, y: Symbol)
    requires t <= n
    ensures Act(x * n + Inv(x) * t, y) == Act(x * (n - t), y)
  {
    hide Act;
    var q := x / 255 + 1;
    assert x + Inv(x) == 255 * q;
    InverseSum(x, Inv(x), q, n, t);
    ActTwice(255 * (q * t), x * (n - t), y);
    Turns(q * t, Act(x * (n - t), y));
  }

  lemma InverseSum(x: nat, i: nat, q: nat, n: nat, t: nat)
    requires x + i == 255 * q && t <= n
    ensures x * n + i * t == 255 * (q * t) + x * (n - t)
  {
    assert x * n + i * t == x * (n - t) + (x + i) * t;
  }

  /** A power can be multiplied in on either side of a product. */
  lemma ActMul(n: nat, x: Symbol, y: Symbol, u: Symbol, v: Symbol)
    requires u == Act(n, x) && v == Act(n, y)
    ensures Act(n, Mul(x, y)) == Mul(u, y) == Mul(x, v)
  {
    hide Act, Mul;
    ActMulLeft(n, x, y, u);
    ActMulLeft(n, y, x, v);
    MulCommutes(x, y);
    MulCommutes(v, x);
  }

  lemma ActMulLeft(n: nat, x: Symbol, y: Symbol, u: Symbol)
    requires u == Act(n, x)
    ensures Act(n, Mul(x, y)) == Mul(u, y)
  {
    hide Act, Mul, AlphaTo, IndexOf;
    MulOne(x);
    MulOne(u);
    ActZero(n, 0);
    if y != 0 {
      MulIsAct(x, y);
      MulIsAct(u, y);
      ActSwap(n, IndexOf(y), x);
    }
  }

  lemma MulZero(x: Symbol, y: Symbol)
    requires Mul(x, y) == 0 && y != 0
    ensures x == 0
  {
    hide Act, Mul, IndexOf;
    MulIsAct(x, y);
    ActZero(IndexOf(y), x);
  }

  // ----- Power sums determine the values -----

  /** Each value times the difference of its power and the one of m. */
  function Without(es: seq<Err>, m: nat): (r: seq<Err>)
    ensures |r| == |es|
    ensures forall i :: 0 <= i < |es| ==> r[i] == Err(es[i].x, Add(Act(es[i].x, es[i].y), Act(m, es[i].y)))
  {
    seq(|es|, i requires 0 <= i < |es| => Err(es[i].x, Add(Act(es[i].x, es[i].y), Act(m, es[i].y))))
  }

  lemma {:induction false} WithoutSum(es: seq<Err>, m: nat, c: nat)
    ensures Sum(Without(es, m), c) == Add(Sum(es, c + 1), Act(m, Sum(es, c)))
  {
    hide Add, Act;
    if es == [] {
      ActZero(m, 0);
      AddLaws(0, 0, 0);
    } else {
      var n := |es| - 1;
      var x, y := es[n].x, es[n].y;
      WithoutSum(es[..n], m, c);
      assert Without(es, m)[..n] == Without(es[..n], m);
      TimesNext(x, c);
      NextPower(x * c, x, m, y);
      ActLinear(m, Sum(es[..n], c), Act(x * c, y));
      AddPairs(Sum(es[..n], c + 1), Act(m, Sum(es[..n], c)), Act(x * (c + 1), y), Act(m, Act(x * c, y)));
    }
  }

  lemma TimesNext(x: nat, c: nat)
    ensures x * (c + 1) == x * c + x
  {}

  lemma NextPower(e: nat, x: nat, m: nat, y: Symbol)
    ensures Act(e, Add(Act(x, y), Act(m, y))) == Add(Act(e + x, y), Act(m, Act(e, y)))
  {
    hide Add, Act;
    ActLinear(e, Act(x, y), Act(m, y));
    ActTwice(e, x, y);
    ActSwap(e, m, y);
  }

  /** Powers of different exponents move a symbol to different places. */
  lemma DifferentPowers(m: nat, n: nat, y: Symbol)
    requires m % 255 != n % 255 && Add(Act(m, y), Act(n, y)) == 0
    ensures y == 0
  {
    hide Add, Act;
    AddZero(Act(m, y), Act(n, y));
    ActPeriod(m, y);
    ActPeriod(n, y);
    var a, b := m % 255, n % 255;
    var lo, hi := if a < b then a else b, if a < b then b else a;
    ActTwice(lo, hi - lo, y);
    SameImage(lo, Act(hi - lo, y), y);
    OnlyZeroStays(hi - lo, y);
  }

  lemma {:induction false} SumOfZeros(es: seq<Err>, c: nat)
    requires forall i :: 0 <= i < |es| ==> es[i].y == 0
    ensures Sum(es, c) == 0
  {
    hide Add, Act;
    if es != [] {
      SumOfZeros(es[..|es| - 1], c);
      ActZero(es[|es| - 1].x * c, 0);
      AddLaws(0, 0, 0);
    }
  }

  /** As many power sums that are zero as there are places: all values are zero. */
  lemma {:induction false} Vandermonde(es: seq<Err>)
    requires DifferentPlaces(es) && forall c :: 0 <= c < |es| ==> Sum(es, c) == 0
    ensures forall i :: 0 <= i < |es| ==> es[i].y == 0
    decreases |es|
  {
    hide Add, Act, Sum;
    if es != [] {
      var n := |es| - 1;
      var init, x, y := es[..n], es[n].x, es[n].y;
      forall c | 0 <= c < n ensures Sum(Without(init, x), c) == 0 {
        WithoutIsZero(es, c);
      }
      Vandermonde(Without(init, x));
      forall i | 0 <= i < n ensures init[i].y == 0 {
        assert Without(init, x)[i].y == 0;
        DifferentPowers(init[i].x, x, init[i].y);
      }
      LastValue(es);
    }
  }

  lemma WithoutIsZero(es: seq<Err>, c: nat)
    requires |es| > 0 && Sum(es, c) == 0 && Sum(es, c + 1) == 0
    ensures Sum(Without(es[..|es| - 1], es[|es| - 1].x), c) == 0
  {
    hide Add, Act;
    var n := |es| - 1;
    var init, x, y := es[..n], es[n].x, es[n].y;
    WithoutSum(init, x, c);
    AddZero(Sum(init, c), Act(x * c, y));
    AddZero(Sum(init, c + 1), Act(x * (c + 1), y));
    ActTwice(x, x * c, y);
    assert x + x * c == x * (c + 1);
    AddZero(Sum(init, c + 1), Act(x, Sum(init, c)));
  }

  lemma LastValue(es: seq<Err>)
    requires |es| > 0 && Sum(es, 0) == 0 && forall i :: 0 <= i < |es| - 1 ==> es[i].y == 0
    ensures es[|es| - 1].y == 0
  {
    hide Add;
    var n := |es| - 1;
    SumOfZeros(es[..n], 0);
    assert es[n].x * 0 == 0;
    AddLaws(0, es[n].y, 0);
    AddLaws(es[n].y, 0, 0);
  }

  // ----- What a polynomial makes of the syndromes -----

  /** The first n terms of the polynomial p, lowest coefficient first, at a power
      of the primitive element. */
  function Pre(p: seq<Symbol>, e: nat, n: nat): Symbol
    requires n <= |p|
  {
    if n == 0 then 0 else Add(Pre(p, e, n - 1), Act(e * (n - 1), p[n - 1]))
  }

  /** Each value times the first n terms of p at the inverse of its place, and
      the s-th power of the place. */
  function Scaled(es: seq<Err>, p: seq<Symbol>, s: nat, n: nat): (r: seq<Err>)
    requires n <= |p|
    ensures |r| == |es|
    ensures forall i :: 0 <= i < |es| ==>
      r[i] == Err(es[i].x, Act(es[i].x * s, Mul(Pre(p, Inv(es[i].x), n), es[i].y)))
  {
    seq(|es|, i requires 0 <= i < |es| => Err(es[i].x, Act(es[i].x * s, Mul(Pre(p, Inv(es[i].x), n), es[i].y))))
  }

  ghost predicate AreSyndromes(syn: seq<Symbol>, es: seq<Err>) {
    forall k :: 0 <= k < |syn| ==> syn[k] == Sum(es, FCR + k)
  }

  /** The terms of a convolution with the syndromes are power sums too. */
  lemma {:induction false} ConvIsSum(p: seq<Symbol>, syn: seq<Symbol>, es: seq<Err>, s: nat, k: nat, n: nat)
    requires AreSyndromes(syn, es) && n <= |p| && n <= k + 1 && k < |syn| && s <= FCR + k
    ensures BM.Conv(p, syn, k, n) == Sum(Scaled(es, p, s, n), FCR + k - s)
  {
    hide Add, Act, Mul, Sum;
    if n == 0 {
      ScaledNone(es, p, s, FCR + k - s);
    } else {
      ConvIsSum(p, syn, es, s, k, n - 1);
      ScaledMore(es, p, s, n, FCR + k - s, FCR + k - (n - 1));
    }
  }

  lemma ScaledNone(es: seq<Err>, p: seq<Symbol>, s: nat, c: nat)
    ensures Sum(Scaled(es, p, s, 0), c) == 0
  {
    hide Add, Act, Mul;
    var r := Scaled(es, p, s, 0);
    forall i | 0 <= i < |r| ensures r[i].y == 0 {
      MulOne(es[i].y);
      ActZero(es[i].x * s, 0);
    }
    SumOfZeros(r, c);
  }

  lemma {:induction false} ScaledMore(es: seq<Err>, p: seq<Symbol>, s: nat, n: nat, c: nat, d: nat)
    requires 0 < n <= |p| && d + n - 1 == s + c
    ensures Sum(Scaled(es, p, s, n), c) == Add(Sum(Scaled(es, p, s, n - 1), c), Mul(p[n - 1], Sum(es, d)))
    decreases |es|
  {
    hide Add, Act, Mul, Pre, Inv;
    var q := p[n - 1];
    if es == [] {
      MulOne(q);
      AddLaws(0, 0, 0);
    } else {
      var m := |es| - 1;
      var e, init := es[m], es[..m];
      ScaledMore(init, p, s, n, c, d);
      assert Scaled(es, p, s, n)[..m] == Scaled(init, p, s, n);
      assert Scaled(es, p, s, n - 1)[..m] == Scaled(init, p, s, n - 1);
      var g := e.x * d;
      ScaledTerm(e, p, s, n, c, g);
      MulDistributes(Sum(init, d), Act(g, e.y), q);
      AddPairs(Sum(Scaled(init, p, s, n - 1), c), Mul(q, Sum(init, d)),
               Act(e.x * c, Act(e.x * s, Mul(Pre(p, Inv(e.x), n - 1), e.y))), Mul(q, Act(g, e.y)));
    }
  }

  lemma ScaledTerm(e: Err, p: seq<Symbol>, s: nat, n: nat, c: nat, g: nat)
    requires 0 < n <= |p| && n - 1 <= s + c && g == e.x * (s + c - (n - 1))
    ensures var i := Inv(e.x);
      Act(e.x * c, Act(e.x * s, Mul(Pre(p, i, n), e.y)))
      == Add(Act(e.x * c, Act(e.x * s, Mul(Pre(p, i, n - 1), e.y))), Mul(p[n - 1], Act(g, e.y)))
  {
    hide Add, Act, Mul, Inv;
    var i, t := Inv(e.x), n - 1;
    var q, r := Pre(p, i, t), Act(i * t, p[t]);
    assert Pre(p, i, n) == Add(q, r);
    TwoTerms(e.x * c, e.x * s, q, r, e.y);
    assert e.x * (s + c) == e.x * c + e.x * s;
    Undone(e.x, s + c, t, Mul(p[t], e.y));
    TermMoves(e.x * c, e.x * s, i * t, g, p[t], e.y);
  }

  lemma TwoTerms(a: nat, b: nat, q: Symbol, r: Symbol, y: Symbol)
    ensures Act(a, Act(b, Mul(Add(q, r), y))) == Add(Act(a, Act(b, Mul(q, y))), Act(a, Act(b, Mul(r, y))))
  {
    hide Add, Act, Mul;
    MulDistributes(q, r, y);
    ActLinear(b, Mul(q, y), Mul(r, y));
    ActLinear(a, Act(b, Mul(q, y)), Act(b, Mul(r, y)));
  }

  lemma TermMoves(a: nat, b: nat, d: nat, g: nat, q: Symbol, y: Symbol)
    requires Act(a + b + d, Mul(q, y)) == Act(g, Mul(q, y))
    ensures Act(a, Act(b, Mul(Act(d, q), y))) == Mul(q, Act(g, y))
  {
    hide Add, Act, Mul;
    ActMul(d, q, y, Act(d, q), Act(d, y));
    var m := Mul(q, y);
    ActTwice(b, d, m);
    ActTwice(a, b + d, m);
    ActMul(g, q, y, Act(g, q), Act(g, y));
  }

  // ----- A register for the syndromes of few errors -----

  /** The polynomial whose roots are the inverses of the places. */
  function Locator(es: seq<Err>): (p: seq<Symbol>)
    ensures |p| == BM.LEN
  {
    if es == [] then BM.Unit()
    else
      var p := Locator(es[..|es| - 1]);
      var x := BM.Shifted(p);
      seq(BM.LEN, i requires 0 <= i < BM.LEN => Add(p[i], Act(es[|es| - 1].x, x[i])))
  }

  lemma {:induction false} LocatorShape(es: seq<Err>)
    requires |es| < BM.LEN
    ensures Locator(es)[0] == 1 && BM.Degree(Locator(es), |es|)
  {
    hide Add, Act;
    if es != [] {
      var n := |es| - 1;
      LocatorShape(es[..n]);
      var p := Locator(es[..n]);
      ActZero(es[n].x, 0);
      AddLaws(1, 0, 0);
      AddLaws(0, 0, 0);
      forall i | n + 1 < i < BM.LEN ensures Locator(es)[i] == 0 {
        assert p[i] == 0 && BM.Shifted(p)[i] == p[i - 1] == 0;
      }
    }
  }

  /** One factor more: the terms of the product at a power. */
  lemma {:induction false} FactorPre(p: seq<Symbol>, r: seq<Symbol>, x: nat, e: nat, n: nat)
    requires |p| == |r| == BM.LEN && n < BM.LEN
    requires forall i :: 0 <= i < BM.LEN ==> r[i] == Add(p[i], Act(x, BM.Shifted(p)[i]))
    ensures Pre(r, e, n + 1) == Add(Pre(p, e, n + 1), Act(x, Act(e, Pre(p, e, n))))
  {
    hide Add, Act;
    if n == 0 {
      FactorFirst(p, r, x, e);
    } else {
      FactorPre(p, r, x, e, n - 1);
      var a, b := p[n], p[n - 1];
      assert r[n] == Add(a, Act(x, b));
      var s, t := Pre(p, e, n - 1), Pre(p, e, n);
      assert t == Add(s, Act(e * (n - 1), b));
      FactorTerm(x, e, n, a, b);
      FactorPrefix(x, e, n, s, b);
      FourSums(t, Act(x, Act(e, s)), Act(e * n, a), Act(x, Act(e * n, b)), Pre(r, e, n), Act(e * n, r[n]),
        Act(x, Act(e, t)));
    }
  }

  lemma FourSums(t: Symbol, u: Symbol, v: Symbol, w: Symbol, tu: Symbol, vw: Symbol, uw: Symbol)
    requires tu == Add(t, u) && vw == Add(v, w) && uw == Add(u, w)
    ensures Add(tu, vw) == Add(Add(t, v), uw)
  {
    hide Add;
    AddPairs(t, u, v, w);
  }

  lemma FactorTerm(x: nat, e: nat, n: nat, a: Symbol, b: Symbol)
    ensures Act(e * n, Add(a, Act(x, b))) == Add(Act(e * n, a), Act(x, Act(e * n, b)))
  {
    hide Add, Act;
    ActLinear(e * n, a, Act(x, b));
    ActSwap(e * n, x, b);
  }

  lemma FactorPrefix(x: nat, e: nat, n: nat, s: Symbol, b: Symbol)
    requires n > 0
    ensures Act(x, Act(e, Add(s, Act(e * (n - 1), b)))) == Add(Act(x, Act(e, s)), Act(x, Act(e * n, b)))
  {
    hide Add, Act;
    assert e * n == e + e * (n - 1);
    ActTwice(e, e * (n - 1), b);
    ActLinear(e, s, Act(e * (n - 1), b));
    ActLinear(x, Act(e, s), Act(e, Act(e * (n - 1), b)));
  }

  lemma FactorFirst(p: seq<Symbol>, r: seq<Symbol>, x: nat, e: nat)
    requires |p| == |r| == BM.LEN && r[0] == Add(p[0], Act(x, 0))
    ensures Pre(r, e, 1) == Add(Pre(p, e, 1), Act(x, Act(e, Pre(p, e, 0))))
  {
    hide Add, Act;
    ActZero(x, 0);
    ActZero(e, 0);
    AddLaws(p[0], 0, 0);
    AddLaws(Pre(p, e, 1), 0, 0);
  }

  lemma {:induction false} LocatorVanishes(es: seq<Err>, i: nat)
    requires |es| < BM.LEN && i < |es|
    ensures Pre(Locator(es), Inv(es[i].x), BM.LEN) == 0
  {
    hide Add, Act, Locator;
    var n, e := |es| - 1, Inv(es[i].x);
    var init := es[..n];
    LocatorShape(init);
    LocatorStep(es, e);
    var v := Pre(Locator(init), e, BM.LEN);
    if i < n {
      LocatorVanishes(init, i);
      ActZero(e, 0);
      ActZero(es[n].x, 0);
      AddLaws(0, 0, 0);
    } else {
      ActTwice(es[n].x, e, v);
      assert es[n].x * 1 == es[n].x && e * 1 == e && es[n].x * 0 == 0;
      Undone(es[n].x, 1, 1, v);
      ActNone(v);
      AddZero(v, v);
    }
  }

  lemma LocatorStep(es: seq<Err>, e: nat)
    requires 0 < |es| < BM.LEN
    ensures var n := |es| - 1;
      var v := Pre(Locator(es[..n]), e, BM.LEN);
      Pre(Locator(es), e, BM.LEN) == Add(v, Act(es[n].x, Act(e, v)))
  {
    hide Add, Act;
    var n := |es| - 1;
    var p := Locator(es[..n]);
    LocatorShape(es[..n]);
    FactorPre(p, Locator(es), es[n].x, e, BM.LEN - 1);
    ActZero(e * (BM.LEN - 1), 0);
    AddLaws(Pre(p, e, BM.LEN - 1), 0, 0);
  }

  /** Terms above the degree add nothing. */
  lemma {:induction false} ConvDegree(p: seq<Symbol>, syn: seq<Symbol>, k: int, n: nat, deg: nat)
    requires deg < n <= |p| && BM.Degree(p, deg)
    ensures BM.Conv(p, syn, k, n) == BM.Conv(p, syn, k, deg + 1)
  {
    hide Add, Mul;
    if n > deg + 1 {
      ConvDegree(p, syn, k, n - 1, deg);
      MulOne(BM.At(syn, k - (n - 1)));
      AddLaws(BM.Conv(p, syn, k, n - 1), 0, 0);
    }
  }

  lemma {:induction false} PreDegree(p: seq<Symbol>, e: nat, n: nat, deg: nat)
    requires deg < n <= |p| && BM.Degree(p, deg)
    ensures Pre(p, e, n) == Pre(p, e, deg + 1)
  {
    hide Add, Act;
    if n > deg + 1 {
      PreDegree(p, e, n - 1, deg);
      ActZero(e * (n - 1), 0);
      AddLaws(Pre(p, e, n - 1), 0, 0);
    }
  }

  /** The discrepancies of a polynomial, as power sums. */
  lemma DiscIsSum(p: seq<Symbol>, syn: seq<Symbol>, es: seq<Err>, deg: nat, k: nat)
    requires AreSyndromes(syn, es) && deg < |p| && BM.Degree(p, deg) && deg <= k < |syn|
    ensures BM.Disc(p, syn, k) == Sum(Scaled(es, p, FCR + deg, deg + 1), k - deg)
  {
    hide Add, Act, Mul, Sum, BM.Conv;
    ConvDegree(p, syn, k, |p|, deg);
    ConvIsSum(p, syn, es, FCR + deg, k, deg + 1);
  }

  /** The locator is a register for the syndromes, as long as there are errors. */
  lemma LocatorIsRegister(syn: seq<Symbol>, es: seq<Err>)
    requires AreSyndromes(syn, es) && |es| <= |syn| < BM.LEN
    ensures BM.IsRegister(Locator(es), syn, |es|, |syn|)
  {
    hide Add, Act, Mul, Sum, Locator, BM.Disc;
    LocatorShape(es);
    var p, n := Locator(es), |es|;
    var w := Scaled(es, p, FCR + n, n + 1);
    forall i | 0 <= i < |es| ensures w[i].y == 0 {
      LocatorVanishes(es, i);
      PreDegree(p, Inv(es[i].x), BM.LEN, n);
      MulOne(es[i].y);
      ActZero(es[i].x * (FCR + n), 0);
    }
    forall k | n <= k < |syn| ensures BM.Disc(p, syn, k) == 0 {
      DiscIsSum(p, syn, es, n, k);
      SumOfZeros(w, k - n);
    }
  }

  /** The polynomial of a register for the syndromes is zero at the inverse of
      every place, where there are syndromes enough. */
  lemma RegisterVanishes(p: seq<Symbol>, el: nat, syn: seq<Symbol>, es: seq<Err>, i: nat)
    requires AreSyndromes(syn, es) && DifferentPlaces(es) && i < |es| && es[i].y != 0
    requires BM.IsRegister(p, syn, el, |syn|) && el + |es| <= |syn|
    ensures Pre(p, Inv(es[i].x), BM.LEN) == 0
  {
    hide Add, Act, Mul, Sum, Pre, BM.Disc;
    var w := Scaled(es, p, FCR + el, el + 1);
    forall c | 0 <= c < |w| ensures Sum(w, c) == 0 {
      DiscIsSum(p, syn, es, el, el + c);
    }
    Vandermonde(w);
    assert w[i].y == 0;
    var v := Pre(p, Inv(es[i].x), el + 1);
    ActZero(es[i].x * (FCR + el), Mul(v, es[i].y));
    MulZero(v, es[i].y);
    PreDegree(p, Inv(es[i].x), BM.LEN, el);
  }
}
