/** The values of the errors: the product of the syndromes and the register, at
    the inverse of the place of an error, is the value of that error times the
    derivative of the register there. */
module RsForney {
  import opened GfTables
  import opened Gf
  import opened Rs
  import opened RsErrors
  import opened RsRoots
  import BM = BerlekampMassey

  /** The first n coefficients of the product of the register and the syndromes,
      at a power. */
  function OmegaAt(p: seq<Symbol>, syn: seq<Symbol>, a: nat, n: nat): Symbol {
    if n == 0 then 0 else Add(OmegaAt(p, syn, a, n - 1), Act(a * (n - 1), BM.Disc(p, syn, n - 1)))
  }

  /** What one error adds: its terms summed up. */
  function Gathered(p: seq<Symbol>, i: nat, r: nat, n: nat): Symbol
    requires n <= |p|
  {
    if n == 0 then 0 else Add(Gathered(p, i, r, n - 1), Act(r * (n - 1), Pre(p, i, n)))
  }

  function Shares(es: seq<Err>, p: seq<Symbol>, a: nat, n: nat): (r: seq<Err>)
    requires n <= |p|
    ensures |r| == |es|
    ensures forall i :: 0 <= i < |es| ==>
      r[i] == Err(es[i].x, Act(es[i].x * FCR, Mul(Gathered(p, Inv(es[i].x), a + es[i].x, n), es[i].y)))
  {
    seq(|es|, i requires 0 <= i < |es| =>
      Err(es[i].x, Act(es[i].x * FCR, Mul(Gathered(p, Inv(es[i].x), a + es[i].x, n), es[i].y))))
  }

  lemma {:induction false} SharesMore(es: seq<Err>, p: seq<Symbol>, a: nat, n: nat, b: nat)
    requires 0 < n <= |p| && b == a * (n - 1)
    ensures Sum(Shares(es, p, a, n), 0)
         == Add(Sum(Shares(es, p, a, n - 1), 0), Act(b, Sum(Scaled(es, p, FCR, n), n - 1)))
    decreases |es|
  {
    hide Add, Act, Mul, Gathered, Pre, Inv, Scaled, Shares;
    if es == [] {
      ActZero(b, 0);
      AddLaws(0, 0, 0);
    } else {
      var m := |es| - 1;
      var e, init := es[m], es[..m];
      SharesMore(init, p, a, n, b);
      assert Shares(es, p, a, n)[..m] == Shares(init, p, a, n);
      assert Shares(es, p, a, n - 1)[..m] == Shares(init, p, a, n - 1);
      assert Scaled(es, p, FCR, n)[..m] == Scaled(init, p, FCR, n);
      var i := Inv(e.x);
      var c, f, z := e.x * (n - 1), e.x * FCR, e.x * 0;
      ShareMore(e, p, a, n, b, c, f, z);
      var t := Act(c, Act(f, Mul(Pre(p, i, n), e.y)));
      ActLinear(b, Sum(Scaled(init, p, FCR, n), n - 1), t);
      AddPairs(Sum(Shares(init, p, a, n - 1), 0), Act(b, Sum(Scaled(init, p, FCR, n), n - 1)),
               Act(z, Act(f, Mul(Gathered(p, i, a + e.x, n - 1), e.y))), Act(b, t));
    }
  }

  lemma ShareMore(e: Err, p: seq<Symbol>, a: nat, n: nat, b: nat, c: nat, f: nat, z: nat)
    requires 0 < n <= |p| && b == a * (n - 1) && c == e.x * (n - 1) && z == e.x * 0
    ensures var i, r := Inv(e.x), a + e.x;
      Act(z, Act(f, Mul(Gathered(p, i, r, n), e.y)))
      == Add(Act(z, Act(f, Mul(Gathered(p, i, r, n - 1), e.y))), Act(b, Act(c, Act(f, Mul(Pre(p, i, n), e.y)))))
  {
    hide Add, Act, Mul, Pre, Inv;
    var i, r := Inv(e.x), a + e.x;
    var q := Pre(p, i, n);
    assert r * (n - 1) == b + c;
    assert Gathered(p, i, r, n) == Add(Gathered(p, i, r, n - 1), Act(b + c, q));
    TwoTerms(z, f, Gathered(p, i, r, n - 1), Act(b + c, q), e.y);
    ShareTerm(z, f, b, c, q, e.y);
  }

  lemma ShareTerm(z: nat, f: nat, b: nat, c: nat, q: Symbol, y: Symbol)
    requires z == 0
    ensures Act(z, Act(f, Mul(Act(b + c, q), y))) == Act(b, Act(c, Act(f, Mul(q, y))))
  {
    hide Add, Act, Mul;
    ActNone(Act(f, Mul(Act(b + c, q), y)));
    ActMul(b + c, q, y, Act(b + c, q), Act(b + c, y));
    ActSwap(f, b + c, Mul(q, y));
    ActTwice(b, c, Act(f, Mul(q, y)));
  }

  /** The value of the product is what all errors add together. */
  lemma {:induction false} OmegaIsSum(p: seq<Symbol>, syn: seq<Symbol>, es: seq<Err>, a: nat, n: nat)
    requires AreSyndromes(syn, es) && n <= |p| && n <= |syn|
    ensures OmegaAt(p, syn, a, n) == Sum(Shares(es, p, a, n), 0)
  {
    hide Add, Act, Mul, Sum, BM.Conv, Gathered;
    if n == 0 {
      SharesNone(es, p, a);
    } else {
      OmegaIsSum(p, syn, es, a, n - 1);
      SharesMore(es, p, a, n, a * (n - 1));
      DiscLow(p, syn, n - 1, |p|);
      ConvIsSum(p, syn, es, FCR, n - 1, n);
    }
  }

  lemma SharesNone(es: seq<Err>, p: seq<Symbol>, a: nat)
    ensures Sum(Shares(es, p, a, 0), 0) == 0
  {
    hide Add, Act, Mul;
    var r := Shares(es, p, a, 0);
    forall i | 0 <= i < |r| ensures r[i].y == 0 {
      MulOne(es[i].y);
      ActZero(es[i].x * FCR, 0);
    }
    SumOfZeros(r, 0);
  }

  /** Before the first syndrome there is nothing. */
  lemma {:induction false} DiscLow(p: seq<Symbol>, syn: seq<Symbol>, k: nat, n: nat)
    requires k < n <= |p|
    ensures BM.Conv(p, syn, k, n) == BM.Conv(p, syn, k, k + 1)
  {
    hide Add, Mul;
    if n > k + 1 {
      DiscLow(p, syn, k, n - 1);
      MulOne(p[n - 1]);
      AddLaws(BM.Conv(p, syn, k, n - 1), 0, 0);
    }
  }

  // ----- What another error adds: nothing -----

  /** The sum by parts. */
  lemma {:induction false} ByParts(p: seq<Symbol>, i: nat, r: nat, n: nat)
    requires n <= |p|
    ensures Add(Act(r, Gathered(p, i, r, n)), Gathered(p, i, r, n))
         == Add(Act(r * n, Pre(p, i, n)), Pre(p, r + i, n))
  {
    hide Add, Act;
    if n == 0 {
      ActZero(r, 0);
      ActZero(r * 0, 0);
      AddLaws(0, 0, 0);
    } else {
      var m := n - 1;
      ByParts(p, i, r, m);
      assert r + r * m == r * n && r * m + i * m == (r + i) * m;
      PartsStep(Gathered(p, i, r, m), Pre(p, i, m), Pre(p, r + i, m), p[m], r, r * m, i * m);
    }
  }

  lemma PartsStep(g: Symbol, q: Symbol, o: Symbol, c: Symbol, r: nat, e: nat, f: nat)
    requires Add(Act(r, g), g) == Add(Act(e, q), o)
    ensures var q', g' := Add(q, Act(f, c)), Add(g, Act(e, Add(q, Act(f, c))));
      Add(Act(r, g'), g') == Add(Act(r + e, q'), Add(o, Act(e + f, c)))
  {
    hide Add, Act;
    var q' := Add(q, Act(f, c));
    var u, v := Act(e, q'), Act(r + e, q');
    ActLinear(r, g, u);
    ActTwice(r, e, q');
    AddPairs(Act(r, g), v, g, u);
    ActLinear(e, q, Act(f, c));
    ActTwice(e, f, c);
    var s, t := Act(e, q), Act(e + f, c);
    AddPairs(s, o, v, Add(s, t));
    AddLaws(Add(s, o), v, Add(s, t));
    Cancel(s, o, v, t);
  }

  lemma Cancel(s: Symbol, o: Symbol, v: Symbol, t: Symbol)
    ensures Add(Add(s, o), Add(v, Add(s, t))) == Add(v, Add(o, t))
  {
    hide Add;
    AddLaws(v, Add(s, t), 0);
    AddPairs(s, o, Add(s, t), v);
    AddLaws(s, s, t);
    AddLaws(t, 0, 0);
    AddLaws(t, v, 0);
    AddLaws(0, t, 0);
    AddLaws(o, v, 0);
    AddLaws(t, v, o);
    AddLaws(v, t, o);
    AddLaws(t, o, 0);
  }

  /** An error at another root of the register adds nothing. */
  lemma OtherAddsNothing(p: seq<Symbol>, i: nat, r: nat, deg: nat)
    requires deg < |p| && Pre(p, i, deg + 1) == 0 == Pre(p, r + i, deg + 1) && r % 255 != 0
    ensures Gathered(p, i, r, deg) == 0
  {
    hide Add, Act, Pre, Gathered;
    var g, c := Gathered(p, i, r, deg), p[deg];
    ByParts(p, i, r, deg);
    LastTerm(p, i, deg);
    LastTerm(p, r + i, deg);
    ActTwice(r * deg, i * deg, c);
    assert r * deg + i * deg == (r + i) * deg;
    AddLaws(Act((r + i) * deg, c), 0, 0);
    AddZero(Act(r, g), g);
    OnlyZeroStays(r, g);
  }

  /** At a root the last term is the sum of all the others. */
  lemma LastTerm(p: seq<Symbol>, e: nat, deg: nat)
    requires deg < |p| && Pre(p, e, deg + 1) == 0
    ensures Pre(p, e, deg) == Act(e * deg, p[deg])
  {
    hide Add, Act;
    AddZero(Pre(p, e, deg), Act(e * deg, p[deg]));
  }

  // ----- What the error itself adds: the derivative -----

  lemma {:induction false} OwnGathered(p: seq<Symbol>, i: nat, r: nat, n: nat)
    requires n <= |p| && r % 255 == 0
    ensures Gathered(p, i, r, n) == if n % 2 == 0 then Act(i, Deriv(p, i, n))
      else Add(Pre(p, i, n), Act(i, Deriv(p, i, n)))
  {
    hide Add, Act;
    if n == 0 {
      ActZero(i, 0);
    } else {
      var m := n - 1;
      OwnGathered(p, i, r, m);
      WholeTurns(r, m, Pre(p, i, n));
      if n % 2 == 0 {
        var q, t, d := Pre(p, i, m), p[m], Deriv(p, i, m);
        assert i * m == i + i * (n - 2);
        ActTwice(i, i * (n - 2), t);
        ActLinear(i, d, Act(i * (n - 2), t));
        EvenStep(q, Act(i, d), Act(i * m, t));
      } else {
        AddLaws(Act(i, Deriv(p, i, m)), Pre(p, i, n), 0);
      }
    }
  }

  lemma WholeTurns(r: nat, m: nat, x: Symbol)
    requires r % 255 == 0
    ensures Act(r * m, x) == x
  {
    hide Act;
    var u := r / 255;
    assert r * m == 255 * (u * m);
    Turns(u * m, x);
  }

  lemma EvenStep(q: Symbol, d: Symbol, t: Symbol)
    ensures Add(Add(q, d), Add(q, t)) == Add(d, t)
  {
    hide Add;
    AddPairs(q, d, q, t);
    AddLaws(q, 0, 0);
    AddLaws(0, Add(d, t), 0);
    AddLaws(Add(d, t), 0, 0);
  }

  lemma OwnAddsDerivative(p: seq<Symbol>, i: nat, r: nat, deg: nat)
    requires deg < |p| && r % 255 == 0 && Pre(p, i, deg + 1) == 0
    ensures Gathered(p, i, r, deg) == Act(i, Deriv(p, i, deg + 1))
  {
    hide Add, Act;
    OwnGathered(p, i, r, deg);
    if deg % 2 == 1 {
      LastTerm(p, i, deg);
      assert i * deg == i + i * (deg - 1);
      ActTwice(i, i * (deg - 1), p[deg]);
      ActLinear(i, Deriv(p, i, deg), Act(i * (deg - 1), p[deg]));
      AddLaws(Act(i * deg, p[deg]), Act(i, Deriv(p, i, deg)), 0);
    }
  }

  // ----- The value of an error -----

  lemma {:induction false} SumOfOne(es: seq<Err>, m: nat, c: nat)
    requires m < |es| && forall i :: 0 <= i < |es| && i != m ==> es[i].y == 0
    ensures Sum(es, c) == Act(es[m].x * c, es[m].y)
    decreases |es|
  {
    hide Add, Act;
    var n := |es| - 1;
    var t := Act(es[m].x * c, es[m].y);
    if m == n {
      SumOfZeros(es[..n], c);
      AddLaws(0, t, 0);
      AddLaws(t, 0, 0);
    } else {
      SumOfOne(es[..n], m, c);
      ActZero(es[n].x * c, 0);
      AddLaws(t, 0, 0);
    }
  }

  /** At the inverse of the place of error m the product is its value times the
      derivative of the register. */
  lemma OmegaAtError(p: seq<Symbol>, syn: seq<Symbol>, es: seq<Err>, deg: nat, m: nat)
    requires AreSyndromes(syn, es) && DifferentPlaces(es) && m < |es|
    requires deg < |p| && deg <= |syn| && forall l :: 0 <= l < |es| ==> Pre(p, Inv(es[l].x), deg + 1) == 0
    ensures var a := Inv(es[m].x);
      OmegaAt(p, syn, a, deg) == Act(es[m].x * FCR, Mul(Act(a, Deriv(p, a, deg + 1)), es[m].y))
  {
    hide Add, Act, Mul, Sum, Pre, Deriv, Gathered, OmegaAt;
    var a := Inv(es[m].x);
    var r := Shares(es, p, a, deg);
    OmegaIsSum(p, syn, es, a, deg);
    forall l | 0 <= l < |es| && l != m ensures r[l].y == 0 {
      OtherShare(p, es[m].x, es[l].x, deg);
      MulOne(es[l].y);
      ActZero(es[l].x * FCR, 0);
    }
    SumOfOne(r, m, 0);
    InverseIs(es[m].x);
    OwnAddsDerivative(p, a, a + es[m].x, deg);
    assert es[m].x * 0 == 0;
    ActNone(r[m].y);
  }

  lemma InverseIs(x: nat)
    ensures (Inv(x) + x) % 255 == 0
  {}

  lemma OtherShare(p: seq<Symbol>, x: nat, z: nat, deg: nat)
    requires deg < |p| && Pre(p, Inv(x), deg + 1) == 0 == Pre(p, Inv(z), deg + 1) && x % 255 != z % 255
    ensures Gathered(p, Inv(z), Inv(x) + z, deg) == 0
  {
    hide Add, Act, Gathered;
    var q := z / 255 + 1;
    assert Inv(x) + z + Inv(z) == Inv(x) + 255 * q;
    PreTurned(p, Inv(x), q, deg + 1);
    OtherAddsNothing(p, Inv(z), Inv(x) + z, deg);
  }

  /** A value is the same a number of whole turns on. */
  lemma {:induction false} PreTurned(p: seq<Symbol>, e: nat, q: nat, n: nat)
    requires n <= |p|
    ensures Pre(p, e + 255 * q, n) == Pre(p, e, n)
  {
    hide Add, Act;
    if n > 0 {
      var m := n - 1;
      PreTurned(p, e, q, m);
      assert (e + 255 * q) * m == 255 * (q * m) + e * m;
      ActTwice(255 * (q * m), e * m, p[m]);
      Turns(q * m, Act(e * m, p[m]));
    }
  }
}
