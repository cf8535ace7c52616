/** Roots of polynomials over the field, at powers of the primitive element: no
    more of them than the degree, and where there are as many the derivative is
    zero at none. */
module RsRoots {
  import opened GfTables
  import opened Gf
  import opened Rs
  import opened RsErrors
  import BM = BerlekampMassey

  /** The value of the polynomial p, lowest coefficient first. */
  function Horner(p: seq<Symbol>, e: nat): Symbol {
    if p == [] then 0 else Add(p[0], Act(e, Horner(p[1..], e)))
  }

  /** What is left of p, without its remainder, when it is divided by the factor
      that is zero at a. */
  function Quotient(p: seq<Symbol>, a: nat): (q: seq<Symbol>)
    requires |p| > 0
    ensures |q| == |p| - 1
  {
    if |p| == 1 then [] else [Horner(p[1..], a)] + Quotient(p[1..], a)
  }

  lemma {:induction false} Divides(p: seq<Symbol>, a: nat, e: nat)
    requires |p| > 0
    ensures var w := Horner(Quotient(p, a), e);
      Add(Horner(p, e), Horner(p, a)) == Add(Act(e, w), Act(a, w))
    decreases |p|
  {
    hide Add, Act;
    if |p| == 1 {
      ActZero(e, 0);
      ActZero(a, 0);
      AddZero(Horner(p, e), Horner(p, a));
      AddLaws(0, 0, 0);
    } else {
      var rest := p[1..];
      Divides(rest, a, e);
      var h, w := Horner(rest, a), Horner(Quotient(rest, a), e);
      var q := Quotient(p, a);
      assert q[0] == h && q[1..] == Quotient(rest, a);
      assert Horner(q, e) == Add(h, Act(e, w));
      DivideStep(p[0], Horner(rest, e), h, w, e, a, Horner(p, e), Horner(p, a), Horner(q, e));
    }
  }

  lemma DivideStep(c: Symbol, g: Symbol, h: Symbol, w: Symbol, e: nat, a: nat, p: Symbol, q: Symbol, v: Symbol)
    requires Add(g, h) == Add(Act(e, w), Act(a, w)) && v == Add(h, Act(e, w))
    requires p == Add(c, Act(e, g)) && q == Add(c, Act(a, h))
    ensures Add(p, q) == Add(Act(e, v), Act(a, v))
  {
    hide Add, Act;
    var x, y, u, t, f := Act(e, Act(e, w)), Act(e, Act(a, w)), Act(e, h), Act(a, h), Act(e, g);
    ActOfFront(g, h, w, e, a);
    assert f == Add(Add(x, y), u);
    Collect(c, x, y, u, t, f, p, q);
    ActOfBack(h, w, e, a, v);
  }

  lemma ActOfFront(g: Symbol, h: Symbol, w: Symbol, e: nat, a: nat)
    requires Add(g, h) == Add(Act(e, w), Act(a, w))
    ensures Act(e, g) == Add(Add(Act(e, Act(e, w)), Act(e, Act(a, w))), Act(e, h))
  {
    hide Add, Act;
    MovedOver(g, h, Add(Act(e, w), Act(a, w)));
    ActLinear(e, Add(Act(e, w), Act(a, w)), h);
    ActLinear(e, Act(e, w), Act(a, w));
  }

  lemma ActOfBack(h: Symbol, w: Symbol, e: nat, a: nat, v: Symbol)
    requires v == Add(h, Act(e, w))
    ensures Act(e, v) == Add(Act(e, h), Act(e, Act(e, w))) && Act(a, v) == Add(Act(a, h), Act(e, Act(a, w)))
  {
    hide Add, Act;
    ActLinear(e, h, Act(e, w));
    ActLinear(a, h, Act(e, w));
    ActSwap(a, e, w);
  }

  lemma Collect(c: Symbol, x: Symbol, y: Symbol, u: Symbol, t: Symbol, g: Symbol, p: Symbol, q: Symbol)
    requires g == Add(Add(x, y), u) && p == Add(c, g) && q == Add(c, t)
    ensures Add(p, q) == Add(Add(u, x), Add(t, y))
  {
    hide Add;
    SameConstant(c, g, t);
    FourTerms(x, y, u, t);
  }

  lemma SameConstant(c: Symbol, s: Symbol, t: Symbol)
    ensures Add(Add(c, s), Add(c, t)) == Add(s, t)
  {
    hide Add;
    AddPairs(c, s, c, t);
    AddLaws(c, 0, 0);
    AddLaws(0, Add(s, t), 0);
    AddLaws(Add(s, t), 0, 0);
  }

  lemma MovedOver(g: Symbol, h: Symbol, d: Symbol)
    requires Add(g, h) == d
    ensures g == Add(d, h)
  {
    hide Add;
    AddLaws(g, h, h);
    AddLaws(g, 0, 0);
    AddLaws(h, 0, 0);
  }

  lemma FourTerms(s: Symbol, t: Symbol, u: Symbol, v: Symbol)
    ensures Add(Add(Add(s, t), u), v) == Add(Add(u, s), Add(v, t))
  {
    hide Add;
    AddLaws(Add(s, t), u, v);
    AddPairs(s, t, u, v);
    AddLaws(s, u, 0);
    AddLaws(t, v, 0);
  }

  lemma HornerOne(p: seq<Symbol>, e: nat)
    requires |p| == 1
    ensures Horner(p, e) == p[0]
  {
    hide Add, Act;
    assert p[1..] == [] && Horner([], e) == 0;
    ActZero(e, 0);
    AddLaws(p[0], 0, 0);
  }

  lemma {:induction false} QuotientTop(p: seq<Symbol>, a: nat)
    requires |p| >= 2
    ensures Quotient(p, a)[|p| - 2] == p[|p| - 1]
    decreases |p|
  {
    hide Add, Act;
    if |p| == 2 {
      HornerOne(p[1..], a);
    } else {
      QuotientTop(p[1..], a);
    }
  }

  predicate Different(roots: seq<nat>) {
    forall i, j :: 0 <= i < j < |roots| ==> roots[i] % 255 != roots[j] % 255
  }

  ghost predicate AreRoots(p: seq<Symbol>, roots: seq<nat>) {
    forall i :: 0 <= i < |roots| ==> Horner(p, roots[i]) == 0
  }

  /** A root of p other than a is a root of the quotient. */
  lemma RootOfQuotient(p: seq<Symbol>, a: nat, e: nat)
    requires |p| > 0 && Horner(p, a) == 0 == Horner(p, e) && a % 255 != e % 255
    ensures Horner(Quotient(p, a), e) == 0
  {
    hide Add, Act;
    Divides(p, a, e);
    AddLaws(0, 0, 0);
    DifferentPowers(e, a, Horner(Quotient(p, a), e));
  }

  /** A polynomial of as many coefficients as it has roots, or fewer, has zero
      for its last. */
  lemma {:induction false} TooManyRoots(p: seq<Symbol>, roots: seq<nat>)
    requires 0 < |p| <= |roots| && Different(roots) && AreRoots(p, roots)
    ensures p[|p| - 1] == 0
    decreases |p|
  {
    hide Add, Act;
    var a := roots[|roots| - 1];
    if |p| == 1 {
      HornerOne(p, a);
    } else {
      var rest := roots[..|roots| - 1];
      forall i | 0 <= i < |rest| ensures Horner(Quotient(p, a), rest[i]) == 0 {
        RootOfQuotient(p, a, roots[i]);
      }
      TooManyRoots(Quotient(p, a), rest);
      QuotientTop(p, a);
    }
  }

  // ----- The derivative -----

  /** The derivative of the first n terms: in this field the terms of odd degree
      are left, one degree lower. */
  function Deriv(p: seq<Symbol>, e: nat, n: nat): Symbol
    requires n <= |p|
  {
    if n == 0 then 0
    else if n % 2 == 1 then Deriv(p, e, n - 1)
    else Add(Deriv(p, e, n - 1), Act(e * (n - 2), p[n - 1]))
  }

  lemma {:induction false} DerivFront(p: seq<Symbol>, e: nat, n: nat)
    requires n + 2 <= |p|
    ensures Deriv(p, e, n + 2) == Add(p[1], Act(2 * e, Deriv(p[2..], e, n)))
  {
    hide Add, Act;
    if n == 0 {
      ActZero(2 * e, 0);
      assert e * 0 == 0 && Deriv(p, e, 1) == Deriv(p, e, 0) == 0;
      assert Deriv(p[2..], e, 0) == 0;
      ActNone(p[1]);
      AddLaws(0, p[1], 0);
      AddLaws(p[1], 0, 0);
    } else {
      DerivFront(p, e, n - 1);
      if n % 2 == 0 {
        var d, t := Deriv(p[2..], e, n - 1), p[n + 1];
        ActLinear(2 * e, d, Act(e * (n - 2), t));
        ActTwice(2 * e, e * (n - 2), t);
        assert 2 * e + e * (n - 2) == e * n;
        AddLaws(p[1], Act(2 * e, d), Act(e * n, t));
      }
    }
  }

  /** The derivative at a is the quotient at a. */
  lemma {:induction false} DerivIsQuotient(p: seq<Symbol>, a: nat)
    requires |p| > 0
    ensures Deriv(p, a, |p|) == Horner(Quotient(p, a), a)
    decreases |p|
  {
    hide Add, Act;
    var q := Quotient(p, a);
    if |p| == 1 {
    } else if |p| == 2 {
      DerivFront(p, a, 0);
      ActZero(2 * a, 0);
      AddLaws(p[1], 0, 0);
      QuotientTop(p, a);
      HornerOne(q, a);
    } else {
      DerivFront(p, a, |p| - 2);
      DerivIsQuotient(p[2..], a);
      assert p[1..][1..] == p[2..];
      assert q[0] == Horner(p[1..], a) && q[1..] == Quotient(p[1..], a);
      assert q[1..][0] == Horner(p[2..], a) && q[1..][1..] == Quotient(p[2..], a);
      var h, d := Horner(p[2..], a), Horner(Quotient(p[2..], a), a);
      assert Horner(q, a) == Add(Add(p[1], Act(a, h)), Act(a, Add(h, Act(a, d))));
      TwoSteps(p[1], h, d, a);
    }
  }

  lemma TwoSteps(c: Symbol, h: Symbol, d: Symbol, a: nat)
    ensures Add(Add(c, Act(a, h)), Act(a, Add(h, Act(a, d)))) == Add(c, Act(2 * a, d))
  {
    hide Add, Act;
    ActLinear(a, h, Act(a, d));
    ActTwice(a, a, d);
    var s := Act(a, h);
    AddLaws(c, s, Add(s, Act(2 * a, d)));
    AddLaws(s, s, Act(2 * a, d));
    AddLaws(Act(2 * a, d), 0, 0);
    AddLaws(0, Act(2 * a, d), 0);
  }

  /** Where there are as many roots as the degree, none is a double one. */
  lemma SimpleRoots(p: seq<Symbol>, roots: seq<nat>, m: nat)
    requires |p| == |roots| + 1 && p[|roots|] != 0 && Different(roots) && AreRoots(p, roots) && m < |roots|
    ensures Deriv(p, roots[m], |p|) != 0
  {
    hide Add, Act;
    var a := roots[m];
    var q := Quotient(p, a);
    DerivIsQuotient(p, a);
    if Horner(q, a) == 0 {
      forall i | 0 <= i < |roots| ensures Horner(q, roots[i]) == 0 {
        if i != m { RootOfQuotient(p, a, roots[i]); }
      }
      TooManyRoots(q, roots);
      QuotientTop(p, a);
      assert false;
    }
  }

  // ----- Polynomials with zeros at their end -----

  lemma {:induction false} PreIsHorner(p: seq<Symbol>, e: nat, n: nat)
    requires n <= |p|
    ensures Add(Pre(p, e, n), Act(e * n, Horner(p[n..], e))) == Horner(p, e)
  {
    hide Add, Act;
    if n == 0 {
      assert e * 0 == 0 && p[0..] == p;
      ActNone(Horner(p, e));
      AddLaws(0, Horner(p, e), 0);
      AddLaws(Horner(p, e), 0, 0);
    } else {
      PreIsHorner(p, e, n - 1);
      assert p[n - 1..][1..] == p[n..];
      var c, h := p[n - 1], Horner(p[n..], e);
      assert e * (n - 1) + e == e * n;
      ActLinear(e * (n - 1), c, Act(e, h));
      ActTwice(e * (n - 1), e, h);
      AddLaws(Pre(p, e, n - 1), Act(e * (n - 1), c), Act(e * n, h));
    }
  }

  lemma {:induction false} PrePart(p: seq<Symbol>, e: nat, m: nat, n: nat)
    requires n <= m <= |p|
    ensures Pre(p[..m], e, n) == Pre(p, e, n)
  {
    if n > 0 { PrePart(p, e, m, n - 1); }
  }

  lemma {:induction false} DerivPart(p: seq<Symbol>, e: nat, m: nat, n: nat)
    requires n <= m <= |p|
    ensures Deriv(p[..m], e, n) == Deriv(p, e, n)
  {
    if n > 0 { DerivPart(p, e, m, n - 1); }
  }

  lemma {:induction false} DerivDegree(p: seq<Symbol>, e: nat, n: nat, deg: nat)
    requires deg < n <= |p| && BM.Degree(p, deg)
    ensures Deriv(p, e, n) == Deriv(p, e, deg + 1)
  {
    hide Add, Act;
    if n > deg + 1 {
      DerivDegree(p, e, n - 1, deg);
      assert p[n - 1] == 0;
      DerivOfZero(p, e, n);
    }
  }

  lemma DerivOfZero(p: seq<Symbol>, e: nat, n: nat)
    requires 0 < n <= |p| && p[n - 1] == 0
    ensures Deriv(p, e, n) == Deriv(p, e, n - 1)
  {
    hide Add, Act;
    if n % 2 == 0 {
      ActZero(e * (n - 2), 0);
      AddLaws(Deriv(p, e, n - 1), 0, 0);
    }
  }

  /** The first coefficients alone have the same value. */
  lemma HornerPart(p: seq<Symbol>, e: nat, m: nat)
    requires m <= |p|
    ensures Horner(p[..m], e) == Pre(p, e, m)
  {
    hide Add, Act;
    var q := p[..m];
    PreIsHorner(q, e, m);
    PrePart(p, e, m, m);
    assert q[m..] == [];
    ActZero(e * m, 0);
    AddLaws(Pre(q, e, m), 0, 0);
  }
}
