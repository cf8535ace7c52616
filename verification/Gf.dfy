/** The field the tables are tables of. Multiplying by a power of the primitive
    element is a linear map on the symbols, and the field laws follow from that
    and from every nonzero symbol being such a power. */
module Gf {
  import opened GfTables

  /** x times the n-th power of the primitive element. */
  function Act(n: nat, x: Symbol): Symbol {
    if n == 0 then x else Times2(Act(n - 1, x))
  }

  /** The sum of two symbols, which is also their difference. */
  function Add(x: Symbol, y: Symbol): Symbol {
    x ^ y
  }

  lemma AddLaws(x: Symbol, y: Symbol, z: Symbol)
    ensures Add(x, y) == Add(y, x)
    ensures Add(Add(x, y), z) == Add(x, Add(y, z))
    ensures Add(x, x) == 0 && Add(x, 0) == x
  {}

  lemma AddZero(x: Symbol, y: Symbol)
    ensures Add(x, y) == 0 <==> x == y
  {}

  lemma AddPairs(a: Symbol, b: Symbol, c: Symbol, d: Symbol)
    ensures Add(Add(a, b), Add(c, d)) == Add(Add(a, c), Add(b, d))
  {
    hide Add;
    AddLaws(a, b, Add(c, d));
    AddLaws(b, c, d);
    AddLaws(c, b, d);
    AddLaws(a, c, Add(b, d));
  }

  lemma DoubleXor(x: Symbol, y: Symbol)
    ensures Double(Add(x, y)) == Add(Double(x), Double(y))
  {}

  lemma HighXor(x: Symbol, y: Symbol)
    ensures High(Add(x, y)) <==> (High(x) != High(y))
  {}

  lemma BothReduced(a: Symbol, b: Symbol)
    ensures Add(Reduced(a), Reduced(b)) == Add(a, b)
  {}

  lemma OneReduced(a: Symbol, b: Symbol)
    ensures Add(Reduced(a), b) == Reduced(Add(a, b))
  {}

  lemma BothHigh(x: Symbol, y: Symbol)
    requires High(x) && High(y)
    ensures Times2(Add(x, y)) == Add(Times2(x), Times2(y))
  {
    hide Add, High, Double, Reduced;
    DoubleXor(x, y);
    HighXor(x, y);
    BothReduced(Double(x), Double(y));
  }

  lemma OneHigh(x: Symbol, y: Symbol)
    requires High(x) && !High(y)
    ensures Times2(Add(x, y)) == Add(Times2(x), Times2(y))
  {
    hide Add, High, Double, Reduced;
    DoubleXor(x, y);
    HighXor(x, y);
    OneReduced(Double(x), Double(y));
  }

  lemma NoneHigh(x: Symbol, y: Symbol)
    requires !High(x) && !High(y)
    ensures Times2(Add(x, y)) == Add(Times2(x), Times2(y))
  {
    hide Add, High, Double, Reduced;
    DoubleXor(x, y);
    HighXor(x, y);
  }

  lemma Times2Linear(x: Symbol, y: Symbol)
    ensures Times2(Add(x, y)) == Add(Times2(x), Times2(y))
    ensures Times2(0) == 0
    ensures Times2(x) == 0 ==> x == 0
  {
    hide Add, Times2, High;
    Times2Kernel(x);
    if High(x) {
      if High(y) { BothHigh(x, y); } else { OneHigh(x, y); }
    } else if High(y) {
      OneHigh(y, x);
      AddLaws(x, y, 0);
      AddLaws(Times2(x), Times2(y), 0);
    } else {
      NoneHigh(x, y);
    }
  }

  lemma Times2Kernel(x: Symbol)
    ensures Times2(0) == 0
    ensures Times2(x) == 0 ==> x == 0
  {}

  lemma {:induction false} ActLinear(n: nat, x: Symbol, y: Symbol)
    ensures Act(n, Add(x, y)) == Add(Act(n, x), Act(n, y))
  {
    hide Add, Times2;
    if n > 0 {
      ActLinear(n - 1, x, y);
      Times2Linear(Act(n - 1, x), Act(n - 1, y));
    }
  }

  lemma {:induction false} ActZero(n: nat, x: Symbol)
    ensures Act(n, 0) == 0
    ensures Act(n, x) == 0 ==> x == 0
  {
    hide Times2;
    if n > 0 {
      ActZero(n - 1, x);
      Times2Linear(Act(n - 1, x), 0);
      Times2Linear(Act(n - 1, 0), 0);
    }
  }

  lemma {:induction false} ActTwice(m: nat, n: nat, x: Symbol)
    ensures Act(m, Act(n, x)) == Act(m + n, x)
  {
    hide Times2;
    if m > 0 { ActTwice(m - 1, n, x); }
  }

  lemma ActSwap(m: nat, n: nat, x: Symbol)
    ensures Act(m, Act(n, x)) == Act(n, Act(m, x))
  {
    ActTwice(m, n, x);
    ActTwice(n, m, x);
  }

  /** The table holds the powers. */
  lemma {:induction false} AlphaIsPower(i: nat)
    requires i < 255
    ensures AlphaTo(i) == Act(i, 1)
  {
    hide AlphaTo, Times2;
    if i == 0 {
      AlphaEnds();
    } else {
      AlphaIsPower(i - 1);
      AlphaSteps(i - 1);
    }
  }

  lemma NonzeroIsPower(x: Symbol)
    requires x != 0
    ensures IndexOf(x) < 255 && x == Act(IndexOf(x), 1)
  {
    hide AlphaTo, IndexOf;
    IndexRight(x);
    AlphaIsPower(IndexOf(x));
  }

  /** The powers repeat after 255. */
  lemma {:induction false} ActPeriod(n: nat, x: Symbol)
    ensures Act(n, x) == Act(n % 255, x)
  {
    hide AlphaTo, IndexOf, Times2;
    if n >= 255 {
      ActPeriod(n - 255, x);
      assert (n - 255) % 255 == n % 255;
      ActTwice(n - 255, 255, x);
      FullTurn(x);
    }
  }

  lemma FullTurn(x: Symbol)
    ensures Act(255, x) == x
  {
    hide AlphaTo, IndexOf, Times2;
    if x == 0 {
      ActZero(255, 0);
    } else {
      NonzeroIsPower(x);
      AlphaIsPower(254);
      AlphaEnds();
      ActSwap(255, IndexOf(x), 1);
    }
  }

  /** What the code computes for a product with a power: the logarithms added,
      modulo 255, for a nonzero symbol. */
  lemma LogsAdd(x: Symbol, n: nat)
    requires x != 0
    ensures AlphaTo((IndexOf(x) + n) % 255) == Act(n, x)
  {
    hide AlphaTo, IndexOf, Times2;
    var i := IndexOf(x);
    NonzeroIsPower(x);
    AlphaIsPower((i + n) % 255);
    ActPeriod(i + n, 1);
    ActTwice(n, i, 1);
  }

  /** Only whole turns leave a nonzero symbol where it is. */
  lemma OnlyZeroStays(n: nat, x: Symbol)
    requires n % 255 != 0 && Act(n, x) == x
    ensures x == 0
  {
    hide AlphaTo, IndexOf, Times2;
    if x != 0 {
      var i := IndexOf(x);
      NonzeroIsPower(x);
      ActSwap(n, i, 1);
      SameImage(i, Act(n, 1), 1);
      ActPeriod(n, 1);
      AlphaIsPower(n % 255);
      AlphaNotOne(n % 255);
    }
  }

  lemma SameImage(n: nat, x: Symbol, y: Symbol)
    requires Act(n, x) == Act(n, y)
    ensures x == y
  {
    hide Add, Act, Times2;
    ActLinear(n, x, y);
    ActZero(n, Add(x, y));
    AddZero(Act(n, x), Act(n, y));
    AddZero(x, y);
  }

  lemma AlphaNotOne(i: nat)
    requires 0 < i < 255
    ensures AlphaTo(i) != 1
  {
    hide AlphaTo, Times2;
    if i == 254 { AlphaEnds(); } else { AlphaSteps(i); }
  }

  // ----- Products -----

  /** The product, as the code forms it from the logarithms. */
  function Mul(x: Symbol, y: Symbol): Symbol {
    if x == 0 || y == 0 then 0 else AlphaTo((IndexOf(x) + IndexOf(y)) % 255)
  }

  lemma MulIsAct(x: Symbol, y: Symbol)
    requires y != 0
    ensures Mul(x, y) == Act(IndexOf(y), x)
  {
    hide AlphaTo, IndexOf, Times2;
    if x == 0 { ActZero(IndexOf(y), 0); } else { LogsAdd(x, IndexOf(y)); }
  }

  lemma MulCommutes(x: Symbol, y: Symbol)
    ensures Mul(x, y) == Mul(y, x)
  {}

  lemma MulOne(x: Symbol)
    ensures Mul(x, 1) == x == Mul(1, x) && Mul(0, x) == 0 == Mul(x, 0)
  {
    hide AlphaTo, IndexOf, Times2;
    MulCommutes(x, 1);
    OneIsFirst();
    MulIsAct(x, 1);
  }

  lemma MulDistributes(x: Symbol, y: Symbol, z: Symbol)
    ensures Mul(Add(x, y), z) == Add(Mul(x, z), Mul(y, z))
    ensures Mul(z, Add(x, y)) == Add(Mul(z, x), Mul(z, y))
  {
    hide Add, AlphaTo, IndexOf, Times2, Act, Mul;
    AddLaws(0, 0, 0);
    MulOne(x);
    MulOne(y);
    MulOne(Add(x, y));
    MulCommutes(z, Add(x, y));
    MulCommutes(z, x);
    MulCommutes(z, y);
    if z != 0 {
      MulIsAct(Add(x, y), z);
      MulIsAct(x, z);
      MulIsAct(y, z);
      ActLinear(IndexOf(z), x, y);
    }
  }

  lemma MulAssociates(x: Symbol, y: Symbol, z: Symbol)
    ensures Mul(Mul(x, y), z) == Mul(x, Mul(y, z))
  {
    hide AlphaTo, IndexOf, Times2, Act;
    if x != 0 && y != 0 && z != 0 {
      var i, k := IndexOf(x), IndexOf(z);
      MulIsAct(Mul(x, y), z);
      MulCommutes(x, y);
      MulIsAct(y, x);
      MulCommutes(x, Mul(y, z));
      MulIsAct(Mul(y, z), x);
      MulIsAct(y, z);
      ActSwap(k, i, y);
    }
  }

  lemma OneIsFirst()
    ensures IndexOf(1) == 0
  {}

  /** The quotient, as the code forms it. */
  function Div(x: Symbol, d: Symbol): Symbol
    requires d != 0
  {
    if x == 0 then 0
    else
      IndexRight(d);
      AlphaTo((IndexOf(x) + 255 - IndexOf(d)) % 255)
  }

  lemma DivUndoes(x: Symbol, d: Symbol)
    requires d != 0
    ensures Mul(d, Div(x, d)) == x
  {
    hide AlphaTo, IndexOf, Times2;
    if x == 0 {
      MulOne(d);
    } else {
      var n := 255 - IndexOf(d);
      IndexRight(d);
      LogsAdd(x, n);
      MulCommutes(d, Act(n, x));
      MulIsAct(Act(n, x), d);
      ActTwice(IndexOf(d), n, x);
      FullTurn(x);
    }
  }
}
