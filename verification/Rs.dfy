/** The Reed-Solomon encoder: a shift register over the generator polynomial,
    whose 32 roots are consecutive powers of the eleventh power of the primitive
    element. What it appends makes every block a codeword. */
module Rs {
  import opened GfTables
  import opened Gf

  const NN: nat := 255
  const NROOTS: nat := 32
  const FCR: nat := 112
  const PRIM: nat := 11

  /** The exponent of the i-th root. */
  function Root(i: nat): nat {
    (FCR + i) * PRIM
  }

  /** mod255: nonnegative numbers are reduced modulo 255. */
  method Mod255(n: int) returns (x: int)
    ensures n >= 0 ==> x == n % 255
    ensures n < 0 ==> x == n
  {
    x := n;
    while x >= 255
      invariant n >= 0 ==> x >= 0 && x % 255 == n % 255
      invariant n < 0 ==> x == n
    {
      x := x - 255;
      HalvesAdd(x);
      x := x / 256 + x % 256;
    }
  }

  lemma HalvesAdd(x: nat)
    ensures (x / 256 + x % 256) % 255 == (x + 255) % 255
  {
    var q, r := x / 256, x % 256;
    assert x == 255 * q + (q + r);
    ModPlus(q + r, q);
  }

  lemma {:induction false} ModPlus(x: nat, q: nat)
    ensures (x + 255 * q) % 255 == x % 255
  {
    if q > 0 { ModPlus(x, q - 1); }
  }

  // ----- Polynomials -----

  /** The polynomial with these coefficients, highest first, at the m-th power of
      the primitive element. */
  function Eval(s: seq<Symbol>, m: nat): Symbol {
    if s == [] then 0 else Add(Act(m, Eval(s[..|s| - 1], m)), s[|s| - 1])
  }

  lemma EvalPush(s: seq<Symbol>, d: Symbol, m: nat)
    ensures Eval(s + [d], m) == Add(Act(m, Eval(s, m)), d)
  {
    assert (s + [d])[..|s|] == s;
  }

  lemma {:induction false} EvalConcat(s: seq<Symbol>, t: seq<Symbol>, m: nat)
    ensures Eval(s + t, m) == Add(Act(|t| * m, Eval(s, m)), Eval(t, m))
  {
    hide Add, Act, Times2;
    if t == [] {
      assert s + t == s;
      ActNone(Eval(s, m));
      AddLaws(Eval(s, m), 0, 0);
    } else {
      var u, d := t[..|t| - 1], t[|t| - 1];
      assert s + t == (s + u) + [d];
      EvalPush(s + u, d, m);
      EvalConcat(s, u, m);
      var e := Act(|u| * m, Eval(s, m));
      ActLinear(m, e, Eval(u, m));
      ActTwice(m, |u| * m, Eval(s, m));
      assert m + |u| * m == |t| * m;
      AddLaws(Act(m, e), Act(m, Eval(u, m)), d);
    }
  }

  lemma ActNone(x: Symbol)
    ensures Act(0, x) == x
  {}

  lemma {:induction false} EvalSum(s: seq<Symbol>, t: seq<Symbol>, u: seq<Symbol>, m: nat)
    requires |s| == |t| == |u| && forall i :: 0 <= i < |s| ==> u[i] == Add(s[i], t[i])
    ensures Eval(u, m) == Add(Eval(s, m), Eval(t, m))
  {
    hide Add, Act;
    if s == [] {
      AddLaws(0, 0, 0);
    } else {
      var n := |s| - 1;
      EvalSum(s[..n], t[..n], u[..n], m);
      ActLinear(m, Eval(s[..n], m), Eval(t[..n], m));
      AddPairs(Act(m, Eval(s[..n], m)), Act(m, Eval(t[..n], m)), s[n], t[n]);
    }
  }

  lemma {:induction false} EvalScale(s: seq<Symbol>, u: seq<Symbol>, k: nat, m: nat)
    requires |s| == |u| && forall i :: 0 <= i < |s| ==> u[i] == Act(k, s[i])
    ensures Eval(u, m) == Act(k, Eval(s, m))
  {
    hide Add, Act;
    if s == [] {
      ActZero(k, 0);
    } else {
      var n := |s| - 1;
      EvalScale(s[..n], u[..n], k, m);
      ActSwap(m, k, Eval(s[..n], m));
      ActLinear(k, Act(m, Eval(s[..n], m)), s[n]);
    }
  }

  // ----- The generator polynomial -----

  /** GENPOLY: the coefficients in index form, lowest first. */
  function GenPoly(k: nat): nat {
    if k == 0 then 0x00 else if k == 1 then 0xF9 else if k == 2 then 0x3B else if k == 3 then 0x42 else
    if k == 4 then 0x04 else if k == 5 then 0x2B else if k == 6 then 0x7E else if k == 7 then 0xFB else
    if k == 8 then 0x61 else if k == 9 then 0x1E else if k == 10 then 0x03 else if k == 11 then 0xD5 else
    if k == 12 then 0x32 else if k == 13 then 0x42 else if k == 14 then 0xAA else if k == 15 then 0x05 else
    if k == 16 then 0x18 else if k == 17 then 0x05 else if k == 18 then 0xAA else if k == 19 then 0x42 else
    if k == 20 then 0x32 else if k == 21 then 0xD5 else if k == 22 then 0x03 else if k == 23 then 0x1E else
    if k == 24 then 0x61 else if k == 25 then 0xFB else if k == 26 then 0x7E else if k == 27 then 0x2B else
    if k == 28 then 0x04 else if k == 29 then 0x42 else if k == 30 then 0x3B else if k == 31 then 0xF9 else 0x00
  }

  /** Coefficient k as a symbol. */
  function Gen(k: nat): Symbol {
    AlphaTo(GenPoly(k))
  }

  /** The n lowest coefficients, highest first. */
  function Lowest(n: nat): (s: seq<Symbol>)
    ensures |s| == n
  {
    if n == 0 then [] else [Gen(n - 1)] + Lowest(n - 1)
  }

  /** Consecutive coefficients are in the ratio they have when the roots are
      consecutive powers of one symbol. */
  function RatioLeft(k: nat): Symbol {
    Add(AlphaTo((GenPoly(k) + 11 * k) % 255), AlphaTo((GenPoly(k) + 352) % 255))
  }

  function RatioRight(k: nat): Symbol {
    Add(AlphaTo((GenPoly(k) + 1573 + 11 * k) % 255), AlphaTo((GenPoly(k) + 1573) % 255))
  }

  lemma Ratio(k: nat, e: nat, f: nat, i0: nat, i1: nat, i2: nat, i3: nat, x0: Symbol, x1: Symbol, x2: Symbol,
              x3: Symbol)
    requires x0 ^ x1 == x2 ^ x3
    requires i0 == (e + 11 * k) % 255 && i1 == (e + 352) % 255
    requires i2 == (f + 1573 + 11 * (k + 1)) % 255 && i3 == (f + 1573) % 255
    requires GenPoly(k) == e && GenPoly(k + 1) == f
    requires AlphaTo(i0) == x0 && AlphaTo(i1) == x1 && AlphaTo(i2) == x2 && AlphaTo(i3) == x3
    ensures RatioLeft(k) == RatioRight(k + 1)
  {
    hide AlphaTo, GenPoly;
  }

  lemma Ratio0()
    ensures RatioLeft(0) == RatioRight(1)
  {
    hide RatioLeft, RatioRight;
    Ratio(0, 0, 249, 0, 97, 48, 37, 0x01, 0x61, 0xCE, 0xAE);
  }

  lemma Ratio1()
    ensures RatioLeft(1) == RatioRight(2)
  {
    hide RatioLeft, RatioRight;
    Ratio(1, 249, 59, 5, 91, 124, 102, 0x20, 0x99, 0xA1, 0x18);
  }

  lemma Ratio2()
    ensures RatioLeft(2) == RatioRight(3)
  {
    hide RatioLeft, RatioRight;
    Ratio(2, 59, 66, 81, 156, 142, 109, 0x98, 0x82, 0x22, 0x38);
  }

  lemma Ratio3()
    ensures RatioLeft(3) == RatioRight(4)
  {
    hide RatioLeft, RatioRight;
    Ratio(3, 66, 4, 99, 163, 91, 47, 0x03, 0xFD, 0x99, 0x67);
  }

  lemma Ratio4()
    ensures RatioLeft(4) == RatioRight(5)
  {
    hide RatioLeft, RatioRight;
    Ratio(4, 4, 43, 48, 101, 141, 86, 0xCE, 0x0C, 0x11, 0xD3);
  }

  lemma Ratio5()
    ensures RatioLeft(5) == RatioRight(6)
  {
    hide RatioLeft, RatioRight;
    Ratio(5, 43, 126, 98, 140, 235, 169, 0xC2, 0xCB, 0x9F, 0x96);
  }

  lemma Ratio6()
    ensures RatioLeft(6) == RatioRight(7)
  {
    hide RatioLeft, RatioRight;
    Ratio(6, 126, 251, 192, 223, 116, 39, 0xB0, 0x64, 0xE5, 0x31);
  }

  lemma Ratio7()
    ensures RatioLeft(7) == RatioRight(8)
  {
    hide RatioLeft, RatioRight;
    Ratio(7, 251, 97, 73, 93, 228, 140, 0x9E, 0xED, 0xB8, 0xCB);
  }

  lemma Ratio8()
    ensures RatioLeft(8) == RatioRight(9)
  {
    hide RatioLeft, RatioRight;
    Ratio(8, 97, 30, 185, 194, 172, 73, 0xF2, 0x49, 0x25, 0x9E);
  }

  lemma Ratio9()
    ensures RatioLeft(9) == RatioRight(10)
  {
    hide RatioLeft, RatioRight;
    Ratio(9, 30, 3, 129, 127, 156, 46, 0x68, 0x1A, 0x82, 0xF0);
  }

  lemma Ratio10()
    ensures RatioLeft(10) == RatioRight(11)
  {
    hide RatioLeft, RatioRight;
    Ratio(10, 3, 213, 113, 100, 122, 1, 0x8E, 0x06, 0x8A, 0x02);
  }

  lemma Ratio11()
    ensures RatioLeft(11) == RatioRight(12)
  {
    hide RatioLeft, RatioRight;
    Ratio(11, 213, 50, 79, 55, 225, 93, 0x26, 0xDC, 0x17, 0xED);
  }

  lemma Ratio12()
    ensures RatioLeft(12) == RatioRight(13)
  {
    hide RatioLeft, RatioRight;
    Ratio(12, 50, 66, 182, 147, 252, 109, 0xBC, 0xD5, 0x51, 0x38);
  }

  lemma Ratio13()
    ensures RatioLeft(13) == RatioRight(14)
  {
    hide RatioLeft, RatioRight;
    Ratio(13, 66, 170, 209, 163, 112, 213, 0x90, 0xFD, 0x47, 0x2A);
  }

  lemma Ratio14()
    ensures RatioLeft(14) == RatioRight(15)
  {
    hide RatioLeft, RatioRight;
    Ratio(14, 170, 5, 69, 12, 213, 48, 0x39, 0xDD, 0x2A, 0xCE);
  }

  lemma Ratio15()
    ensures RatioLeft(15) == RatioRight(16)
  {
    hide RatioLeft, RatioRight;
    Ratio(15, 5, 24, 170, 102, 243, 67, 0xAB, 0x18, 0x1F, 0xAC);
  }

  lemma Ratio16()
    ensures RatioLeft(16) == RatioRight(17)
  {
    hide RatioLeft, RatioRight;
    Ratio(16, 24, 5, 200, 121, 235, 48, 0x14, 0x45, 0x9F, 0xCE);
  }

  lemma Ratio17()
    ensures RatioLeft(17) == RatioRight(18)
  {
    hide RatioLeft, RatioRight;
    Ratio(17, 5, 170, 192, 102, 156, 213, 0xB0, 0x18, 0x82, 0x2A);
  }

  lemma Ratio18()
    ensures RatioLeft(18) == RatioRight(19)
  {
    hide RatioLeft, RatioRight;
    Ratio(18, 170, 66, 113, 12, 63, 109, 0x8E, 0xDD, 0x6B, 0x38);
  }

  lemma Ratio19()
    ensures RatioLeft(19) == RatioRight(20)
  {
    hide RatioLeft, RatioRight;
    Ratio(19, 66, 50, 20, 163, 58, 93, 0xEC, 0xFD, 0xFC, 0xED);
  }

  lemma Ratio20()
    ensures RatioLeft(20) == RatioRight(21)
  {
    hide RatioLeft, RatioRight;
    Ratio(20, 50, 213, 15, 147, 232, 1, 0xF4, 0xD5, 0x23, 0x02);
  }

  lemma Ratio21()
    ensures RatioLeft(21) == RatioRight(22)
  {
    hide RatioLeft, RatioRight;
    Ratio(21, 213, 3, 189, 55, 33, 46, 0x16, 0xDC, 0x3A, 0xF0);
  }

  lemma Ratio22()
    ensures RatioLeft(22) == RatioRight(23)
  {
    hide RatioLeft, RatioRight;
    Ratio(22, 3, 30, 245, 100, 71, 73, 0x7C, 0x06, 0xE4, 0x9E);
  }

  lemma Ratio23()
    ensures RatioLeft(23) == RatioRight(24)
  {
    hide RatioLeft, RatioRight;
    Ratio(23, 30, 97, 28, 127, 149, 140, 0x8B, 0x1A, 0x5A, 0xCB);
  }

  lemma Ratio24()
    ensures RatioLeft(24) == RatioRight(25)
  {
    hide RatioLeft, RatioRight;
    Ratio(24, 97, 251, 106, 194, 59, 39, 0x07, 0x49, 0x7F, 0x31);
  }

  lemma Ratio25()
    ensures RatioLeft(25) == RatioRight(26)
  {
    hide RatioLeft, RatioRight;
    Ratio(25, 251, 126, 16, 93, 200, 169, 0x6F, 0xED, 0x14, 0x96);
  }

  lemma Ratio26()
    ensures RatioLeft(26) == RatioRight(27)
  {
    hide RatioLeft, RatioRight;
    Ratio(26, 126, 43, 157, 223, 128, 86, 0x83, 0x64, 0x34, 0xD3);
  }

  lemma Ratio27()
    ensures RatioLeft(27) == RatioRight(28)
  {
    hide RatioLeft, RatioRight;
    Ratio(27, 43, 4, 85, 140, 100, 47, 0xAA, 0xCB, 0x06, 0x67);
  }

  lemma Ratio28()
    ensures RatioLeft(28) == RatioRight(29)
  {
    hide RatioLeft, RatioRight;
    Ratio(28, 4, 66, 57, 101, 173, 109, 0x7E, 0x0C, 0x4A, 0x38);
  }

  lemma Ratio29()
    ensures RatioLeft(29) == RatioRight(30)
  {
    hide RatioLeft, RatioRight;
    Ratio(29, 66, 59, 130, 163, 177, 102, 0xD0, 0xFD, 0x35, 0x18);
  }

  lemma Ratio30()
    ensures RatioLeft(30) == RatioRight(31)
  {
    hide RatioLeft, RatioRight;
    Ratio(30, 59, 249, 134, 156, 123, 37, 0xBF, 0x82, 0x93, 0xAE);
  }

  lemma Ratio31()
    ensures RatioLeft(31) == RatioRight(32)
  {
    hide RatioLeft, RatioRight;
    Ratio(31, 249, 0, 80, 91, 140, 43, 0x4C, 0x99, 0xCB, 0x1E);
  }

  lemma Ratios(k: nat)
    requires k < 32
    ensures RatioLeft(k) == RatioRight(k + 1)
  {
    hide RatioLeft, RatioRight;
    if k == 0 { Ratio0(); } else if k == 1 { Ratio1(); } else if k == 2 { Ratio2(); } else if k == 3 { Ratio3(); }
    else if k == 4 { Ratio4(); } else if k == 5 { Ratio5(); } else if k == 6 { Ratio6(); } else if k == 7 { Ratio7(); }
    else if k == 8 { Ratio8(); } else if k == 9 { Ratio9(); } else if k == 10 { Ratio10(); }
    else if k == 11 { Ratio11(); }
    else if k == 12 { Ratio12(); } else if k == 13 { Ratio13(); } else if k == 14 { Ratio14(); }
    else if k == 15 { Ratio15(); }
    else if k == 16 { Ratio16(); } else if k == 17 { Ratio17(); } else if k == 18 { Ratio18(); }
    else if k == 19 { Ratio19(); }
    else if k == 20 { Ratio20(); } else if k == 21 { Ratio21(); } else if k == 22 { Ratio22(); }
    else if k == 23 { Ratio23(); }
    else if k == 24 { Ratio24(); } else if k == 25 { Ratio25(); } else if k == 26 { Ratio26(); }
    else if k == 27 { Ratio27(); }
    else if k == 28 { Ratio28(); } else if k == 29 { Ratio29(); } else if k == 30 { Ratio30(); } else { Ratio31(); }
  }

  /** The n lowest terms at the m-th power, and the same one step further on:
      multiplied out, all but the ends of the two sums cancel. */
  function Telescope(n: nat, m: nat): Symbol {
    var x, y := Eval(Lowest(n), m + 11), Eval(Lowest(n), m);
    Add(Add(Act(m, x), Act(1573, x)), Add(Act(352 + m, y), Act(1573, y)))
  }

  /** The end that is left: Gen(n) times its two factors. */
  function LeftOver(n: nat): Symbol {
    Add(Act(1573 + 11 * n, Gen(n)), Act(1573, Gen(n)))
  }

  lemma GenTimes(k: nat, c: nat)
    ensures Act(c, Gen(k)) == AlphaTo((GenPoly(k) + c) % 255)
  {
    hide AlphaTo, GenPoly, Act, Times2;
    GenPolySmall(k);
    AlphaIsPower(GenPoly(k));
    ActTwice(c, GenPoly(k), 1);
    ActPeriod(GenPoly(k) + c, 1);
    AlphaIsPower((GenPoly(k) + c) % 255);
  }

  lemma GenPolySmall(k: nat)
    ensures GenPoly(k) < 255
  {}

  /** What term n adds to the telescope, at its far end. */
  function FarEnd(n: nat): Symbol {
    Add(Act(11 * n, Gen(n)), Act(352, Gen(n)))
  }

  lemma FarEndIsLeftOver(n: nat)
    requires n <= 32
    ensures FarEnd(n) == if n < 32 then LeftOver(n + 1) else 0
  {
    hide Add, Act, AlphaTo, GenPoly, Gen;
    GenTimes(n, 11 * n);
    GenTimes(n, 352);
    if n < 32 {
      GenTimes(n + 1, 1573 + 11 * (n + 1));
      GenTimes(n + 1, 1573);
      Ratios(n);
    } else {
      AddZero(Act(352, Gen(32)), Act(352, Gen(32)));
    }
  }

  lemma LowestMore(n: nat, m: nat)
    ensures Eval(Lowest(n + 1), m) == Add(Act(n * m, Gen(n)), Eval(Lowest(n), m))
  {
    hide Add, Act, Gen;
    EvalConcat([Gen(n)], Lowest(n), m);
    EvalPush([], Gen(n), m);
    assert [] + [Gen(n)] == [Gen(n)];
    ActZero(m, 0);
    AddLaws(0, Gen(n), 0);
    AddLaws(Gen(n), 0, 0);
  }

  /** Two factors applied to a sum. */
  lemma TwoFactors(a: nat, b: nat, p: Symbol, x: Symbol)
    ensures Add(Act(a, Add(p, x)), Act(b, Add(p, x)))
         == Add(Add(Act(a, p), Act(b, p)), Add(Act(a, x), Act(b, x)))
  {
    hide Add, Act;
    ActLinear(a, p, x);
    ActLinear(b, p, x);
    AddPairs(Act(a, p), Act(a, x), Act(b, p), Act(b, x));
  }

  lemma TelescopeStep(n: nat, m: nat)
    ensures Telescope(n + 1, m)
         == Add(Add(Act(m * (n + 1), FarEnd(n)), Act(m * n, LeftOver(n))), Telescope(n, m))
  {
    hide Add, Act, Gen, Eval;
    var g := Gen(n);
    var x, y := Eval(Lowest(n), m + 11), Eval(Lowest(n), m);
    var p, q := Act(n * (m + 11), g), Act(n * m, g);
    LowestMore(n, m + 11);
    LowestMore(n, m);
    TwoFactors(m, 1573, p, x);
    TwoFactors(352 + m, 1573, q, y);
    AddPairs(Add(Act(m, p), Act(1573, p)), Add(Act(m, x), Act(1573, x)),
             Add(Act(352 + m, q), Act(1573, q)), Add(Act(352 + m, y), Act(1573, y)));
    TermEnds(n, m, g);
  }

  lemma TermEnds(n: nat, m: nat, g: Symbol)
    ensures var p, q := Act(n * (m + 11), g), Act(n * m, g);
      Add(Add(Act(m, p), Act(1573, p)), Add(Act(352 + m, q), Act(1573, q)))
      == Add(Act(m * (n + 1), Add(Act(11 * n, g), Act(352, g))),
             Act(m * n, Add(Act(1573 + 11 * n, g), Act(1573, g))))
  {
    hide Add, Act;
    var p, q := Act(n * (m + 11), g), Act(n * m, g);
    AddPairs(Act(m, p), Act(1573, p), Act(352 + m, q), Act(1573, q));
    Exponents(n, m);
    ActTwice(m, n * (m + 11), g);
    ActTwice(m * (n + 1), 11 * n, g);
    ActTwice(352 + m, n * m, g);
    ActTwice(m * (n + 1), 352, g);
    ActTwice(1573, n * (m + 11), g);
    ActTwice(m * n, 1573 + 11 * n, g);
    ActTwice(1573, n * m, g);
    ActTwice(m * n, 1573, g);
    ActLinear(m * (n + 1), Act(11 * n, g), Act(352, g));
    ActLinear(m * n, Act(1573 + 11 * n, g), Act(1573, g));
  }

  lemma Exponents(n: nat, m: nat)
    ensures m + n * (m + 11) == m * (n + 1) + 11 * n
    ensures 352 + m + n * m == m * (n + 1) + 352
    ensures 1573 + n * (m + 11) == m * n + (1573 + 11 * n)
    ensures n * m == m * n
  {}

  lemma {:induction false} Telescopes(n: nat, m: nat)
    requires n <= 33
    ensures Telescope(n, m) == if n <= 32 then Act(m * n, LeftOver(n)) else 0
  {
    hide Add, Act, Gen, FarEnd;
    if n == 0 {
      LeftOverFirst(m);
    } else {
      hide LeftOver, Telescope;
      Telescopes(n - 1, m);
      TelescopeStep(n - 1, m);
      FarEndIsLeftOver(n - 1);
      var e, f := Act(m * n, FarEnd(n - 1)), Act(m * (n - 1), LeftOver(n - 1));
      AddLaws(e, f, f);
      AddLaws(f, 0, 0);
      AddLaws(e, 0, 0);
      ActZero(m * n, 0);
    }
  }

  lemma LeftOverFirst(m: nat)
    ensures Telescope(0, m) == 0 == LeftOver(0) && Act(m * 0, LeftOver(0)) == 0
  {
    hide Act, Add, Gen;
    AddLaws(Act(1573, Gen(0)), 0, 0);
    AddLaws(0, 0, 0);
    ActZero(m, 0);
    ActZero(m * 0, 0);
    ActZero(1573, 0);
    ActZero(352 + m, 0);
  }

  /** The generator polynomial is zero at each of its 32 roots. */
  lemma {:induction false} GeneratorVanishes(i: nat)
    requires i < NROOTS
    ensures Eval(Lowest(33), Root(i)) == 0
  {
    hide Add, Act, Eval, Lowest;
    var m := 11 * (111 + i);
    var x, y := Eval(Lowest(33), m + 11), Eval(Lowest(33), m);
    Telescopes(33, m);
    if i == 0 {
      AddLaws(Act(1573, y), 0, 0);
    } else {
      GeneratorVanishes(i - 1);
      ActZero(352 + m, 0);
      ActZero(1573, 0);
      AddLaws(0, 0, 0);
    }
    AddLaws(Add(Act(m, x), Act(1573, x)), 0, 0);
    AddZero(Act(m, x), Act(1573, x));
    ActTwice(m, 1573 - m, x);
    SameImage(m, Act(1573 - m, x), x);
    OnlyZeroStays(1573 - m, x);
  }
}
