/** The Berlekamp-Massey steps of the decoder, on symbols: a shortest shift
    register for the syndromes seen so far, and what each step keeps. */
module BerlekampMassey {
  import opened GfTables
  import opened Gf

  const LEN: nat := 33

  function At(s: seq<Symbol>, j: int): Symbol {
    if 0 <= j < |s| then s[j] else 0
  }

  /** The first n terms of coefficient k of the product of p and s. */
  function Conv(p: seq<Symbol>, s: seq<Symbol>, k: int, n: nat): Symbol
    requires n <= |p|
  {
    if n == 0 then 0 else Add(Conv(p, s, k, n - 1), Mul(p[n - 1], At(s, k - (n - 1))))
  }

  /** The discrepancy of p at syndrome k. */
  function Disc(p: seq<Symbol>, s: seq<Symbol>, k: int): Symbol {
    Conv(p, s, k, |p|)
  }

  function Shifted(b: seq<Symbol>): (x: seq<Symbol>)
    requires |b| == LEN
    ensures |x| == LEN && x[0] == 0 && forall i :: 0 < i < LEN ==> x[i] == b[i - 1]
  {
    [0] + b[..LEN - 1]
  }

  function Divided(l: seq<Symbol>, d: Symbol): (q: seq<Symbol>)
    requires d != 0
    ensures |q| == |l| && forall i :: 0 <= i < |l| ==> q[i] == Div(l[i], d)
  {
    seq(|l|, i requires 0 <= i < |l| => Div(l[i], d))
  }

  /** l plus d times x. */
  function Corrected(l: seq<Symbol>, d: Symbol, x: seq<Symbol>): (t: seq<Symbol>)
    requires |l| == |x|
    ensures |t| == |l| && forall i :: 0 <= i < |l| ==> t[i] == Add(l[i], Mul(d, x[i]))
  {
    seq(|l|, i requires 0 <= i < |l| => Add(l[i], Mul(d, x[i])))
  }

  datatype Register = Register(lambda: seq<Symbol>, b: seq<Symbol>, el: nat)

  /** One step of the loop, for the syndrome r. */
  function Step(g: Register, s: seq<Symbol>, r: nat): Register
    requires |g.lambda| == |g.b| == LEN
  {
    var d := Disc(g.lambda, s, r);
    var x := Shifted(g.b);
    if d == 0 then Register(g.lambda, x, g.el)
    else if 2 * g.el <= r then Register(Corrected(g.lambda, d, x), Divided(g.lambda, d), r + 1 - g.el)
    else Register(Corrected(g.lambda, d, x), x, g.el)
  }

  /** After r syndromes: lambda has constant term one and degree at most el, and
      generates the syndromes from el on; b is what lambda was before el last
      grew, moved up, and made to have discrepancy one there. */
  ghost predicate Inv(g: Register, s: seq<Symbol>, r: nat) {
    && |g.lambda| == |g.b| == LEN && g.el <= r < LEN
    && g.lambda[0] == 1 && Degree(g.lambda, g.el) && Degree(g.b, r - g.el)
    && Generates(g.lambda, s, g.el, r)
    && (g.el > 0 ==> Generates(g.b, s, r - g.el, r - 1) && Disc(g.b, s, r - 1) == 1)
  }

  ghost predicate Degree(p: seq<Symbol>, n: nat) {
    forall i :: n < i < |p| ==> p[i] == 0
  }

  ghost predicate Generates(p: seq<Symbol>, s: seq<Symbol>, from: int, to: int) {
    forall k :: from <= k < to ==> Disc(p, s, k) == 0
  }

  // ----- How discrepancies combine -----

  lemma {:induction false} ConvCorrected(l: seq<Symbol>, d: Symbol, x: seq<Symbol>, s: seq<Symbol>, k: int, n: nat)
    requires n <= |l| == |x|
    ensures Conv(Corrected(l, d, x), s, k, n) == Add(Conv(l, s, k, n), Mul(d, Conv(x, s, k, n)))
  {
    hide Add, Mul;
    if n == 0 {
      MulOne(d);
      AddLaws(0, 0, 0);
    } else {
      ConvCorrected(l, d, x, s, k, n - 1);
      var a := At(s, k - (n - 1));
      MulDistributes(l[n - 1], Mul(d, x[n - 1]), a);
      MulAssociates(d, x[n - 1], a);
      MulDistributes(Conv(x, s, k, n - 1), Mul(x[n - 1], a), d);
      AddPairs(Conv(l, s, k, n - 1), Mul(d, Conv(x, s, k, n - 1)), Mul(l[n - 1], a), Mul(d, Mul(x[n - 1], a)));
    }
  }

  lemma {:induction false} ConvShifted(b: seq<Symbol>, s: seq<Symbol>, k: int, n: nat)
    requires |b| == LEN && n < LEN
    ensures Conv(Shifted(b), s, k, n + 1) == Conv(b, s, k - 1, n)
  {
    hide Add, Mul;
    if n == 0 {
      MulOne(At(s, k));
      AddLaws(0, 0, 0);
    } else {
      ConvShifted(b, s, k, n - 1);
    }
  }

  /** Moving a polynomial up moves its discrepancies up. */
  lemma DiscShifted(b: seq<Symbol>, s: seq<Symbol>, k: int)
    requires |b| == LEN && b[LEN - 1] == 0
    ensures Disc(Shifted(b), s, k) == Disc(b, s, k - 1)
  {
    hide Add, Mul;
    ConvShifted(b, s, k, LEN - 1);
    MulOne(At(s, k - 1 - (LEN - 1)));
    AddLaws(Conv(b, s, k - 1, LEN - 1), 0, 0);
  }

  lemma {:induction false} ConvDivided(l: seq<Symbol>, d: Symbol, s: seq<Symbol>, k: int, n: nat)
    requires d != 0 && n <= |l|
    ensures Mul(d, Conv(Divided(l, d), s, k, n)) == Conv(l, s, k, n)
  {
    hide Add, Mul, Div;
    if n == 0 {
      MulOne(d);
    } else {
      var q := Divided(l, d);
      ConvDivided(l, d, s, k, n - 1);
      var a := At(s, k - (n - 1));
      DivUndoes(l[n - 1], d);
      MulAssociates(d, q[n - 1], a);
      MulDistributes(Conv(q, s, k, n - 1), Mul(q[n - 1], a), d);
    }
  }

  /** A quotient by a symbol is zero, or one, where the dividend is zero, or
      that symbol. */
  lemma DividedZero(d: Symbol, x: Symbol)
    requires d != 0
    ensures Mul(d, x) == 0 ==> x == 0
    ensures Mul(d, x) == d ==> x == 1
  {
    hide Add, Mul, Act, IndexOf;
    MulCommutes(d, x);
    MulIsAct(x, d);
    ActZero(IndexOf(d), x);
    MulOne(d);
    MulCommutes(d, 1);
    MulIsAct(1, d);
    if Mul(d, x) == d { SameImage(IndexOf(d), x, 1); }
  }

  lemma DiscDivided(l: seq<Symbol>, d: Symbol, s: seq<Symbol>, k: int)
    requires d != 0
    ensures Disc(l, s, k) == 0 ==> Disc(Divided(l, d), s, k) == 0
    ensures Disc(l, s, k) == d ==> Disc(Divided(l, d), s, k) == 1
  {
    hide Add, Mul, Conv;
    ConvDivided(l, d, s, k, |l|);
    DividedZero(d, Disc(Divided(l, d), s, k));
  }

  lemma DiscCorrected(l: seq<Symbol>, d: Symbol, x: seq<Symbol>, s: seq<Symbol>, k: int)
    requires |l| == |x|
    ensures Disc(l, s, k) == 0 && Disc(x, s, k) == 0 ==> Disc(Corrected(l, d, x), s, k) == 0
    ensures Disc(l, s, k) == d && Disc(x, s, k) == 1 ==> Disc(Corrected(l, d, x), s, k) == 0
  {
    hide Add, Mul, Conv;
    ConvCorrected(l, d, x, s, k, |l|);
    MulOne(d);
    AddLaws(0, 0, 0);
    AddZero(d, d);
  }

  // ----- What a step keeps -----

  lemma CorrectedDegree(l: seq<Symbol>, d: Symbol, x: seq<Symbol>, n: nat)
    requires |l| == |x| && Degree(l, n) && Degree(x, n)
    ensures Degree(Corrected(l, d, x), n)
  {
    hide Add, Mul;
    MulOne(d);
    AddLaws(0, 0, 0);
  }

  lemma DividedDegree(l: seq<Symbol>, d: Symbol, n: nat)
    requires d != 0 && Degree(l, n)
    ensures Degree(Divided(l, d), n)
  {}

  lemma CorrectedConstant(l: seq<Symbol>, d: Symbol, b: seq<Symbol>)
    requires |l| == |b| == LEN
    ensures Corrected(l, d, Shifted(b))[0] == l[0]
  {
    hide Add, Mul;
    MulOne(d);
    AddLaws(l[0], 0, 0);
  }

  /** One step of the Berlekamp-Massey algorithm. */
  lemma StepKeeps(g: Register, s: seq<Symbol>, r: nat)
    requires Inv(g, s, r) && r + 1 < LEN
    ensures Inv(Step(g, s, r), s, r + 1)
  {
    hide Conv, Disc, Corrected, Divided, Shifted, Add, Mul, Div;
    var d := Disc(g.lambda, s, r);
    var x := Shifted(g.b);
    ShiftedKeeps(g, s, r);
    if d == 0 {
      assert Step(g, s, r) == Register(g.lambda, x, g.el);
    } else {
      var t := Corrected(g.lambda, d, x);
      CorrectedConstant(g.lambda, d, g.b);
      if 2 * g.el <= r {
        GrownKeeps(g, s, r);
      } else {
        CorrectedDegree(g.lambda, d, x, g.el);
        forall k | g.el <= k < r + 1 ensures Disc(t, s, k) == 0 {
          DiscCorrected(g.lambda, d, x, s, k);
        }
      }
    }
  }

  /** b moved up is again as the invariant wants it, one syndrome later. */
  lemma ShiftedKeeps(g: Register, s: seq<Symbol>, r: nat)
    requires Inv(g, s, r) && r + 1 < LEN
    ensures Degree(Shifted(g.b), r + 1 - g.el)
    ensures g.el > 0 ==> Generates(Shifted(g.b), s, r + 1 - g.el, r) && Disc(Shifted(g.b), s, r) == 1
  {
    hide Conv, Disc;
    assert g.b[LEN - 1] == 0;
    forall k | r + 1 - g.el <= k <= r ensures Disc(Shifted(g.b), s, k) == Disc(g.b, s, k - 1) {
      DiscShifted(g.b, s, k);
    }
  }

  lemma GrownKeeps(g: Register, s: seq<Symbol>, r: nat)
    requires Inv(g, s, r) && r + 1 < LEN && Disc(g.lambda, s, r) != 0 && 2 * g.el <= r
    ensures Inv(Step(g, s, r), s, r + 1)
  {
    hide Conv, Disc, Corrected, Divided, Shifted, Add, Mul, Div;
    var d := Disc(g.lambda, s, r);
    var t, q := Corrected(g.lambda, d, Shifted(g.b)), Divided(g.lambda, d);
    GrownLambda(g, s, r);
    GrownB(g, s, r);
    CorrectedConstant(g.lambda, d, g.b);
    assert Step(g, s, r) == Register(t, q, r + 1 - g.el);
  }

  lemma GrownLambda(g: Register, s: seq<Symbol>, r: nat)
    requires Inv(g, s, r) && r + 1 < LEN && Disc(g.lambda, s, r) != 0 && 2 * g.el <= r
    ensures var t := Corrected(g.lambda, Disc(g.lambda, s, r), Shifted(g.b));
      Degree(t, r + 1 - g.el) && Generates(t, s, r + 1 - g.el, r + 1)
  {
    hide Conv, Disc, Corrected, Divided, Shifted, Add, Mul, Div;
    var d := Disc(g.lambda, s, r);
    var x := Shifted(g.b);
    ShiftedKeeps(g, s, r);
    CorrectedDegree(g.lambda, d, x, r + 1 - g.el);
    forall k | r + 1 - g.el <= k < r + 1 ensures Disc(Corrected(g.lambda, d, x), s, k) == 0 {
      DiscCorrected(g.lambda, d, x, s, k);
    }
  }

  lemma GrownB(g: Register, s: seq<Symbol>, r: nat)
    requires Inv(g, s, r) && r + 1 < LEN && Disc(g.lambda, s, r) != 0
    ensures var q := Divided(g.lambda, Disc(g.lambda, s, r));
      Degree(q, g.el) && Generates(q, s, g.el, r) && Disc(q, s, r) == 1
  {
    hide Conv, Disc, Corrected, Divided, Shifted, Add, Mul, Div;
    var d := Disc(g.lambda, s, r);
    DividedDegree(g.lambda, d, g.el);
    forall k | g.el <= k <= r ensures Disc(Divided(g.lambda, d), s, k) == if k < r then 0 else 1 {
      DiscDivided(g.lambda, d, s, k);
    }
  }

  // ----- No shorter register would do -----

  /** A register of length n that generates the first r syndromes. */
  ghost predicate IsRegister(p: seq<Symbol>, s: seq<Symbol>, n: nat, r: nat) {
    |p| == LEN && p[0] == 1 && n < LEN && Degree(p, n) && Generates(p, s, n, r)
  }

  ghost predicate Shortest(g: Register, s: seq<Symbol>, r: nat) {
    forall p: seq<Symbol>, n: nat :: IsRegister(p, s, n, r) ==> n >= g.el
  }

  /** The first n terms of p against the discrepancies of l. */
  function Pairing(p: seq<Symbol>, l: seq<Symbol>, s: seq<Symbol>, k: int, n: nat, m: nat): Symbol
    requires n <= |p| && m <= |l|
  {
    if n == 0 then 0 else Add(Pairing(p, l, s, k, n - 1, m), Mul(p[n - 1], Conv(l, s, k - (n - 1), m)))
  }

  lemma {:induction false} PairingNone(p: seq<Symbol>, l: seq<Symbol>, s: seq<Symbol>, k: int, m: nat)
    requires m <= |l|
    ensures Pairing(l, p, s, k, m, 0) == 0
  {
    hide Add, Mul;
    if m > 0 {
      PairingNone(p, l, s, k, m - 1);
      MulOne(l[m - 1]);
      AddLaws(0, 0, 0);
    }
  }

  /** One more term of p adds its own discrepancy against l. */
  lemma {:induction false} PairingMore(p: seq<Symbol>, l: seq<Symbol>, s: seq<Symbol>, k: int, n: nat, m: nat)
    requires n < |p| && m <= |l|
    ensures Pairing(l, p, s, k, m, n + 1)
         == Add(Pairing(l, p, s, k, m, n), Mul(p[n], Conv(l, s, k - n, m)))
  {
    hide Add, Mul;
    if m == 0 {
      MulOne(p[n]);
      AddLaws(0, 0, 0);
    } else {
      PairingMore(p, l, s, k, n, m - 1);
      var a := At(s, k - (m - 1) - n);
      var c := Conv(p, s, k - (m - 1), n);
      MulDistributes(c, Mul(p[n], a), l[m - 1]);
      MulAssociates(l[m - 1], p[n], a);
      MulCommutes(l[m - 1], p[n]);
      MulAssociates(p[n], l[m - 1], a);
      MulDistributes(Conv(l, s, k - n, m - 1), Mul(l[m - 1], a), p[n]);
      AddPairs(Pairing(l, p, s, k, m - 1, n), Mul(p[n], Conv(l, s, k - n, m - 1)),
               Mul(l[m - 1], c), Mul(p[n], Mul(l[m - 1], a)));
    }
  }

  /** It does not matter which of the two polynomials is summed first. */
  lemma {:induction false} PairingCommutes(p: seq<Symbol>, l: seq<Symbol>, s: seq<Symbol>, k: int, n: nat, m: nat)
    requires n <= |p| && m <= |l|
    ensures Pairing(p, l, s, k, n, m) == Pairing(l, p, s, k, m, n)
  {
    hide Add, Mul;
    if n == 0 {
      PairingNone(p, l, s, k, m);
    } else {
      PairingCommutes(p, l, s, k, n - 1, m);
      PairingMore(p, l, s, k, n - 1, m);
    }
  }

  /** Where every discrepancy that meets a nonzero coefficient is zero, but for
      the first, the pairing is that first one. */
  lemma {:induction false} PairingFirst(p: seq<Symbol>, l: seq<Symbol>, s: seq<Symbol>, k: int, n: nat, deg: nat)
    requires 0 < n <= |p| && p[0] == 1 && Degree(p, deg)
    requires forall j :: k - deg <= j < k ==> Disc(l, s, j) == 0
    ensures Pairing(p, l, s, k, n, |l|) == Disc(l, s, k)
  {
    hide Add, Mul, Conv;
    if n == 1 {
      MulOne(Disc(l, s, k));
      AddLaws(0, Disc(l, s, k), 0);
      AddLaws(Disc(l, s, k), 0, 0);
    } else {
      PairingFirst(p, l, s, k, n - 1, deg);
      MulOne(Disc(l, s, k - (n - 1)));
      MulOne(p[n - 1]);
      AddLaws(Disc(l, s, k), 0, 0);
    }
  }

  /** A register that generates one syndrome more than another, which fails
      there, is at least as long as what the other leaves. */
  lemma LongerRegister(l: seq<Symbol>, el: nat, p: seq<Symbol>, n: nat, s: seq<Symbol>, r: nat)
    requires IsRegister(l, s, el, r) && IsRegister(p, s, n, r + 1) && Disc(l, s, r) != 0 && el <= r
    ensures n >= r + 1 - el
  {
    hide Conv, Disc;
    if n <= r - el {
      PairingFirst(p, l, s, r, LEN, n);
      PairingFirst(l, p, s, r, LEN, el);
      PairingCommutes(p, l, s, r, LEN, LEN);
      assert false;
    }
  }

  /** The step keeps the length shortest. */
  lemma StepShortest(g: Register, s: seq<Symbol>, r: nat)
    requires Inv(g, s, r) && r + 1 < LEN && Shortest(g, s, r)
    ensures Shortest(Step(g, s, r), s, r + 1)
  {
    hide Conv, Disc;
    var next := r + 1;
    forall p: seq<Symbol>, n: nat | IsRegister(p, s, n, next) ensures n >= Step(g, s, r).el {
      assert IsRegister(p, s, n, r);
      if Disc(g.lambda, s, r) != 0 { LongerRegister(g.lambda, g.el, p, n, s, r); }
    }
  }

  // ----- The loop -----

  function Unit(): (p: seq<Symbol>)
    ensures |p| == LEN && p[0] == 1 && forall i :: 0 < i < LEN ==> p[i] == 0
  {
    seq(LEN, i => if i == 0 then 1 else 0)
  }

  /** The register after the first r syndromes. */
  function Run(s: seq<Symbol>, r: nat): (g: Register)
    ensures |g.lambda| == |g.b| == LEN
  {
    if r == 0 then Register(Unit(), Unit(), 0) else Step(Run(s, r - 1), s, r - 1)
  }

  /** The Berlekamp-Massey invariant, after every number of syndromes. */
  lemma {:induction false} RunKeeps(s: seq<Symbol>, r: nat)
    requires r < LEN
    ensures Inv(Run(s, r), s, r) && Shortest(Run(s, r), s, r)
  {
    hide Step;
    if r > 0 {
      RunKeeps(s, r - 1);
      StepKeeps(Run(s, r - 1), s, r - 1);
      StepShortest(Run(s, r - 1), s, r - 1);
    }
  }
}
