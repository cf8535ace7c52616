/** What the decoder changes, and that up to sixteen errors are undone: the roots
    of the shortest register are the places of the errors, and the value found at
    each is the value of its error. */
module RsFix {
  import opened GfTables
  import opened Gf
  import opened Rs
  import opened RsErrors
  import opened RsRoots
  import opened RsForney
  import opened RsDecode
  import opened RsPlaces
  import BM = BerlekampMassey

  /** The value found at a root: num1 * num2 / den of the source. */
  function ErrorValue(p: seq<Symbol>, syn: seq<Symbol>, deg: nat, root: nat): Symbol {
    if Deriv(p, root, |p|) == 0 then 0
    else Div(Mul(OmegaAt(p, syn, root, deg), Act(root * (FCR - 1), 1)), Deriv(p, root, |p|))
  }

  /** What the roots from the c-th on change at a location. */
  function Fix(p: seq<Symbol>, syn: seq<Symbol>, deg: nat, roots: seq<nat>, locs: seq<nat>, c: nat, at: nat): Symbol
    requires |roots| == |locs|
    decreases |roots| - c
  {
    if c >= |roots| then 0
    else Add(Fix(p, syn, deg, roots, locs, c + 1, at), if locs[c] == at then ErrorValue(p, syn, deg, roots[c]) else 0)
  }

  lemma {:induction false} FixNone(p: seq<Symbol>, syn: seq<Symbol>, deg: nat, roots: seq<nat>, locs: seq<nat>,
                                   c: nat, at: nat)
    requires |roots| == |locs| && forall k :: c <= k < |roots| ==> locs[k] != at
    ensures Fix(p, syn, deg, roots, locs, c, at) == 0
    decreases |roots| - c
  {
    hide Add, ErrorValue;
    if c < |roots| {
      FixNone(p, syn, deg, roots, locs, c + 1, at);
      AddLaws(0, 0, 0);
    }
  }

  lemma {:induction false} FixOne(p: seq<Symbol>, syn: seq<Symbol>, deg: nat, roots: seq<nat>, locs: seq<nat>, c: nat,
                                  at: nat, m: nat)
    requires |roots| == |locs| && c <= m < |roots| && forall k :: c <= k < |roots| ==> (locs[k] == at <==> k == m)
    ensures Fix(p, syn, deg, roots, locs, c, at) == ErrorValue(p, syn, deg, roots[m])
    decreases |roots| - c
  {
    hide Add, ErrorValue;
    var v := ErrorValue(p, syn, deg, roots[m]);
    AddLaws(0, v, 0);
    AddLaws(v, 0, 0);
    if c == m {
      FixNone(p, syn, deg, roots, locs, c + 1, at);
    } else {
      FixOne(p, syn, deg, roots, locs, c + 1, at, m);
    }
  }

  // ----- The register and its roots -----

  /** The terms in the order of the search. */
  lemma {:induction false} AboveIsRest(p: seq<Symbol>, e: nat, j: nat, n: nat)
    requires j <= n < |p|
    ensures Add(Pre(p, e, j + 1), Above(p, e, j, n)) == Pre(p, e, n + 1)
    decreases n - j
  {
    hide Add, Act;
    if j == n {
      AddLaws(Pre(p, e, n + 1), 0, 0);
    } else {
      AboveIsRest(p, e, j + 1, n);
      var t := Act(e * (j + 1), p[j + 1]);
      AddLaws(Above(p, e, j + 1, n), t, 0);
      AddLaws(Pre(p, e, j + 1), t, Above(p, e, j + 1, n));
    }
  }

  lemma ValueIsPre(p: seq<Symbol>, e: nat)
    requires |p| > 0
    ensures Value(p, e) == Pre(p, e, |p|)
  {
    hide Add, Act;
    AboveIsRest(p, e, 0, |p| - 1);
    assert e * 0 == 0 && Pre(p, e, 1) == Add(Pre(p, e, 0), Act(e * 0, p[0])) && Pre(p, e, 0) == 0;
    ActNone(p[0]);
    AddLaws(0, p[0], 0);
    AddLaws(p[0], 0, 0);
  }

  /** The decoder's register and the roots it found: all there are, or as many as
      its degree. */
  ghost predicate Searched(syn: seq<Symbol>, deg: nat, roots: seq<nat>, locs: seq<nat>) {
    var p := BM.Run(syn, NROOTS).lambda;
    && deg < BM.LEN && BM.Degree(p, deg) && p[0] == 1 && (deg > 0 ==> p[deg] != 0)
    && |roots| <= deg && Found(p, roots, locs, NN + 1, |roots| < deg)
  }

  /** The coefficients up to the degree. */
  function Trimmed(syn: seq<Symbol>, deg: nat): (q: seq<Symbol>)
    requires deg < BM.LEN
    ensures |q| == deg + 1
  {
    BM.Run(syn, NROOTS).lambda[..deg + 1]
  }

  lemma TrimmedValue(syn: seq<Symbol>, deg: nat, roots: seq<nat>, locs: seq<nat>, e: nat)
    requires Searched(syn, deg, roots, locs)
    ensures Horner(Trimmed(syn, deg), e) == Value(BM.Run(syn, NROOTS).lambda, e)
    ensures Pre(BM.Run(syn, NROOTS).lambda, e, deg + 1) == Value(BM.Run(syn, NROOTS).lambda, e)
    ensures Trimmed(syn, deg)[deg] != 0
  {
    hide Add, Act, Value, Found, Pre, Horner, BM.Run;
    var p := BM.Run(syn, NROOTS).lambda;
    HornerPart(p, e, deg + 1);
    ValueIsPre(p, e);
    PreDegree(p, e, |p|, deg);
  }

  /** Roots that are different are no more than the degree. */
  lemma AtMostDegree(syn: seq<Symbol>, deg: nat, roots: seq<nat>, locs: seq<nat>, es: seq<nat>)
    requires Searched(syn, deg, roots, locs) && Different(es)
    requires forall i :: 0 <= i < |es| ==> Value(BM.Run(syn, NROOTS).lambda, es[i]) == 0
    ensures |es| <= deg
  {
    hide Add, Act, Value, Found, Pre, Horner, BM.Run;
    var q := Trimmed(syn, deg);
    TrimmedValue(syn, deg, roots, locs, 0);
    forall i | 0 <= i < |es| ensures Horner(q, es[i]) == 0 { TrimmedValue(syn, deg, roots, locs, es[i]); }
    if |es| > deg {
      TooManyRoots(q, es);
      assert false;
    }
  }

  /** The roots that belong to the errors. */
  function ErrorRoots(es: seq<Err>): (r: seq<nat>)
    ensures |r| == |es| && forall i :: 0 <= i < |es| ==> r[i] == Inv(es[i].x)
  {
    seq(|es|, i requires 0 <= i < |es| => Inv(es[i].x))
  }

  lemma ErrorRootsDiffer(es: seq<Err>)
    requires DifferentPlaces(es)
    ensures Different(ErrorRoots(es))
  {}

  /** Few errors, and the syndromes they make. */
  ghost predicate FewErrors(syn: seq<Symbol>, es: seq<Err>) {
    && |syn| == NROOTS && 2 * |es| <= NROOTS && AreSyndromes(syn, es) && DifferentPlaces(es)
    && forall i :: 0 <= i < |es| ==> es[i].y != 0
  }

  /** The register is zero at the root of every error, and no longer than there
      are errors. */
  lemma RegisterOfErrors(syn: seq<Symbol>, es: seq<Err>)
    requires FewErrors(syn, es)
    ensures var g := BM.Run(syn, NROOTS);
      && g.el <= |es| && BM.Degree(g.lambda, g.el)
      && forall i :: 0 <= i < |es| ==> Value(g.lambda, ErrorRoots(es)[i]) == 0
  {
    hide Add, Act, BM.Run, Value, Pre, BM.Disc, Sum, Locator;
    var g := BM.Run(syn, NROOTS);
    BM.RunKeeps(syn, NROOTS);
    LocatorIsRegister(syn, es);
    assert BM.IsRegister(g.lambda, syn, g.el, NROOTS);
    forall i | 0 <= i < |es| ensures Value(g.lambda, ErrorRoots(es)[i]) == 0 {
      RegisterVanishes(g.lambda, g.el, syn, es, i);
      ValueIsPre(g.lambda, Inv(es[i].x));
    }
  }

  /** The degree of the register is the number of errors. */
  lemma DegreeIsErrors(syn: seq<Symbol>, es: seq<Err>, deg: nat, roots: seq<nat>, locs: seq<nat>)
    requires FewErrors(syn, es) && Searched(syn, deg, roots, locs)
    ensures deg == |es|
  {
    hide Add, Act, BM.Run, Value, Found, AreSyndromes;
    RegisterOfErrors(syn, es);
    ErrorRootsDiffer(es);
    AtMostDegree(syn, deg, roots, locs, ErrorRoots(es));
  }

  /** The search finds the roots of the errors, and no others. */
  lemma FindsAll(syn: seq<Symbol>, es: seq<Err>, deg: nat, roots: seq<nat>, locs: seq<nat>, i: nat)
    requires FewErrors(syn, es) && Searched(syn, deg, roots, locs) && i < |es|
    ensures ErrorRoots(es)[i] in roots
  {
    hide Add, Act, BM.Run, Value, Location, AreSyndromes;
    RegisterOfErrors(syn, es);
    var e := ErrorRoots(es)[i];
    if e !in roots && |roots| == deg {
      RootsDiffer(syn, deg, roots, locs);
      OneMore(roots, e);
      AtMostDegree(syn, deg, roots, locs, roots + [e]);
    }
  }

  lemma RootsDiffer(syn: seq<Symbol>, deg: nat, roots: seq<nat>, locs: seq<nat>)
    requires Searched(syn, deg, roots, locs)
    ensures Different(roots) && forall c :: 0 <= c < |roots| ==> 1 <= roots[c] <= NN
  {
    hide BM.Run, Value, Location, BM.Degree;
    forall c, d | 0 <= c < d < |roots| ensures roots[c] % 255 != roots[d] % 255 {
      assert roots[c] < roots[d];
    }
  }

  lemma OneMore(roots: seq<nat>, e: nat)
    requires Different(roots) && e !in roots && 1 <= e <= NN && forall c :: 0 <= c < |roots| ==> 1 <= roots[c] <= NN
    ensures Different(roots + [e])
  {
    forall c | 0 <= c < |roots| ensures roots[c] % 255 != e % 255 {
      assert roots[c] in roots;
    }
  }

  lemma FindsNoOther(syn: seq<Symbol>, es: seq<Err>, deg: nat, roots: seq<nat>, locs: seq<nat>, c: nat)
    requires FewErrors(syn, es) && Searched(syn, deg, roots, locs) && c < |roots|
    ensures roots[c] in ErrorRoots(es)
  {
    hide Add, Act, BM.Run, Value, Location, AreSyndromes;
    RegisterOfErrors(syn, es);
    var rs := ErrorRoots(es);
    if roots[c] !in rs {
      DegreeIsErrors(syn, es, deg, roots, locs);
      ErrorRootsDiffer(es);
      RootsDiffer(syn, deg, roots, locs);
      OneMore(rs, roots[c]);
      AtMostDegree(syn, deg, roots, locs, rs + [roots[c]]);
    }
  }

  /** So it finds as many as there are errors. */
  lemma FindsEach(syn: seq<Symbol>, es: seq<Err>, deg: nat, roots: seq<nat>, locs: seq<nat>)
    requires FewErrors(syn, es) && Searched(syn, deg, roots, locs)
    ensures |roots| == deg == |es|
  {
    hide Add, Act, BM.Run, Value, AreSyndromes, Searched;
    DegreeIsErrors(syn, es, deg, roots, locs);
    ErrorRootsDiffer(es);
    var rs := ErrorRoots(es);
    forall i | 0 <= i < |rs| ensures rs[i] in roots { FindsAll(syn, es, deg, roots, locs, i); }
    Included(rs, roots);
    assert |roots| <= deg by { SearchedCount(syn, deg, roots, locs); }
  }

  lemma SearchedCount(syn: seq<Symbol>, deg: nat, roots: seq<nat>, locs: seq<nat>)
    requires Searched(syn, deg, roots, locs)
    ensures |roots| <= deg && |roots| == |locs| && deg < BM.LEN
  {}

  lemma {:induction false} Included(a: seq<nat>, b: seq<nat>)
    requires Different(a) && forall i :: 0 <= i < |a| ==> a[i] in b
    ensures |a| <= |b|
    decreases |a|
  {
    if a != [] {
      var n := |a| - 1;
      var k :| 0 <= k < |b| && b[k] == a[n];
      var rest := b[..k] + b[k + 1..];
      forall i | 0 <= i < n ensures a[..n][i] in rest {
        assert a[i] in b && a[i] != a[n];
      }
      Included(a[..n], rest);
    }
  }

  // ----- The values -----

  /** The value found at the root of an error is the value of that error. */
  lemma ValueOfError(syn: seq<Symbol>, es: seq<Err>, deg: nat, roots: seq<nat>, locs: seq<nat>, m: nat)
    requires FewErrors(syn, es) && Searched(syn, deg, roots, locs) && m < |es|
    ensures ErrorValue(BM.Run(syn, NROOTS).lambda, syn, deg, ErrorRoots(es)[m]) == es[m].y
  {
    hide Add, Act, Mul, Div, BM.Run, Value, Pre, Deriv, OmegaAt, Horner, Found, Sum;
    var p, rs := BM.Run(syn, NROOTS).lambda, ErrorRoots(es);
    var a := rs[m];
    RegisterOfErrors(syn, es);
    DegreeIsErrors(syn, es, deg, roots, locs);
    ErrorRootsDiffer(es);
    var q := Trimmed(syn, deg);
    forall l | 0 <= l < |es| ensures Horner(q, rs[l]) == 0 && Pre(p, rs[l], deg + 1) == 0 {
      TrimmedValue(syn, deg, roots, locs, rs[l]);
    }
    TrimmedValue(syn, deg, roots, locs, a);
    SimpleRoots(q, rs, m);
    DerivPart(p, a, deg + 1, deg + 1);
    DerivDegree(p, a, |p|, deg);
    OmegaAtError(p, syn, es, deg, m);
    Quotients(es[m].x, a, Deriv(p, a, deg + 1), es[m].y, es[m].x * FCR, a * (FCR - 1));
  }

  lemma Quotients(x: nat, a: nat, d: Symbol, y: Symbol, f: nat, g: nat)
    requires a == Inv(x) && d != 0 && f == x * FCR && g == a * (FCR - 1)
    ensures Div(Mul(Act(f, Mul(Act(a, d), y)), Act(g, 1)), d) == y
  {
    hide Add, Act, Mul, Div, Inv;
    var t := Act(f, Mul(Act(a, d), y));
    ActMul(g, t, 1, Act(g, t), Act(g, 1));
    MulOne(t);
    ActMul(a, d, y, Act(a, d), Act(a, y));
    var z := Mul(d, y);
    ActTwice(f, a, z);
    ActTwice(g, f + a, z);
    assert g + (f + a) == x * FCR + a * FCR;
    Undone(x, FCR, FCR, z);
    assert x * (FCR - FCR) == 0;
    ActNone(z);
    DivUndoes(z, d);
    SameProduct(d, Div(z, d), y);
  }

  lemma SameProduct(d: Symbol, u: Symbol, v: Symbol)
    requires d != 0 && Mul(d, u) == Mul(d, v)
    ensures u == v
  {
    hide Act, Mul, IndexOf;
    MulCommutes(d, u);
    MulCommutes(d, v);
    MulIsAct(u, d);
    MulIsAct(v, d);
    SameImage(IndexOf(d), u, v);
  }

  // ----- The theorem -----

  /** Where a block differs from a codeword in no more than sixteen symbols, what
      the decoder adds at each symbol is the difference. */
  lemma FixesAll(code: seq<Symbol>, block: seq<Symbol>, deg: nat, roots: seq<nat>, locs: seq<nat>, j: nat)
    requires |code| == |block| <= NN && IsCodeword(code) && Distance(code, block) <= 16 && j < |block|
    requires Searched(Syndromes(block), deg, roots, locs)
    ensures |roots| == |locs| == deg == Distance(code, block)
    ensures var syn := Syndromes(block);
      Add(block[j], Fix(BM.Run(syn, NROOTS).lambda, syn, deg, roots, locs, 0, j + NN - |block|)) == code[j]
  {
    hide Add, Act, BM.Run, Eval, Syndromes, Searched, Fix, ErrorValue, Location, Inv, ErrorsOf, Distance, Sum;
    var syn, d := Syndromes(block), Diff(code, block);
    var es := ErrorsOf(d);
    FewInBlock(code, block);
    FindsEach(syn, es, deg, roots, locs);
    SearchedCount(syn, deg, roots, locs);
    ErrorCount(code, block);
    var p, at := BM.Run(syn, NROOTS).lambda, j + NN - |block|;
    if d[j] == 0 {
      forall c | 0 <= c < |roots| ensures locs[c] != at {
        var k := RootIsSymbol(d, syn, deg, roots, locs, c);
      }
      FixNone(p, syn, deg, roots, locs, 0, at);
      AddZero(code[j], block[j]);
      AddLaws(block[j], 0, 0);
    } else {
      var m := SymbolIsRoot(d, syn, deg, roots, locs, j);
      forall c | 0 <= c < |roots| ensures locs[c] == at <==> c == m {
        if c != m { OtherRoot(syn, deg, roots, locs, c, m); }
      }
      FixOne(p, syn, deg, roots, locs, 0, at, m);
      AddLaws(code[j], block[j], 0);
      AddLaws(block[j], block[j], code[j]);
      AddLaws(code[j], 0, 0);
      AddLaws(0, code[j], 0);
    }
  }

  lemma FewInBlock(code: seq<Symbol>, block: seq<Symbol>)
    requires |code| == |block| <= NN && IsCodeword(code) && Distance(code, block) <= 16
    ensures FewErrors(Syndromes(block), ErrorsOf(Diff(code, block)))
  {
    hide Add, Act, Eval, Sum, ErrorsOf, Distance;
    var d := Diff(code, block);
    BlockSyndromes(code, block);
    ErrorCount(code, block);
    PlacesDiffer(d);
    forall i | 0 <= i < |ErrorsOf(d)| ensures ErrorsOf(d)[i].y != 0 {
      var j := ErrorIsSymbol(d, i);
    }
  }

  /** Every root found is at a symbol in error. */
  lemma RootIsSymbol(d: seq<Symbol>, syn: seq<Symbol>, deg: nat, roots: seq<nat>, locs: seq<nat>, c: nat)
    returns (k: nat)
    requires FewErrors(syn, ErrorsOf(d)) && Searched(syn, deg, roots, locs) && c < |roots| == |locs| && |d| <= NN
    ensures k < |d| && d[k] != 0 && locs[c] == k + NN - |d|
  {
    hide Add, Act, BM.Run, Value, Location, Inv, ErrorsOf, FewErrors;
    FindsNoOther(syn, ErrorsOf(d), deg, roots, locs, c);
    var l :| 0 <= l < |ErrorsOf(d)| && ErrorRoots(ErrorsOf(d))[l] == roots[c];
    k := ErrorIsSymbol(d, l);
    LocationOfPlace(k, |d|);
  }

  /** Every symbol in error is at a root found, with its value. */
  lemma SymbolIsRoot(d: seq<Symbol>, syn: seq<Symbol>, deg: nat, roots: seq<nat>, locs: seq<nat>, j: nat)
    returns (m: nat)
    requires FewErrors(syn, ErrorsOf(d)) && Searched(syn, deg, roots, locs) && j < |d| <= NN && d[j] != 0
    ensures m < |roots| == |locs| && locs[m] == j + NN - |d|
    ensures ErrorValue(BM.Run(syn, NROOTS).lambda, syn, deg, roots[m]) == d[j]
  {
    hide Add, Act, BM.Run, Value, Location, Inv, ErrorsOf, FewErrors, ErrorValue;
    var l := SymbolIsError(d, j);
    FindsAll(syn, ErrorsOf(d), deg, roots, locs, l);
    var e := ErrorRoots(ErrorsOf(d))[l];
    m :| 0 <= m < |roots| && roots[m] == e;
    LocationOfPlace(j, |d|);
    ValueOfError(syn, ErrorsOf(d), deg, roots, locs, l);
  }

  lemma OtherRoot(syn: seq<Symbol>, deg: nat, roots: seq<nat>, locs: seq<nat>, c: nat, m: nat)
    requires Searched(syn, deg, roots, locs) && c < |roots| && m < |roots| && c != m
    ensures |locs| == |roots| && locs[c] != locs[m]
  {
    hide BM.Run, Value, Location, BM.Degree;
    RootsDiffer(syn, deg, roots, locs);
    assert roots[c] != roots[m];
    if locs[c] == locs[m] { LocationsDiffer(roots[c], roots[m]); }
  }

  /** A block within sixteen symbols of a codeword that has no syndromes is that
      codeword. */
  lemma NoSyndromesNoErrors(code: seq<Symbol>, block: seq<Symbol>)
    requires |code| == |block| <= NN && IsCodeword(code) && Distance(code, block) <= 16
    requires forall i :: 0 <= i < NROOTS ==> Syndromes(block)[i] == 0
    ensures block == code && Distance(code, block) == 0
  {
    hide Add, Act, Eval, Sum, Syndromes, ErrorsOf, Distance;
    FewInBlock(code, block);
    ErrorCount(code, block);
    var d := Diff(code, block);
    var es := ErrorsOf(d);
    NoPowerSums(Syndromes(block), es);
    forall j | 0 <= j < |block| ensures block[j] == code[j] {
      AddZero(code[j], block[j]);
      if d[j] != 0 { var l := SymbolIsError(d, j); }
    }
  }

  /** Nonzero values at different places make some syndrome. */
  lemma NoPowerSums(syn: seq<Symbol>, es: seq<Err>)
    requires FewErrors(syn, es) && forall k :: 0 <= k < NROOTS ==> syn[k] == 0
    ensures es == []
  {
    hide Add, Act, Sum;
    var w := Moved(es);
    forall c | 0 <= c < |w| ensures Sum(w, c) == 0 {
      MovedSum(es, c);
      assert syn[c] == Sum(es, FCR + c);
    }
    Vandermonde(w);
    if es != [] {
      assert w[0].y == 0;
      ActZero(es[0].x * FCR, es[0].y);
    }
  }

  function Moved(es: seq<Err>): (r: seq<Err>)
    ensures |r| == |es| && forall i :: 0 <= i < |es| ==> r[i] == Err(es[i].x, Act(es[i].x * FCR, es[i].y))
  {
    seq(|es|, i requires 0 <= i < |es| => Err(es[i].x, Act(es[i].x * FCR, es[i].y)))
  }

  lemma {:induction false} MovedSum(es: seq<Err>, c: nat)
    ensures Sum(Moved(es), c) == Sum(es, FCR + c)
  {
    hide Add, Act;
    if es != [] {
      var n := |es| - 1;
      MovedSum(es[..n], c);
      assert Moved(es)[..n] == Moved(es[..n]);
      assert es[n].x * c + es[n].x * FCR == es[n].x * (FCR + c);
      ActTwice(es[n].x * c, es[n].x * FCR, es[n].y);
    }
  }
}
