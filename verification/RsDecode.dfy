/** The first half of decode_rs_8 without erasures: the syndromes, the
    Berlekamp-Massey loop on index forms, and the search for the roots. */
module RsDecode {
  import opened GfTables
  import opened Gf
  import opened Rs
  import opened RsEncode
  import BM = BerlekampMassey

  const IPRIM: nat := 116

  // ----- Index forms -----

  /** The symbol an index form stands for is the table entry, zero included. */
  lemma IndexForm(x: Symbol)
    ensures AlphaTo(IndexOf(x)) == x && IndexOf(x) <= A0 && (IndexOf(x) == A0 <==> x == 0)
  {
    hide AlphaTo, IndexOf;
    FeedbackZero(x);
    AlphaEnds();
    if x == 0 { IndexOfZero(); } else { IndexRight(x); }
  }

  /** Index forms below A0 stand for nonzero symbols, and add up as powers. */
  lemma IndexTimes(i: nat, n: nat)
    requires i < A0
    ensures AlphaTo((i + n) % 255) == Act(n, AlphaTo(i)) && AlphaTo(i) != 0
  {
    hide AlphaTo, IndexOf, Act;
    AlphaIsPower(i);
    ActTwice(n, i, 1);
    ActPeriod(i + n, 1);
    AlphaIsPower((i + n) % 255);
    ActZero(i, 1);
  }

  lemma IndexProduct(x: Symbol, i: nat)
    requires x != 0 && i < A0
    ensures AlphaTo((IndexOf(x) + i) % 255) == Mul(x, AlphaTo(i)) == Mul(AlphaTo(i), x)
  {
    hide AlphaTo, IndexOf, Act, Mul;
    IndexTimes(i, IndexOf(x));
    MulIsAct(AlphaTo(i), x);
    MulCommutes(AlphaTo(i), x);
    assert (IndexOf(x) + i) % 255 == (i + IndexOf(x)) % 255;
  }

  // ----- Syndromes -----

  /** The syndromes of a block. */
  function Syndromes(block: seq<Symbol>): (s: seq<Symbol>)
    ensures |s| == NROOTS && forall i :: 0 <= i < NROOTS ==> s[i] == Eval(block, Root(i))
  {
    seq(NROOTS, i requires 0 <= i < NROOTS => Eval(block, Root(i)))
  }

  lemma HornerStep(block: seq<Symbol>, d: Symbol, m: nat)
    ensures Eval(block + [d], m) ==
      Add(d, if Eval(block, m) == 0 then 0 else AlphaTo((IndexOf(Eval(block, m)) + m) % 255))
  {
    hide Add, Act, AlphaTo, IndexOf, Eval;
    EvalPush(block, d, m);
    var e := Eval(block, m);
    AddLaws(Act(m, e), d, 0);
    if e == 0 { ActZero(m, 0); } else { LogsAdd(e, m); }
  }

  /** The loops that form the syndromes. */
  method FormSyndromes(data: array<Symbol>, n: nat) returns (s: array<Symbol>)
    requires 0 < n <= data.Length
    ensures fresh(s) && s.Length == NROOTS && s[..] == Syndromes(data[..n])
  {
    hide Add, AlphaTo, IndexOf, Eval;
    s := new Symbol[NROOTS];
    for i := 0 to NROOTS
      invariant forall k :: 0 <= k < i ==> s[k] == Eval(data[..1], Root(k))
    {
      EvalOne(data[0], Root(i));
      assert data[..1] == [data[0]];
      s[i] := data[0];
    }
    for j := 1 to n
      invariant forall k :: 0 <= k < NROOTS ==> s[k] == Eval(data[..j], Root(k))
      invariant fresh(s)
    {
      NextSyndromes(data, j, s);
    }
  }

  method NextSyndromes(data: array<Symbol>, j: nat, s: array<Symbol>)
    requires 0 < j < data.Length && s.Length == NROOTS && s != data
    requires forall k :: 0 <= k < NROOTS ==> s[k] == Eval(data[..j], Root(k))
    modifies s
    ensures forall k :: 0 <= k < NROOTS ==> s[k] == Eval(data[..j + 1], Root(k))
  {
    hide Add, AlphaTo, IndexOf, Eval, Root;
    assert data[..j + 1] == data[..j] + [data[j]];
    for i := 0 to NROOTS
      invariant forall k :: 0 <= k < i ==> s[k] == Eval(data[..j + 1], Root(k))
      invariant forall k :: i <= k < NROOTS ==> s[k] == Eval(data[..j], Root(k))
    {
      HornerStep(data[..j], data[j], Root(i));
      if s[i] == 0 {
        AddLaws(data[j], 0, 0);
        s[i] := data[j];
      } else {
        var e := Mod255(IndexOf(s[i]) + Root(i));
        s[i] := Add(data[j], AlphaTo(e));
      }
    }
  }

  // ----- The Berlekamp-Massey loop -----

  /** The discrepancy, as the loop forms it: only the terms there are. */
  lemma {:induction false} DiscIsShort(p: seq<Symbol>, s: seq<Symbol>, r: nat, n: nat)
    requires r < n <= |p|
    ensures BM.Conv(p, s, r, n) == BM.Conv(p, s, r, r + 1)
  {
    hide Add, Mul;
    if n > r + 1 {
      DiscIsShort(p, s, r, n - 1);
      MulOne(p[n - 1]);
      AddLaws(BM.Conv(p, s, r, n - 1), 0, 0);
    }
  }

  method Discrepancy(lambda: array<Symbol>, s: array<nat>, r: nat, ghost syn: seq<Symbol>) returns (d: Symbol)
    requires lambda.Length == BM.LEN && s.Length == NROOTS == |syn| && r < NROOTS
    requires forall i :: 0 <= i < NROOTS ==> s[i] == IndexOf(syn[i])
    ensures d == BM.Disc(lambda[..], syn, r)
  {
    hide Add, Mul, AlphaTo, IndexOf;
    d := 0;
    for i := 0 to r + 1
      invariant d == BM.Conv(lambda[..], syn, r, i)
    {
      var x, k := lambda[i], s[r - i];
      IndexForm(syn[r - i]);
      MulOne(x);
      MulOne(syn[r - i]);
      AddLaws(d, 0, 0);
      if x != 0 && k != A0 {
        var e := Mod255(IndexOf(x) + k);
        IndexProduct(x, k);
        d := Add(d, AlphaTo(e));
      }
    }
    DiscIsShort(lambda[..], syn, r, BM.LEN);
  }

  /** The array b holds the polynomial p in index form. */
  ghost predicate InIndexForm(b: seq<nat>, p: seq<Symbol>) {
    |b| == |p| && forall i :: 0 <= i < |p| ==> b[i] <= A0 && AlphaTo(b[i]) == p[i]
  }

  lemma IndexProducts(x: Symbol, i: nat, y: Symbol)
    requires x != 0 && i <= A0 && AlphaTo(i) == y
    ensures i != A0 ==> AlphaTo((IndexOf(x) + i) % 255) == Mul(x, y)
    ensures i == A0 ==> Mul(x, y) == 0
  {
    hide AlphaTo, IndexOf, Mul;
    if i == A0 {
      AlphaEnds();
      MulOne(x);
    } else {
      IndexProduct(x, i);
    }
  }

  /** Two arrays, of whatever types, are not the same object. */
  predicate Apart(a: object, b: object) {
    a != b
  }

  /** T(x) <- lambda(x) - discr_r*x*b(x). */
  method Correct(lambda: array<Symbol>, b: array<nat>, d: Symbol, t: array<Symbol>, ghost pb: seq<Symbol>)
    requires lambda.Length == b.Length == t.Length == BM.LEN && t != lambda && Apart(b, t)
    requires InIndexForm(b[..], pb) && d != 0
    modifies t
    ensures t[..] == BM.Corrected(lambda[..], d, BM.Shifted(pb))
  {
    hide Add, Mul, AlphaTo, IndexOf;
    MulOne(d);
    AddLaws(lambda[0], 0, 0);
    t[0] := lambda[0];
    for i := 0 to NROOTS
      invariant t[0] == lambda[0]
      invariant forall k :: 0 < k <= i ==> t[k] == Add(lambda[k], Mul(d, pb[k - 1]))
    {
      IndexProducts(d, b[i], pb[i]);
      AddLaws(lambda[i + 1], 0, 0);
      if b[i] != A0 {
        var e := Mod255(IndexOf(d) + b[i]);
        t[i + 1] := Add(lambda[i + 1], AlphaTo(e));
      } else {
        t[i + 1] := lambda[i + 1];
      }
    }
    var x := BM.Shifted(pb);
    forall k | 0 <= k < BM.LEN ensures t[k] == BM.Corrected(lambda[..], d, x)[k] {
      if k > 0 { assert x[k] == pb[k - 1]; }
    }
  }

  /** B(x) <- x*B(x). */
  method MoveB(b: array<nat>, ghost pb: seq<Symbol>)
    requires b.Length == BM.LEN && InIndexForm(b[..], pb)
    modifies b
    ensures InIndexForm(b[..], BM.Shifted(pb))
  {
    hide AlphaTo;
    ghost var was := b[..];
    var i := NROOTS;
    while i > 0
      invariant 0 <= i <= NROOTS
      invariant forall k :: 0 <= k <= i ==> b[k] == was[k]
      invariant forall k :: i < k < BM.LEN ==> b[k] == was[k - 1]
    {
      b[i] := b[i - 1];
      i := i - 1;
    }
    AlphaEnds();
    b[0] := A0;
  }

  /** B(x) <- inv(discr_r) * lambda(x). */
  method DivideB(lambda: array<Symbol>, b: array<nat>, d: Symbol)
    requires lambda.Length == b.Length == BM.LEN && d != 0 && Apart(lambda, b)
    modifies b
    ensures InIndexForm(b[..], BM.Divided(lambda[..], d))
  {
    hide AlphaTo, IndexOf;
    FeedbackZero(d);
    AlphaEnds();
    for i := 0 to BM.LEN
      invariant forall k :: 0 <= k < i ==> b[k] <= A0 && AlphaTo(b[k]) == Div(lambda[k], d)
    {
      FeedbackZero(lambda[i]);
      if lambda[i] == 0 {
        b[i] := A0;
      } else {
        b[i] := Mod255(IndexOf(lambda[i]) - IndexOf(d) + NN);
      }
    }
  }

  /** One round of the loop, for the syndrome r. */
  method MasseyStep(lambda: array<Symbol>, b: array<nat>, t: array<Symbol>, s: array<nat>, r: nat, el: nat,
                    ghost syn: seq<Symbol>, ghost pb: seq<Symbol>)
    returns (newEl: nat)
    requires lambda.Length == b.Length == t.Length == BM.LEN && t != lambda && s != b
    requires Apart(b, t) && Apart(b, lambda) && Apart(s, t) && Apart(s, lambda)
    requires s.Length == NROOTS == |syn| && r < NROOTS && el <= r
    requires forall i :: 0 <= i < NROOTS ==> s[i] == IndexOf(syn[i])
    requires InIndexForm(b[..], pb)
    modifies lambda, b, t
    ensures var g := BM.Step(BM.Register(old(lambda[..]), pb, el), syn, r);
      lambda[..] == g.lambda && InIndexForm(b[..], g.b) && newEl == g.el
  {
    hide AlphaTo, IndexOf, BM.Disc, BM.Corrected, BM.Divided, BM.Shifted;
    newEl := el;
    var d := Discrepancy(lambda, s, r, syn);
    FeedbackZero(d);
    if IndexOf(d) == A0 {
      MoveB(b, pb);
    } else {
      Correct(lambda, b, d, t, pb);
      if 2 * el <= r {
        newEl := r + 1 - el;
        DivideB(lambda, b, d);
      } else {
        MoveB(b, pb);
      }
      Copy(t, lambda);
    }
  }

  method Copy(from: array<Symbol>, to: array<Symbol>)
    requires from.Length == to.Length && from != to
    modifies to
    ensures to[..] == from[..]
  {
    for i := 0 to to.Length
      invariant to[..i] == from[..i]
    {
      to[i] := from[i];
    }
  }

  /** The loop: the locator of the errors for these syndromes. */
  method Massey(s: array<nat>, ghost syn: seq<Symbol>) returns (lambda: array<Symbol>)
    requires s.Length == NROOTS == |syn| && forall i :: 0 <= i < NROOTS ==> s[i] == IndexOf(syn[i])
    ensures fresh(lambda) && lambda.Length == BM.LEN && lambda[..] == BM.Run(syn, NROOTS).lambda
    ensures BM.Inv(BM.Run(syn, NROOTS), syn, NROOTS) && BM.Shortest(BM.Run(syn, NROOTS), syn, NROOTS)
  {
    hide AlphaTo, IndexOf, BM.Step;
    lambda := new Symbol[BM.LEN](i => if i == 0 then 1 else 0);
    assert lambda[..] == BM.Unit();
    var b := new nat[BM.LEN];
    var t := new Symbol[BM.LEN];
    for i := 0 to BM.LEN
      invariant forall k :: 0 <= k < i ==> b[k] <= A0 && AlphaTo(b[k]) == lambda[k]
      invariant lambda[..] == BM.Unit()
      modifies b
    {
      IndexForm(lambda[i]);
      b[i] := IndexOf(lambda[i]);
    }
    var r, el := 0, 0;
    assert BM.Run(syn, 0) == BM.Register(BM.Unit(), BM.Unit(), 0);
    while r < NROOTS
      invariant r <= NROOTS && lambda[..] == BM.Run(syn, r).lambda && el == BM.Run(syn, r).el
      invariant InIndexForm(b[..], BM.Run(syn, r).b)
      modifies lambda, b, t
    {
      BM.RunKeeps(syn, r);
      el := MasseyStep(lambda, b, t, s, r, el, syn, BM.Run(syn, r).b);
      r := r + 1;
    }
    BM.RunKeeps(syn, NROOTS);
  }

  // ----- The search for the roots -----

  /** The terms of p above the j-th, up to the n-th, at a power of the primitive
      element. */
  function Above(p: seq<Symbol>, e: nat, j: nat, n: nat): Symbol
    requires n < |p|
    decreases n - j
  {
    if j >= n then 0 else Add(Above(p, e, j + 1, n), Act(e * (j + 1), p[j + 1]))
  }

  /** The value of the polynomial p, lowest coefficient first. */
  function Value(p: seq<Symbol>, e: nat): Symbol
    requires |p| > 0
  {
    Add(p[0], Above(p, e, 0, |p| - 1))
  }

  /** Terms above the degree add nothing. */
  lemma {:induction false} AboveDegree(p: seq<Symbol>, e: nat, j: nat, deg: nat, n: nat)
    requires deg <= n < |p| && BM.Degree(p, deg)
    ensures Above(p, e, j, n) == Above(p, e, j, deg)
    decreases n - j
  {
    hide Add, Act;
    if j < n {
      AboveDegree(p, e, j + 1, deg, n);
      if j + 1 > deg {
        ActZero(e * (j + 1), 0);
        AddLaws(0, 0, 0);
      }
    }
  }

  /** The index form of lambda, and its degree. */
  method ToIndex(lambda: array<Symbol>) returns (lam: array<nat>, deg: nat)
    requires lambda.Length == BM.LEN
    ensures fresh(lam) && InIndexForm(lam[..], lambda[..]) && lam.Length == BM.LEN
    ensures deg < BM.LEN && BM.Degree(lambda[..], deg) && (deg > 0 ==> lambda[deg] != 0)
  {
    hide AlphaTo, IndexOf;
    lam := new nat[BM.LEN];
    deg := 0;
    for i := 0 to BM.LEN
      invariant forall k :: 0 <= k < i ==> lam[k] <= A0 && AlphaTo(lam[k]) == lambda[k]
      invariant forall k :: deg < k < i ==> lambda[k] == 0
      invariant deg < BM.LEN && (deg > 0 ==> lambda[deg] != 0)
      modifies lam
    {
      IndexForm(lambda[i]);
      lam[i] := IndexOf(lambda[i]);
      if lam[i] != A0 { deg := i; }
    }
  }

  lemma ModTwice(x: nat, y: nat)
    ensures (x % 255 + y) % 255 == (x + y) % 255
  {}

  /** A place of the register of the search, after i rounds. */
  predicate Turned(reg: nat, lam: nat, i: nat, j: nat) {
    if lam == A0 then reg == A0 else reg == (lam + i * j) % 255
  }

  lemma TurnOnce(reg: nat, lam: nat, i: nat, j: nat)
    requires lam < A0 && Turned(reg, lam, i, j)
    ensures Turned((reg + j) % 255, lam, i + 1, j)
  {
    ModTwice(lam + i * j, j);
    assert lam + i * j + j == lam + (i + 1) * j;
  }

  lemma TurnedSymbol(lam: nat, x: Symbol, e: nat)
    requires lam < A0 && AlphaTo(lam) == x
    ensures AlphaTo((lam + e) % 255) == Act(e, x)
  {
    hide AlphaTo, Act;
    IndexTimes(lam, e);
  }

  /** One round of the search: the next power put into the polynomial. */
  method Turn(reg: array<nat>, ghost lam: seq<nat>, deg: nat, i: nat, ghost p: seq<Symbol>) returns (q: Symbol)
    requires reg.Length == BM.LEN == |lam| && deg < BM.LEN && i > 0
    requires InIndexForm(lam, p) && BM.Degree(p, deg) && p[0] == 1
    requires forall j :: 0 < j <= deg ==> Turned(reg[j], lam[j], i - 1, j)
    modifies reg
    ensures forall j :: 0 < j <= deg ==> Turned(reg[j], lam[j], i, j)
    ensures q == Value(p, i)
  {
    hide Add, Act, AlphaTo, Turned;
    q := 1;
    var j := deg;
    AddLaws(1, 0, 0);
    while j > 0
      invariant 0 <= j <= deg
      invariant forall k :: 0 < k <= j ==> Turned(reg[k], lam[k], i - 1, k)
      invariant forall k :: j < k <= deg ==> Turned(reg[k], lam[k], i, k)
      invariant q == Add(1, Above(p, i, j, deg))
    {
      TurnedZero(reg[j], lam[j], i, j);
      AddLaws(1, Above(p, i, j, deg), Act(i * j, p[j]));
      if reg[j] != A0 {
        TurnOnce(reg[j], lam[j], i - 1, j);
        TurnedSymbol(lam[j], p[j], i * j);
        var e := Mod255(reg[j] + j);
        reg[j] := e;
        TurnedIs(e, lam[j], i, j);
        q := Add(q, AlphaTo(e));
      } else {
        AlphaEnds();
        ActZero(i * j, 0);
        AddLaws(Above(p, i, j, deg), 0, 0);
      }
      j := j - 1;
    }
    AboveDegree(p, i, 0, deg, BM.LEN - 1);
  }

  lemma TurnedZero(reg: nat, lam: nat, i: nat, j: nat)
    requires i > 0 && lam <= A0 && Turned(reg, lam, i - 1, j)
    ensures reg == A0 <==> lam == A0
    ensures lam == A0 ==> Turned(reg, lam, i, j)
  {}

  lemma TurnedIs(reg: nat, lam: nat, i: nat, j: nat)
    requires lam < A0 && Turned(reg, lam, i, j)
    ensures reg == (lam + i * j) % 255
  {}

  /** The error location that belongs to a root. */
  function Location(i: nat): nat
    requires i > 0
  {
    (IPRIM * i - 1) % 255
  }

  lemma NextLocation(i: nat)
    requires i > 0
    ensures (Location(i) + IPRIM) % 255 == Location(i + 1)
  {
    ModTwice(IPRIM * i - 1, IPRIM);
  }

  /** Roots found among the exponents below i, each once and in order, with
      their locations; and all there are, if `all`. */
  ghost predicate Found(p: seq<Symbol>, roots: seq<nat>, locs: seq<nat>, i: nat, all: bool)
    requires |p| > 0
  {
    && |roots| == |locs|
    && (forall c :: 0 <= c < |roots| ==>
      0 < roots[c] < i && Value(p, roots[c]) == 0 && locs[c] == Location(roots[c]))
    && (forall c, d :: 0 <= c < d < |roots| ==> roots[c] < roots[d])
    && (all ==> forall e :: 0 < e < i && Value(p, e) == 0 ==> e in roots)
  }

  lemma FoundMore(p: seq<Symbol>, roots: seq<nat>, locs: seq<nat>, i: nat)
    requires |p| > 0 && i > 0 && Found(p, roots, locs, i, true)
    ensures Value(p, i) == 0 ==> Found(p, roots + [i], locs + [Location(i)], i + 1, true)
    ensures Value(p, i) != 0 ==> Found(p, roots, locs, i + 1, true)
  {
    hide Value, Location;
    var more := roots + [i];
    if Value(p, i) == 0 {
      forall e | 0 < e < i + 1 && Value(p, e) == 0 ensures e in more {
        if e == i { assert more[|roots|] == i; } else { assert e in roots; }
      }
    }
  }

  /** The Chien search. The exponents found are roots of the polynomial, each
      once, in order; and where fewer are found than its degree, they are all
      the roots there are. */
  method Chien(lam: array<nat>, deg: nat, ghost p: seq<Symbol>)
    returns (root: array<nat>, loc: array<nat>, count: nat)
    requires lam.Length == BM.LEN && deg < BM.LEN
    requires InIndexForm(lam[..], p) && BM.Degree(p, deg) && p[0] == 1
    ensures fresh(root) && fresh(loc) && root.Length == loc.Length == NROOTS && count <= deg
    ensures Found(p, root[..count], loc[..count], NN + 1, count < deg)
  {
    hide Add, Act, AlphaTo, Turned, Value, Location, BM.Degree, Found;
    root, loc := new nat[NROOTS], new nat[NROOTS];
    var reg := new nat[BM.LEN](j requires 0 <= j < BM.LEN reads lam => lam[j]);
    StartTurned(lam[..]);
    count := 0;
    var i, k := 1, IPRIM - 1;
    FirstLocation(p);
    assert root[..0] == [] && loc[..0] == [];
    while i <= NN
      invariant 0 < i <= NN + 1 && k == Location(i) && count <= deg && (count < deg || count == 0)
      invariant forall j :: 0 < j <= deg ==> Turned(reg[j], lam[j], i - 1, j)
      invariant Found(p, root[..count], loc[..count], i, true)
      modifies root, loc, reg
    {
      var q := Turn(reg, lam[..], deg, i, p);
      FoundMore(p, root[..count], loc[..count], i);
      if q == 0 {
        NoRootOfOne(p, deg, i);
        ghost var roots, locs := root[..count], loc[..count];
        root[count] := i;
        loc[count] := k;
        count := count + 1;
        assert root[..count] == roots + [i] && loc[..count] == locs + [k];
        if count == deg {
          FoundWithin(p, root[..count], loc[..count], i + 1);
          return;
        }
      }
      NextLocation(i);
      k := Mod255(k + IPRIM);
      i := i + 1;
    }
    FoundWithin(p, root[..count], loc[..count], i);
  }

  lemma FirstLocation(p: seq<Symbol>)
    requires |p| > 0
    ensures Location(1) == IPRIM - 1 && Found(p, [], [], 1, true)
  {}

  lemma FoundWithin(p: seq<Symbol>, roots: seq<nat>, locs: seq<nat>, i: nat)
    requires |p| > 0 && i <= NN + 1 && Found(p, roots, locs, i, true)
    ensures Found(p, roots, locs, NN + 1, i == NN + 1)
    ensures Found(p, roots, locs, NN + 1, false)
  {}

  lemma StartTurned(lam: seq<nat>)
    requires forall j :: 0 <= j < |lam| ==> lam[j] <= A0
    ensures forall j :: 0 <= j < |lam| ==> Turned(lam[j], lam[j], 0, j)
  {}

  /** A constant has no root. */
  lemma NoRootOfOne(p: seq<Symbol>, deg: nat, e: nat)
    requires |p| > deg && BM.Degree(p, deg) && p[0] == 1 && Value(p, e) == 0
    ensures deg > 0
  {
    hide Act;
    if deg == 0 {
      AboveDegree(p, e, 0, 0, |p| - 1);
    }
  }
}
