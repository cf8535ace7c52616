/** encode_rs_8 and the syndromes of decode_rs_8: a block with the parity the
    encoder appends has 32 zero syndromes. */
module RsEncode {
  import opened GfTables
  import opened Gf
  import opened Rs

  // ----- The shift register -----

  /** One generator coefficient times the feedback, as the code computes it. */
  function Feed(f: Symbol, k: nat): Symbol {
    if f == 0 then 0 else AlphaTo((IndexOf(f) + GenPoly(k)) % 255)
  }

  /** The register after one more data symbol. */
  function Next(p: seq<Symbol>, d: Symbol): (r: seq<Symbol>)
    requires |p| == NROOTS
    ensures |r| == NROOTS
  {
    var f := Add(d, p[0]);
    seq(NROOTS, j requires 0 <= j < NROOTS => if j < 31 then Add(p[j + 1], Feed(f, 31 - j)) else Feed(f, 0))
  }

  function Zeros(n: nat): (s: seq<Symbol>)
    ensures |s| == n && forall i :: 0 <= i < n ==> s[i] == 0
  {
    seq(n, _ => 0)
  }

  /** The register after all the data. */
  function Parity(data: seq<Symbol>): (r: seq<Symbol>)
    ensures |r| == NROOTS
  {
    if data == [] then Zeros(NROOTS) else Next(Parity(data[..|data| - 1]), data[|data| - 1])
  }

  /** The terms fed back, one for each place of the register. */
  function Fed(f: Symbol): (s: seq<Symbol>)
    ensures |s| == NROOTS
  {
    seq(NROOTS, j requires 0 <= j < NROOTS => Feed(f, 31 - j))
  }

  lemma {:induction false} LowestAt(n: nat, i: nat)
    requires i < n
    ensures Lowest(n)[i] == Gen(n - 1 - i)
  {
    hide Gen;
    if i > 0 { LowestAt(n - 1, i - 1); }
  }

  /** What is fed back is the generator, without its leading one, times f. */
  lemma FedIsScaled(f: Symbol, j: nat)
    requires f != 0 && j < NROOTS
    ensures Fed(f)[j] == Act(IndexOf(f), Lowest(32)[j])
  {
    hide AlphaTo, IndexOf, GenPoly, Act;
    var k := 31 - j;
    LowestAt(32, j);
    GenPolySmall(k);
    LogsAdd(f, GenPoly(k));
    NonzeroIsPower(f);
    AlphaIsPower(GenPoly(k));
    ActSwap(GenPoly(k), IndexOf(f), 1);
  }

  /** At a root, the generator without its leading one is that leading power. */
  lemma LowestAtRoot(i: nat)
    requires i < NROOTS
    ensures Eval(Lowest(32), Root(i)) == Act(32 * Root(i), 1)
  {
    hide Add, Act, Eval, AlphaTo, GenPoly, Lowest, Root;
    GeneratorVanishes(i);
    LowestMore(32, Root(i));
    LeadingOne();
    AddZero(Act(32 * Root(i), Gen(32)), Eval(Lowest(32), Root(i)));
  }

  lemma LeadingOne()
    ensures Gen(32) == 1
  {
    hide AlphaTo;
    assert GenPoly(32) == 0;
    AlphaEnds();
  }

  lemma FedAtRoot(f: Symbol, i: nat)
    requires i < NROOTS
    ensures Eval(Fed(f), Root(i)) == Act(32 * Root(i), f)
  {
    hide Add, Act, Eval, AlphaTo, IndexOf, GenPoly, Lowest, Root;
    var m := Root(i);
    if f == 0 {
      EvalZeros(Fed(f), m);
      ActZero(32 * m, 0);
    } else {
      forall j | 0 <= j < NROOTS ensures Fed(f)[j] == Act(IndexOf(f), Lowest(32)[j]) {
        FedIsScaled(f, j);
      }
      EvalScale(Lowest(32), Fed(f), IndexOf(f), m);
      LowestAtRoot(i);
      NonzeroIsPower(f);
      ActSwap(IndexOf(f), 32 * m, 1);
    }
  }

  lemma {:induction false} EvalZeros(s: seq<Symbol>, m: nat)
    requires forall i :: 0 <= i < |s| ==> s[i] == 0
    ensures Eval(s, m) == 0
  {
    hide Add, Act;
    if s != [] {
      EvalZeros(s[..|s| - 1], m);
      ActZero(m, 0);
      AddLaws(0, 0, 0);
    }
  }

  /** The register as a polynomial at a root: one step multiplies it, and adds
      the new symbol times the leading power. */
  lemma NextAtRoot(p: seq<Symbol>, d: Symbol, i: nat)
    requires |p| == NROOTS && i < NROOTS
    ensures Eval(Next(p, d), Root(i)) == Add(Act(Root(i), Eval(p, Root(i))), Act(32 * Root(i), d))
  {
    hide Add, Act, Eval, Feed, Root;
    var m, f := Root(i), Add(d, p[0]);
    var shifted := p[1..] + [0];
    forall j | 0 <= j < NROOTS ensures Next(p, d)[j] == Add(shifted[j], Fed(f)[j]) {
      if j == 31 { AddLaws(0, Feed(f, 0), 0); AddLaws(Feed(f, 0), 0, 0); }
    }
    EvalSum(shifted, Fed(f), Next(p, d), m);
    FedAtRoot(f, i);
    ShiftedOut(p, m);
    ActLinear(32 * m, d, p[0]);
    var a, b, c := Act(m, Eval(p, m)), Act(32 * m, p[0]), Act(32 * m, d);
    AddLaws(c, b, 0);
    AddPairs(a, b, b, c);
    AddLaws(a, b, Add(b, c));
    AddLaws(b, b, c);
    AddLaws(c, 0, 0);
    AddLaws(0, c, 0);
  }

  /** Shifting out the first symbol takes away its leading power. */
  lemma ShiftedOut(p: seq<Symbol>, m: nat)
    requires |p| == NROOTS
    ensures Eval(p[1..] + [0], m) == Add(Act(m, Eval(p, m)), Act(32 * m, p[0]))
  {
    hide Add, Act, Eval;
    var rest := p[1..];
    EvalPush(rest, 0, m);
    AddLaws(Act(m, Eval(rest, m)), 0, 0);
    assert p == [p[0]] + rest;
    EvalConcat([p[0]], rest, m);
    EvalOne(p[0], m);
    var lead := Act(31 * m, p[0]);
    ActLinear(m, lead, Eval(rest, m));
    ActTwice(m, 31 * m, p[0]);
    assert m + 31 * m == 32 * m;
    var a, b := Act(32 * m, p[0]), Act(m, Eval(rest, m));
    AddLaws(a, b, a);
    AddLaws(b, a, a);
    AddLaws(b, 0, 0);
    AddLaws(a, a, 0);
  }

  lemma EvalOne(d: Symbol, m: nat)
    ensures Eval([d], m) == d
  {
    hide Add, Act;
    EvalPush([], d, m);
    assert [] + [d] == [d];
    ActZero(m, 0);
    AddLaws(0, d, 0);
    AddLaws(d, 0, 0);
  }

  lemma {:induction false} ParityAtRoot(data: seq<Symbol>, i: nat)
    requires i < NROOTS
    ensures Eval(Parity(data), Root(i)) == Act(32 * Root(i), Eval(data, Root(i)))
  {
    hide Add, Act, Next, Root;
    var m := Root(i);
    if data == [] {
      EvalZeros(Zeros(NROOTS), m);
      ActZero(32 * m, 0);
    } else {
      var n := |data| - 1;
      ParityAtRoot(data[..n], i);
      NextAtRoot(Parity(data[..n]), data[n], i);
      ActSwap(m, 32 * m, Eval(data[..n], m));
      ActLinear(32 * m, Act(m, Eval(data[..n], m)), data[n]);
    }
  }

  /** Every block the encoder makes is a codeword: the polynomial of its data
      and parity is zero at each of the 32 roots. */
  lemma EncodedIsCodeword(data: seq<Symbol>, i: nat)
    requires i < NROOTS
    ensures Eval(data + Parity(data), Root(i)) == 0
  {
    hide Add, Act, Eval, Parity, Root;
    var m := Root(i);
    EvalConcat(data, Parity(data), m);
    ParityAtRoot(data, i);
    AddZero(Act(32 * m, Eval(data, m)), Eval(Parity(data), m));
  }

  // ----- The encoder -----

  /** The move of the register by one place. */
  method MoveUp(parity: array<Symbol>)
    requires parity.Length == NROOTS
    modifies parity
    ensures forall k :: 0 <= k < NROOTS - 1 ==> parity[k] == old(parity[k + 1])
  {
    for j := 0 to NROOTS - 1
      invariant forall k :: 0 <= k < j ==> parity[k] == old(parity[k + 1])
      invariant forall k :: j <= k < NROOTS ==> parity[k] == old(parity[k])
    {
      parity[j] := parity[j + 1];
    }
  }

  /** encode_rs_8, the feedback into all places but the first. */
  method FeedBack(f: Symbol, parity: array<Symbol>)
    requires parity.Length == NROOTS && f != 0
    modifies parity
    ensures forall k :: 1 <= k < NROOTS ==> parity[k] == Add(old(parity[k]), Feed(f, 32 - k))
    ensures parity[0] == old(parity[0])
  {
    hide Add, AlphaTo, IndexOf, GenPoly;
    FeedbackZero(f);
    var feedback := IndexOf(f);
    var j := 1;
    while j < NROOTS
      invariant 1 <= j <= NROOTS
      invariant forall k :: 1 <= k < j ==> parity[k] == Add(old(parity[k]), Feed(f, 32 - k))
      invariant forall k :: j <= k < NROOTS || k == 0 ==> parity[k] == old(parity[k])
    {
      var e := Mod255(feedback + GenPoly(NROOTS - j));
      parity[j] := Add(parity[j], AlphaTo(e));
      j := j + 1;
    }
  }

  /** encode_rs_8, one round: the feedback, then the register moved up. */
  method Shift(d: Symbol, parity: array<Symbol>)
    requires parity.Length == NROOTS
    modifies parity
    ensures parity[..] == Next(old(parity[..]), d)
  {
    hide Add, AlphaTo, IndexOf, GenPoly, Feed;
    ghost var p := parity[..];
    var f := Add(d, parity[0]);
    FeedbackZero(f);
    var feedback := IndexOf(f);
    if feedback != A0 {
      FeedBack(f, parity);
    }
    if f == 0 { NothingFed(p); }
    MoveUp(parity);
    LastFed(f);
    if feedback != A0 {
      var e := Mod255(feedback + GenPoly(0));
      parity[NROOTS - 1] := AlphaTo(e);
    } else {
      parity[NROOTS - 1] := 0;
    }
    NextIs(p, d, f, parity[..]);
  }

  lemma NextIs(p: seq<Symbol>, d: Symbol, f: Symbol, q: seq<Symbol>)
    requires |p| == |q| == NROOTS && f == Add(d, p[0]) && q[NROOTS - 1] == Feed(f, 0)
    requires forall k :: 0 <= k < NROOTS - 1 ==> q[k] == Add(p[k + 1], Feed(f, 32 - (k + 1)))
    ensures q == Next(p, d)
  {
    hide Add, Feed;
    forall k | 0 <= k < NROOTS ensures q[k] == Next(p, d)[k] {
      if k < 31 { assert Feed(f, 31 - k) == Feed(f, 32 - (k + 1)); }
    }
  }

  lemma NothingFed(p: seq<Symbol>)
    requires |p| == NROOTS
    ensures forall k :: 1 <= k < NROOTS ==> p[k] == Add(p[k], Feed(0, 32 - k))
  {
    hide Add, Feed;
    forall k | 1 <= k < NROOTS ensures p[k] == Add(p[k], Feed(0, 32 - k)) { FeedZero(p[k], 32 - k); }
  }

  lemma LastFed(f: Symbol)
    ensures Feed(f, 0) == if f == 0 then 0 else AlphaTo((IndexOf(f) + GenPoly(0)) % 255)
  {
    hide AlphaTo, IndexOf, GenPoly;
  }

  lemma FeedbackZero(f: Symbol)
    ensures IndexOf(f) == A0 <==> f == 0
    ensures f != 0 ==> IndexOf(f) < 255
  {
    hide AlphaTo, IndexOf;
    IndexOfZero();
    if f != 0 { IndexRight(f); }
  }

  lemma FeedZero(x: Symbol, k: nat)
    ensures Feed(0, k) == 0 && Add(x, Feed(0, k)) == x
  {
    hide Add;
    AddLaws(x, 0, 0);
  }

  /** encode_rs_8: the parity of the data, for any padding. */
  method EncodeRs(data: array<Symbol>, parity: array<Symbol>, pad: nat)
    requires pad <= NN - NROOTS && data.Length >= NN - NROOTS - pad && parity.Length == NROOTS && data != parity
    modifies parity
    ensures parity[..] == Parity(data[..NN - NROOTS - pad])
  {
    for j := 0 to NROOTS
      invariant forall k :: 0 <= k < j ==> parity[k] == 0
    {
      parity[j] := 0;
    }
    assert parity[..] == Parity(data[..0]);
    for i := 0 to NN - NROOTS - pad
      invariant parity[..] == Parity(data[..i])
    {
      Shift(data[i], parity);
      assert data[..i + 1][..i] == data[..i];
    }
  }
}
