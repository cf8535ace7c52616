/** The second half of decode_rs_8: the values of the errors, and the correction.
    Whatever block is given, what changes is what the roots of the shortest
    register for its syndromes say; a block in which up to sixteen symbols of a
    codeword are in error is that codeword afterwards. */
module RsCorrect {
  import opened GfTables
  import opened Gf
  import opened Rs
  import opened RsEncode
  import opened RsDecode
  import opened RsPlaces
  import opened RsFix
  import RsErrors
  import RsRoots
  import RsForney
  import BM = BerlekampMassey

  // ----- omega(x) -----

  /** One term of a coefficient of omega. */
  lemma OmegaTerm(x: Symbol, i: nat, y: Symbol, k: nat, tmp: Symbol)
    requires i <= A0 && AlphaTo(i) == x && k == IndexOf(y)
    ensures k <= A0
    ensures Add(tmp, Mul(x, y)) == if k != A0 && i != A0 then Add(tmp, AlphaTo((k + i) % 255)) else tmp
  {
    hide Add, Mul, AlphaTo, IndexOf;
    IndexForm(y);
    MulOne(x);
    MulOne(y);
    AddLaws(tmp, 0, 0);
    if k != A0 {
      IndexProducts(y, i, x);
      MulCommutes(x, y);
      assert (k + i) % 255 == (IndexOf(y) + i) % 255;
    } else {
      assert y == 0;
    }
    if i == A0 { AlphaEnds(); }
  }

  /** The coefficient i of omega: syndromes and register multiplied. */
  method OmegaOne(s: array<nat>, lam: array<nat>, i: nat, ghost p: seq<Symbol>, ghost syn: seq<Symbol>)
    returns (tmp: Symbol)
    requires s.Length == NROOTS == |syn| && lam.Length == BM.LEN && i < NROOTS
    requires InIndexForm(lam[..], p) && forall k :: 0 <= k < NROOTS ==> s[k] == IndexOf(syn[k])
    ensures tmp == BM.Disc(p, syn, i)
  {
    hide Add, Mul, AlphaTo, IndexOf;
    tmp := 0;
    ghost var all := BM.Conv(p, syn, i, i + 1);
    AddLaws(0, all, 0);
    AddLaws(all, 0, 0);
    var j: int := i;
    while j >= 0
      invariant -1 <= j <= i
      invariant Add(tmp, BM.Conv(p, syn, i, j + 1)) == all
    {
      OmegaTerm(p[j], lam[j], syn[i - j], s[i - j], tmp);
      ghost var rest, term := BM.Conv(p, syn, i, j), Mul(p[j], syn[i - j]);
      AddLaws(tmp, term, rest);
      AddLaws(rest, term, 0);
      if s[i - j] != A0 && lam[j] != A0 {
        var e := Mod255(s[i - j] + lam[j]);
        tmp := Add(tmp, AlphaTo(e));
      }
      j := j - 1;
    }
    AddLaws(tmp, 0, 0);
    DiscIsShort(p, syn, i, BM.LEN);
  }

  /** omega(x) = s(x)*lambda(x), in index form. */
  method Omega(s: array<nat>, lam: array<nat>, deg: nat, ghost p: seq<Symbol>, ghost syn: seq<Symbol>)
    returns (omega: array<nat>)
    requires s.Length == NROOTS == |syn| && lam.Length == BM.LEN && deg <= NROOTS
    requires InIndexForm(lam[..], p) && forall k :: 0 <= k < NROOTS ==> s[k] == IndexOf(syn[k])
    ensures fresh(omega) && omega.Length == BM.LEN
    ensures forall i :: 0 <= i < deg ==> omega[i] <= A0 && AlphaTo(omega[i]) == BM.Disc(p, syn, i)
  {
    hide Add, Mul, AlphaTo, IndexOf, BM.Disc;
    omega := new nat[BM.LEN];
    for i := 0 to deg
      invariant forall k :: 0 <= k < i ==> omega[k] <= A0 && AlphaTo(omega[k]) == BM.Disc(p, syn, k)
      modifies omega
    {
      var tmp := OmegaOne(s, lam, i, p, syn);
      IndexForm(tmp);
      omega[i] := IndexOf(tmp);
    }
  }

  // ----- The value of an error -----

  /** A coefficient in index form, at a power. */
  lemma TermAt(i: nat, x: Symbol, e: nat)
    requires i <= A0 && AlphaTo(i) == x
    ensures Act(e, x) == if i == A0 then 0 else AlphaTo((i + e) % 255)
  {
    hide AlphaTo, Act;
    if i == A0 {
      AlphaEnds();
      ActZero(e, 0);
    } else {
      IndexTimes(i, e);
    }
  }

  /** A sum taken from its far end. */
  lemma FromTheEnd(sum: Symbol, rest: Symbol, t: Symbol, all: Symbol)
    requires Add(sum, Add(rest, t)) == all
    ensures Add(Add(sum, t), rest) == all
    ensures t == 0 ==> Add(sum, rest) == all
  {
    hide Add;
    AddLaws(sum, t, rest);
    AddLaws(rest, t, 0);
    AddLaws(rest, 0, 0);
  }

  /** num1: omega at the root. */
  method Numerator(omega: array<nat>, deg: nat, root: nat, ghost p: seq<Symbol>, ghost syn: seq<Symbol>)
    returns (num1: Symbol)
    requires omega.Length == BM.LEN && deg <= NROOTS
    requires forall i :: 0 <= i < deg ==> omega[i] <= A0 && AlphaTo(omega[i]) == BM.Disc(p, syn, i)
    ensures num1 == RsForney.OmegaAt(p, syn, root, deg)
  {
    hide Add, Act, Mul, AlphaTo, BM.Disc;
    num1 := 0;
    ghost var all := RsForney.OmegaAt(p, syn, root, deg);
    AddLaws(0, all, 0);
    AddLaws(all, 0, 0);
    var i: int := deg - 1;
    while i >= 0
      invariant -1 <= i < deg
      invariant Add(num1, RsForney.OmegaAt(p, syn, root, i + 1)) == all
    {
      TermAt(omega[i], BM.Disc(p, syn, i), root * i);
      FromTheEnd(num1, RsForney.OmegaAt(p, syn, root, i), Act(root * i, BM.Disc(p, syn, i)), all);
      if omega[i] != A0 {
        var e := Mod255(omega[i] + i * root);
        num1 := Add(num1, AlphaTo(e));
      }
      i := i - 1;
    }
    AddLaws(num1, 0, 0);
  }

  /** den: the derivative of the register at the root. */
  method Denominator(lam: array<nat>, deg: nat, root: nat, ghost p: seq<Symbol>) returns (den: Symbol)
    requires lam.Length == BM.LEN && deg <= NROOTS && InIndexForm(lam[..], p) && BM.Degree(p, deg)
    ensures den == RsRoots.Deriv(p, root, BM.LEN)
  {
    hide Add, Act, Mul, AlphaTo;
    den := 0;
    ghost var all := RsRoots.Deriv(p, root, BM.LEN);
    AddLaws(0, all, 0);
    AddLaws(all, 0, 0);
    var i: int := if deg < NROOTS - 1 then deg - deg % 2 else NROOTS - 2;
    FirstOdd(p, root, deg, i);
    while i >= 0
      invariant -2 <= i <= NROOTS - 2 && i % 2 == 0
      invariant Add(den, RsRoots.Deriv(p, root, i + 2)) == all
    {
      TermAt(lam[i + 1], p[i + 1], root * i);
      TwoLower(p, root, i);
      FromTheEnd(den, RsRoots.Deriv(p, root, i), Act(root * i, p[i + 1]), all);
      if lam[i + 1] != A0 {
        var e := Mod255(lam[i + 1] + i * root);
        den := Add(den, AlphaTo(e));
      }
      i := i - 2;
    }
    AddLaws(den, 0, 0);
  }

  lemma TwoLower(p: seq<Symbol>, root: nat, i: nat)
    requires i % 2 == 0 && i + 2 <= |p|
    ensures RsRoots.Deriv(p, root, i + 2) == Add(RsRoots.Deriv(p, root, i), Act(root * i, p[i + 1]))
  {
    hide Add, Act;
    assert RsRoots.Deriv(p, root, i + 1) == RsRoots.Deriv(p, root, i);
  }

  /** Above where the loop starts there are no terms of odd degree. */
  lemma FirstOdd(p: seq<Symbol>, root: nat, deg: nat, i: nat)
    requires |p| == BM.LEN && BM.Degree(p, deg) && deg <= NROOTS
    requires i == if deg < NROOTS - 1 then deg - deg % 2 else NROOTS - 2
    ensures RsRoots.Deriv(p, root, BM.LEN) == RsRoots.Deriv(p, root, i + 2)
  {
    hide Add, Act;
    if deg < NROOTS {
      RsRoots.DerivDegree(p, root, BM.LEN, deg);
      if i + 2 > deg + 1 { RsRoots.DerivDegree(p, root, i + 2, deg); }
    }
  }

  /** The quotient in index form is the quotient. */
  lemma QuotientForm(num1: Symbol, num2: Symbol, den: Symbol)
    requires num1 != 0 && num2 != 0 && den != 0
    ensures IndexOf(den) <= NN
    ensures AlphaTo((IndexOf(num1) + IndexOf(num2) + NN - IndexOf(den)) % 255) == Div(Mul(num1, num2), den)
  {
    hide AlphaTo, IndexOf, Act, Mul, Div;
    IndexForm(den);
    IndexForm(num2);
    var e := IndexOf(num1) + IndexOf(num2) + NN - IndexOf(den);
    var v := AlphaTo(e % 255);
    var f := IndexOf(num2) + NN - IndexOf(den);
    LogsAdd(num1, f);
    assert v == Act(f, num1);
    MulCommutes(den, v);
    MulIsAct(v, den);
    ActTwice(IndexOf(den), f, num1);
    ActTwice(NN, IndexOf(num2), num1);
    FullTurn(Act(IndexOf(num2), num1));
    MulIsAct(num1, num2);
    DivUndoes(Mul(num1, num2), den);
    SameProduct(den, v, Div(Mul(num1, num2), den));
  }

  /** num2 is a power, and so is not zero. */
  lemma PowerForm(root: nat)
    ensures AlphaTo((root * (FCR - 1) + NN) % 255) == Act(root * (FCR - 1), 1) != 0
  {
    hide AlphaTo, Act;
    PowerOf(root * (FCR - 1));
  }

  lemma PowerOf(n: nat)
    ensures AlphaTo((n + 255) % 255) == Act(n, 1) != 0
  {
    hide AlphaTo, Act;
    ModPlus(n, 1);
    AlphaIsPower(n % 255);
    ActPeriod(n, 1);
    ActZero(n, 1);
  }

  /** What a root changes, with nothing where omega is zero. */
  method ErrorAt(lam: array<nat>, omega: array<nat>, deg: nat, root: nat, ghost p: seq<Symbol>, ghost syn: seq<Symbol>)
    returns (num1: Symbol, value: Symbol)
    requires lam.Length == omega.Length == BM.LEN && deg <= NROOTS && InIndexForm(lam[..], p) && BM.Degree(p, deg)
    requires forall i :: 0 <= i < deg ==> omega[i] <= A0 && AlphaTo(omega[i]) == BM.Disc(p, syn, i)
    requires RsRoots.Deriv(p, root, BM.LEN) != 0
    ensures (if num1 != 0 then value else 0) == ErrorValue(p, syn, deg, root)
  {
    hide Add, Act, Mul, Div, AlphaTo, IndexOf, BM.Disc, RsForney.OmegaAt, RsRoots.Deriv;
    num1 := Numerator(omega, deg, root, p, syn);
    var f := Mod255(root * (FCR - 1) + NN);
    var num2 := AlphaTo(f);
    var den := Denominator(lam, deg, root, p);
    PowerForm(root);
    value := 0;
    if num1 != 0 {
      QuotientForm(num1, num2, den);
      var e := Mod255(IndexOf(num1) + IndexOf(num2) + NN - IndexOf(den));
      value := AlphaTo(e);
    } else {
      MulOne(num2);
      DivUndoes(0, den);
      MulOne(den);
      SameProduct(den, Div(0, den), 0);
    }
  }

  // ----- The correction -----

  /** The last loop: every root found changes the symbol at its location. */
  method Apply(data: array<Symbol>, pad: nat, lam: array<nat>, omega: array<nat>, deg: nat, root: array<nat>,
               loc: array<nat>, count: nat, ghost p: seq<Symbol>, ghost syn: seq<Symbol>)
    requires lam.Length == omega.Length == BM.LEN && root.Length == loc.Length == NROOTS && count == deg <= NROOTS
    requires InIndexForm(lam[..], p) && BM.Degree(p, deg)
    requires forall i :: 0 <= i < deg ==> omega[i] <= A0 && AlphaTo(omega[i]) == BM.Disc(p, syn, i)
    requires forall c :: 0 <= c < count ==> loc[c] < NN && RsRoots.Deriv(p, root[c], BM.LEN) != 0
    requires data.Length >= NN - pad
    requires Apart(loc, data) && Apart(root, data) && Apart(lam, data) && Apart(omega, data)
    modifies data
    ensures forall x :: 0 <= x < data.Length ==>
      data[x] == Add(old(data[x]), Fix(p, syn, deg, root[..count], loc[..count], 0, x + pad))
  {
    hide AlphaTo, IndexOf, Add, ErrorValue, RsRoots.Deriv, BM.Disc, InIndexForm;
    ghost var roots, locs := root[..count], loc[..count];
    forall x | 0 <= x < data.Length ensures data[x] == Add(data[x], Fix(p, syn, deg, roots, locs, count, x + pad)) {
      AddLaws(data[x], 0, 0);
    }
    var j: int := count - 1;
    while j >= 0
      invariant -1 <= j < count
      invariant root[..count] == roots && loc[..count] == locs
      invariant forall x :: 0 <= x < data.Length ==>
        data[x] == Add(old(data[x]), Fix(p, syn, deg, roots, locs, j + 1, x + pad))
    {
      assert root[j] == roots[j] && loc[j] == locs[j];
      ghost var before := data[..];
      var num1, value := ErrorAt(lam, omega, deg, root[j], p, syn);
      if num1 != 0 && loc[j] >= pad {
        data[loc[j] - pad] := Add(data[loc[j] - pad], value);
      }
      forall x | 0 <= x < data.Length
        ensures data[x] == Add(old(data[x]), Fix(p, syn, deg, roots, locs, j, x + pad))
      {
        FixStep(p, syn, deg, roots, locs, j, x + pad, old(data[x]), before[x]);
      }
      j := j - 1;
    }
  }

  lemma FixStep(p: seq<Symbol>, syn: seq<Symbol>, deg: nat, roots: seq<nat>, locs: seq<nat>, c: nat, at: nat,
                was: Symbol, now: Symbol)
    requires |roots| == |locs| && c < |roots| && now == Add(was, Fix(p, syn, deg, roots, locs, c + 1, at))
    ensures Add(was, Fix(p, syn, deg, roots, locs, c, at))
         == if locs[c] == at then Add(now, ErrorValue(p, syn, deg, roots[c])) else now
    ensures Add(now, 0) == now
  {
    hide Add, ErrorValue;
    var f := Fix(p, syn, deg, roots, locs, c + 1, at);
    AddLaws(was, f, ErrorValue(p, syn, deg, roots[c]));
    AddLaws(f, 0, 0);
    AddLaws(now, 0, 0);
  }

  /** Where as many roots were found as the degree, the derivative is zero at none. */
  lemma NoDoubleRoot(syn: seq<Symbol>, deg: nat, roots: seq<nat>, locs: seq<nat>, c: nat)
    requires Searched(syn, deg, roots, locs) && |roots| == deg && c < deg
    ensures RsRoots.Deriv(BM.Run(syn, NROOTS).lambda, roots[c], BM.LEN) != 0
  {
    hide Add, Act, BM.Run, Value, RsErrors.Pre, RsRoots.Horner, RsRoots.Deriv, Location;
    var p, q := BM.Run(syn, NROOTS).lambda, Trimmed(syn, deg);
    RootsDiffer(syn, deg, roots, locs);
    forall i | 0 <= i < |roots| ensures RsRoots.Horner(q, roots[i]) == 0 {
      TrimmedValue(syn, deg, roots, locs, roots[i]);
    }
    TrimmedValue(syn, deg, roots, locs, roots[c]);
    RsRoots.SimpleRoots(q, roots, c);
    RsRoots.DerivPart(p, roots[c], deg + 1, deg + 1);
    RsRoots.DerivDegree(p, roots[c], BM.LEN, deg);
  }

  /** What decode_rs_8 makes of a block with these syndromes, some not zero: as
      many corrections as the register has roots, if that is its degree. */
  ghost predicate Corrected(was: seq<Symbol>, now: seq<Symbol>, pad: nat, syn: seq<Symbol>, count: int,
                            deg: nat, roots: seq<nat>, locs: seq<nat>)
  {
    && |now| == |was| && Searched(syn, deg, roots, locs) && |roots| == |locs|
    && count == (if |roots| == deg then deg else -1)
    && forall x :: 0 <= x < |was| ==>
      now[x] == if count < 0 then was[x]
                else Add(was[x], Fix(BM.Run(syn, NROOTS).lambda, syn, deg, roots, locs, 0, x + pad))
  }

  /** decode_rs_8, once there are syndromes that are not zero. */
  method CorrectErrors(data: array<Symbol>, pad: nat, sIndex: array<nat>, ghost syn: seq<Symbol>)
    returns (count: int, ghost deg: nat, ghost roots: seq<nat>, ghost locs: seq<nat>)
    requires pad <= 222 && data.Length >= NN - pad && Apart(sIndex, data)
    requires sIndex.Length == NROOTS == |syn| && forall i :: 0 <= i < NROOTS ==> sIndex[i] == IndexOf(syn[i])
    modifies data
    ensures Corrected(old(data[..]), data[..], pad, syn, count, deg, roots, locs)
  {
    hide AlphaTo, IndexOf, Add, Found, BM.Inv, BM.Shortest, BM.Run, InIndexForm, Fix, RsRoots.Deriv, BM.Disc, Value;
    var lambda := Massey(sIndex, syn);
    ghost var p := BM.Run(syn, NROOTS).lambda;
    assert lambda[0] == 1 by { ConstantOne(syn); assert lambda[..][0] == 1; }
    var lam, d := ToIndex(lambda);
    deg := d;
    var root, loc, n := Chien(lam, d, lambda[..]);
    roots, locs := root[..n], loc[..n];
    assert Searched(syn, deg, roots, locs) && |roots| == |locs| by {
      assert lambda[..][deg] == lambda[deg] && p[0] == 1;
    }
    if d != n {
      count := -1;
      return;
    }
    var omega := Omega(sIndex, lam, d, p, syn);
    LocationsSmall(p, roots, locs);
    forall c | 0 <= c < n ensures loc[c] < NN && RsRoots.Deriv(p, root[c], BM.LEN) != 0 {
      assert loc[c] == locs[c] && root[c] == roots[c];
      NoDoubleRoot(syn, deg, roots, locs, c);
    }
    Apply(data, pad, lam, omega, d, root, loc, n, p, syn);
    count := n;
  }

  lemma ConstantOne(syn: seq<Symbol>)
    requires BM.Inv(BM.Run(syn, NROOTS), syn, NROOTS)
    ensures BM.Run(syn, NROOTS).lambda[0] == 1
  {}

  lemma LocationsSmall(p: seq<Symbol>, roots: seq<nat>, locs: seq<nat>)
    requires |p| > 0 && |roots| == |locs|
    requires Found(p, roots, locs, NN + 1, false) || Found(p, roots, locs, NN + 1, true)
    ensures forall c :: 0 <= c < |locs| ==> locs[c] < NN
  {
    hide Value;
  }

  predicate NoErrors(syn: seq<Symbol>) {
    forall i :: 0 <= i < |syn| ==> syn[i] == 0
  }

  /** decode_rs_8 with no erasures, for any block. Without errors nothing changes;
      otherwise what changes is what the roots of the register say. And a block
      that differs from a codeword in up to sixteen symbols is that codeword
      afterwards, with the number of errors reported. */
  method Decode(data: array<Symbol>, pad: int)
    returns (count: int, ghost deg: nat, ghost roots: seq<nat>, ghost locs: seq<nat>)
    requires 0 <= pad <= 222 ==> data.Length >= NN - pad
    modifies data
    ensures pad < 0 || pad > 222 ==> count == -1 && data[..] == old(data[..])
    ensures 0 <= pad <= 222 ==>
      var syn := Syndromes(old(data[..NN - pad]));
      if NoErrors(syn) then count == 0 && data[..] == old(data[..])
      else Corrected(old(data[..]), data[..], pad, syn, count, deg, roots, locs)
    ensures 0 <= pad <= 222 ==>
      forall code: seq<Symbol> :: |code| == NN - pad ==>
        IsCodeword(code) && Distance(code, old(data[..NN - pad])) <= 16 ==>
        count == Distance(code, old(data[..NN - pad])) && data[..NN - pad] == code
  {
    hide AlphaTo, IndexOf, Add, Eval, Syndromes, Found, BM.Run, Corrected, IsCodeword, Distance;
    deg, roots, locs := 0, [], [];
    if pad < 0 || pad > 222 {
      count := -1;
      return;
    }
    ghost var was, block := data[..], data[..NN - pad];
    ghost var syn := Syndromes(block);
    var s := FormSyndromes(data, NN - pad);
    var synError := false;
    var sIndex := new nat[NROOTS];
    for i := 0 to NROOTS
      invariant synError <==> exists k :: 0 <= k < i && syn[k] != 0
      invariant forall k :: 0 <= k < i ==> sIndex[k] == IndexOf(syn[k])
      invariant s[..] == syn
      modifies sIndex
    {
      assert s[i] == s[..][i];
      synError := synError || s[i] != 0;
      sIndex[i] := IndexOf(s[i]);
    }
    if !synError {
      count := 0;
      forall code: seq<Symbol> | |code| == NN - pad && IsCodeword(code) && Distance(code, block) <= 16
        ensures count == Distance(code, block) && data[..NN - pad] == code
      {
        NoSyndromesNoErrors(code, block);
      }
      return;
    }
    assert data[..] == was && block == was[..NN - pad];
    count, deg, roots, locs := CorrectErrors(data, pad, sIndex, syn);
    forall code: seq<Symbol> | |code| == NN - pad && IsCodeword(code) && Distance(code, block) <= 16
      ensures count == Distance(code, block) && data[..NN - pad] == code
    {
      Corrects(code, was, data[..], pad, count, deg, roots, locs);
    }
  }

  /** What the decoder does to a block with few errors undoes them. */
  lemma Corrects(code: seq<Symbol>, was: seq<Symbol>, now: seq<Symbol>, pad: nat, count: int,
                 deg: nat, roots: seq<nat>, locs: seq<nat>)
    requires pad <= 222 && |was| >= NN - pad == |code| && IsCodeword(code) && Distance(code, was[..NN - pad]) <= 16
    requires Corrected(was, now, pad, Syndromes(was[..NN - pad]), count, deg, roots, locs)
    ensures |now| == |was| && count == Distance(code, was[..NN - pad]) && now[..NN - pad] == code
  {
    hide Add, Eval, Syndromes, BM.Run, Searched, Fix, Distance, IsCodeword;
    var block := was[..NN - pad];
    FixesAll(code, block, deg, roots, locs, 0);
    forall j | 0 <= j < |block| ensures now[j] == code[j] {
      FixesAll(code, block, deg, roots, locs, j);
      assert block[j] == was[j] && j + NN - |block| == j + pad;
    }
  }

  /** A block the encoder made is a codeword. */
  lemma EncodedIsCode(data: seq<Symbol>)
    ensures IsCodeword(data + Parity(data))
  {
    hide Eval, Parity;
    forall i | 0 <= i < NROOTS ensures Eval(data + Parity(data), Root(i)) == 0 { EncodedIsCodeword(data, i); }
  }

  /** Encode a block, let up to sixteen of its symbols be changed, and decode it:
      it is as it was encoded, for every block, padding and change. */
  method EncodeThenDecode(block: array<Symbol>, parity: array<Symbol>, pad: nat, noise: seq<Symbol>)
    returns (count: int)
    requires pad <= 222 && block.Length == NN - pad && parity.Length == NROOTS && block != parity
    requires |noise| == NN - pad && Distance(noise, seq(NN - pad, _ => 0)) <= 16
    modifies block, parity
    ensures count == Distance(noise, seq(NN - pad, _ => 0))
    ensures block[..NN - NROOTS - pad] == old(block[..NN - NROOTS - pad])
    ensures block[NN - NROOTS - pad..] == Parity(old(block[..NN - NROOTS - pad]))
  {
    hide AlphaTo, IndexOf, Add, Eval, Parity, IsCodeword, Distance, Corrected, Syndromes, NoErrors;
    var n := NN - NROOTS - pad;
    ghost var d := block[..n];
    EncodeRs(block, parity, pad);
    for j := 0 to NROOTS
      invariant block[..n] == d && block[n..n + j] == parity[..j]
      invariant parity[..] == Parity(d)
    {
      block[n + j] := parity[j];
    }
    ghost var code := d + Parity(d);
    assert block[..] == code;
    for j := 0 to NN - pad
      invariant forall k :: 0 <= k < NN - pad ==> block[k] == if k < j then Add(code[k], noise[k]) else code[k]
    {
      block[j] := Add(block[j], noise[j]);
    }
    EncodedIsCode(d);
    NoiseDistance(code, block[..], noise);
    assert block[..NN - pad] == block[..];
    ghost var deg, roots, locs;
    count, deg, roots, locs := Decode(block, pad);
    assert block[..] == block[..NN - pad] == code;
  }

  lemma {:induction false} NoiseDistance(code: seq<Symbol>, block: seq<Symbol>, noise: seq<Symbol>)
    requires |code| == |block| == |noise| && forall k :: 0 <= k < |code| ==> block[k] == Add(code[k], noise[k])
    ensures Distance(code, block) == Distance(noise, seq(|noise|, _ => 0))
  {
    hide Add;
    if code != [] {
      NoiseDistance(code[1..], block[1..], noise[1..]);
      assert seq(|noise|, _ => 0 as Symbol)[1..] == seq(|noise[1..]|, _ => 0);
      AddZero(code[0], block[0]);
      AddLaws(code[0], code[0], noise[0]);
      AddLaws(0, noise[0], 0);
      AddLaws(noise[0], 0, 0);
    }
  }
}
