/** A block with symbols in error, as the codeword it was and the errors: their
    number, their places, and the syndromes they make. */
module RsPlaces {
  import opened GfTables
  import opened Gf
  import opened Rs
  import opened RsErrors
  import opened RsDecode

  /** The number of symbols in which two blocks differ. */
  function Distance(a: seq<Symbol>, b: seq<Symbol>): nat
    requires |a| == |b|
  {
    if a == [] then 0 else Distance(a[1..], b[1..]) + if a[0] == b[0] then 0 else 1
  }

  /** A block that is zero at every root of the generator polynomial. */
  ghost predicate IsCodeword(block: seq<Symbol>) {
    forall i :: 0 <= i < NROOTS ==> Eval(block, Root(i)) == 0
  }

  function Diff(a: seq<Symbol>, b: seq<Symbol>): (d: seq<Symbol>)
    requires |a| == |b|
    ensures |d| == |a| && forall i :: 0 <= i < |a| ==> d[i] == Add(a[i], b[i])
  {
    seq(|a|, i requires 0 <= i < |a| => Add(a[i], b[i]))
  }

  /** The nonzero symbols of a difference, each with its place: symbol j of n
      belongs to the power n - 1 - j of the eleventh power of the primitive
      element. */
  function ErrorsOf(d: seq<Symbol>): seq<Err> {
    if d == [] then []
    else (if d[0] == 0 then [] else [Err(PRIM * (|d| - 1), d[0])]) + ErrorsOf(d[1..])
  }

  lemma {:induction false} ErrorCount(a: seq<Symbol>, b: seq<Symbol>)
    requires |a| == |b|
    ensures |ErrorsOf(Diff(a, b))| == Distance(a, b)
  {
    hide Add;
    if a != [] {
      ErrorCount(a[1..], b[1..]);
      assert Diff(a, b)[1..] == Diff(a[1..], b[1..]);
      AddZero(a[0], b[0]);
    }
  }

  // ----- Places -----

  /** The place of symbol j of n. */
  function PlaceOf(j: nat, n: nat): nat
    requires j < n
  {
    PRIM * (n - 1 - j)
  }

  /** Every error is a nonzero symbol at its place. */
  lemma {:induction false} ErrorIsSymbol(d: seq<Symbol>, l: nat) returns (j: nat)
    requires l < |ErrorsOf(d)|
    ensures j < |d| && d[j] != 0 && ErrorsOf(d)[l] == Err(PlaceOf(j, |d|), d[j])
  {
    if d[0] != 0 && l == 0 {
      j := 0;
    } else {
      j := ErrorIsSymbol(d[1..], if d[0] == 0 then l else l - 1);
      j := j + 1;
    }
  }

  /** Every nonzero symbol is an error. */
  lemma {:induction false} SymbolIsError(d: seq<Symbol>, j: nat) returns (l: nat)
    requires j < |d| && d[j] != 0
    ensures l < |ErrorsOf(d)| && ErrorsOf(d)[l] == Err(PlaceOf(j, |d|), d[j])
  {
    if j == 0 {
      l := 0;
    } else {
      l := SymbolIsError(d[1..], j - 1);
      l := if d[0] == 0 then l else l + 1;
    }
  }

  /** The places fall. */
  lemma {:induction false} PlacesFall(d: seq<Symbol>, k: nat, l: nat)
    requires k < l < |ErrorsOf(d)|
    ensures ErrorsOf(d)[k].x > ErrorsOf(d)[l].x
  {
    if d[0] != 0 && k == 0 {
      var j := ErrorIsSymbol(d[1..], l - 1);
    } else {
      PlacesFall(d[1..], if d[0] == 0 then k else k - 1, if d[0] == 0 then l else l - 1);
    }
  }

  lemma RemainderIs(x: int, t: int, r: nat)
    requires x == 255 * t + r && r < 255
    ensures x % 255 == r
  {}

  /** Eleven has an inverse modulo 255. */
  lemma ElevenTimes(a: nat, b: nat)
    requires a < 255 && b < 255 && (11 * a) % 255 == (11 * b) % 255
    ensures a == b
  {
    var r := (11 * a) % 255;
    RemainderIs(116 * r, 5 * a - 116 * (11 * a / 255), a);
    RemainderIs(116 * r, 5 * b - 116 * (11 * b / 255), b);
  }

  lemma PlacesDiffer(d: seq<Symbol>)
    requires |d| <= NN
    ensures DifferentPlaces(ErrorsOf(d))
  {
    var es := ErrorsOf(d);
    forall k, l | 0 <= k < l < |es| ensures es[k].x % 255 != es[l].x % 255 {
      PlacesFall(d, k, l);
      var i := ErrorIsSymbol(d, k);
      var j := ErrorIsSymbol(d, l);
      assert es[k].x == 11 * (|d| - 1 - i) && es[l].x == 11 * (|d| - 1 - j);
      if es[k].x % 255 == es[l].x % 255 { ElevenTimes(|d| - 1 - i, |d| - 1 - j); }
    }
  }

  // ----- Locations -----

  /** The search reports a symbol at its index in the padded block. */
  lemma LocationOfPlace(j: nat, n: nat)
    requires j < n <= NN
    ensures Location(Inv(PlaceOf(j, n))) == j + NN - n
  {
    var m := n - 1 - j;
    var q := 11 * m / 255;
    var i := 255 * (1 + q) - 11 * m;
    assert Inv(PlaceOf(j, n)) == i;
    RemainderIs(116 * i - 1, 116 * (1 + q) - 5 * m - 1, 254 - m);
  }

  /** Different roots have different locations. */
  lemma LocationsDiffer(i: nat, k: nat)
    requires 1 <= i <= NN && 1 <= k <= NN && Location(i) == Location(k)
    ensures i == k
  {
    hide Location;
    var a := RootOfLocation(i);
    var b := RootOfLocation(k);
    SameTurn(a, i, b, k);
  }

  lemma SameTurn(a: int, i: nat, b: int, k: nat)
    requires 255 * a + i == 255 * b + k && 1 <= i <= 255 && 1 <= k <= 255
    ensures i == k
  {}

  lemma RootOfLocation(i: nat) returns (t: int)
    requires 1 <= i <= NN
    ensures 11 * (Location(i) + 1) == 255 * t + i
  {
    t := 5 * i - 11 * ((116 * i - 1) / 255);
  }

  // ----- Syndromes -----

  lemma {:induction false} SumConcat(a: seq<Err>, b: seq<Err>, c: nat)
    ensures Sum(a + b, c) == Add(Sum(a, c), Sum(b, c))
  {
    hide Add, Act;
    if b == [] {
      assert a + b == a;
      AddLaws(Sum(a, c), 0, 0);
    } else {
      var n := |b| - 1;
      assert (a + b)[..|a| + n] == a + b[..n];
      SumConcat(a, b[..n], c);
      AddLaws(Sum(a, c), Sum(b[..n], c), Act(b[n].x * c, b[n].y));
    }
  }

  /** The value of a difference at a root is a power sum of its errors. */
  lemma {:induction false} EvalIsSum(d: seq<Symbol>, c: nat)
    ensures Eval(d, c * PRIM) == Sum(ErrorsOf(d), c)
  {
    hide Add, Act, Eval;
    if d == [] {
      EvalNone(c * PRIM);
    } else {
      var rest, n, e := d[1..], |d| - 1, c * PRIM;
      EvalIsSum(rest, c);
      EvalConcat([d[0]], rest, e);
      assert [d[0]] + rest == d;
      EvalSymbol(d[0], e);
      OneError(d[0], n, c);
      SumConcat(if d[0] == 0 then [] else [Err(PRIM * n, d[0])], ErrorsOf(rest), c);
    }
  }

  lemma EvalNone(m: nat)
    ensures Eval([], m) == 0
  {}

  lemma EvalSymbol(x: Symbol, m: nat)
    ensures Eval([x], m) == x
  {
    hide Add, Act;
    assert [x][..0] == [];
    ActZero(m, 0);
    AddLaws(0, x, 0);
    AddLaws(x, 0, 0);
  }

  lemma OneError(y: Symbol, n: nat, c: nat)
    ensures Sum(if y == 0 then [] else [Err(PRIM * n, y)], c) == Act(n * (c * PRIM), y)
  {
    hide Add, Act;
    if y == 0 {
      ActZero(n * (c * PRIM), 0);
    } else {
      assert [Err(PRIM * n, y)][..0] == [];
      assert (PRIM * n) * c == n * (c * PRIM);
      var t := Act(n * (c * PRIM), y);
      AddLaws(0, t, 0);
      AddLaws(t, 0, 0);
    }
  }

  /** The syndromes of a block are those of its errors. */
  lemma BlockSyndromes(code: seq<Symbol>, block: seq<Symbol>)
    requires |code| == |block| && IsCodeword(code)
    ensures AreSyndromes(Syndromes(block), ErrorsOf(Diff(code, block)))
  {
    hide Add, Act, Eval, Sum, Diff, ErrorsOf;
    var d := Diff(code, block);
    forall k | 0 <= k < NROOTS ensures Syndromes(block)[k] == Sum(ErrorsOf(d), FCR + k) {
      forall i | 0 <= i < |code| ensures block[i] == Add(code[i], d[i]) {
        AddLaws(code[i], code[i], block[i]);
        AddLaws(block[i], 0, 0);
        AddLaws(0, block[i], 0);
      }
      EvalSum(code, d, block, Root(k));
      AddLaws(0, Eval(d, Root(k)), 0);
      AddLaws(Eval(d, Root(k)), 0, 0);
      EvalIsSum(d, FCR + k);
    }
  }
}
