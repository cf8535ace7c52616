/** DC prediction in the SSDV transcoder: rounding, requantisation, one DC value
    at either end, and the encoder's values block by block, absolute in the first
    MCU of every packet. */
module SsdvDc {
  import opened Arith

  // ----- Rounding -----

  /** C's division, which truncates. */
  function TruncDiv(a: int, b: nat): int
    requires b > 0
  {
    if a >= 0 then a / b else -((-a) / b)
  }

  /** irdiv: division with rounding, halves away from zero. */
  function Irdiv(i: int, div: nat): int
    requires div > 0
  {
    var j := TruncDiv(i * 2, div);
    TruncDiv(if j % 2 == 1 then if j > 0 then j + 1 else j - 1 else j, 2)
  }

  /** The quotient is the nearest, and halfway between two the one away from zero. */
  lemma IrdivIsNearest(i: int, div: nat)
    requires div > 0
    ensures 2 * (i - div * Irdiv(i, div)) <= div && 2 * (div * Irdiv(i, div) - i) <= div
    ensures i >= 0 ==> 2 * (i - div * Irdiv(i, div)) < div
    ensures i <= 0 ==> 2 * (div * Irdiv(i, div) - i) < div
  {
    if i >= 0 {
      NearestNonnegative(i, div);
    } else {
      NearestNonnegative(-i, div);
      IrdivOdd(-i, div);
      assert div * Irdiv(i, div) == -(div * Irdiv(-i, div));
    }
  }

  lemma IrdivOdd(i: int, div: nat)
    requires div > 0
    ensures Irdiv(-i, div) == -Irdiv(i, div)
  {
    assert TruncDiv(-i * 2, div) == -TruncDiv(i * 2, div);
  }

  lemma NearestNonnegative(i: nat, div: nat)
    requires div > 0
    ensures 2 * (i - div * Irdiv(i, div)) < div && 2 * (div * Irdiv(i, div) - i) <= div
    ensures i == 0 ==> Irdiv(i, div) == 0
  {
    var j := i * 2 / div;
    assert i * 2 == div * j + i * 2 % div;
    var r := Irdiv(i, div);
    if j % 2 == 1 {
      assert r == (j + 1) / 2 && 2 * r == j + 1;
      assert div * (2 * r) == div * j + div;
    } else {
      assert 2 * r == j;
    }
    assert div * (2 * r) == 2 * (div * r);
  }

  // ----- Quantisation -----

  /** One entry of the source table and of the output table. */
  datatype Quant = Quant(s: nat, d: nat)

  predicate Positive(q: Quant) {
    q.s > 0 && q.d > 0
  }

  /** AADJ, UADJ and BADJ. */
  function Aadj(q: Quant, i: int): int
    requires Positive(q)
  {
    if q.s == q.d then i else Irdiv(i, q.d)
  }

  function Uadj(q: Quant, i: int): int {
    if q.s == q.d then i else i * q.s
  }

  function Badj(q: Quant, i: int): int
    requires Positive(q)
  {
    if q.s == q.d then i else Irdiv(i * q.s, q.d)
  }

  /** v output steps are nearest to i source steps, and of two as near the further from
      zero. */
  predicate IsNearest(q: Quant, i: int, v: int) {
    if q.s == q.d then v == i
    else
      && 2 * (q.s * i - q.d * v) <= q.d && 2 * (q.d * v - q.s * i) <= q.d
      && (i >= 0 ==> 2 * (q.s * i - q.d * v) < q.d) && (i <= 0 ==> 2 * (q.d * v - q.s * i) < q.d)
  }

  /** A coefficient of i source steps becomes the nearest number of output steps. */
  lemma BadjNearest(q: Quant, i: int)
    requires Positive(q)
    ensures IsNearest(q, i, Badj(q, i))
  {
    if q.s != q.d {
      IrdivIsNearest(i * q.s, q.d);
      assert i * q.s == q.s * i;
    }
  }

  // ----- One DC value -----

  /** The encoder's DC value of a component, and that value in output steps. */
  datatype Enc = Enc(dc: int, adc: int)

  /** The encoder on a DC difference i: what it emits, and its new state. A zero
      difference has a symbol of its own and is treated apart. */
  function EncodeDc(q: Quant, e: Enc, reset: bool, i: int): (int, Enc)
    requires Positive(q)
  {
    if i == 0 then (if reset then e.adc else 0, e)
    else
      var dc := e.dc + Uadj(q, i);
      var adc := Aadj(q, dc);
      (if reset then adc else adc - e.adc, Enc(dc, adc))
  }

  /** The decoder on a DC value v. */
  function DecodeDc(q: Quant, dc: int, reset: bool, v: int): (int, int) {
    if v == 0 then if reset then (0 - dc, 0) else (0, dc)
    else if reset then (v - dc, v)
    else (v, dc + Uadj(q, v))
  }

  /** The encoder sums up the differences in source steps and keeps its output value
      the requantised sum, never off by more than half a step; what it emits is that
      value or its change. */
  lemma EncodeKeeps(q: Quant, e: Enc, reset: bool, i: int)
    requires Positive(q) && e.adc == Aadj(q, e.dc)
    ensures var (v, n) := EncodeDc(q, e, reset, i);
      && n.adc == Aadj(q, n.dc) && n.dc == e.dc + (if q.s == q.d then i else q.s * i)
      && v == if reset then n.adc else n.adc - e.adc
    ensures var n := EncodeDc(q, e, reset, i).1;
      if q.s == q.d then n.adc == n.dc
      else 2 * (n.dc - q.d * n.adc) <= q.d && 2 * (q.d * n.adc - n.dc) <= q.d
  {
    var n := EncodeDc(q, e, reset, i).1;
    if q.s != q.d { IrdivIsNearest(n.dc, q.d); }
  }

  /** The decoder, whose two tables are the same, emits the change of its value. */
  lemma DecodeSums(q: Quant, dc: int, reset: bool, v: int)
    requires q.s == q.d
    ensures var (out, n) := DecodeDc(q, dc, reset, v); out == n - dc
  {}

  /** A value sent absolutely brings the decoder to the encoder's value, wherever
      it was before; a difference keeps it there. */
  lemma Lockstep(q: Quant, p: Quant, e: Enc, dc: int, reset: bool, i: int)
    requires Positive(q) && p.s == p.d && e.adc == Aadj(q, e.dc) && (reset || dc == e.adc)
    ensures var (v, n) := EncodeDc(q, e, reset, i); DecodeDc(p, dc, reset, v).1 == n.adc
  {
    EncodeKeeps(q, e, reset, i);
  }

  // ----- Blocks in their order -----

  /** Which component part `part` of an MCU belongs to. */
  function Component(part: nat, yc: nat): nat {
    if part < yc then 0 else part - yc + 1
  }

  /** Where the value of part `part` is absolute, in an MCU that resets. */
  predicate Absolute(part: nat, yc: nat) {
    part == 0 || part >= yc
  }

  /** Luminance has one quantiser, the two chrominances another. */
  function QuantOf(qs: (Quant, Quant), c: nat): Quant {
    if c == 0 then qs.0 else qs.1
  }

  predicate ThreeGood(qs: (Quant, Quant), enc: seq<Enc>) {
    Positive(qs.0) && Positive(qs.1) && |enc| == 3 && forall c :: 0 <= c < 3 ==>
      enc[c].adc == Aadj(QuantOf(qs, c), enc[c].dc)
  }

  /** Block k of an image: its MCU, and its part of it. */
  function McuOf(k: nat, yc: nat): nat {
    k / (yc + 2)
  }

  function PartOf(k: nat, yc: nat): nat {
    k % (yc + 2)
  }

  predicate ResetAt(resets: set<nat>, k: nat, yc: nat) {
    McuOf(k, yc) in resets && Absolute(PartOf(k, yc), yc)
  }

  lemma PartComponent(k: nat, yc: nat)
    ensures Component(PartOf(k, yc), yc) < 3
  {}

  lemma BlockIs(mcu: nat, part: nat, yc: nat)
    requires part < yc + 2
    ensures McuOf(mcu * (yc + 2) + part, yc) == mcu && PartOf(mcu * (yc + 2) + part, yc) == part
  {
    QuotientIs(mcu * (yc + 2) + part, yc + 2, mcu, part);
  }

  const START := [Enc(0, 0), Enc(0, 0), Enc(0, 0)]

  /** The encoder's state after the first k blocks, with these differences and
      these MCUs that reset. */
  function EncAfter(qs: (Quant, Quant), yc: nat, resets: set<nat>, diffs: seq<int>, k: nat): (r: seq<Enc>)
    requires Positive(qs.0) && Positive(qs.1) && k <= |diffs|
    ensures |r| == 3
  {
    if k == 0 then START
    else
      var e := EncAfter(qs, yc, resets, diffs, k - 1);
      PartComponent(k - 1, yc);
      var c := Component(PartOf(k - 1, yc), yc);
      e[c := EncodeDc(QuantOf(qs, c), e[c], ResetAt(resets, k - 1, yc), diffs[k - 1]).1]
  }

  /** The value it emits for block k. */
  function ValueAt(qs: (Quant, Quant), yc: nat, resets: set<nat>, diffs: seq<int>, k: nat): int
    requires Positive(qs.0) && Positive(qs.1) && k < |diffs|
  {
    PartComponent(k, yc);
    var c := Component(PartOf(k, yc), yc);
    EncodeDc(QuantOf(qs, c), EncAfter(qs, yc, resets, diffs, k)[c], ResetAt(resets, k, yc), diffs[k]).0
  }

  lemma {:induction false} EncGood(qs: (Quant, Quant), yc: nat, resets: set<nat>, diffs: seq<int>, k: nat)
    requires Positive(qs.0) && Positive(qs.1) && k <= |diffs|
    ensures ThreeGood(qs, EncAfter(qs, yc, resets, diffs, k))
  {
    hide Aadj, EncodeDc;
    if k == 0 {
      StartGood(qs);
    } else {
      EncGood(qs, yc, resets, diffs, k - 1);
      var e := EncAfter(qs, yc, resets, diffs, k - 1);
      PartComponent(k - 1, yc);
      var c := Component(PartOf(k - 1, yc), yc);
      EncodeKeeps(QuantOf(qs, c), e[c], ResetAt(resets, k - 1, yc), diffs[k - 1]);
    }
  }

  // ----- What it is of the image -----

  /** The blocks of a component: all luminance parts of an MCU, or one of the two others. */
  predicate OfComponent(c: nat, part: nat, yc: nat) {
    if c == 0 then part < yc else part == yc + c - 1
  }

  /** The sum of the differences of a component in the first k blocks. */
  function SumOf(yc: nat, diffs: seq<int>, c: nat, k: nat): int
    requires k <= |diffs|
  {
    if k == 0 then 0
    else SumOf(yc, diffs, c, k - 1) + if OfComponent(c, (k - 1) % (yc + 2), yc) then diffs[k - 1] else 0
  }

  /** Of a sum of so many source steps, this is the DC value, and its nearest number of
      output steps. */
  predicate IsOfSum(q: Quant, e: Enc, sum: int) {
    if q.s == q.d then e.dc == e.adc == sum
    else e.dc == q.s * sum && 2 * (q.s * sum - q.d * e.adc) <= q.d && 2 * (q.d * e.adc - q.s * sum) <= q.d
  }

  /** The encoder's DC values are those of the image, and its output values the nearest
      to them. */
  lemma {:induction false} EncIsOfImage(qs: (Quant, Quant), yc: nat, resets: set<nat>, diffs: seq<int>, k: nat, c: nat)
    requires Positive(qs.0) && Positive(qs.1) && k <= |diffs| && c < 3
    ensures IsOfSum(if c == 0 then qs.0 else qs.1, EncAfter(qs, yc, resets, diffs, k)[c], SumOf(yc, diffs, c, k))
  {
    hide Aadj, EncodeDc;
    if k == 0 {
      SumOfNone(if c == 0 then qs.0 else qs.1);
    } else {
      EncIsOfImage(qs, yc, resets, diffs, k - 1, c);
      EncGood(qs, yc, resets, diffs, k - 1);
      var e := EncAfter(qs, yc, resets, diffs, k - 1);
      PartComponent(k - 1, yc);
      var b := Component(PartOf(k - 1, yc), yc);
      assert b == c <==> OfComponent(c, (k - 1) % (yc + 2), yc);
      if b == c {
        EncodeKeeps(QuantOf(qs, c), e[c], ResetAt(resets, k - 1, yc), diffs[k - 1]);
        SumMore(QuantOf(qs, c).s, SumOf(yc, diffs, c, k - 1), diffs[k - 1]);
      }
    }
  }

  lemma SumOfNone(q: Quant)
    requires Positive(q)
    ensures IsOfSum(q, Enc(0, 0), 0)
  {}

  lemma SumMore(s: nat, sum: int, i: int)
    ensures s * (sum + i) == s * sum + s * i
  {}

  /** What it emits for a block is the new output value of the component, or its change. */
  lemma ValueIs(qs: (Quant, Quant), yc: nat, resets: set<nat>, diffs: seq<int>, k: nat, c: nat)
    requires Positive(qs.0) && Positive(qs.1) && k < |diffs| && c < 3 && OfComponent(c, k % (yc + 2), yc)
    ensures var before, after := EncAfter(qs, yc, resets, diffs, k)[c], EncAfter(qs, yc, resets, diffs, k + 1)[c];
      ValueAt(qs, yc, resets, diffs, k) ==
        if k / (yc + 2) in resets && (k % (yc + 2) == 0 || k % (yc + 2) >= yc) then after.adc
          else after.adc - before.adc
  {
    hide Aadj, EncodeDc;
    EncGood(qs, yc, resets, diffs, k);
    PartComponent(k, yc);
    EncodeKeeps(QuantOf(qs, c), EncAfter(qs, yc, resets, diffs, k)[c], ResetAt(resets, k, yc), diffs[k]);
  }

  lemma StartGood(qs: (Quant, Quant))
    requires Positive(qs.0) && Positive(qs.1)
    ensures ThreeGood(qs, START)
  {}

  /** What comes later, and MCUs that reset later, change nothing before. */
  lemma {:induction false} EncLocal(qs: (Quant, Quant), yc: nat, resets: set<nat>, later: set<nat>,
                                    diffs: seq<int>, more: seq<int>, k: nat)
    requires Positive(qs.0) && Positive(qs.1) && k <= |diffs|
    requires forall m :: m in later ==> k <= m * (yc + 2)
    ensures EncAfter(qs, yc, resets + later, diffs + more, k) == EncAfter(qs, yc, resets, diffs, k)
    ensures k < |diffs| && (forall m :: m in later ==> k < m * (yc + 2)) ==>
              ValueAt(qs, yc, resets + later, diffs + more, k) == ValueAt(qs, yc, resets, diffs, k)
  {
    hide EncodeDc;
    if k > 0 {
      EncLocal(qs, yc, resets, later, diffs, more, k - 1);
      SameReset(resets, later, k - 1, yc);
    }
    if k < |diffs| && forall m :: m in later ==> k < m * (yc + 2) { SameReset(resets, later, k, yc); }
  }

  lemma SameReset(resets: set<nat>, later: set<nat>, k: nat, yc: nat)
    requires forall m :: m in later ==> k < m * (yc + 2)
    ensures ResetAt(resets + later, k, yc) == ResetAt(resets, k, yc)
  {
    assert McuOf(k, yc) * (yc + 2) <= k;
  }

  /** The first block of a component c in an MCU. */
  function FirstOf(c: nat, yc: nat): nat
    requires c < 3
  {
    if c == 0 then 0 else yc + c - 1
  }

  lemma FirstOfIs(c: nat, yc: nat, part: nat)
    requires c < 3 && yc > 0 && part < yc + 2 && c == Component(part, yc) && part <= FirstOf(c, yc)
    ensures part == FirstOf(c, yc) && Absolute(part, yc)
  {}
}
