/** Canonical Huffman codes, looked up both ways by counting through the lengths,
    and the integers that follow them. A code is recognised as soon as its last
    bit is there, and never as another. */
module Huffman {
  import opened Arith

  /** A table as in a DHT segment: how many codes there are of each length from 1
      to 16, and the symbols in the order of their codes. */
  datatype Table = Table(counts: seq<nat>, symbols: seq<nat>)

  /** How many codes are shorter than w bits. */
  function Offset(t: Table, w: nat): nat
    requires |t.counts| == 16 && 1 <= w <= 17
  {
    if w == 1 then 0 else Offset(t, w - 1) + t.counts[w - 2]
  }

  /** The first code of w bits. */
  function First(t: Table, w: nat): nat
    requires |t.counts| == 16 && 1 <= w <= 17
  {
    if w == 1 then 0 else 2 * (First(t, w - 1) + t.counts[w - 2])
  }

  /** A table that is a code: the codes of each length fit it, there is a symbol
      for each, and no symbol twice. */
  predicate Canonical(t: Table) {
    && |t.counts| == 16
    && (forall w :: 1 <= w <= 16 ==> First(t, w) + t.counts[w - 1] <= Pow2(w))
    && Offset(t, 17) <= |t.symbols|
    && (forall j, k :: 0 <= j < k < Offset(t, 17) ==> t.symbols[j] != t.symbols[k])
  }

  /** The k-th symbol has the code `code` of w bits. */
  predicate IsCode(t: Table, k: nat, w: nat, code: nat)
    requires |t.counts| == 16
  {
    1 <= w <= 16 && Offset(t, w) <= k < Offset(t, w + 1) && code == First(t, w) + (k - Offset(t, w))
  }

  lemma {:induction false} OffsetMonotone(t: Table, v: nat, w: nat)
    requires |t.counts| == 16 && 1 <= v <= w <= 17
    ensures Offset(t, v) <= Offset(t, w)
    decreases w
  {
    if v < w { OffsetMonotone(t, v, w - 1); }
  }

  /** Longer codes begin after all the shorter ones. */
  lemma {:induction false} FirstGrows(t: Table, v: nat, w: nat)
    requires |t.counts| == 16 && 1 <= v < w <= 17
    ensures First(t, w) >= Pow2(w - v) * (First(t, v) + t.counts[v - 1])
    decreases w
  {
    if v + 1 < w {
      FirstGrows(t, v, w - 1);
      assert Pow2(w - v) == 2 * Pow2(w - 1 - v);
      Doubled(Pow2(w - 1 - v), First(t, v) + t.counts[v - 1]);
    } else {
      assert Pow2(1) == 2;
    }
  }

  lemma Doubled(p: nat, x: nat)
    ensures (2 * p) * x == 2 * (p * x)
  {}

  lemma CodeFits(t: Table, k: nat, w: nat, code: nat)
    requires Canonical(t) && IsCode(t, k, w, code)
    ensures code < Pow2(w) && k < Offset(t, 17) && code < First(t, w) + t.counts[w - 1]
  {
    OffsetMonotone(t, w + 1, 17);
  }

  /** No code begins with another. */
  lemma PrefixFree(t: Table, j: nat, v: nat, c: nat, k: nat, w: nat, d: nat)
    requires Canonical(t) && IsCode(t, j, v, c) && IsCode(t, k, w, d) && v <= w && d / Pow2(w - v) == c
    ensures j == k && v == w
  {
    if v < w {
      FirstGrows(t, v, w);
      CodeFits(t, j, v, c);
      DivAtLeast(d, Pow2(w - v), First(t, v) + t.counts[v - 1]);
    }
  }

  lemma DivAtLeast(d: nat, p: nat, x: nat)
    requires p > 0 && d >= p * x
    ensures d / p >= x
  {
    var q := d / p;
    assert d == p * q + d % p;
    if q < x { MulMono(p, q + 1, x); }
  }

  // ----- Bits in a buffer -----

  /** The first w of the n bits of x. */
  function Top(x: nat, n: nat, w: nat): nat
    requires w <= n
  {
    Over(x, Pow2(n - w))
  }

  function Over(x: nat, p: nat): nat
    requires p > 0
  {
    x / p
  }

  lemma {:induction false} DivDiv(x: nat, p: nat, q: nat)
    requires p > 0 && q > 0
    ensures x / (p * q) == (x / p) / q
  {
    var a := x / p;
    var b := a / q;
    assert x == p * a + x % p && a == q * b + a % q;
    assert x == (p * q) * b + (p * (a % q) + x % p);
    MulMono(p, a % q + 1, q);
    assert p * (a % q + 1) == p * (a % q) + p;
    QuotientIs(x, p * q, b, p * (a % q) + x % p);
  }

  /** The first bits of the first bits are the first bits. */
  lemma TopTop(x: nat, n: nat, w: nat, v: nat)
    requires v <= w <= n
    ensures Top(Top(x, n, w), w, v) == Top(x, n, v)
  {
    Pow2Add(n - w, w - v);
    DivDiv(x, Pow2(n - w), Pow2(w - v));
  }

  // ----- Lookup -----

  /** The bits in the buffer begin with the code of the k-th symbol. */
  predicate Begins(t: Table, x: nat, n: nat, k: nat, w: nat)
    requires |t.counts| == 16
  {
    w <= n && IsCode(t, k, w, Top(x, n, w))
  }

  /** At most one code begins the bits. */
  lemma BeginsOnce(t: Table, x: nat, n: nat, j: nat, v: nat, k: nat, w: nat)
    requires Canonical(t) && Begins(t, x, n, j, v) && Begins(t, x, n, k, w)
    ensures j == k && v == w
  {
    if v <= w {
      TopTop(x, n, w, v);
      PrefixFree(t, j, v, Top(x, n, v), k, w, Top(x, n, w));
    } else {
      TopTop(x, n, v, w);
      PrefixFree(t, k, w, Top(x, n, w), j, v, Top(x, n, v));
    }
  }

  lemma TableFits(t: Table)
    requires Canonical(t)
    ensures |t.counts| == 16 && Offset(t, 17) <= |t.symbols|
  {}

  datatype Lookup = Found(symbol: nat, width: nat) | FeedMe | Error

  /** jpeg_dht_lookup: the symbol whose code begins the bits, as soon as all of it
      is there; more bits where no code is complete yet; and an error only where
      sixteen bits are none. */
  method JpegDhtLookup(t: Table, workbits: nat, worklen: nat) returns (r: Lookup, ghost index: nat)
    requires Canonical(t)
    ensures r.Found? ==> index < |t.symbols| && t.symbols[index] == r.symbol
    ensures r.Found? ==> Begins(t, workbits, worklen, index, r.width)
    ensures r.FeedMe? ==> worklen < 16
    ensures r.Error? ==> worklen >= 16
    ensures !r.Found? ==> forall k: nat, w: nat :: !Begins(t, workbits, worklen, k, w)
  {
    hide Pow2, Over, Canonical;
    TableFits(t);
    var code, ss := 0, 0;
    index := 0;
    var cw := 1;
    while cw <= 16
      invariant 1 <= cw <= 17 && code == First(t, cw) && ss == Offset(t, cw)
      invariant cw <= worklen + 1
      invariant forall k: nat, w: nat :: w < cw ==> !Begins(t, workbits, worklen, k, w)
    {
      if cw > worklen {
        return FeedMe, 0;
      }
      OffsetMonotone(t, cw + 1, 17);
      var n := t.counts[cw - 1];
      while n > 0
        invariant 0 <= n <= t.counts[cw - 1]
        invariant ss + n == Offset(t, cw + 1) && code == First(t, cw) + (ss - Offset(t, cw))
        invariant ss >= Offset(t, cw)
        invariant forall k: nat :: k < ss ==> !Begins(t, workbits, worklen, k, cw)
      {
        if Over(workbits, Pow2(worklen - cw)) == code {
          index := ss;
          return Found(t.symbols[ss], cw), ss;
        }
        ss := ss + 1;
        code := code + 1;
        n := n - 1;
      }
      code := code * 2;
      cw := cw + 1;
    }
    return Error, 0;
  }

  /** jpeg_dht_lookup_symbol: the code of a symbol, if it has one. */
  method JpegDhtLookupSymbol(t: Table, symbol: nat) returns (found: bool, bits: nat, width: nat, ghost index: nat)
    requires Canonical(t)
    ensures found ==> IsCode(t, index, width, bits) && index < Offset(t, 17) && t.symbols[index] == symbol
    ensures !found ==> forall k :: 0 <= k < Offset(t, 17) ==> t.symbols[k] != symbol
  {
    hide Pow2, Canonical;
    TableFits(t);
    var code, ss := 0, 0;
    index, found, bits, width := 0, false, 0, 0;
    var cw := 1;
    while cw <= 16
      invariant 1 <= cw <= 17 && code == First(t, cw) && ss == Offset(t, cw) <= |t.symbols|
      invariant forall k :: 0 <= k < ss ==> t.symbols[k] != symbol
    {
      OffsetMonotone(t, cw + 1, 17);
      var n := t.counts[cw - 1];
      while n > 0
        invariant 0 <= n <= t.counts[cw - 1]
        invariant ss + n == Offset(t, cw + 1) && code == First(t, cw) + (ss - Offset(t, cw)) && ss >= Offset(t, cw)
        invariant ss <= |t.symbols|
        invariant forall k :: 0 <= k < ss ==> t.symbols[k] != symbol
      {
        if t.symbols[ss] == symbol {
          return true, code, cw, ss;
        }
        ss := ss + 1;
        code := code + 1;
        n := n - 1;
      }
      code := code * 2;
      cw := cw + 1;
    }
  }
}
