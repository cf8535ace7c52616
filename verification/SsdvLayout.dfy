/** The values of the transcoder as bits: how long each is in the tables of the
    output, and where it begins. The first MCU of a packet begins at a byte. */
module SsdvLayout {
  import opened Arith
  import opened Huffman
  import opened StdTables
  import opened SsdvDc
  import opened SsdvMachine
  import Entropy

  // ----- Lengths -----

  /** How long the code of the k-th symbol is, or 0 if there is none. */
  function CodeWidth(t: Table, k: nat, w: nat): nat
    requires |t.counts| == 16 && 1 <= w <= 17
    decreases 17 - w
  {
    if w == 17 then 0 else if k < Offset(t, w + 1) then w else CodeWidth(t, k, w + 1)
  }

  lemma {:induction false} CodeWidthIs(t: Table, k: nat, w: nat, v: nat)
    requires |t.counts| == 16 && 1 <= w <= v <= 16 && Offset(t, v) <= k < Offset(t, v + 1)
    ensures CodeWidth(t, k, w) == v
    decreases v - w
  {
    if w < v {
      OffsetMonotone(t, w + 1, v);
      CodeWidthIs(t, k, w + 1, v);
    }
  }

  function WidthOf(v: int): nat {
    Entropy.Width(Entropy.Abs(v))
  }

  /** The table for a value, and its place there. */
  function TableOf(luma: bool, pos: nat): (t: Table)
    ensures |t.counts| == 16
  {
    if pos == 0 then if luma then LumaDc() else ChromaDc()
    else if luma then LumaAc() else ChromaAc()
  }

  function PlaceOf(luma: bool, pos: nat, e: Emit): nat {
    var symbol := e.rle * 16 + WidthOf(e.value);
    if pos == 0 then WidthOf(e.value) else if luma then LumaPlace(symbol) else ChromaPlace(symbol)
  }

  /** The code of a value after these, and all of it. */
  function CodeLen(yc: nat, s: Seen, e: Emit): nat {
    var luma := PartOf(s.done, yc) < yc;
    CodeWidth(TableOf(luma, s.pos), PlaceOf(luma, s.pos, e), 1)
  }

  function Len(yc: nat, s: Seen, e: Emit): nat {
    CodeLen(yc, s, e) + WidthOf(e.value)
  }

  /** A symbol is in its table once. */
  lemma PlaceIs(luma: bool, pos: nat, e: Emit, k: nat)
    requires k < |TableOf(luma, pos).symbols| && TableOf(luma, pos).symbols[k] == e.rle * 16 + WidthOf(e.value)
    requires pos == 0 ==> e.rle == 0
    ensures PlaceOf(luma, pos, e) == k
  {
    hide LumaPlace, ChromaPlace, LumaSymbol, ChromaSymbol, WidthOf;
    if pos > 0 {
      if luma { LumaOnce(k); } else { ChromaOnce(k); }
    }
  }

  /** That is how many bits ssdv_out_jpeg_int puts out. */
  lemma LenIsBits(yc: nat, s: Seen, e: Emit, c: Entropy.Coded)
    requires Entropy.Good(c) && c.rle == e.rle && c.value == e.value && (s.pos == 0 ==> e.rle == 0)
    requires c.t == TableOf(PartOf(s.done, yc) < yc, s.pos)
    ensures |Entropy.CodedBits(c)| == Len(yc, s, e) && CodeLen(yc, s, e) == c.width
  {
    hide TableOf, PlaceOf, Canonical, Offset, CodeWidth, PartOf, Entropy.Width;
    PlaceIs(PartOf(s.done, yc) < yc, s.pos, e, c.index);
    CodeWidthIs(c.t, c.index, 1, c.width);
  }

  /** The code of a luminance DC value is at most nine bits long, and nine only for
      a value of eleven bits. */
  lemma LumaDcWidths(k: nat)
    ensures CodeWidth(LumaDc(), k, 1) <= 9
    ensures CodeWidth(LumaDc(), k, 1) == 9 <==> k == 11
    ensures CodeWidth(LumaDc(), k, 1) > 0 <==> k <= 11
  {
    hide CodeWidth, Offset, Canonical, LumaDc;
    DcCanonical();
    if k > 11 {
      NoWidthAbove(LumaDc(), k, 1);
    } else {
      LumaDcOffsets(k);
      CodeWidthIs(LumaDc(), k, 1, LumaDcWidth(k));
    }
  }

  function LumaDcWidth(k: nat): nat {
    if k == 0 then 2 else if k <= 5 then 3 else k - 2
  }

  lemma LumaDcOffsets(k: nat)
    requires k <= 11
    ensures Offset(LumaDc(), LumaDcWidth(k)) <= k < Offset(LumaDc(), LumaDcWidth(k) + 1)
  {
    var t := LumaDc();
    assert Offset(t, 2) == 0 && Offset(t, 3) == 1 && Offset(t, 4) == 6 && Offset(t, 5) == 7;
    assert Offset(t, 6) == 8 && Offset(t, 7) == 9 && Offset(t, 8) == 10 && Offset(t, 9) == 11 && Offset(t, 10) == 12;
  }

  lemma {:induction false} NoWidthAbove(t: Table, k: nat, w: nat)
    requires |t.counts| == 16 && 1 <= w <= 17 && Offset(t, 17) <= k
    ensures CodeWidth(t, k, w) == 0
    decreases 17 - w
  {
    if w < 17 {
      OffsetMonotone(t, w + 1, 17);
      NoWidthAbove(t, k, w + 1);
    }
  }

  // ----- Places -----

  /** An MCU begins here that is one of these. */
  predicate StartsReset(yc: nat, resets: set<nat>, s: Seen) {
    s.pos == 0 && PartOf(s.done, yc) == 0 && McuOf(s.done, yc) in resets
  }

  /** How many bits these values are, from the first packet on: the first MCU of a
      packet is put at the next byte. */
  function Pos(yc: nat, resets: set<nat>, out: seq<Emit>): nat {
    if out == [] then 0
    else
      var n := |out| - 1;
      var end := Pos(yc, resets, out[..n]) + Len(yc, Scan(out[..n]), out[n]);
      if StartsReset(yc, resets, Scan(out)) then AlignUp(end, 8) else end
  }

  /** Where value n begins, and where its code ends. */
  function Start(yc: nat, resets: set<nat>, out: seq<Emit>, n: nat): nat
    requires n <= |out|
  {
    Pos(yc, resets, out[..n])
  }

  function CodeEnd(yc: nat, resets: set<nat>, out: seq<Emit>, n: nat): nat
    requires n < |out|
  {
    Start(yc, resets, out, n) + CodeLen(yc, Scan(out[..n]), out[n])
  }

  lemma StartStep(yc: nat, resets: set<nat>, out: seq<Emit>, n: nat)
    requires n < |out|
    ensures Start(yc, resets, out, n) <= CodeEnd(yc, resets, out, n) <= Start(yc, resets, out, n + 1)
  {
    hide Scan, CodeLen;
    assert out[..n + 1][..n] == out[..n] && out[..n + 1][n] == out[n];
  }

  lemma {:induction false} StartsGrow(yc: nat, resets: set<nat>, out: seq<Emit>, a: nat, b: nat)
    requires a <= b <= |out|
    ensures Start(yc, resets, out, a) <= Start(yc, resets, out, b)
    decreases b
  {
    hide Start, CodeEnd;
    if a < b {
      StartsGrow(yc, resets, out, a, b - 1);
      StartStep(yc, resets, out, b - 1);
    }
  }

  lemma ResetAligned(yc: nat, resets: set<nat>, out: seq<Emit>)
    requires StartsReset(yc, resets, Scan(out))
    ensures Pos(yc, resets, out) % 8 == 0
  {
    hide Scan, Len;
  }

  /** Every value has a code. */
  predicate Coded(yc: nat, out: seq<Emit>) {
    forall n :: 0 <= n < |out| ==> CodeLen(yc, Scan(out[..n]), out[n]) > 0
  }

  lemma CodeEndsGrow(yc: nat, resets: set<nat>, out: seq<Emit>, a: nat, b: nat)
    requires a < b < |out| && Coded(yc, out)
    ensures CodeEnd(yc, resets, out, a) < CodeEnd(yc, resets, out, b)
  {
    hide CodeLen, Scan;
    StartStep(yc, resets, out, a);
    StartsGrow(yc, resets, out, a + 1, b);
  }

  /** How many of the first k values have a code that ends by this bit. */
  function Codes(yc: nat, resets: set<nat>, out: seq<Emit>, k: nat, limit: nat): (r: nat)
    requires k <= |out|
    ensures r <= k
  {
    if k == 0 then 0 else if CodeEnd(yc, resets, out, k - 1) <= limit then k else Codes(yc, resets, out, k - 1, limit)
  }

  lemma {:induction false} CodesIs(yc: nat, resets: set<nat>, out: seq<Emit>, k: nat, limit: nat, n: nat)
    requires Coded(yc, out) && n < k <= |out|
    ensures n < Codes(yc, resets, out, k, limit) <==> CodeEnd(yc, resets, out, n) <= limit
    decreases k
  {
    hide CodeEnd, Coded;
    if n < k - 1 {
      CodeEndsGrow(yc, resets, out, n, k - 1);
      CodesIs(yc, resets, out, k - 1, limit, n);
    }
  }

  /** An MCU that is not begun before the end changes no place. */
  lemma {:induction false} StartLocal(yc: nat, resets: set<nat>, m: nat, out: seq<Emit>, n: nat)
    requires n <= |out| && forall k :: 0 <= k <= n ==> !StartsReset(yc, {m}, Scan(out[..k]))
    ensures Start(yc, resets + {m}, out, n) == Start(yc, resets, out, n)
  {
    hide Scan, Len;
    if n > 0 {
      StartLocal(yc, resets, m, out, n - 1);
      assert out[..n][..n - 1] == out[..n - 1];
    }
  }
}
