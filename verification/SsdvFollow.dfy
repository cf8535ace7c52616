/** A decoder that joins an encoder's output at the first MCU of some packet: it
    resets where the encoder did, and has the encoder's DC values from then on. */
module SsdvFollow {
  import opened Arith
  import opened SsdvDc
  import opened SsdvMachine
  import opened SsdvRun

  // ----- The values as tokens -----

  /** What the entropy decoder makes of one value, at this place. */
  function TokenOf(pos: nat, e: Emit): Token {
    if pos == 0 then Dc(e.value)
    else if e.value != 0 then Ac(e.rle, e.value)
    else if e.rle == 0 then Eob
    else Zrl
  }

  /** The decoder is where a reader of the values is. */
  ghost predicate At(dec: Ssdv, s: Seen)
    reads dec
  {
    s.done == dec.mcuId * (dec.yc + 2) + dec.mcupart && s.pos == dec.acpart
  }

  /** A value that fits its place is a token that does, and moves on as far. */
  lemma TokenMoves(p: Place, yc: nat, s: Seen, e: Emit)
    requires p.part < yc + 2 && p.ac < 64 && s.done == p.mcu * (yc + 2) + p.part && s.pos == p.ac && Fitting(s.pos, e)
    ensures var q, t := NextPlace(p, TokenOf(p.ac, e), yc, false), See(s, e);
      t.done == q.mcu * (yc + 2) + q.part && t.pos == q.ac
    ensures e.value == 0 && p.ac > 0 ==> TokenOf(p.ac, e).Eob? || (TokenOf(p.ac, e).Zrl? && p.ac + 16 < 64)
  {
    assert (p.mcu + 1) * (yc + 2) == p.mcu * (yc + 2) + (yc + 2);
  }

  // ----- Prefixes of the output -----

  /** One place before another, in the order of the blocks. */
  predicate Before(s: Seen, t: Seen) {
    s.done < t.done || (s.done == t.done && s.pos < t.pos)
  }

  lemma {:induction false} PlacesGrow(out: seq<Emit>, a: nat, b: nat)
    requires a < b <= |out|
    ensures Before(Scan(out[..a]), Scan(out[..b]))
    decreases b
  {
    assert out[..b] == out[..b - 1] + [out[b - 1]];
    ScanMore(out[..b - 1], out[b - 1]);
    if a < b - 1 { PlacesGrow(out, a, b - 1); }
  }

  lemma {:induction false} ScanPrefix(out: seq<Emit>, n: nat)
    requires n <= |out|
    ensures Scan(out[..n]).dcs <= Scan(out).dcs && (Scan(out).ok ==> Scan(out[..n]).ok)
    decreases |out|
  {
    if n == |out| {
      assert out[..n] == out;
    } else {
      var init := out[..|out| - 1];
      assert out == init + [out[|out| - 1]];
      ScanMore(init, out[|out| - 1]);
      ScanPrefix(init, n);
      assert init[..n] == out[..n];
    }
  }

  lemma {:induction false} DcCount(out: seq<Emit>)
    ensures |Scan(out).dcs| == Started(Scan(out))
  {
    if out != [] { DcCount(out[..|out| - 1]); }
  }

  /** The next value of a run: it fits its place, and a DC value is the encoder's. */
  lemma NextOfRun(qs: (Quant, Quant), yc: nat, resets: set<nat>, out: seq<Emit>, diffs: seq<int>, n: nat)
    requires IsRun(qs, yc, resets, out, diffs) && n < |out|
    ensures var s := Scan(out[..n]);
      && Scan(out[..n + 1]) == See(s, out[n]) && Fitting(s.pos, out[n]) && Started(s) <= |diffs|
      && (s.pos == 0 ==> s.done < |diffs| && out[n].value == ValueAt(qs, yc, resets, diffs, s.done))
  {
    hide ValueAt;
    assert out[..n + 1] == out[..n] + [out[n]];
    ScanMore(out[..n], out[n]);
    ScanPrefix(out, n);
    ScanPrefix(out, n + 1);
    DcCount(out[..n]);
    DcCount(out[..n + 1]);
    DcCount(out);
    var s, t := Scan(out[..n]), Scan(out[..n + 1]);
    if s.pos == 0 {
      assert t.dcs[s.done] == out[n].value;
      assert t.dcs[s.done] == Scan(out).dcs[s.done];
    }
  }

  // ----- Packets -----

  /** The header of a packet is read before value `at`, and names its first MCU. */
  datatype Head = Head(at: nat, mcu: nat)

  /** The place where an MCU starts. */
  predicate NotAfter(s: Seen, mcu: nat, yc: nat) {
    s.done < mcu * (yc + 2) || (s.done == mcu * (yc + 2) && s.pos == 0)
  }

  /** From one packet on none is lost: their headers name the MCUs that reset, in
      order, each read once the one before has begun and before its own begins. */
  ghost predicate Timely(yc: nat, resets: set<nat>, out: seq<Emit>, heads: seq<Head>) {
    && |heads| > 0
    && (forall j :: 0 <= j < |heads| ==>
      && heads[j].at <= |out| && heads[j].mcu in resets && heads[j].mcu != NO_MCU
      && NotAfter(Scan(out[..heads[j].at]), heads[j].mcu, yc))
    && (forall i, j :: 0 <= i < j < |heads| ==>
      heads[i].mcu < heads[j].mcu && !NotAfter(Scan(out[..heads[j].at]), heads[i].mcu, yc))
    && Scan(out[..heads[0].at]).done == heads[0].mcu * (yc + 2) && Scan(out[..heads[0].at]).pos == 0
    && (forall m :: m in resets && m >= heads[0].mcu ==> Named(heads, m))
  }

  ghost predicate Named(heads: seq<Head>, m: nat) {
    exists j :: 0 <= j < |heads| && heads[j].mcu == m
  }

  /** The next header is read later than those before. */
  lemma HeadsInOrder(yc: nat, resets: set<nat>, out: seq<Emit>, heads: seq<Head>, i: nat, j: nat)
    requires Timely(yc, resets, out, heads) && i < j < |heads|
    ensures heads[i].at < heads[j].at
  {
    hide Scan;
    var a, b := heads[i].at, heads[j].at;
    if b < a { PlacesGrow(out, b, a); }
  }

  /** At the start of an MCU that resets its header was the last one read. */
  lemma LastRead(yc: nat, resets: set<nat>, out: seq<Emit>, heads: seq<Head>, n: nat, mcu: nat, j: nat)
    requires Timely(yc, resets, out, heads) && n <= |out| && 0 < j <= |heads| && mcu in resets && mcu >= heads[0].mcu
    requires Scan(out[..n]).done == mcu * (yc + 2) && Scan(out[..n]).pos == 0
    requires heads[j - 1].at <= n && (j < |heads| ==> heads[j].at > n)
    ensures heads[j - 1].mcu == mcu
  {
    hide Scan;
    assert Named(heads, mcu);
    var i :| 0 <= i < |heads| && heads[i].mcu == mcu;
    if i >= j {
      if i > j { HeadsInOrder(yc, resets, out, heads, j, i); }
      PlacesGrow(out, n, heads[i].at);
    } else if i < j - 1 && heads[j - 1].at < n {
      PlacesGrow(out, heads[j - 1].at, n);
    }
  }

  // ----- The decoder -----

  /** The decoder has heard of the first j packets, and is in an MCU of theirs. */
  ghost predicate Hears(dec: Ssdv, resets: set<nat>, heads: seq<Head>, j: nat)
    reads dec
    requires 0 < j <= |heads|
  {
    && dec.mcuId >= heads[0].mcu && dec.nextResetMcu == heads[j - 1].mcu && dec.nextResetMcu in resets
    && dec.resetMcu <= dec.nextResetMcu && (dec.resetMcu in resets || dec.resetMcu < heads[0].mcu)
    && ((dec.mcupart > 0 || dec.acpart > 0) && dec.mcuId in resets ==> dec.resetMcu == dec.mcuId)
  }

  /** The decoder's value of every component seen since block `from` is the
      encoder's, after k blocks. */
  ghost predicate Follows(dec: Ssdv, qs: (Quant, Quant), resets: set<nat>, diffs: seq<int>, from: nat, k: nat)
    reads dec
    requires Positive(qs.0) && Positive(qs.1) && k <= |diffs|
  {
    |dec.dc| == 3 && forall c :: 0 <= c < 3 && from + FirstOf(c, dec.yc) < k ==>
      dec.dc[c] == EncAfter(qs, dec.yc, resets, diffs, k)[c].adc
  }

  /** One DC value at both ends: of component b, which was seen before or is sent
      absolutely. */
  lemma OneBlock(qs: (Quant, Quant), yc: nat, resets: set<nat>, diffs: seq<int>, from: nat, k: nat, b: nat,
                 p: Quant, dc: seq<int>, after: seq<int>)
    requires Positive(qs.0) && Positive(qs.1) && p.s == p.d && |dc| == 3 && k < |diffs|
    requires b == Component(PartOf(k, yc), yc) < 3 && (from + FirstOf(b, yc) < k || ResetAt(resets, k, yc))
    requires forall c :: 0 <= c < 3 && c != b && from + FirstOf(c, yc) < k + 1 ==> from + FirstOf(c, yc) < k
    requires forall c :: 0 <= c < 3 && from + FirstOf(c, yc) < k ==> dc[c] == EncAfter(qs, yc, resets, diffs, k)[c].adc
    requires after == dc[b := DecodeDc(p, dc[b], ResetAt(resets, k, yc), ValueAt(qs, yc, resets, diffs, k)).1]
    ensures forall c :: 0 <= c < 3 && from + FirstOf(c, yc) < k + 1 ==>
      after[c] == EncAfter(qs, yc, resets, diffs, k + 1)[c].adc
  {
    hide EncodeDc, DecodeDc, Aadj, FirstOf, Component, PartOf, ResetAt;
    EncGood(qs, yc, resets, diffs, k);
    var e := EncAfter(qs, yc, resets, diffs, k);
    Lockstep(QuantOf(qs, b), p, e[b], dc[b], ResetAt(resets, k, yc), diffs[k]);
  }

  /** A component is seen from its first block on, and that is absolute in the
      first MCU. */
  lemma FirstBlocks(yc: nat, first: nat, mcu: nat, part: nat)
    requires yc > 0 && first <= mcu && part < yc + 2 && Component(part, yc) < 3
    ensures var k, b := mcu * (yc + 2) + part, Component(part, yc);
      && (first * (yc + 2) + FirstOf(b, yc) < k || (mcu == first && Absolute(part, yc)))
      && forall c :: 0 <= c < 3 && c != b && first * (yc + 2) + FirstOf(c, yc) < k + 1 ==>
        first * (yc + 2) + FirstOf(c, yc) < k
  {
    if mcu == first {
      if part <= FirstOf(Component(part, yc), yc) { FirstOfIs(Component(part, yc), yc, part); }
    } else {
      MulMono(yc + 2, first + 1, mcu);
      assert (yc + 2) * (first + 1) == first * (yc + 2) + (yc + 2) && (yc + 2) * mcu == mcu * (yc + 2);
    }
  }

  /** The decoder resets where the encoder did. */
  lemma SameResets(dec: Ssdv, resets: set<nat>, out: seq<Emit>, heads: seq<Head>, n: nat, j: nat, k: nat)
    requires 0 < j <= |heads| && n <= |out| && Timely(dec.yc, resets, out, heads) && Hears(dec, resets, heads, j)
    requires At(dec, Scan(out[..n])) && dec.acpart == 0 && dec.mcupart < dec.yc + 2
    requires heads[j - 1].at <= n && (j < |heads| ==> heads[j].at > n) && k == dec.mcuId * (dec.yc + 2) + dec.mcupart
    ensures var r := Latched(dec.mcupart, dec.resetMcu, dec.nextResetMcu);
      && (r == dec.mcuId <==> dec.mcuId in resets) && r <= dec.nextResetMcu && (r in resets || r < heads[0].mcu)
      && (ResetAt(resets, k, dec.yc) <==> r == dec.mcuId && Absolute(dec.mcupart, dec.yc))
    ensures PartOf(k, dec.yc) == dec.mcupart
  {
    hide Scan, Timely;
    BlockIs(dec.mcuId, dec.mcupart, dec.yc);
    if dec.mcuId in resets && dec.mcupart == 0 {
      LastRead(dec.yc, resets, out, heads, n, dec.mcuId, j);
    }
  }

  /** The decoder on a DC value. */
  method DecodeDcToken(dec: Ssdv, n: nat, j: nat, out: seq<Emit>, heads: seq<Head>,
                       ghost qs: (Quant, Quant), ghost resets: set<nat>, ghost diffs: seq<int>) returns (r: Status)
    requires dec.Valid() && !dec.encoding && !dec.greyscale && dec.acpart == 0
    requires IsRun(qs, dec.yc, resets, out, diffs) && n < |out| && At(dec, Scan(out[..n]))
    requires 0 < j <= |heads| && Timely(dec.yc, resets, out, heads) && Hears(dec, resets, heads, j)
    requires heads[j - 1].at <= n && (j < |heads| ==> heads[j].at > n) && Started(Scan(out[..n])) <= |diffs|
    requires Follows(dec, qs, resets, diffs, heads[0].mcu * (dec.yc + 2), Started(Scan(out[..n])))
    modifies dec
    ensures r.Ok? && dec.Valid() && At(dec, Scan(out[..n + 1])) && Hears(dec, resets, heads, j)
    ensures Started(Scan(out[..n + 1])) <= |diffs|
    ensures Follows(dec, qs, resets, diffs, heads[0].mcu * (dec.yc + 2), Started(Scan(out[..n + 1])))
  {
    hide Scan, EncAfter, ValueAt, EncodeDc, DecodeDc, Aadj, Timely, IsRun, FirstOf;
    ghost var k, dc0, mcu, part := Scan(out[..n]).done, dec.dc, dec.mcuId, dec.mcupart;
    NextOfRun(qs, dec.yc, resets, out, diffs, n);
    SameResets(dec, resets, out, heads, n, j, k);
    ghost var first := heads[0].mcu;
    FirstInResets(dec.yc, resets, out, heads);
    RunShape(qs, dec.yc, resets, out, diffs);
    FirstBlocks(dec.yc, first, mcu, part);
    r := dec.Process(Dc(out[n].value));
    OneBlock(qs, dec.yc, resets, diffs, first * (dec.yc + 2), k, Component(part, dec.yc),
             QuantOf(dec.dcQuant, Component(part, dec.yc)), dc0, dec.dc);
  }

  lemma FirstInResets(yc: nat, resets: set<nat>, out: seq<Emit>, heads: seq<Head>)
    requires Timely(yc, resets, out, heads)
    ensures |heads| > 0 && heads[0].mcu in resets
  {}

  lemma RunShape(qs: (Quant, Quant), yc: nat, resets: set<nat>, out: seq<Emit>, diffs: seq<int>)
    requires IsRun(qs, yc, resets, out, diffs)
    ensures yc > 0 && Positive(qs.0) && Positive(qs.1) && |diffs| == Started(Scan(out))
  {}

  /** The decoder on another token. */
  method DecodeOther(dec: Ssdv, n: nat, j: nat, out: seq<Emit>, heads: seq<Head>,
                     ghost qs: (Quant, Quant), ghost resets: set<nat>, ghost diffs: seq<int>) returns (r: Status)
    requires dec.Valid() && !dec.encoding && !dec.greyscale && dec.acpart > 0
    requires IsRun(qs, dec.yc, resets, out, diffs) && n < |out| && At(dec, Scan(out[..n]))
    requires 0 < j <= |heads| && Hears(dec, resets, heads, j) && Started(Scan(out[..n])) <= |diffs|
    requires Follows(dec, qs, resets, diffs, heads[0].mcu * (dec.yc + 2), Started(Scan(out[..n])))
    modifies dec
    ensures r.Ok? ==> dec.Valid() && At(dec, Scan(out[..n + 1])) && Hears(dec, resets, heads, j)
    ensures Started(Scan(out[..n + 1])) == Started(Scan(out[..n])) <= |diffs|
    ensures Follows(dec, qs, resets, diffs, heads[0].mcu * (dec.yc + 2), Started(Scan(out[..n + 1])))
  {
    hide Scan, EncAfter, ValueAt, EncodeDc, DecodeDc, Aadj, IsRun, FirstOf;
    NextOfRun(qs, dec.yc, resets, out, diffs, n);
    TokenMoves(Place(dec.mcuId, dec.mcupart, dec.acpart), dec.yc, Scan(out[..n]), out[n]);
    r := dec.Process(TokenOf(dec.acpart, out[n]));
  }

  /** The decoder enters the first of these packets, in whatever state it is: after
      a loss the gap up to its first MCU is filled. */
  method Join(dec: Ssdv, out: seq<Emit>, heads: seq<Head>, lost: bool,
              ghost qs: (Quant, Quant), ghost resets: set<nat>, ghost diffs: seq<int>)
    requires dec.Valid() && !dec.encoding && IsRun(qs, dec.yc, resets, out, diffs) && Timely(dec.yc, resets, out, heads)
    requires dec.resetMcu <= heads[0].mcu
    requires var m := if dec.mcupart > 0 || dec.acpart > 0 then dec.mcuId + 1 else dec.mcuId;
      if lost then m <= heads[0].mcu else dec.mcuId == heads[0].mcu && dec.mcupart == dec.acpart == 0
    modifies dec
    ensures dec.Valid() && At(dec, Scan(out[..heads[0].at])) && Hears(dec, resets, heads, 1)
    ensures Started(Scan(out[..heads[0].at])) <= |diffs|
    ensures Follows(dec, qs, resets, diffs, heads[0].mcu * (dec.yc + 2), Started(Scan(out[..heads[0].at])))
  {
    hide Scan, EncAfter, ValueAt, Aadj;
    InRun(qs, dec.yc, resets, out, diffs, heads[0].at);
    dec.EnterPacket(heads[0].mcu, lost);
  }

  lemma InRun(qs: (Quant, Quant), yc: nat, resets: set<nat>, out: seq<Emit>, diffs: seq<int>, n: nat)
    requires IsRun(qs, yc, resets, out, diffs) && n <= |out|
    ensures Started(Scan(out[..n])) <= |diffs| && (n == |out| ==> Started(Scan(out[..n])) == |diffs|)
  {
    hide ValueAt;
    ScanPrefix(out, n);
    DcCount(out[..n]);
    DcCount(out);
    assert out[..|out|] == out;
  }

  /** A later packet's header, in time; before it the decoder has looked for a code in
      what bits it had. */
  method Hear(dec: Ssdv, ghost s: Seen, heads: seq<Head>, j: nat, ghost qs: (Quant, Quant), ghost resets: set<nat>,
              ghost diffs: seq<int>, ghost k: nat)
    requires dec.Valid() && !dec.encoding && 0 < j < |heads| && Hears(dec, resets, heads, j) && At(dec, s)
    requires heads[j].mcu in resets && heads[j].mcu != NO_MCU && heads[j - 1].mcu < heads[j].mcu
    requires Positive(qs.0) && Positive(qs.1) && k <= |diffs|
    requires Follows(dec, qs, resets, diffs, heads[0].mcu * (dec.yc + 2), k)
    modifies dec
    ensures dec.Valid() && Hears(dec, resets, heads, j + 1) && At(dec, s)
    ensures Follows(dec, qs, resets, diffs, heads[0].mcu * (dec.yc + 2), k)
  {
    hide Scan, EncAfter, Aadj, FirstOf;
    dec.Latch();
    dec.EnterPacket(heads[j].mcu, false);
  }

  /** A decoder given the values from the first MCU of a packet on, whatever it was
      given before: no drift. Of each component it has seen a block of, it has the
      encoder's DC value, after every value up to the last or the end of the image. */
  method DecodeFrom(dec: Ssdv, out: seq<Emit>, heads: seq<Head>, lost: bool,
                    ghost qs: (Quant, Quant), ghost resets: set<nat>, ghost diffs: seq<int>) returns (n: nat, r: Status)
    requires dec.Valid() && !dec.encoding && !dec.greyscale
    requires IsRun(qs, dec.yc, resets, out, diffs) && Timely(dec.yc, resets, out, heads)
    requires dec.resetMcu <= heads[0].mcu
    requires var m := if dec.mcupart > 0 || dec.acpart > 0 then dec.mcuId + 1 else dec.mcuId;
      if lost then m <= heads[0].mcu else dec.mcuId == heads[0].mcu && dec.mcupart == dec.acpart == 0
    modifies dec
    ensures n <= |out| && (n == |out| || r.Eoi?) && Started(Scan(out[..n])) <= |diffs|
    ensures n == |out| ==> Started(Scan(out[..n])) == |diffs|
    ensures Follows(dec, qs, resets, diffs, heads[0].mcu * (dec.yc + 2), Started(Scan(out[..n])))
  {
    hide Scan, EncAfter, ValueAt, Aadj, IsRun, Follows, Hears, At;
    Join(dec, out, heads, lost, qs, resets, diffs);
    RunShape(qs, dec.yc, resets, out, diffs);
    n, r := heads[0].at, Ok;
    var j := 1;
    if j < |heads| { HeadsInOrder(dec.yc, resets, out, heads, 0, 1); }
    while n < |out|
      invariant n <= |out| && dec.Valid() && At(dec, Scan(out[..n])) && 0 < j <= |heads| && r.Ok?
      invariant Hears(dec, resets, heads, j) && heads[j - 1].at <= n && (j < |heads| ==> heads[j].at >= n)
      invariant Started(Scan(out[..n])) <= |diffs|
      invariant Follows(dec, qs, resets, diffs, heads[0].mcu * (dec.yc + 2), Started(Scan(out[..n])))
      decreases |out| - n
    {
      ghost var s := Scan(out[..n]);
      if j < |heads| && heads[j].at == n {
        Hear(dec, s, heads, j, qs, resets, diffs, Started(s));
        j := j + 1;
        if j < |heads| { HeadsInOrder(dec.yc, resets, out, heads, j - 1, j); }
      }
      if dec.acpart == 0 {
        r := DecodeDcToken(dec, n, j, out, heads, qs, resets, diffs);
      } else {
        r := DecodeOther(dec, n, j, out, heads, qs, resets, diffs);
      }
      n := n + 1;
      if r.Eoi? {
        InRun(qs, dec.yc, resets, out, diffs, n);
        return;
      }
    }
    InRun(qs, dec.yc, resets, out, diffs, n);
  }

  /** With all of an encoder's values the decoder has the encoder's own state. */
  lemma FollowsEncoder(enc: Ssdv, dec: Ssdv, resets: set<nat>, diffs: seq<int>, from: nat, c: nat)
    requires Encoded(enc, resets, diffs) && dec.yc == enc.yc && c < 3 && from + FirstOf(c, dec.yc) < |diffs|
    requires Follows(dec, enc.dcQuant, resets, diffs, from, |diffs|)
    ensures |dec.dc| == 3 == |enc.adc| && dec.dc[c] == enc.adc[c]
  {
    hide EncAfter, Scan;
  }

  /** A header read before the code of the first value of an MCU is complete, though
      the MCU is one that resets: its value is taken for a difference, and the decoder
      is where the encoder is only if it was at zero. */
  method EarlyHeader(dec: Ssdv, next: nat, v: int)
    requires dec.Valid() && !dec.encoding && dec.mcupart == dec.acpart == 0 && dec.nextResetMcu == dec.mcuId
    requires dec.mcuId < next && next != NO_MCU
    modifies dec
    ensures dec.Valid() && dec.mcuId == old(dec.mcuId) && dec.dc == old(dec.dc)[0 := old(dec.dc)[0] + v]
    ensures dec.dc[0] == v <==> old(dec.dc)[0] == 0
  {
    hide Scan;
    dec.Latch();
    dec.EnterPacket(next, false);
    var r := dec.Process(Dc(v));
  }

  /** In time it would be the value. */
  method HeaderInTime(dec: Ssdv, next: nat, v: int)
    requires dec.Valid() && !dec.encoding && dec.mcupart == dec.acpart == 0 && dec.nextResetMcu == dec.mcuId
    requires dec.mcuId < next && next != NO_MCU && dec.resetMcu <= dec.mcuId
    modifies dec
    ensures dec.Valid() && dec.mcuId == old(dec.mcuId) && dec.dc == old(dec.dc)[0 := v]
  {
    hide Scan;
    dec.Latch();
    dec.SplitDc(v, next);
  }
}
