/** The transcoder over whole runs: what an encoder emits for any tokens, however
    they are divided into packets, and a decoder that is given those values from
    the first MCU of some packet on. */
module SsdvRun {
  import opened Arith
  import opened SsdvDc
  import opened SsdvMachine
  import opened SsdvImage

  // ----- The encoder -----

  /** The output is what the encoder makes of these differences, with these MCUs
      sent absolutely; and it can be parsed. */
  ghost predicate IsRun(qs: (Quant, Quant), yc: nat, resets: set<nat>, out: seq<Emit>, diffs: seq<int>) {
    && yc > 0 && Positive(qs.0) && Positive(qs.1)
    && Scan(out).ok && |diffs| == Started(Scan(out)) && AreValues(qs, yc, resets, Scan(out).dcs, diffs)
  }

  ghost predicate AreValues(qs: (Quant, Quant), yc: nat, resets: set<nat>, dcs: seq<int>, diffs: seq<int>)
    requires Positive(qs.0) && Positive(qs.1)
  {
    |dcs| == |diffs| && forall k :: 0 <= k < |diffs| ==> dcs[k] == ValueAt(qs, yc, resets, diffs, k)
  }

  /** Blocks of which at least the DC value is out. */
  function Started(s: Seen): nat {
    s.done + if s.pos > 0 then 1 else 0
  }

  /** The encoder's DC state is the one after these differences. */
  ghost predicate InState(s: Ssdv, resets: set<nat>, diffs: seq<int>)
    reads s
  {
    && |s.dc| == 3 == |s.adc| && Positive(s.dcQuant.0) && Positive(s.dcQuant.1)
    && forall c :: 0 <= c < 3 ==> EncAfter(s.dcQuant, s.yc, resets, diffs, |diffs|)[c] == Enc(s.dc[c], s.adc[c])
  }

  /** The MCUs that reset are known to the encoder when it comes to them. */
  ghost predicate Knows(s: Ssdv, resets: set<nat>)
    reads s
  {
    && s.resetMcu in resets && s.nextResetMcu in resets
    && (forall m :: m in resets ==> m <= s.mcuId)
    && (s.mcuId in resets ==> s.resetMcu == s.mcuId || (s.mcupart == 0 && s.acpart == 0 && s.nextResetMcu == s.mcuId))
  }

  /** With luminance only, the other components stay at zero. */
  ghost predicate Grey(s: Ssdv)
    reads s
  {
    |s.dc| == 3 == |s.adc| && (s.greyscale ==> s.dc[1] == s.dc[2] == s.adc[1] == s.adc[2] == 0 && s.mcupart < s.yc)
  }

  ghost predicate Encoded(s: Ssdv, resets: set<nat>, diffs: seq<int>)
    reads s
  {
    && s.encoding && IsRun(s.dcQuant, s.yc, resets, s.out, diffs) && InState(s, resets, diffs)
  }

  /** Where a block starts that does not reset, or where it does, the encoder does
      as ResetAt says. */
  lemma ResetsAgree(s: Ssdv, resets: set<nat>, k: nat)
    requires s.mcupart < s.yc + 2 && k == s.mcuId * (s.yc + 2) + s.mcupart
    requires s.resetMcu in resets && (s.mcuId in resets ==> s.resetMcu == s.mcuId)
    ensures s.Resets() == ResetAt(resets, k, s.yc)
    ensures Component(PartOf(k, s.yc), s.yc) == Component(s.mcupart, s.yc)
  {
    BlockIs(s.mcuId, s.mcupart, s.yc);
  }

  /** One more difference, at the end. */
  lemma OneMore(qs: (Quant, Quant), yc: nat, resets: set<nat>, diffs: seq<int>, i: int)
    requires Positive(qs.0) && Positive(qs.1)
    ensures Component(PartOf(|diffs|, yc), yc) < 3
    ensures var k := |diffs|;
      var c := Component(PartOf(k, yc), yc);
      var e := EncAfter(qs, yc, resets, diffs, k);
      var (v, n) := EncodeDc(QuantOf(qs, c), e[c], ResetAt(resets, k, yc), i);
      && ValueAt(qs, yc, resets, diffs + [i], k) == v
      && EncAfter(qs, yc, resets, diffs + [i], k + 1) == e[c := n]
    ensures forall j :: 0 <= j < |diffs| ==>
      ValueAt(qs, yc, resets, diffs + [i], j) == ValueAt(qs, yc, resets, diffs, j)
  {
    hide EncodeDc;
    PartComponent(|diffs|, yc);
    assert resets + {} == resets;
    forall j | 0 <= j <= |diffs|
      ensures EncAfter(qs, yc, resets, diffs + [i], j) == EncAfter(qs, yc, resets, diffs, j)
      ensures j < |diffs| ==> ValueAt(qs, yc, resets, diffs + [i], j) == ValueAt(qs, yc, resets, diffs, j)
    {
      EncLocal(qs, yc, resets, {}, diffs, [i], j);
    }
  }

  lemma ValuesMore(qs: (Quant, Quant), yc: nat, resets: set<nat>, dcs: seq<int>, diffs: seq<int>, i: int)
    requires Positive(qs.0) && Positive(qs.1) && AreValues(qs, yc, resets, dcs, diffs)
    ensures AreValues(qs, yc, resets, dcs + [ValueAt(qs, yc, resets, diffs + [i], |diffs|)], diffs + [i])
  {
    hide ValueAt, EncAfter;
    OneMore(qs, yc, resets, diffs, i);
  }

  /** A part that is passed over, of a component at zero, is one with no change. */
  lemma PassedMore(qs: (Quant, Quant), yc: nat, resets: set<nat>, dcs: seq<int>, diffs: seq<int>)
    requires Positive(qs.0) && Positive(qs.1) && AreValues(qs, yc, resets, dcs, diffs)
    requires Component(PartOf(|diffs|, yc), yc) < 3
    requires EncAfter(qs, yc, resets, diffs, |diffs|)[Component(PartOf(|diffs|, yc), yc)] == Enc(0, 0)
    ensures AreValues(qs, yc, resets, dcs + [0], diffs + [0])
    ensures EncAfter(qs, yc, resets, diffs + [0], |diffs| + 1) == EncAfter(qs, yc, resets, diffs, |diffs|)
  {
    hide ValueAt, EncAfter;
    OneMore(qs, yc, resets, diffs, 0);
    ValuesMore(qs, yc, resets, dcs, diffs, 0);
  }

  /** An MCU that has not begun may be one that resets. */
  lemma RunLater(qs: (Quant, Quant), yc: nat, resets: set<nat>, out: seq<Emit>, diffs: seq<int>, m: nat)
    requires IsRun(qs, yc, resets, out, diffs) && |diffs| == m * (yc + 2)
    ensures IsRun(qs, yc, resets + {m}, out, diffs)
    ensures EncAfter(qs, yc, resets + {m}, diffs, |diffs|) == EncAfter(qs, yc, resets, diffs, |diffs|)
  {
    hide Scan, ValueAt, EncAfter;
    assert diffs + [] == diffs;
    forall k | 0 <= k <= |diffs|
      ensures k < |diffs| ==> ValueAt(qs, yc, resets + {m}, diffs, k) == ValueAt(qs, yc, resets, diffs, k)
      ensures EncAfter(qs, yc, resets + {m}, diffs, k) == EncAfter(qs, yc, resets, diffs, k)
    {
      EncLocal(qs, yc, resets, {m}, diffs, [], k);
    }
  }

  /** The two colour parts after luminance, where there is no colour. */
  lemma PassedTwo(qs: (Quant, Quant), yc: nat, resets: set<nat>, dcs: seq<int>, diffs: seq<int>, mcu: nat)
    requires yc > 0 && Positive(qs.0) && Positive(qs.1) && AreValues(qs, yc, resets, dcs, diffs)
    requires |diffs| == mcu * (yc + 2) + yc
    requires EncAfter(qs, yc, resets, diffs, |diffs|)[1] == Enc(0, 0) == EncAfter(qs, yc, resets, diffs, |diffs|)[2]
    ensures AreValues(qs, yc, resets, dcs + NoChange(2), diffs + NoChange(2))
    ensures EncAfter(qs, yc, resets, diffs + NoChange(2), |diffs| + 2) == EncAfter(qs, yc, resets, diffs, |diffs|)
  {
    hide ValueAt, EncAfter, AreValues;
    BlockIs(mcu, yc, yc);
    PassedMore(qs, yc, resets, dcs, diffs);
    BlockIs(mcu, yc + 1, yc);
    PassedMore(qs, yc, resets, dcs + [0], diffs + [0]);
    assert diffs + [0] + [0] == diffs + NoChange(2) && dcs + [0] + [0] == dcs + NoChange(2);
  }

  /** What the reset does to what the encoder knows. */
  lemma LatchKnows(s: Ssdv, resets: set<nat>)
    requires Knows(s, resets) && s.acpart == 0
    ensures var r := Latched(s.mcupart, s.resetMcu, s.nextResetMcu);
      r in resets && (s.mcuId in resets ==> r == s.mcuId)
  {}

  /** What is read shows in the output, up to the place where the encoder is. */
  ghost predicate AtShows(s: Ssdv, m: Image)
    reads s
  {
    Shows(s, m) && m.place == s.acpart
  }

  lemma ShowsParts(s: Ssdv, m: Image)
    requires AtShows(s, m)
    ensures m.block == s.mcuId * (s.yc + 2) + s.mcupart && m.place == s.acpart && Behind(m)
    ensures Requantised(s.acQuant, s.yc, m.coefs, Coefs(s.out))
  {}

  ghost predicate ShowsAfter(s: Ssdv, m: Image, r: Status)
    reads s
  {
    Shows(s, m) && (r.Ok? ==> m.place == s.acpart)
  }

  /** The encoder on a DC value. */
  method EncodeDcToken(s: Ssdv, i: int, ghost resets: set<nat>, ghost diffs: seq<int>, ghost m: Image)
    returns (r: Status)
    requires s.Valid() && s.acpart == 0 && Encoded(s, resets, diffs) && Knows(s, resets) && Grey(s)
    modifies s
    ensures r.Ok? && s.Valid() && Encoded(s, resets, diffs + [i]) && Knows(s, resets) && Grey(s)
    ensures s.mcuId == old(s.mcuId) && s.packetMcuId == old(s.packetMcuId) && old(s.out) <= s.out
    ensures old(AtShows(s, m)) ==> AtShows(s, ReadToken(m, Dc(i), s.yc, s.greyscale))
  {
    hide Scan, EncAfter, ValueAt, EncodeDc, DecodeDc, Aadj, AreValues, Latched, Shows, Requantised,
      Behind, Coefs, ReadToken;
    ghost var dcs, shown := Scan(s.out).dcs, AtShows(s, m);
    LatchKnows(s, resets);
    ghost var c, out, mcu, part, held := s.component, s.out, s.mcuId, s.mcupart, s.accrle;
    if shown { ShowsParts(s, m); }
    r := s.Process(Dc(i));
    if shown { AfterToken(s, m, Dc(i), out, mcu, part, held, s.DcOut(c, s.Resets(), old(s.dc), old(s.adc), i)); }
    ResetsAgree(s, resets, |diffs|);
    OneMore(s.dcQuant, s.yc, resets, diffs, i);
    ValuesMore(s.dcQuant, s.yc, resets, dcs, diffs, i);
  }

  /** An MCU that begins is the first of its packet if that has none yet. */
  ghost predicate Opens(r: Status, begins: bool, s: Ssdv, packet: nat)
    reads s
  {
    var opens := r.Ok? && begins && s.nextResetMcu == s.mcuId;
    && (opens ==> packet == NO_MCU && s.packetMcuId == s.mcuId < s.mcuCount && s.mcupart == s.acpart == 0)
    && (!opens ==> s.packetMcuId == packet)
  }

  /** The encoder on another token. */
  method EncodeOther(s: Ssdv, token: Token, ghost resets: set<nat>, ghost diffs: seq<int>, ghost m: Image)
    returns (r: Status, ghost more: seq<int>)
    requires s.Valid() && !token.Dc? && s.Fits(token) && Encoded(s, resets, diffs) && Knows(s, resets) && Grey(s)
    modifies s
    ensures Encoded(s, resets, diffs + more) && (!s.greyscale ==> more == [])
    ensures r.Ok? ==> s.Valid() && Grey(s)
    ensures old(AtShows(s, m)) ==> ShowsAfter(s, ReadToken(m, token, s.yc, s.greyscale), r)
    ensures Opens(r, s.mcuId > old(s.mcuId), s, old(s.packetMcuId)) && s.mcuId >= old(s.mcuId) && old(s.out) <= s.out
    ensures r.Ok? && s.mcuId == old(s.mcuId) ==> Knows(s, resets)
    ensures r.Ok? && s.mcuId != old(s.mcuId) ==>
      && s.mcupart == s.acpart == 0 && s.mcuId !in resets && s.nextResetMcu in resets + {s.mcuId}
      && s.resetMcu in resets
      && forall m :: m in resets ==> m <= s.mcuId
  {
    hide Scan, EncAfter, ValueAt, EncodeDc, DecodeDc, Aadj, AreValues, Latched, Shows, Requantised,
      Behind, Coefs, ReadToken;
    more := [];
    assert diffs + [] == diffs;
    ghost var dcs, part, mcu, shown, out, held := Scan(s.out).dcs, s.mcupart, s.mcuId, AtShows(s, m), s.out, s.accrle;
    if shown { ShowsParts(s, m); }
    r := s.Process(token);
    if shown { AfterToken(s, m, token, out, mcu, part, held, 0); }
    s.McuStep(mcu, s.yc);
    if EndsBlock(old(s.acpart), token) && PassedOver(part, s.yc, s.greyscale) > 0 {
      more := NoChange(2);
      PassedTwo(s.dcQuant, s.yc, resets, dcs, diffs, mcu);
      assert |diffs + more| == |diffs| + 2;
    } else {
      assert Scan(s.out).dcs == dcs;
    }
    assert |diffs + more| == Started(Scan(s.out));
  }

  /** The DC differences among the tokens. */
  function Input(token: Token): seq<int> {
    if token.Dc? then [token.i] else []
  }

  function Inputs(tokens: seq<Token>): seq<int> {
    if tokens == [] then [] else Inputs(tokens[..|tokens| - 1]) + Input(tokens[|tokens| - 1])
  }

  /** The encoder on one token; an MCU that is the first of its packet resets. */
  method EncodeToken(s: Ssdv, token: Token, ghost resets: set<nat>, ghost diffs: seq<int>, ghost m: Image)
    returns (r: Status, ghost newResets: set<nat>, ghost newDiffs: seq<int>)
    requires s.Valid() && s.Fits(token) && Encoded(s, resets, diffs) && Knows(s, resets) && Grey(s)
    modifies s
    ensures Encoded(s, newResets, newDiffs) && resets <= newResets && diffs <= newDiffs
    ensures !s.greyscale ==> newDiffs == diffs + Input(token)
    ensures r.Ok? ==> s.Valid() && Knows(s, newResets) && Grey(s)
    ensures old(AtShows(s, m)) ==> ShowsAfter(s, ReadToken(m, token, s.yc, s.greyscale), r)
    ensures Opens(r, s.mcuId > old(s.mcuId), s, old(s.packetMcuId)) && s.mcuId >= old(s.mcuId) && old(s.out) <= s.out
    ensures newResets == resets +
      if r.Ok? && s.mcuId > old(s.mcuId) && s.nextResetMcu == s.mcuId then {s.mcuId} else {}
  {
    hide Scan, EncAfter, ValueAt, EncodeDc, DecodeDc, Aadj, Encoded, Knows, Grey, Shows, ReadToken;
    newResets := resets;
    if token.Dc? {
      newDiffs := diffs + [token.i];
      r := EncodeDcToken(s, token.i, resets, diffs, m);
    } else {
      ghost var more;
      ghost var mcu := s.mcuId;
      r, more := EncodeOther(s, token, resets, diffs, m);
      newDiffs := diffs + more;
      if r.Ok? && s.mcuId != mcu && s.nextResetMcu == s.mcuId {
        newResets := resets + {s.mcuId};
        NewMcu(s, resets, newDiffs);
      } else if r.Ok? && s.mcuId != mcu {
        OldMcu(s, resets);
      }
    }
  }

  /** An MCU that is the first of a packet. */
  lemma NewMcu(s: Ssdv, resets: set<nat>, diffs: seq<int>)
    requires s.Valid() && Encoded(s, resets, diffs) && s.mcupart == s.acpart == 0 && s.nextResetMcu == s.mcuId
    requires s.resetMcu in resets && forall m :: m in resets ==> m <= s.mcuId
    ensures Encoded(s, resets + {s.mcuId}, diffs) && Knows(s, resets + {s.mcuId})
  {
    hide Scan, EncAfter, ValueAt, Aadj, AreValues;
    RunLater(s.dcQuant, s.yc, resets, s.out, diffs, s.mcuId);
  }

  lemma OldMcu(s: Ssdv, resets: set<nat>)
    requires s.mcuId !in resets && s.nextResetMcu in resets && s.resetMcu in resets
    requires forall m :: m in resets ==> m <= s.mcuId
    ensures Knows(s, resets)
  {}

  /** The encoder over any tokens, up to the first that no block can have at its
      place or to the end of the image; full[n] says whether a packet is complete
      after token n. Every packet's first MCU is sent absolutely. */
  method EncodeAll(s: Ssdv, tokens: seq<Token>, full: seq<bool>)
    returns (n: nat, r: Status, ghost resets: set<nat>, ghost diffs: seq<int>)
    requires s.Valid() && s.encoding && s.out == [] && s.mcuId == s.mcupart == s.acpart == 0
    requires s.resetMcu == s.nextResetMcu == 0 && s.dc == s.adc == [0, 0, 0] && |full| == |tokens|
    modifies s
    ensures Encoded(s, resets, diffs) && 0 in resets
    ensures n <= |tokens| && (r.Ok? && n < |tokens| ==> !s.Fits(tokens[n]))
    ensures !s.greyscale ==> diffs == Inputs(tokens[..n])
    ensures OfImage(s, diffs)
    ensures Requantised(s.acQuant, s.yc, ReadAll(tokens[..n], s.yc, s.greyscale).coefs, Coefs(s.out))
  {
    hide Encoded, Knows, Grey, Ssdv.Valid, Ssdv.Fits, Shows, Requantised, Coefs, ReadToken;
    n, r, resets, diffs := 0, Ok, {0}, [];
    Begins(s);
    ghost var m := Image(0, 0, map[]);
    NothingShows(s);
    while n < |tokens| && s.Fits(tokens[n])
      invariant n <= |tokens| && r.Ok? && s.Valid() && Encoded(s, resets, diffs) && Knows(s, resets) && Grey(s)
      invariant 0 in resets && (!s.greyscale ==> diffs == Inputs(tokens[..n]))
      invariant m == ReadAll(tokens[..n], s.yc, s.greyscale) && AtShows(s, m)
      decreases |tokens| - n
    {
      r, resets, diffs := EncodeToken(s, tokens[n], resets, diffs, m);
      assert tokens[..n + 1][..n] == tokens[..n];
      m := ReadToken(m, tokens[n], s.yc, s.greyscale);
      n := n + 1;
      if r.Eoi? {
        ShowsIs(s, m);
        IsOfImage(s, resets, diffs);
        return;
      }
      if full[n - 1] { EndOfPacket(s, resets, diffs); }
    }
    ShowsIs(s, m);
    IsOfImage(s, resets, diffs);
  }

  lemma ShowsIs(s: Ssdv, m: Image)
    requires Shows(s, m)
    ensures Requantised(s.acQuant, s.yc, m.coefs, Coefs(s.out))
  {}

  lemma NothingShows(s: Ssdv)
    requires s.out == [] && s.mcuId == s.mcupart == s.acpart == 0
    ensures AtShows(s, Image(0, 0, map[]))
  {}

  /** The DC values and the output values are those of the differences summed up. */
  ghost predicate OfImage(s: Ssdv, diffs: seq<int>)
    reads s
  {
    |s.dc| == 3 == |s.adc| && forall c :: 0 <= c < 3 ==>
      IsOfSum(if c == 0 then s.dcQuant.0 else s.dcQuant.1, Enc(s.dc[c], s.adc[c]), SumOf(s.yc, diffs, c, |diffs|))
  }

  lemma IsOfImage(s: Ssdv, resets: set<nat>, diffs: seq<int>)
    requires Encoded(s, resets, diffs)
    ensures OfImage(s, diffs)
  {
    hide EncAfter, Scan, IsOfSum;
    forall c | 0 <= c < 3
      ensures IsOfSum(if c == 0 then s.dcQuant.0
        else s.dcQuant.1, Enc(s.dc[c], s.adc[c]), SumOf(s.yc, diffs, c, |diffs|))
    {
      EncIsOfImage(s.dcQuant, s.yc, resets, diffs, |diffs|, c);
    }
  }

  lemma Begins(s: Ssdv)
    requires s.Valid() && s.encoding && s.out == [] && s.mcuId == s.mcupart == s.acpart == 0
    requires s.resetMcu == s.nextResetMcu == 0 && s.dc == s.adc == [0, 0, 0]
    ensures Encoded(s, {0}, []) && Knows(s, {0}) && Grey(s)
  {}

  method EndOfPacket(s: Ssdv, ghost resets: set<nat>, ghost diffs: seq<int>)
    requires s.Valid() && Encoded(s, resets, diffs) && Knows(s, resets) && Grey(s)
    modifies s`packetMcuId
    ensures s.packetMcuId == NO_MCU
    ensures forall m :: old(AtShows(s, m)) ==> AtShows(s, m)
    ensures s.Valid() && Encoded(s, resets, diffs) && Knows(s, resets) && Grey(s)
  {
    hide Scan, EncAfter, ValueAt, Aadj, AreValues;
    s.EndPacket();
  }
}
