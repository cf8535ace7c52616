/** A header that comes too early: an encoder's values in packets of four bytes, and a
    decoder that reads them with each header where it comes. */
module SsdvEarly {
  import opened Arith
  import opened Huffman
  import opened StdTables
  import opened SsdvDc
  import opened SsdvMachine
  import opened SsdvFollow
  import opened SsdvLayout
  import opened SsdvPackets
  import Entropy

  // ----- The values -----

  /** Two MCUs of one luminance block: in the first two coefficients, in the second a
      DC value of eleven bits. */
  function Value(k: nat): Emit {
    if k == 0 then Emit(0, 0, 16) else if k == 1 then Emit(0, 0, 512) else if k == 2 then Emit(0, 0, 2) else
    if k == 8 then Emit(0, 0, 1024) else if k == 3 || k == 9 then Emit(0, 0, 0) else
    if k == 4 || k == 5 || k == 10 || k == 11 then Emit(1, 0, 0) else Emit(2, 0, 0)
  }

  function Values(n: nat): (out: seq<Emit>)
    ensures |out| == n && forall k :: 0 <= k < n ==> out[k] == Value(k)
  {
    seq(n, k requires 0 <= k => Value(k))
  }

  lemma OneMore(n: nat)
    ensures Values(n + 1) == Values(n) + [Value(n)]
  {}

  /** A transcoder with tables of ones, at the start of a block or in it. */
  ghost predicate Here(s: Ssdv, mcu: nat, part: nat, ac: nat)
    reads s
  {
    && s.Valid() && s.yc == 1 && !s.greyscale && s.mcuCount == 3 && s.dcQuant == (Quant(1, 1), Quant(1, 1))
    && (forall c, k :: s.acQuant(c, k) == Quant(1, 1))
    && s.mcuId == mcu && s.mcupart == part && s.acpart == ac && s.accrle == 0
  }

  /** The luminance coefficients and the end of their block. */
  method Coefficient(s: Ssdv, v: int)
    requires Here(s, s.mcuId, 0, s.acpart) && 0 < s.acpart < 63 && v != 0
    modifies s
    ensures Here(s, old(s.mcuId), 0, old(s.acpart) + 1) && s.out == old(s.out) + [Emit(0, 0, v)]
    ensures s.dc == old(s.dc) && s.adc == old(s.adc) && s.resetMcu == old(s.resetMcu)
    ensures s.nextResetMcu == old(s.nextResetMcu) && s.packetMcuId == old(s.packetMcuId)
  {
    hide Scan;
    var r := s.Process(Ac(0, v));
    assert Sixteens(0, 0) == [];
  }

  /** A block without coefficients of one colour, where its DC value does not change. */
  method Empty(s: Ssdv)
    requires Here(s, s.mcuId, s.mcupart, 0) && s.mcupart > 0 && s.mcuId < 2
    requires s.dc[s.mcupart] == s.adc[s.mcupart] == 0
    modifies s
    ensures Here(s, if old(s.mcupart) == 2 then old(s.mcuId) + 1 else old(s.mcuId),
                 if old(s.mcupart) == 2 then 0 else old(s.mcupart) + 1, 0)
    ensures s.out == old(s.out) + [Emit(old(s.mcupart), 0, 0), Emit(old(s.mcupart), 0, 0)]
    ensures s.dc == old(s.dc) && s.adc == old(s.adc) && s.resetMcu == old(s.resetMcu)
    ensures var opens := s.encoding && s.mcupart == 0 && old(s.packetMcuId) == NO_MCU;
      && s.nextResetMcu == (if opens then s.mcuId else old(s.nextResetMcu))
      && s.packetMcuId == (if opens then s.mcuId else old(s.packetMcuId))
  {
    hide Scan;
    var r := s.Process(Dc(0));
    r := s.Process(Eob);
  }

  /** The end of the luminance block and the two others. */
  method Finish(s: Ssdv)
    requires Here(s, s.mcuId, 0, s.acpart) && s.acpart > 0 && s.mcuId < 2
    requires s.dc[1] == s.dc[2] == s.adc[1] == s.adc[2] == 0
    modifies s
    ensures Here(s, old(s.mcuId) + 1, 0, 0) && s.out == old(s.out) +
      [Emit(0, 0, 0), Emit(1, 0, 0), Emit(1, 0, 0), Emit(2, 0, 0), Emit(2, 0, 0)]
    ensures s.dc == old(s.dc) && s.adc == old(s.adc) && s.resetMcu == old(s.resetMcu)
    ensures var opens := s.encoding && old(s.packetMcuId) == NO_MCU;
      && s.nextResetMcu == (if opens then s.mcuId else old(s.nextResetMcu))
      && s.packetMcuId == (if opens then s.mcuId else old(s.packetMcuId))
  {
    hide Scan;
    var r := s.Process(Eob);
    Empty(s);
    Empty(s);
  }

  /** An encoder puts them out. After the first coefficient 32 bits are complete and
      after the second DC value 64, so that the MCUs begun behind them are the first of
      their packets. */
  method Encode() returns (enc: Ssdv)
    ensures fresh(enc) && Here(enc, 2, 0, 0) && enc.encoding && enc.out == Values(14)
    ensures enc.resetMcu == 1 && enc.nextResetMcu == 2 && enc.adc[0] == 1024
  {
    hide Scan;
    enc := EncodeFirst();
    var r := enc.Process(Dc(1008));
    enc.EndPacket();
    Finish(enc);
    assert enc.out == Values(8) + [Emit(0, 0, 1024)] +
      [Emit(0, 0, 0), Emit(1, 0, 0), Emit(1, 0, 0), Emit(2, 0, 0), Emit(2, 0, 0)];
  }

  method EncodeFirst() returns (enc: Ssdv)
    ensures fresh(enc) && Here(enc, 1, 0, 0) && enc.encoding && enc.out == Values(8)
    ensures enc.nextResetMcu == enc.packetMcuId == 1 && enc.resetMcu == 0 && enc.dc == enc.adc == [16, 0, 0]
  {
    hide Scan;
    enc := new Ssdv(true, false, 1, 3, (Quant(1, 1), Quant(1, 1)), (_, _) => Quant(1, 1));
    var r := enc.Process(Dc(16));
    Coefficient(enc, 512);
    enc.EndPacket();
    Coefficient(enc, 2);
    Finish(enc);
  }

  /** A decoder that reads the headers where they come, the second before value 2 and
      the third before value 8, has another DC value than the encoder. */
  method Decode() returns (dec: Ssdv)
    ensures fresh(dec) && dec.Valid() && !dec.encoding && dec.dc[0] == 1040 != Value(8).value
  {
    hide Scan;
    dec := new Ssdv(false, false, 1, 3, (Quant(1, 1), Quant(1, 1)), (_, _) => Quant(1, 1));
    dec.EnterPacket(0, false);
    var r := dec.Process(Dc(16));
    Coefficient(dec, 512);
    dec.EnterPacket(1, false);
    Coefficient(dec, 2);
    Finish(dec);
    EarlyHeader(dec, 2, 1024);
  }

  // ----- Their places -----

  const RESETS: set<nat> := {0, 1, 2}

  /** Blocks complete, place in the block, and bits before value k; and the length of
      its code. */
  function Done(k: nat): nat {
    if k < 4 then 0 else if k < 6 then 1 else if k < 8 then 2 else if k < 10 then 3 else if k < 12 then 4 else
    if k < 14 then 5 else 6
  }

  function PosIn(k: nat): nat {
    if k < 4 then k else if k == 5 || k == 7 || k == 9 || k == 11 || k == 13 then 1 else 0
  }

  function At(k: nat): nat {
    if k == 0 then 0 else if k == 1 then 8 else if k == 2 then 34 else if k == 3 then 38 else if k == 4 then 42 else
    if k == 5 then 44 else if k == 6 then 46 else if k == 7 then 48 else if k == 8 then 56 else if k == 9 then 76 else
    if k == 10 then 80 else if k == 11 then 82 else if k == 12 then 84 else if k == 13 then 86 else 88
  }

  function CodeOf(k: nat): nat {
    if k == 0 then 3 else if k == 1 then 16 else if k == 2 then 2 else if k == 3 || k == 9 then 4 else
    if k == 8 then 9 else 2
  }

  function WidthAt(k: nat): nat {
    if k == 0 then 5 else if k == 1 then 10 else if k == 2 then 2 else if k == 8 then 11 else 0
  }

  lemma Widths(k: nat)
    ensures WidthOf(Value(k).value) == WidthAt(k)
  {
    hide Entropy.Width;
    Powers();
  }

  lemma Powers()
    ensures Entropy.Width(0) == 0 && Entropy.Width(2) == 2 && Entropy.Width(16) == 5
    ensures Entropy.Width(512) == 10 && Entropy.Width(1024) == 11
  {
    assert Entropy.Width(16) == 1 + Entropy.Width(8) == 2 + Entropy.Width(4) == 3 + Entropy.Width(2);
    assert Entropy.Width(512) == 1 + Entropy.Width(256) == 2 + Entropy.Width(128) == 3 + Entropy.Width(64)
      == 4 + Entropy.Width(32) == 5 + Entropy.Width(16);
    assert Entropy.Width(1024) == 1 + Entropy.Width(512);
  }

  lemma LumaCodes()
    ensures CodeWidth(LumaDc(), 5, 1) == 3 && CodeWidth(LumaDc(), 11, 1) == 9
    ensures CodeWidth(LumaAc(), 38, 1) == 16 && CodeWidth(LumaAc(), 1, 1) == 2 && CodeWidth(LumaAc(), 3, 1) == 4
  {
    hide CodeWidth, Offset, LumaDc, LumaAc;
    LumaDcOffsets(5);
    CodeWidthIs(LumaDc(), 5, 1, 3);
    LumaDcOffsets(11);
    CodeWidthIs(LumaDc(), 11, 1, 9);
    LumaAcSome();
    AcCanonical();
    CodeWidthIs(LumaAc(), 38, 1, 16);
    CodeWidthIs(LumaAc(), 1, 1, 2);
    CodeWidthIs(LumaAc(), 3, 1, 4);
  }

  lemma LumaAcSome()
    ensures var t := LumaAc();
      Offset(t, 2) == 0 && Offset(t, 3) == 2 && Offset(t, 4) == 3 && Offset(t, 5) == 6 && Offset(t, 16) == 37
  {
    var t := LumaAc();
    assert Offset(t, 2) == 0 && Offset(t, 3) == 2 && Offset(t, 4) == 3 && Offset(t, 5) == 6 && Offset(t, 6) == 9;
    assert Offset(t, 7) == 11 && Offset(t, 8) == 15 && Offset(t, 9) == 18 && Offset(t, 10) == 23;
    assert Offset(t, 11) == 28 && Offset(t, 12) == 32 && Offset(t, 13) == 36 && Offset(t, 14) == 36;
  }

  lemma ChromaCodes()
    ensures CodeWidth(ChromaDc(), 0, 1) == 2 && CodeWidth(ChromaAc(), 0, 1) == 2
  {
    var d, a := ChromaDc(), ChromaAc();
    assert Offset(d, 2) == 0 && Offset(d, 3) == 3 && Offset(a, 2) == 0 && Offset(a, 3) == 2;
    CodeWidthIs(d, 0, 1, 2);
    CodeWidthIs(a, 0, 1, 2);
  }

  lemma SomePlaces()
    ensures LumaPlace(0x0a) == 38 && LumaPlace(0x02) == 1 && LumaPlace(0x00) == 3 && ChromaPlace(0x00) == 0
  {}

  /** The length of each code. */
  lemma CodeIs(k: nat, s: Seen)
    requires k < 14 && s.done == Done(k) && s.pos == PosIn(k)
    ensures CodeLen(1, s, Value(k)) == CodeOf(k)
  {
    hide CodeWidth, LumaDc, LumaAc, ChromaDc, ChromaAc, LumaPlace, ChromaPlace, WidthOf;
    Widths(k);
    LumaCodes();
    ChromaCodes();
    SomePlaces();
  }

  lemma {:induction false} Reads(k: nat)
    requires k <= 14
    ensures Scan(Values(k)).done == Done(k) && Scan(Values(k)).pos == PosIn(k)
  {
    hide Values, Scan;
    if k == 0 {
      assert Values(0) == [];
      ScanNone();
    } else {
      Reads(k - 1);
      OneMore(k - 1);
      ScanMore(Values(k - 1), Value(k - 1));
    }
  }

  /** Where each value begins. */
  lemma {:induction false} Places(k: nat)
    requires k <= 14
    ensures var s := Scan(Values(k)); s.done == Done(k) && s.pos == PosIn(k)
    ensures Pos(1, RESETS, Values(k)) == At(k)
    ensures StartsReset(1, RESETS, Scan(Values(k))) <==> k == 0 || k == 8 || k == 14
  {
    hide CodeLen, WidthOf, Values, Scan;
    Reads(k);
    if k == 0 {
      assert Values(0) == [];
    } else {
      Reads(k - 1);
      Places(k - 1);
      OneMore(k - 1);
      var before := Values(k - 1);
      assert Values(k)[..k - 1] == before && Values(k)[k - 1] == Value(k - 1);
      CodeIs(k - 1, Scan(before));
      Widths(k - 1);
    }
  }

  lemma Prefix(k: nat)
    requires k <= 14
    ensures Values(14)[..k] == Values(k)
  {}

  lemma PlaceAt(k: nat)
    requires k <= 14
    ensures Start(1, RESETS, Values(14), k) == At(k) && McuAt(1, Values(14), k) == Done(k) / 3
    ensures PacketAt(4, 1, RESETS, Values(14), k) == At(k) / 32
    ensures StartsAt(1, RESETS, Values(14), k) <==> k == 0 || k == 8 || k == 14
    ensures k < 14 ==> CodeLen(1, Scan(Values(14)[..k]), Values(14)[k]) == CodeOf(k)
    ensures k < 14 ==> CodeEnd(1, RESETS, Values(14), k) == At(k) + CodeOf(k)
  {
    hide Scan, Values, CodeLen, Pos, StartsReset;
    Prefix(k);
    Places(k);
    Reads(k);
    if k < 14 { CodeIs(k, Scan(Values(k))); }
  }

  lemma AllCoded()
    ensures Coded(1, Values(14))
  {
    hide Scan, Values, CodeLen;
    forall k | 0 <= k < 14 ensures CodeLen(1, Scan(Values(14)[..k]), Values(14)[k]) > 0 { PlaceAt(k); }
  }

  lemma OneFirst(a: nat, b: nat)
    requires a < b <= 14 && StartsAt(1, RESETS, Values(14), a) && StartsAt(1, RESETS, Values(14), b)
    ensures PacketAt(4, 1, RESETS, Values(14), a) < PacketAt(4, 1, RESETS, Values(14), b)
  {
    hide StartsAt, PacketAt, Values, Start, McuAt;
    PlaceAt(a);
    PlaceAt(b);
  }

  lemma EachFirst()
    ensures OneEach(4, 1, RESETS, Values(14))
  {
    hide Scan, Values, StartsAt, PacketAt;
    var out := Values(14);
    forall a, b | 0 <= a < b <= |out| && StartsAt(1, RESETS, out, a) && StartsAt(1, RESETS, out, b)
      ensures PacketAt(4, 1, RESETS, out, a) < PacketAt(4, 1, RESETS, out, b)
    {
      OneFirst(a, b);
    }
  }

  /** The MCUs that reset begin in packets of their own. */
  lemma IsLaid()
    ensures Laid(4, 1, RESETS, Values(14))
  {
    hide Scan, Values, OneEach, Begun;
    EachFirst();
    HasBegun(0);
    HasBegun(1);
    HasBegun(2);
  }

  lemma HasBegun(m: nat)
    requires m <= 2
    ensures Begun(1, Values(14), m)
  {
    hide Scan, Values;
    var k := if m == 0 then 0 else if m == 1 then 8 else 14;
    Prefix(k);
    Reads(k);
    assert StartsAt(1, {m}, Values(14), k);
  }

  /** The header of the third packet is read before value 8, the DC value of the second
      MCU, which begins in the last byte of its packet and has eleven bits. */
  lemma EarlyCase()
    ensures Laid(4, 1, RESETS, Values(14)) && Coded(1, Values(14)) && TooEarly(4, 1, RESETS, Values(14), 8, 14)
    ensures ReadAt(4, 1, RESETS, Values(14), 8) == 2 && ReadAt(4, 1, RESETS, Values(14), 14) == 8
  {
    hide Scan, Values, Start, CodeEnd, Codes, Coded, Laid, WidthOf;
    IsLaid();
    AllCoded();
    PlaceAt(8);
    PlaceAt(14);
    Widths(8);
    CodesAre(32, 1);
    CodesAre(64, 7);
  }

  lemma CodesAre(limit: nat, k: nat)
    requires k < 13 && At(k) + CodeOf(k) <= limit < At(k + 1) + CodeOf(k + 1)
    ensures Codes(1, RESETS, Values(14), 14, limit) == k + 1
  {
    hide Scan, Values, CodeEnd, Codes, Coded;
    AllCoded();
    PlaceAt(k);
    PlaceAt(k + 1);
    CodesIs(1, RESETS, Values(14), 14, limit, k);
    CodesIs(1, RESETS, Values(14), 14, limit, k + 1);
  }
}
