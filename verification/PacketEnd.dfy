/** The end of a packet, in bits: a coefficient behind zeros that were held back can
    need more bits than the word of pending bits has. */
module PacketEnd {
  import opened Arith
  import opened Bytes
  import opened Huffman
  import opened BitStream
  import opened Entropy
  import opened StdTables
  import SsdvDc
  import opened SsdvLayout
  import opened SsdvMachine

  // ----- The encoder -----

  /** The values of a block of an encoder: a DC value, a coefficient, and another one
      behind 48 zeros. */
  function Block(v: int): seq<Emit> {
    [Emit(0, 0, 16), Emit(0, 1, 2), Emit(0, 15, 0), Emit(0, 15, 0), Emit(0, 15, 0), Emit(0, 0, v)]
  }

  /** An encoder that divides coefficients by three, and the first two values. */
  method BeginBlock() returns (enc: Ssdv)
    ensures fresh(enc) && enc.Valid() && enc.encoding && enc.out == Block(1)[..2]
    ensures enc.acpart == 3 && enc.accrle == enc.component == 0 && enc.acQuant(0, 0) == SsdvDc.Quant(1, 3)
    ensures forall c, k :: enc.acQuant(c, k) == SsdvDc.Quant(1, 3)
  {
    hide Scan;
    enc := new Ssdv(true, false, 1, 1, (SsdvDc.Quant(1, 1), SsdvDc.Quant(1, 1)), (_, _) => SsdvDc.Quant(1, 3));
    var r := enc.Process(Dc(16));
    assert enc.out == [Emit(0, 0, 16)];
    r := enc.Process(Ac(1, 6));
    assert enc.out == [Emit(0, 0, 16), Emit(0, 1, 2)];
  }

  /** It holds back coefficients of one, with the zeros before them, until one is
      left. */
  method EncodeBlock(v: int) returns (enc: Ssdv)
    requires v != 0
    ensures fresh(enc) && enc.Valid() && enc.encoding && enc.out == Block(v)
  {
    hide Scan, SsdvDc.Irdiv, SsdvDc.Aadj;
    enc := BeginBlock();
    Tripled(v);
    var r := enc.Process(Ac(15, 1));
    r := enc.Process(Ac(15, 1));
    r := enc.Process(Ac(15, 1));
    assert enc.out == Block(1)[..2] && enc.accrle == 48;
    r := enc.Process(Ac(0, 3 * v));
    assert Sixteens(0, 3) == [Emit(0, 15, 0), Emit(0, 15, 0), Emit(0, 15, 0)];
  }

  lemma Tripled(v: int)
    ensures SsdvDc.Badj(SsdvDc.Quant(1, 3), 3 * v) == v && SsdvDc.Badj(SsdvDc.Quant(1, 3), 1) == 0
  {}

  // ----- Its packet -----

  /** One of its values goes out. */
  method Print(s: BitWriter, pos: nat, e: Emit) returns (ghost c: Coded)
    requires s.Ready() && HasCode(TableOf(true, pos), (e.rle, e.value))
    modifies s
    ensures s.Ready() && |s.out| + s.room == old(|s.out| + s.room)
    ensures Prints(c, pos, e) && s.stream == old(s.stream) + CodedBits(c)
    ensures BitsPut(old(s.room), old(s.Kept()), old(s.Owed()), old(s.stream),
                    s.room, s.Kept(), s.Owed(), s.stream)
  {
    hide LumaDc, LumaAc, Canonical, CodedBits, Bits, Good, BitWriter.Kept, BitWriter.Owed, BitWriter.Backlog, BitsPut,
      Offset, Width;
    AllCanonical(pos);
    HasOne(TableOf(true, pos), e.rle, e.value);
    var found;
    found, c := OutJpegInt(s, TableOf(true, pos), e.rle, e.value);
  }

  ghost predicate Prints(c: Coded, pos: nat, e: Emit) {
    Good(c) && c.t == TableOf(true, pos) && c.rle == e.rle && c.value == e.value
  }

  lemma AllCanonical(pos: nat)
    ensures Canonical(TableOf(true, pos))
  {
    hide Canonical, Offset;
    DcCanonical();
    AcCanonical();
  }

  lemma HasOne(t: Table, rle: nat, value: int)
    requires |t.counts| == 16 && HasCode(t, (rle, value))
    ensures exists k :: 0 <= k < Offset(t, 17) && t.symbols[k] == rle * 16 + Width(Abs(value))
    ensures rle < 16 && Width(Abs(value)) < 16
  {}

  lemma LumaAcOffsets()
    ensures var t := LumaAc();
      Offset(t, 5) == 6 && Offset(t, 6) == 9 && Offset(t, 11) == 28 && Offset(t, 12) == 32 && First(t, 11) == 2038
  {
    var t := LumaAc();
    assert First(t, 2) == 0 && First(t, 3) == 4 && Offset(t, 2) == 0 && Offset(t, 3) == 2;
    assert First(t, 4) == 10 && First(t, 5) == 26 && Offset(t, 4) == 3 && Offset(t, 5) == 6;
    assert First(t, 6) == 58 && First(t, 7) == 120 && Offset(t, 6) == 9 && Offset(t, 7) == 11;
    assert First(t, 8) == 248 && First(t, 9) == 502 && Offset(t, 8) == 15 && Offset(t, 9) == 18;
    assert First(t, 10) == 1014 && First(t, 11) == 2038 && Offset(t, 10) == 23 && Offset(t, 11) == 28;
  }

  /** The places of the three symbols, and the lengths of their codes. */
  lemma Lengths()
    ensures HasCode(LumaDc(), (0, 16)) && HasCode(LumaAc(), (1, 2)) && HasCode(LumaAc(), (15, 0))
    ensures CodeWidth(LumaDc(), 5, 1) == 3 && CodeWidth(LumaAc(), 7, 1) == 5 && CodeWidth(LumaAc(), 31, 1) == 11
    ensures Width(16) == 5 && Width(2) == 2 && Width(0) == 0
  {
    hide CodeWidth, Offset, First, HasCode, LumaDc, LumaAc, Width;
    SomeWidths();
    DcHasCode(LumaDc(), 16);
    AcHasCode(LumaAc(), 1, 2);
    AcHasCode(LumaAc(), 15, 0);
    LumaDcOffsets(5);
    CodeWidthIs(LumaDc(), 5, 1, 3);
    LumaAcOffsets();
    CodeWidthIs(LumaAc(), 7, 1, 5);
    CodeWidthIs(LumaAc(), 31, 1, 11);
  }

  lemma Places(pos: nat, e: Emit)
    ensures pos == 0 && e == Emit(0, 0, 16) ==> PlaceOf(true, pos, e) == 5
    ensures pos == 1 && e == Emit(0, 1, 2) ==> PlaceOf(true, pos, e) == 7
    ensures pos == 1 && e == Emit(0, 15, 0) ==> PlaceOf(true, pos, e) == 31
  {
    hide LumaPlace, Width;
    SomeWidths();
    SomePlaces();
  }

  lemma SomeWidths()
    ensures Width(16) == 5 && Width(2) == 2 && Width(0) == 0
  {
    assert Width(16) == 1 + Width(8) == 2 + Width(4) == 3 + Width(2);
  }

  lemma SomePlaces()
    ensures LumaPlace(0x12) == 7 && LumaPlace(0xf0) == 31
  {}

  /** How many bits they are. */
  lemma PrintedBits(c: Coded, pos: nat, e: Emit)
    requires Prints(c, pos, e) && pos <= 1
    ensures pos == 0 && e == Emit(0, 0, 16) ==> |CodedBits(c)| == 8
    ensures pos == 1 && e == Emit(0, 1, 2) ==> |CodedBits(c)| == 7
    ensures pos == 1 && e == Emit(0, 15, 0) ==> CodedBits(c) == Bits(2041, 11)
  {
    hide CodeWidth, Offset, First, HasCode, LumaDc, LumaAc, LumaPlace, LumaSymbol, Canonical, Bits, PlaceOf, Width;
    Lengths();
    Places(pos, e);
    LumaAcOffsets();
    if pos == 0 ==> e.rle == 0 {
      PlaceIs(true, pos, e, c.index);
      CodeWidthIs(c.t, c.index, 1, c.width);
    }
    NoneIsNone();
    assert Bits(2041, 11) + [] == Bits(2041, 11);
  }

  lemma {:induction false} BitAt(x: nat, n: nat, i: nat)
    requires i < n
    ensures Bits(x, n)[i] <==> Over(x, Pow2(n - 1 - i)) % 2 == 1
  {
    if i < n - 1 {
      BitAt(x / 2, n - 1, i);
      DivDiv(x, 2, Pow2(n - 2 - i));
    }
  }

  lemma SecondBit()
    ensures Bits(2041, 11)[1]
  {
    BitAt(2041, 11, 1);
    EightBits();
    assert Pow2(9) == 512;
  }

  lemma NumOfSuffix(a: seq<bool>, b: seq<bool>)
    ensures Num(a + b) >= Num(b)
  {
    hide Num, Pow2;
    NumConcat(a, b);
    MulMono(Pow2(|b|), 0, Num(a));
  }

  /** The last ten bits of a code of sixteen zeros, and any 24 bits more. */
  lemma MoreThanAWord(a: seq<bool>, b: seq<bool>)
    requires |a| >= 10 && a[|a| - 10..] == Bits(2041, 11)[1..] && |b| >= 24
    ensures Num(a + b) >= Pow2(32)
  {
    hide Num, Bits, Pow2;
    SecondBit();
    var tail := Bits(2041, 11)[1..];
    assert a + b == a[..|a| - 10] + (tail + b);
    NumOfSuffix(a[..|a| - 10], tail + b);
    NumAbove(tail + b);
    Pow2Monotone(32, |tail + b| - 1);
  }

  /** How far the packet is. */
  lemma RoomIs(s: BitWriter)
    requires s.Ready() && s.Kept() && !s.stuff && |s.out| + s.room == 2
    ensures s.outlen == s.Backlog() == |s.stream| - 8 * |s.out| >= 0 && (s.room > 0 ==> s.outlen < 8)
  {
    hide Taken, BitWriter.Pending, BitWriter.Owed, BitWriter.Kept;
    s.BacklogIs();
    AllTaken(s.out);
  }

  /** What is owed after eleven bits that filled the packet. */
  lemma TenBehind(s: BitWriter, stream: seq<bool>, z: seq<bool>)
    requires s.Kept() && !s.stuff && s.Backlog() >= 10 && s.stream == stream + z && |z| == 11
    ensures |s.Owed()| >= 10 && s.Owed()[|s.Owed()| - 10..] == z[1..]
  {
    hide Taken, BitWriter.Pending, BitWriter.Kept;
    AllTaken(s.out);
    s.BacklogIs();
    OwedIs(s);
    EndOf(s.stream, stream, z, s.Backlog());
  }

  lemma OwedIs(s: BitWriter)
    requires !Taken(s.out, s.stuff).1 && s.Backlog() >= 0
    ensures s.Owed() == s.stream[|s.stream| - s.Backlog()..] && |s.Owed()| == s.Backlog()
  {
    hide Taken;
  }

  lemma EndOf(s: seq<bool>, a: seq<bool>, b: seq<bool>, k: nat)
    requires s == a + b && 10 <= k <= |s| && |b| == 11
    ensures s[|s| - k..][k - 10..] == b[1..]
  {
    assert s[|s| - k..][k - 10..] == s[|s| - 10..];
    assert s[|s| - 10..] == b[1..];
  }

  /** What was put out, each in its code. */
  ghost predicate AllPrint(cs: seq<Coded>, es: seq<Emit>) {
    |cs| == |es| && forall i :: 0 <= i < |cs| ==> Prints(cs[i], if i == 0 then 0 else 1, es[i])
  }

  lemma AllGoodThen(cs: seq<Coded>, es: seq<Emit>)
    requires AllPrint(cs, es)
    ensures AllGood(cs)
  {}

  /** One more. */
  method PrintNext(s: BitWriter, es: seq<Emit>, n: nat, ghost cs: seq<Coded>) returns (ghost more: seq<Coded>)
    requires s.Ready() && n < |es| && AllPrint(cs, es[..n]) && AllGood(cs) && s.stream == AllBits(cs)
    requires HasCode(TableOf(true, if n == 0 then 0 else 1), (es[n].rle, es[n].value))
    modifies s
    ensures s.Ready() && |s.out| + s.room == old(|s.out| + s.room)
    ensures AllPrint(more, es[..n + 1]) && AllGood(more) && s.stream == AllBits(more)
    ensures Prints(more[n], if n == 0 then 0 else 1, es[n]) && s.stream == old(s.stream) + CodedBits(more[n])
    ensures BitsPut(old(s.room), old(s.Kept()), old(s.Owed()), old(s.stream),
                    s.room, s.Kept(), s.Owed(), s.stream)
  {
    hide LumaDc, LumaAc, HasCode, CodedBits, AllBits, Good, BitWriter.Kept, BitWriter.Owed, BitWriter.Ready, BitsPut;
    ghost var c := Print(s, if n == 0 then 0 else 1, es[n]);
    AllBitsMore(cs, c);
    more := cs + [c];
  }

  /** In a packet of two bytes fifteen bits are put out, and the first code of sixteen
      zeros fills it. */
  method FillPacket(es: seq<Emit>) returns (s: BitWriter, ghost cs: seq<Coded>)
    requires |es| == 6 && es[..3] == Block(1)[..3]
    ensures fresh(s) && s.Ready() && s.Kept() && s.room == 0 && !s.stuff && |s.out| == 2
    ensures AllPrint(cs, es[..3]) && AllGood(cs) && s.stream == AllBits(cs)
    ensures |s.Owed()| >= 10 && s.Owed()[|s.Owed()| - 10..] == Bits(2041, 11)[1..]
  {
    hide LumaDc, LumaAc, HasCode, CodedBits, AllBits, Good, Prints, Bits, BitWriter.Kept, BitWriter.Owed,
      BitWriter.Ready, BitWriter.Backlog, Width;
    Lengths();
    assert es[0] == es[..3][0] && es[1] == es[..3][1] && es[2] == es[..3][2];
    s := new BitWriter(2, false);
    NoTokens();
    cs := [];
    cs := PrintNext(s, es, 0, cs);
    PrintedBits(cs[0], 0, es[0]);
    RoomIs(s);
    cs := PrintNext(s, es, 1, cs);
    PrintedBits(cs[1], 1, es[1]);
    RoomIs(s);
    ghost var stream := s.stream;
    cs := PrintNext(s, es, 2, cs);
    PrintedBits(cs[2], 1, es[2]);
    RoomIs(s);
    TenBehind(s, stream, Bits(2041, 11));
  }

  /** Two more of them and the coefficient are more than the word holds. */
  method Overfill(s: BitWriter, es: seq<Emit>, v: int, ghost cs: seq<Coded>) returns (ghost more: seq<Coded>)
    requires es == Block(v) && v != 0 && HasCode(LumaAc(), (0, v)) && s.Ready() && s.room == 0
    requires AllPrint(cs, es[..3]) && AllGood(cs) && s.stream == AllBits(cs)
    requires |s.Owed()| >= 10 && s.Owed()[|s.Owed()| - 10..] == Bits(2041, 11)[1..]
    modifies s
    ensures s.room == 0 && |s.out| == |old(s.out)| && AllPrint(more, es) && AllGood(more) && s.stream == AllBits(more)
    ensures !s.Kept()
  {
    hide LumaDc, LumaAc, HasCode, CodedBits, AllBits, Good, Prints, Bits, Num, Pow2, BitWriter.Kept, BitWriter.Owed,
      BitWriter.Ready, Width;
    Lengths();
    ghost var owed, stream := s.Owed(), s.stream;
    more := PrintNext(s, es, 3, cs);
    PrintedBits(more[3], 1, es[3]);
    ghost var owed1, stream1 := s.Owed(), s.stream;
    more := PrintNext(s, es, 4, more);
    PrintedBits(more[4], 1, es[4]);
    ghost var owed2, stream2 := s.Owed(), s.stream;
    more := PrintNext(s, es, 5, more);
    TwoBits(more[5], v);
    assert es[..6] == es;
    InThree(stream, stream1, stream2, s.stream, Bits(2041, 11), owed, owed1, owed2, s.Owed());
    MoreThanAWord(owed, s.stream[|stream|..]);
  }

  lemma InThree(a: seq<bool>, b: seq<bool>, c: seq<bool>, d: seq<bool>, z: seq<bool>,
                o: seq<bool>, p: seq<bool>, q: seq<bool>, r: seq<bool>)
    requires b == a + z && c == b + z && c <= d && p == o + b[|a|..] && q == p + c[|b|..] && r == q + d[|c|..]
    ensures r == o + d[|a|..] && |d[|a|..]| == |z| + |z| + |d| - |c|
  {
    assert d[|a|..] == z + z + d[|c|..];
    assert b[|a|..] == z && c[|b|..] == z;
  }

  /** The encoder, with its packet full at the first of three codes of sixteen zeros,
      loses bits, whatever the coefficient behind them. */
  method LoseCoefficient(v: int) returns (enc: Ssdv, s: BitWriter, ghost cs: seq<Coded>)
    requires v != 0 && HasCode(LumaAc(), (0, v))
    ensures fresh(enc) && enc.Valid() && enc.encoding && enc.out == Block(v)
    ensures fresh(s) && |s.out| == 2 && s.room == 0 && AllPrint(cs, enc.out) && AllGood(cs) && s.stream == AllBits(cs)
    ensures !s.Kept()
  {
    hide LumaAc, HasCode, AllPrint, AllBits, Good, Bits, BitWriter.Kept, BitWriter.Owed, BitWriter.Ready, Ssdv.Valid;
    enc := EncodeBlock(v);
    s, cs := FillPacket(enc.out);
    cs := Overfill(s, enc.out, v, cs);
  }

  lemma TwoBits(c: Coded, v: int)
    requires Prints(c, 1, Emit(0, 0, v)) && v != 0
    ensures |CodedBits(c)| >= 2
  {}
}
