/** The SSDV transcoder after entropy decoding, one token at a time: DC values,
    requantised coefficients in their run lengths, the order of blocks and MCUs,
    packets, and the filling of gaps after lost ones. */
module SsdvMachine {
  import opened SsdvDc

  // ----- What comes out, read as a JPEG scan -----

  /** One call of ssdv_out_jpeg_int, for the component it is in. */
  datatype Emit = Emit(component: nat, rle: nat, value: int)

  /** A reader of the output: blocks complete, the place in the block it is in
      (0 where a DC value is next), the DC differences of each component summed
      up, all DC values, and whether every block has kept to its 64 places. */
  datatype Seen = Seen(done: nat, pos: nat, sums: seq<int>, dcs: seq<int>, ok: bool)

  /** Where the reader is after one more. */
  function SeePos(pos: nat, e: Emit): nat {
    if pos == 0 then 1
    else if e.value == 0 && e.rle == 0 then 0
    else if e.value != 0 && pos + e.rle + 1 == 64 then 0
    else pos + e.rle + 1
  }

  /** What a block can have at this place: a DC value, the end, sixteen zeros, or
      zeros and a coefficient. */
  predicate Fitting(pos: nat, e: Emit) {
    if pos == 0 then e.rle == 0
    else if e.value == 0 then e.rle == 0 || (e.rle == 15 && pos + 16 < 64)
    else pos + e.rle < 64
  }

  function See(s: Seen, e: Emit): Seen {
    var pos := SeePos(s.pos, e);
    Seen(if pos == 0 then s.done + 1 else s.done, pos,
         if s.pos == 0 && e.component < |s.sums| then s.sums[e.component := s.sums[e.component] + e.value] else s.sums,
         if s.pos == 0 then s.dcs + [e.value] else s.dcs,
         s.ok && Fitting(s.pos, e))
  }

  function Scan(out: seq<Emit>): Seen {
    if out == [] then Seen(0, 0, [0, 0, 0], [], true) else See(Scan(out[..|out| - 1]), out[|out| - 1])
  }

  lemma ScanMore(out: seq<Emit>, e: Emit)
    ensures Scan(out + [e]) == See(Scan(out), e)
  {
    assert (out + [e])[..|out|] == out;
  }

  lemma ScanNone()
    ensures Scan([]) == Seen(0, 0, [0, 0, 0], [], true)
  {}

  lemma AadjZero(q: Quant)
    requires Positive(q)
    ensures Aadj(q, 0) == 0
  {}

  /** No DC differences. */
  function NoChange(n: nat): (z: seq<int>)
    ensures |z| == n && forall i :: 0 <= i < n ==> z[i] == 0
  {
    seq(n, _ => 0)
  }

  /** Sixteen zeros, n times. */
  function Sixteens(c: nat, n: nat): (z: seq<Emit>)
    ensures |z| == n && forall i :: 0 <= i < n ==> z[i] == Emit(c, 15, 0)
  {
    seq(n, _ => Emit(c, 15, 0))
  }

  lemma SixteenMore(c: nat, n: nat)
    ensures Sixteens(c, n + 1) == Sixteens(c, n) + [Emit(c, 15, 0)]
  {}

  /** What an AC value puts out behind zeros held back, at the end of a block or not. */
  function AcOut(c: nat, held: nat, v: int, last: bool): seq<Emit> {
    if v != 0 then Sixteens(c, held / 16) + [Emit(c, held % 16, v)] else if last then [Emit(c, 0, 0)] else []
  }

  // ----- The state machine -----

  /** What the entropy decoder finds: a DC difference, the end of a block, sixteen
      zeros, or zeros and a coefficient. */
  datatype Token = Dc(i: int) | Eob | Zrl | Ac(zeros: nat, i: int)

  datatype Status = Ok | Eoi

  /** Where a packet header names no MCU. */
  const NO_MCU: nat := 0xffff

  /** Where the transcoder is in the image: the MCU, its part, and the place in
      the block. */
  datatype Place = Place(mcu: nat, part: nat, ac: nat)

  /** The part after one that is complete, and the MCU it is in; with only
      luminance in the input the other parts are passed over. */
  function NextPart(p: Place, yc: nat, greyscale: bool): Place {
    var part := if greyscale && p.part + 1 == yc then yc + 2 else p.part + 1;
    if part == yc + 2 then Place(p.mcu + 1, 0, 0) else Place(p.mcu, part, 0)
  }

  /** How many parts are passed over after this one. */
  function PassedOver(part: nat, yc: nat, greyscale: bool): nat {
    if greyscale && part + 1 == yc then 2 else 0
  }

  /** Empty blocks for these parts: no DC difference, and the end. */
  function Empties(from: nat, upto: nat, yc: nat): seq<Emit> {
    if upto <= from then []
    else
      var c := Component(upto - 1, yc);
      Empties(from, upto - 1, yc) + [Emit(c, 0, 0)] + [Emit(c, 0, 0)]
  }

  /** The reset is taken over at the start of an MCU. */
  function Latched(part: nat, reset: nat, next: nat): nat {
    if part == 0 && next > reset then next else reset
  }

  /** The place in the block after a token. */
  function NextAc(ac: nat, token: Token): nat {
    match token
    case Dc(_) => 1
    case Eob => 64
    case Zrl => ac + 16
    case Ac(zeros, _) => ac + zeros + 1
  }

  predicate EndsBlock(ac: nat, token: Token) {
    NextAc(ac, token) >= 64
  }

  function NextPlace(p: Place, token: Token, yc: nat, greyscale: bool): Place {
    var ac := NextAc(p.ac, token);
    if ac < 64 then p.(ac := ac) else NextPart(p, yc, greyscale)
  }

  class Ssdv {
    const encoding: bool
    const greyscale: bool
    const yc: nat
    const mcuCount: nat
    const dcQuant: (Quant, Quant)
    /** The table entries for a component and a place in the block. */
    const acQuant: (nat, nat) -> Quant

    var mcuId: nat
    var mcupart: nat
    var acpart: nat
    var component: nat
    var accrle: nat
    var dc: seq<int>
    var adc: seq<int>
    var resetMcu: nat
    var nextResetMcu: nat
    var packetMcuId: nat

    var out: seq<Emit>

    /** The blocks that are complete are those of the MCUs before, and the parts
        before, in this one; and the coefficients that are out, with the zeros held
        back, are those before this place. */
    ghost predicate Valid()
      reads this
    {
      && yc > 0 && mcupart < yc + 2 && acpart < 64 && component == Component(mcupart, yc)
      && (acpart == 0 ==> accrle == 0)
      && Scan(out).done == mcuId * (yc + 2) + mcupart
      && (acpart == 0 <==> Scan(out).pos == 0)
      && (acpart > 0 ==> Scan(out).pos + accrle == acpart)
      && (forall c, k :: Positive(acQuant(c, k)))
      && Tracking()
    }

    /** A block has just been completed, and is not counted yet. */
    ghost predicate BlockEnd()
      reads this
    {
      && yc > 0 && mcupart < yc + 2
      && Scan(out).done == mcuId * (yc + 2) + mcupart + 1 && Scan(out).pos == 0
      && (forall c, k :: Positive(acQuant(c, k)))
      && Tracking()
    }

    /** The encoder's output values are its requantised DC values; the decoder's
        emitted differences sum up to its DC values. */
    ghost predicate Tracking()
      reads this
    {
      && |dc| == 3 == |adc| && Positive(dcQuant.0) && Positive(dcQuant.1)
      && (encoding ==> forall c :: 0 <= c < 3 ==> adc[c] == Aadj(QuantOf(dcQuant, c), dc[c]))
      && (!encoding ==> dcQuant.0.s == dcQuant.0.d && dcQuant.1.s == dcQuant.1.d && Scan(out).sums == dc)
    }

    constructor (encoding: bool, greyscale: bool, yc: nat, mcuCount: nat, dcQuant: (Quant, Quant),
                 acQuant: (nat, nat) -> Quant)
      requires yc > 0 && (forall c, k :: Positive(acQuant(c, k))) && Positive(dcQuant.0) && Positive(dcQuant.1)
      requires !encoding ==> dcQuant.0.s == dcQuant.0.d && dcQuant.1.s == dcQuant.1.d
      ensures Valid() && out == [] && mcuId == mcupart == acpart == 0
      ensures resetMcu == nextResetMcu == packetMcuId == 0 && dc == adc == [0, 0, 0]
      ensures this.encoding == encoding && this.greyscale == greyscale && this.yc == yc && this.mcuCount == mcuCount
      ensures this.dcQuant == dcQuant && this.acQuant == acQuant
    {
      hide Scan, Aadj;
      ScanNone();
      AadjZero(dcQuant.0);
      AadjZero(dcQuant.1);
      this.encoding, this.greyscale, this.yc, this.mcuCount, this.dcQuant, this.acQuant :=
        encoding, greyscale, yc, mcuCount, dcQuant, acQuant;
      mcuId, mcupart, acpart, component, accrle := 0, 0, 0, 0, 0;
      dc, adc := [0, 0, 0], [0, 0, 0];
      resetMcu, nextResetMcu, packetMcuId := 0, 0, 0;
      out := [];
    }

    /** ssdv_out_jpeg_int, as far as what it writes. */
    method OutJpegInt(rle: nat, value: int)
      modifies this`out
      ensures out == old(out) + [Emit(component, rle, value)]
        && Scan(out) == See(Scan(old(out)), Emit(component, rle, value))
    {
      ScanMore(out, Emit(component, rle, value));
      out := out + [Emit(component, rle, value)];
    }

    predicate Resets()
      reads this
    {
      resetMcu == mcuId && Absolute(mcupart, yc)
    }

    /** ssdv_process, the branches of a DC value. */
    method DcValue(i: int)
      requires |dc| == 3 == |adc| && component < 3 && Positive(dcQuant.0) && Positive(dcQuant.1)
      modifies this`dc, this`adc, this`out
      ensures |dc| == 3 == |adc|
      ensures var q := QuantOf(dcQuant, component);
        var (v, n, m) :=
          if encoding then
            var (v, n) := EncodeDc(q, Enc(old(dc)[component], old(adc)[component]), Resets(), i); (v, n.dc, n.adc)
          else
            var (v, n) := DecodeDc(q, old(dc)[component], Resets(), i); (v, n, old(adc)[component]);
        && out == old(out) + [Emit(component, 0, v)]
        && Scan(out) == See(Scan(old(out)), Emit(component, 0, v))
        && dc == old(dc)[component := n] && adc == old(adc)[component := m]
    {
      hide Aadj, Uadj, See;
      var q := QuantOf(dcQuant, component);
      if i == 0 {
        if resetMcu == mcuId && (mcupart == 0 || mcupart >= yc) {
          if encoding {
            OutJpegInt(0, adc[component]);
          } else {
            OutJpegInt(0, 0 - dc[component]);
            dc := dc[component := 0];
          }
        } else {
          OutJpegInt(0, 0);
        }
      } else if resetMcu == mcuId && (mcupart == 0 || mcupart >= yc) {
        if encoding {
          dc := dc[component := dc[component] + Uadj(q, i)];
          adc := adc[component := Aadj(q, dc[component])];
          OutJpegInt(0, adc[component]);
        } else {
          OutJpegInt(0, i - dc[component]);
          dc := dc[component := i];
        }
      } else if !encoding {
        dc := dc[component := dc[component] + Uadj(q, i)];
        OutJpegInt(0, i);
      } else {
        dc := dc[component := dc[component] + Uadj(q, i)];
        var a := Aadj(q, dc[component]);
        OutJpegInt(0, a - adc[component]);
        adc := adc[component := a];
      }
    }

    /** What a DC value does to the DC state. */
    ghost predicate DcStep(c: nat, reset: bool, dc0: seq<int>, adc0: seq<int>, i: int)
      requires c < 3 == |dc0| == |adc0| && Positive(QuantOf(dcQuant, c))
      reads this
    {
      var q := QuantOf(dcQuant, c);
      if encoding then
        var n := EncodeDc(q, Enc(dc0[c], adc0[c]), reset, i).1;
        dc == dc0[c := n.dc] && adc == adc0[c := n.adc]
      else
        dc == dc0[c := DecodeDc(q, dc0[c], reset, i).1] && adc == adc0
    }

    /** And what it emits. */
    ghost function DcOut(c: nat, reset: bool, dc0: seq<int>, adc0: seq<int>, i: int): int
      requires c < 3 == |dc0| == |adc0| && Positive(QuantOf(dcQuant, c))
    {
      var q := QuantOf(dcQuant, c);
      if encoding then EncodeDc(q, Enc(dc0[c], adc0[c]), reset, i).0 else DecodeDc(q, dc0[c], reset, i).0
    }

    /** ssdv_process, looking for a code: at the start of an MCU a later reset is taken
        over, whether the code is complete or not. */
    method Latch()
      modifies this`resetMcu
      ensures resetMcu == if acpart == 0 then Latched(mcupart, old(resetMcu), nextResetMcu) else old(resetMcu)
    {
      if mcupart == 0 && acpart == 0 && nextResetMcu > resetMcu {
        resetMcu := nextResetMcu;
      }
    }

    /** What a token puts out at this place, with this value for a DC difference. */
    ghost function TokenOut(token: Token, c: nat, ac: nat, held: nat, dcOut: int): seq<Emit>
      requires forall d, k :: Positive(acQuant(d, k))
    {
      match token
      case Dc(_) => [Emit(c, 0, dcOut)]
      case Eob => [Emit(c, 0, 0)]
      case Zrl => [Emit(c, 15, 0)]
      case Ac(zeros, i) => AcOut(c, held + zeros, Badj(acQuant(c, ac + zeros), i), EndsBlock(ac, token))
    }

    /** ssdv_process on a DC value. */
    method ProcessDc(i: int)
      requires Valid() && acpart == 0
      modifies this`acpart, this`dc, this`adc, this`resetMcu, this`out
      ensures Valid() && acpart == 1
      ensures resetMcu == Latched(mcupart, old(resetMcu), nextResetMcu)
      ensures DcStep(component, Resets(), old(dc), old(adc), i)
      ensures var v := DcOut(component, Resets(), old(dc), old(adc), i);
        && out == old(out) + [Emit(component, 0, v)]
        && Scan(out) == See(Scan(old(out)), Emit(component, 0, v))
    {
      hide Aadj, Uadj, EncodeDc, DecodeDc, Scan;
      Latch();
      FinishDc(i);
    }

    /** The integer after the code of a DC value. */
    method FinishDc(i: int)
      requires Valid() && acpart == 0
      modifies this`acpart, this`dc, this`adc, this`out
      ensures Valid() && acpart == 1 && DcStep(component, Resets(), old(dc), old(adc), i)
      ensures var v := DcOut(component, Resets(), old(dc), old(adc), i);
        && out == old(out) + [Emit(component, 0, v)]
        && Scan(out) == See(Scan(old(out)), Emit(component, 0, v))
    {
      hide Aadj, Uadj, EncodeDc, DecodeDc, Scan;
      var q := QuantOf(dcQuant, component);
      if encoding {
        EncodeKeeps(q, Enc(dc[component], adc[component]), Resets(), i);
      } else {
        DecodeSums(q, dc[component], Resets(), i);
      }
      DcValue(i);
      acpart := acpart + 1;
    }

    /** A DC value whose code ends a packet and whose integer begins the next: the
        header between them does what it would do after the value, and nothing to the
        value. */
    method SplitDc(i: int, mcu: nat)
      requires Valid() && acpart == 0 && !encoding
      modifies this
      ensures Valid() && acpart == 1
      ensures resetMcu == Latched(mcupart, old(resetMcu), old(nextResetMcu))
      ensures DcStep(component, Resets(), old(dc), old(adc), i)
      ensures out == old(out) + [Emit(component, 0, DcOut(component, Resets(), old(dc), old(adc), i))]
      ensures mcuId == old(mcuId) && mcupart == old(mcupart) && component == old(component) && accrle == old(accrle)
      ensures packetMcuId == mcu && nextResetMcu == if mcu != NO_MCU then mcu else old(nextResetMcu)
    {
      hide Aadj, Uadj, EncodeDc, DecodeDc, Scan;
      Latch();
      ReadHeader(mcu);
      FinishDc(i);
    }

    /** A token that a well-formed block can have at this place. */
    predicate Fits(token: Token)
      reads this
    {
      match token
      case Dc(_) => acpart == 0
      case Eob => acpart > 0
      case Zrl => 0 < acpart && acpart + 16 < 64
      case Ac(zeros, _) => 0 < acpart && acpart + zeros < 64
    }

    /** ssdv_process, a coefficient that is not zero, after the zeros held back. */
    method PutValue(v: int)
      requires v != 0 && Scan(out).pos > 0 && Scan(out).pos + accrle < 64
      modifies this`accrle, this`out
      ensures accrle == 0
      ensures out == old(out) + Sixteens(component, old(accrle) / 16) + [Emit(component, old(accrle) % 16, v)]
      ensures var s, at := Scan(old(out)), Scan(old(out)).pos + old(accrle) + 1;
        Scan(out) == if at == 64 then s.(done := s.done + 1, pos := 0) else s.(pos := at)
    {
      hide Scan, Sixteens;
      ghost var s := Scan(out);
      ghost var k := 0;
      assert out == out + Sixteens(component, 0);
      while accrle >= 16
        invariant Scan(out) == s.(pos := s.pos + 16 * k) && old(accrle) == 16 * k + accrle
        invariant out == old(out) + Sixteens(component, k)
      {
        OutJpegInt(15, 0);
        accrle := accrle - 16;
        SixteenMore(component, k);
        k := k + 1;
      }
      OutJpegInt(accrle, v);
      accrle := 0;
    }

    /** ssdv_process, an AC value: zeros held back go out with the next value that
        is not zero after requantisation. */
    method AcValue(zeros: nat, i: int)
      requires Valid() && 0 < acpart && acpart + zeros < 64
      modifies this`acpart, this`accrle, this`out
      ensures acpart == old(acpart) + zeros + 1
      ensures if acpart < 64 then Valid() else BlockEnd()
      ensures Scan(out).dcs == old(Scan(out).dcs) && Scan(out).ok == old(Scan(out).ok) && old(out) <= out
      ensures var v := Badj(acQuant(component, acpart - 1), i);
        var held := old(accrle) + zeros;
        && out == old(out) + AcOut(component, held, v, acpart == 64)
        && accrle == if v != 0 || acpart == 64 then 0 else held + 1
    {
      hide Scan, Irdiv, Aadj;
      acpart := acpart + zeros;
      var v := Badj(acQuant(component, acpart), i);
      if v != 0 {
        accrle := accrle + zeros;
        PutValue(v);
      } else if acpart >= 63 {
        OutJpegInt(0, 0);
        accrle := 0;
      } else {
        accrle := accrle + zeros + 1;
      }
      acpart := acpart + 1;
    }

    /** A block without coefficients: a DC difference of zero, and its end. */
    method EmptyBlock(part: nat)
      requires Scan(out).pos == 0 && Tracking() && part < yc + 2 && yc > 0
      modifies this`component, this`acpart, this`out
      ensures Scan(out).pos == 0 && Scan(out).done == old(Scan(out).done) + 1 && Tracking()
      ensures Scan(out).dcs == old(Scan(out).dcs) + NoChange(1) && Scan(out).ok == old(Scan(out).ok)
      ensures old(out) <= out
      ensures out == old(out) + [Emit(Component(part, yc), 0, 0)] + [Emit(Component(part, yc), 0, 0)]
    {
      hide Scan, Aadj;
      component := Component(part, yc);
      acpart := 0;
      OutJpegInt(0, 0);
      acpart := 1;
      OutJpegInt(0, 0);
    }

    /** ssdv_process, the end of a block. */
    method EndBlock() returns (r: Status)
      requires BlockEnd()
      modifies this`mcuId, this`mcupart, this`acpart, this`component, this`accrle, this`nextResetMcu
      modifies this`packetMcuId, this`out
      ensures r.Ok? ==> Valid()
      ensures var p := NextPart(Place(old(mcuId), old(mcupart), 0), yc, greyscale);
        && mcuId == p.mcu && mcupart == p.part && (r.Ok? ==> acpart == 0)
        && (r.Eoi? <==> p.mcu > old(mcuId) && p.mcu >= mcuCount)
        && var starts := encoding && r.Ok? && p.mcu > old(mcuId) && old(packetMcuId) == NO_MCU;
          && nextResetMcu == (if starts then mcuId else old(nextResetMcu))
          && packetMcuId == (if starts then mcuId else old(packetMcuId))
      ensures r.Eoi? ==> Scan(out).done == mcuId * (yc + 2) && Scan(out).pos == 0
      ensures Scan(out).dcs == old(Scan(out).dcs) + NoChange(PassedOver(old(mcupart), yc, greyscale))
      ensures Scan(out).ok == old(Scan(out).ok) && old(out) <= out
      ensures out == old(out) + Empties(yc, yc + PassedOver(old(mcupart), yc, greyscale), yc)
    {
      hide Scan, See, Aadj;
      assert Scan(out).dcs == Scan(out).dcs + NoChange(0);
      mcupart := mcupart + 1;
      if greyscale && mcupart == yc {
        FillMcu();
      }
      r := Ok;
      if mcupart == yc + 2 {
        r := NextMcu();
        if r.Eoi? {
          return;
        }
      }
      component := Component(mcupart, yc);
      acpart := 0;
      accrle := 0;
    }

    /** ssdv_process, the end of an MCU: the end of the image, or the next MCU, which
        for the encoder is the first of its packet if the packet has none yet. */
    method NextMcu() returns (r: Status)
      requires mcupart == yc + 2
      modifies this`mcuId, this`mcupart, this`nextResetMcu, this`packetMcuId
      ensures mcuId == old(mcuId) + 1 && mcupart == 0 && (r.Eoi? <==> mcuId >= mcuCount)
      ensures old(mcuId) * (yc + 2) + (yc + 2) == mcuId * (yc + 2)
      ensures var starts := encoding && r.Ok? && old(packetMcuId) == NO_MCU;
        && nextResetMcu == (if starts then mcuId else old(nextResetMcu))
        && packetMcuId == (if starts then mcuId else old(packetMcuId))
    {
      mcupart := 0;
      McuStep(mcuId, yc);
      mcuId := mcuId + 1;
      if mcuId >= mcuCount {
        return Eoi;
      }
      if encoding && packetMcuId == NO_MCU {
        nextResetMcu := mcuId;
        packetMcuId := mcuId;
      }
      r := Ok;
    }

    lemma McuStep(m: nat, yc: nat)
      ensures (m + 1) * (yc + 2) == m * (yc + 2) + (yc + 2)
    {}

    /** ssdv_process, on what the entropy decoder found. It moves to the next place,
        and only a DC value changes the DC state. Up to the end of the image the
        blocks complete in the output are those the counters say. */
    method Process(token: Token) returns (r: Status)
      requires Valid() && Fits(token)
      modifies this
      ensures r.Ok? ==> Valid()
      ensures var p := NextPlace(Place(old(mcuId), old(mcupart), old(acpart)), token, yc, greyscale);
        && mcuId == p.mcu && mcupart == p.part && (r.Ok? ==> acpart == p.ac)
        && (r.Eoi? <==> p.mcu > old(mcuId) && p.mcu >= mcuCount)
      ensures r.Eoi? ==> Scan(out).done == mcuId * (yc + 2) && Scan(out).pos == 0
      ensures var passed := if EndsBlock(old(acpart), token) then PassedOver(old(mcupart), yc, greyscale) else 0;
        out == old(out) + TokenOut(token, old(component), old(acpart), old(accrle),
                                   if token.Dc? then DcOut(old(component), Resets(), old(dc), old(adc), token.i) else 0)
               + Empties(yc, yc + passed, yc)
      ensures token.Ac? && !EndsBlock(old(acpart), token) ==>
        var held, v := old(accrle) + token.zeros, Badj(acQuant(old(component), acpart - 1), token.i);
        component == old(component) && accrle == if v != 0 then 0 else held + 1
      ensures !token.Dc? ==> dc == old(dc) && adc == old(adc) && resetMcu == old(resetMcu)
      ensures token.Dc? ==>
        && resetMcu == Latched(old(mcupart), old(resetMcu), nextResetMcu)
        && DcStep(old(component), Resets(), old(dc), old(adc), token.i)
      ensures Scan(out).dcs == old(Scan(out).dcs) +
        (if token.Dc? then [DcOut(old(component), Resets(), old(dc), old(adc), token.i)]
         else if EndsBlock(old(acpart), token) then NoChange(PassedOver(old(mcupart), yc, greyscale)) else [])
      ensures Scan(out).ok == old(Scan(out).ok) && old(out) <= out
      ensures var starts := encoding && r.Ok? && mcuId > old(mcuId) && old(packetMcuId) == NO_MCU;
        && nextResetMcu == (if starts then mcuId else old(nextResetMcu))
        && packetMcuId == (if starts then mcuId else old(packetMcuId))
    {
      hide Scan, EncodeDc, DecodeDc, Aadj, AcOut, Badj, DcStep, DcOut, TokenOut;
      TakeToken(token);
      r := Ok;
      if acpart >= 64 {
        r := EndBlock();
      }
    }

    /** What a token does before its block may be complete. */
    method TakeToken(token: Token)
      requires Valid() && Fits(token)
      modifies this`acpart, this`accrle, this`dc, this`adc, this`resetMcu, this`out
      ensures acpart == NextAc(old(acpart), token) && if acpart < 64 then Valid() else BlockEnd()
      ensures token.Dc? ==>
        && resetMcu == Latched(old(mcupart), old(resetMcu), nextResetMcu)
        && DcStep(component, Resets(), old(dc), old(adc), token.i)
      ensures out == old(out) + TokenOut(token, component, old(acpart), old(accrle),
        if token.Dc? then DcOut(component, Resets(), old(dc), old(adc), token.i) else 0)
      ensures token.Ac? ==>
        var held, v := old(accrle) + token.zeros, Badj(acQuant(component, acpart - 1), token.i);
        accrle == if v != 0 || acpart == 64 then 0 else held + 1
      ensures !token.Dc? ==> dc == old(dc) && adc == old(adc) && resetMcu == old(resetMcu)
      ensures Scan(out).dcs == old(Scan(out).dcs) +
        if token.Dc? then [DcOut(component, Resets(), old(dc), old(adc), token.i)] else []
      ensures Scan(out).ok == old(Scan(out).ok) && old(out) <= out
    {
      hide Scan, EncodeDc, DecodeDc, Aadj, AcOut, Badj;
      match token {
        case Dc(i) => ProcessDc(i);
        case Eob =>
          OutJpegInt(0, 0);
          acpart := 64;
        case Zrl =>
          OutJpegInt(15, 0);
          acpart := acpart + 16;
        case Ac(zeros, i) => AcValue(zeros, i);
      }
    }

    /** ssdv_enc_get_packet, a packet that is complete: the first MCU of the next
        one is not known yet. */
    method EndPacket()
      requires encoding && Valid()
      modifies this`packetMcuId
      ensures Valid() && packetMcuId == NO_MCU
    {
      hide Scan, Aadj;
      packetMcuId := NO_MCU;
    }

    /** ssdv_dec_feed, the header of a packet with its first MCU, if one begins in
        it; after a loss the gap up to there is filled. */
    method EnterPacket(mcu: nat, lost: bool)
      requires !encoding && Valid()
      modifies this
      ensures Valid() && packetMcuId == mcu && resetMcu == old(resetMcu) && dc == old(dc) && adc == old(adc)
      ensures nextResetMcu == if mcu != NO_MCU then mcu else old(nextResetMcu)
      ensures !lost || mcu == NO_MCU ==>
        mcuId == old(mcuId) && mcupart == old(mcupart) && acpart == old(acpart) && out == old(out)
      ensures lost && mcu != NO_MCU ==>
        && mcupart == acpart == 0
        && var m := if old(mcupart) > 0 || old(acpart) > 0 then old(mcuId) + 1 else old(mcuId);
          mcuId == if m < mcu then mcu else m
    {
      hide Scan, Aadj;
      ReadHeader(mcu);
      if mcu != NO_MCU && lost { FillGap(mcu); }
    }

    /** What a header sets. */
    method ReadHeader(mcu: nat)
      modifies this`packetMcuId, this`nextResetMcu
      ensures packetMcuId == mcu && nextResetMcu == if mcu != NO_MCU then mcu else old(nextResetMcu)
    {
      packetMcuId := mcu;
      if mcu != NO_MCU {
        nextResetMcu := mcu;
      }
    }

    /** ssdv_fill_gap, and the new start of the decoder behind it: the MCU that was
        cut off is ended, and the MCUs lost are empty ones. */
    method FillGap(nextMcu: nat)
      requires Valid()
      modifies this`mcuId, this`mcupart, this`acpart, this`component, this`accrle, this`out
      ensures Valid() && mcupart == acpart == 0 && dc == old(dc)
      ensures var m := if old(mcupart) > 0 || old(acpart) > 0 then old(mcuId) + 1 else old(mcuId);
        mcuId == if m < nextMcu then nextMcu else m
    {
      hide Scan, See, Aadj;
      CloseMcu();
      while mcuId < nextMcu
        invariant yc > 0 && Tracking() && Scan(out).pos == 0 && Scan(out).done == mcuId * (yc + 2)
        invariant mcuId >= old(mcuId) && (mcuId <= nextMcu || mcuId <= old(mcuId) + 1)
        invariant mcuId <= nextMcu || mcuId == if old(mcupart) > 0 || old(acpart) > 0 then old(mcuId) + 1
          else old(mcuId)
      {
        mcupart := 0;
        FillMcu();
        McuStep(mcuId, yc);
        mcuId := mcuId + 1;
      }
      component, mcupart, acpart, accrle := 0, 0, 0, 0;
    }

    /** The MCU that is cut off, if one is, with the part of it cut off. */
    method CloseMcu()
      requires Valid()
      modifies this`mcuId, this`mcupart, this`acpart, this`component, this`out
      ensures Tracking() && Scan(out).pos == 0 && Scan(out).done == mcuId * (yc + 2)
      ensures mcuId == if old(mcupart) > 0 || old(acpart) > 0 then old(mcuId) + 1 else old(mcuId)
    {
      hide Scan, Aadj;
      if mcupart > 0 || acpart > 0 {
        if acpart > 0 {
          OutJpegInt(0, 0);
          mcupart := mcupart + 1;
        }
        FillMcu();
        McuStep(mcuId, yc);
        mcuId := mcuId + 1;
      }
    }

    /** The parts left of an MCU, as empty blocks. */
    method FillMcu()
      requires yc > 0 && mcupart <= yc + 2 && Tracking() && Scan(out).pos == 0
      requires Scan(out).done == mcuId * (yc + 2) + mcupart
      modifies this`mcupart, this`acpart, this`component, this`out
      ensures mcupart == yc + 2 && Tracking() && Scan(out).pos == 0 && Scan(out).done == mcuId * (yc + 2) + (yc + 2)
      ensures Scan(out).dcs == old(Scan(out).dcs) + NoChange(yc + 2 - old(mcupart)) && Scan(out).ok == old(Scan(out).ok)
      ensures old(out) <= out && out == old(out) + Empties(old(mcupart), yc + 2, yc)
    {
      hide Scan, See, Aadj;
      assert Scan(out).dcs == Scan(out).dcs + NoChange(0);
      while mcupart < yc + 2
        invariant old(mcupart) <= mcupart <= yc + 2 && Tracking() && Scan(out).pos == 0 && old(out) <= out
        invariant Scan(out).dcs == old(Scan(out).dcs) + NoChange(mcupart - old(mcupart))
          && Scan(out).ok == old(Scan(out).ok)
        invariant Scan(out).done == mcuId * (yc + 2) + mcupart
        invariant out == old(out) + Empties(old(mcupart), mcupart, yc)
      {
        EmptyBlock(mcupart);
        mcupart := mcupart + 1;
      }
    }
  }
}
