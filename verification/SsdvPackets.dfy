/** The transcoder over packets of a fixed size: which MCU is the first of each, when
    a decoder reads the header that names it, and when that is too early. */
module SsdvPackets {
  import opened Arith
  import opened SsdvDc
  import opened SsdvMachine
  import opened SsdvImage
  import opened SsdvRun
  import opened SsdvFollow
  import opened SsdvLayout
  import opened StdTables

  // ----- Packets of `size` bytes -----

  /** The packet that bit `at` is in, and the byte of its payload. */
  function PacketOf(size: nat, at: nat): nat
    requires size > 0
  {
    at / 8 / size
  }

  function OffsetIn(size: nat, at: nat): nat
    requires size > 0
  {
    at / 8 % size
  }

  predicate StartsAt(yc: nat, resets: set<nat>, out: seq<Emit>, n: nat)
    requires n <= |out|
  {
    StartsReset(yc, resets, Scan(out[..n]))
  }

  /** The MCUs that reset begin in packets of their own, so that each has a header to
      name it. */
  ghost predicate OneEach(size: nat, yc: nat, resets: set<nat>, out: seq<Emit>)
    requires size > 0
  {
    forall a, b :: 0 <= a < b <= |out| && StartsAt(yc, resets, out, a) && StartsAt(yc, resets, out, b) ==>
      PacketAt(size, yc, resets, out, a) < PacketAt(size, yc, resets, out, b)
  }

  ghost predicate Begun(yc: nat, out: seq<Emit>, m: nat) {
    exists n :: 0 <= n <= |out| && StartsAt(yc, {m}, out, n)
  }

  ghost predicate AllBegun(yc: nat, resets: set<nat>, out: seq<Emit>) {
    forall m :: m in resets ==> Begun(yc, out, m)
  }

  lemma StartsOne(yc: nat, resets: set<nat>, s: Seen, m: nat)
    requires yc > 0
    ensures StartsReset(yc, {m}, s) <==> s.pos == 0 && s.done == m * (yc + 2)
    ensures StartsReset(yc, resets, s) <==> StartsReset(yc, {McuOf(s.done, yc)}, s) && McuOf(s.done, yc) in resets
  {
    BlockIs(m, 0, yc);
    assert s.done == McuOf(s.done, yc) * (yc + 2) + PartOf(s.done, yc);
  }

  // ----- Headers -----

  /** Where the MCUs that reset begin, from one of them on. */
  function Begins(yc: nat, resets: set<nat>, out: seq<Emit>, from: nat, upto: nat): (b: seq<nat>)
    requires from <= upto <= |out|
    ensures |b| > 0 && b[0] == from && forall j :: 0 <= j < |b| ==> from <= b[j] <= upto
    decreases upto
  {
    if upto == from then [from]
    else
      var b := Begins(yc, resets, out, from, upto - 1);
      if StartsAt(yc, resets, out, upto) then b + [upto] else b
  }

  lemma {:induction false} BeginsAre(yc: nat, resets: set<nat>, out: seq<Emit>, from: nat, upto: nat, b: seq<nat>)
    requires from <= upto <= |out| && StartsAt(yc, resets, out, from) && b == Begins(yc, resets, out, from, upto)
    ensures forall j :: 0 <= j < |b| ==> StartsAt(yc, resets, out, b[j])
    ensures forall i, j :: 0 <= i < j < |b| ==> b[i] < b[j]
    decreases upto
  {
    hide StartsAt;
    if upto > from {
      var c := Begins(yc, resets, out, from, upto - 1);
      BeginsAre(yc, resets, out, from, upto - 1, c);
      assert b == if StartsAt(yc, resets, out, upto) then c + [upto] else c;
    }
  }

  lemma {:induction false} IsBegin(yc: nat, resets: set<nat>, out: seq<Emit>, from: nat, upto: nat, n: nat)
    requires from <= n <= upto <= |out| && StartsAt(yc, resets, out, n)
    ensures n in Begins(yc, resets, out, from, upto)
    decreases upto
  {
    hide StartsAt;
    if from < upto && n < upto { IsBegin(yc, resets, out, from, upto - 1, n); }
  }

  /** The MCU there, and the packet whose header names it. */
  function McuAt(yc: nat, out: seq<Emit>, n: nat): nat
    requires n <= |out|
  {
    McuOf(Scan(out[..n]).done, yc)
  }

  function PacketAt(size: nat, yc: nat, resets: set<nat>, out: seq<Emit>, n: nat): nat
    requires size > 0 && n <= |out|
  {
    PacketOf(size, Start(yc, resets, out, n))
  }

  /** When that header is read, all codes that end in earlier packets are complete, and
      no others. */
  function ReadAt(size: nat, yc: nat, resets: set<nat>, out: seq<Emit>, n: nat): nat
    requires size > 0 && n <= |out|
  {
    Codes(yc, resets, out, |out|, 8 * (size * PacketAt(size, yc, resets, out, n)))
  }

  /** What a decoder hears that begins with the MCU at `from`. */
  function Heads(size: nat, yc: nat, resets: set<nat>, out: seq<Emit>, from: nat): (h: seq<Head>)
    requires size > 0 && from <= |out|
  {
    var b := Begins(yc, resets, out, from, |out|);
    seq(|b|, j requires 0 <= j < |b| =>
      Head(if j == 0 then from else ReadAt(size, yc, resets, out, b[j]), McuAt(yc, out, b[j])))
  }

  /** The header that comes after the one of the MCU at a is too early: it is in the
      next packet, and the MCU begins in the last byte of its own, with a DC value of
      eleven bits. */
  predicate TooEarly(size: nat, yc: nat, resets: set<nat>, out: seq<Emit>, a: nat, b: nat)
    requires size > 0 && b <= |out|
  {
    && a < |out| && PacketAt(size, yc, resets, out, b) == PacketAt(size, yc, resets, out, a) + 1
    && OffsetIn(size, Start(yc, resets, out, a)) == size - 1
    && WidthOf(out[a].value) == 11
  }

  /** It is then, and only then, that the code of this value is not complete. */
  lemma EarlyIff(size: nat, yc: nat, resets: set<nat>, out: seq<Emit>, a: nat, b: nat)
    requires size > 0 && yc > 0 && a < b <= |out| && StartsAt(yc, resets, out, a) && Coded(yc, out)
    requires PacketAt(size, yc, resets, out, a) < PacketAt(size, yc, resets, out, b)
    ensures a < ReadAt(size, yc, resets, out, b) <==> !TooEarly(size, yc, resets, out, a, b)
  {
    hide Scan, Coded, Start, PacketOf, OffsetIn, LumaDc, CodeWidth, Codes, WidthOf;
    var at := Start(yc, resets, out, a);
    CodesIs(yc, resets, out, |out|, 8 * (size * PacketAt(size, yc, resets, out, b)), a);
    StartAligned(yc, resets, out, a);
    var w := CodeLen(yc, Scan(out[..a]), out[a]);
    LumaDcWidths(WidthOf(out[a].value));
    CodedAt(yc, out, a);
    Crosses(size, at, w, PacketAt(size, yc, resets, out, b));
  }

  lemma StartAligned(yc: nat, resets: set<nat>, out: seq<Emit>, a: nat)
    requires a <= |out| && StartsAt(yc, resets, out, a)
    ensures Start(yc, resets, out, a) % 8 == 0
  {
    hide Scan;
    ResetAligned(yc, resets, out[..a]);
  }

  lemma CodedAt(yc: nat, out: seq<Emit>, n: nat)
    requires Coded(yc, out) && n < |out|
    ensures CodeLen(yc, Scan(out[..n]), out[n]) > 0
  {}

  /** A code of up to nine bits that begins at a byte ends in that byte's packet, but
      for one of nine bits that begins in the last. */
  lemma Crosses(size: nat, at: nat, w: nat, p: nat)
    requires size > 0 && at % 8 == 0 && 0 < w <= 9 && PacketOf(size, at) < p
    ensures at + w <= 8 * (size * p) <==>
      !(p == PacketOf(size, at) + 1 && OffsetIn(size, at) == size - 1 && w == 9)
  {
    var q, o, byte := PacketOf(size, at), OffsetIn(size, at), at / 8;
    assert byte == size * q + o;
    MulMono(size, q + 1, p);
    assert size * (q + 1) == size * q + size;
    if p > q + 1 {
      MulMono(size, q + 2, p);
      assert size * (q + 2) == size * q + size + size;
    }
  }

  // ----- When the headers are in time -----

  lemma InOrder(yc: nat, resets: set<nat>, out: seq<Emit>, a: nat, b: nat)
    requires yc > 0 && a < b <= |out| && StartsAt(yc, resets, out, a) && StartsAt(yc, resets, out, b)
    ensures McuAt(yc, out, a) < McuAt(yc, out, b)
  {
    hide Scan;
    PlacesGrow(out, a, b);
    StartsOne(yc, resets, Scan(out[..a]), McuAt(yc, out, a));
    StartsOne(yc, resets, Scan(out[..b]), McuAt(yc, out, b));
    if McuAt(yc, out, b) <= McuAt(yc, out, a) { MulMono(yc + 2, McuAt(yc, out, b), McuAt(yc, out, a)); }
  }

  /** Up to where an MCU begins, and not beyond, a place is not after its start. */
  lemma NotAfterIff(yc: nat, resets: set<nat>, out: seq<Emit>, n: nat, b: nat)
    requires yc > 0 && n <= |out| && b <= |out| && StartsAt(yc, resets, out, b)
    ensures NotAfter(Scan(out[..n]), McuAt(yc, out, b), yc) <==> n <= b
  {
    hide Scan;
    StartsOne(yc, resets, Scan(out[..b]), McuAt(yc, out, b));
    if n < b { PlacesGrow(out, n, b); } else if b < n { PlacesGrow(out, b, n); }
  }

  /** A header is read before the MCU it names begins. */
  lemma ReadBefore(size: nat, yc: nat, resets: set<nat>, out: seq<Emit>, b: nat)
    requires size > 0 && b <= |out| && Coded(yc, out)
    ensures ReadAt(size, yc, resets, out, b) <= b
  {
    hide Scan, Coded, Start, CodeLen, Codes;
    if b < |out| {
      var at, p := Start(yc, resets, out, b), PacketAt(size, yc, resets, out, b);
      var limit := 8 * (size * p);
      CodesIs(yc, resets, out, |out|, limit, b);
      CodedAt(yc, out, b);
      assert at / 8 == size * p + at / 8 % size;
    }
  }

  predicate NoneEarly(size: nat, yc: nat, resets: set<nat>, out: seq<Emit>, b: seq<nat>)
    requires size > 0 && forall j :: 0 <= j < |b| ==> b[j] <= |out|
  {
    forall j :: 0 <= j < |b| - 1 ==> !TooEarly(size, yc, resets, out, b[j], b[j + 1])
  }

  /** From one MCU on, no header comes too early. */
  predicate InTime(size: nat, yc: nat, resets: set<nat>, out: seq<Emit>, from: nat)
    requires size > 0 && from <= |out|
  {
    NoneEarly(size, yc, resets, out, Begins(yc, resets, out, from, |out|))
  }

  /** How the encoder lays its values out in packets. */
  ghost predicate Laid(size: nat, yc: nat, resets: set<nat>, out: seq<Emit>)
    requires size > 0
  {
    OneEach(size, yc, resets, out) && AllBegun(yc, resets, out) && forall m :: m in resets ==> m < NO_MCU
  }

  /** The header of each MCU is read when none before is begun too late. */
  lemma PassedIff(size: nat, yc: nat, resets: set<nat>, out: seq<Emit>, b: seq<nat>, i: nat, j: nat)
    requires size > 0 && yc > 0 && i < j < |b| && Coded(yc, out) && OneEach(size, yc, resets, out)
    requires forall k :: 0 <= k < |b| ==> b[k] <= |out| && StartsAt(yc, resets, out, b[k])
    requires forall k, l :: 0 <= k < l < |b| ==> b[k] < b[l]
    ensures NoneEarly(size, yc, resets, out, b) ==> b[i] < ReadAt(size, yc, resets, out, b[j])
    ensures j == i + 1 && b[i] < ReadAt(size, yc, resets, out, b[j]) ==> !TooEarly(size, yc, resets, out, b[i], b[j])
  {
    hide Scan, Coded, StartsAt, ReadAt;
    EarlyIff(size, yc, resets, out, b[i], b[j]);
    if j > i + 1 {
      assert PacketAt(size, yc, resets, out, b[i]) < PacketAt(size, yc, resets, out, b[i + 1])
        < PacketAt(size, yc, resets, out, b[j]);
    }
  }

  /** From one MCU on, a decoder reads every header in time exactly if no MCU that
      resets begins in the last byte of a packet with a DC value of eleven bits while
      the next packet has a header for it to meet. */
  lemma TimelyIff(size: nat, yc: nat, resets: set<nat>, out: seq<Emit>, from: nat)
    requires size > 0 && yc > 0 && from <= |out| && StartsAt(yc, resets, out, from) && Coded(yc, out)
    requires Laid(size, yc, resets, out)
    ensures Timely(yc, resets, out, Heads(size, yc, resets, out, from)) <==> InTime(size, yc, resets, out, from)
  {
    hide Scan, Coded, Start, OneEach, ReadAt, StartsAt, AllBegun, TooEarly, McuAt, NotAfter;
    var b, h := Begins(yc, resets, out, from, |out|), Heads(size, yc, resets, out, from);
    BeginsAre(yc, resets, out, from, |out|, b);
    forall j | 0 <= j < |b| ensures HeadGood(yc, resets, out, h[j], b[j]) {
      OneHead(size, yc, resets, out, h[j], b[j], j == 0);
    }
    forall i, j | 0 <= i < j < |b|
      ensures h[i].mcu < h[j].mcu && (!NotAfter(Scan(out[..h[j].at]), h[i].mcu, yc) <==> b[i] < h[j].at)
      ensures InTime(size, yc, resets, out, from) ==> b[i] < h[j].at
      ensures j == i + 1 && b[i] < h[j].at ==> !TooEarly(size, yc, resets, out, b[i], b[j])
    {
      InOrder(yc, resets, out, b[i], b[j]);
      NotAfterIff(yc, resets, out, h[j].at, b[i]);
      PassedIff(size, yc, resets, out, b, i, j);
    }
    AllNamed(yc, resets, out, from, b, h);
    FromStart(yc, resets, out, from);
    if Timely(yc, resets, out, h) {
      forall j | 0 <= j < |b| - 1 ensures !TooEarly(size, yc, resets, out, b[j], b[j + 1]) {
        assert h[j].mcu < h[j + 1].mcu && !NotAfter(Scan(out[..h[j + 1].at]), h[j].mcu, yc);
      }
    }
  }

  ghost predicate HeadGood(yc: nat, resets: set<nat>, out: seq<Emit>, h: Head, b: nat)
    requires b <= |out|
  {
    && h.at <= |out| && h.mcu in resets && h.mcu == McuAt(yc, out, b) && h.mcu != NO_MCU
    && NotAfter(Scan(out[..h.at]), h.mcu, yc)
  }

  lemma OneHead(size: nat, yc: nat, resets: set<nat>, out: seq<Emit>, h: Head, b: nat, first: bool)
    requires size > 0 && yc > 0 && b <= |out| && StartsAt(yc, resets, out, b) && Coded(yc, out)
    requires h == Head(if first then b else ReadAt(size, yc, resets, out, b), McuAt(yc, out, b))
    requires forall m :: m in resets ==> m < NO_MCU
    ensures HeadGood(yc, resets, out, h, b)
  {
    hide Scan, Coded, ReadAt, NotAfter;
    ReadBefore(size, yc, resets, out, b);
    NotAfterIff(yc, resets, out, h.at, b);
  }

  lemma FromStart(yc: nat, resets: set<nat>, out: seq<Emit>, from: nat)
    requires yc > 0 && from <= |out| && StartsAt(yc, resets, out, from)
    ensures Scan(out[..from]).done == McuAt(yc, out, from) * (yc + 2) && Scan(out[..from]).pos == 0
  {
    hide Scan;
    StartsOne(yc, resets, Scan(out[..from]), McuAt(yc, out, from));
  }

  lemma AllNamed(yc: nat, resets: set<nat>, out: seq<Emit>, from: nat, b: seq<nat>, h: seq<Head>)
    requires yc > 0 && from <= |out| && StartsAt(yc, resets, out, from) && AllBegun(yc, resets, out)
    requires b == Begins(yc, resets, out, from, |out|) && |h| == |b|
    requires forall j :: 0 <= j < |b| ==> h[j].mcu == McuAt(yc, out, b[j])
    ensures forall m :: m in resets && m >= h[0].mcu ==> Named(h, m)
  {
    hide Scan, Begins, StartsReset;
    forall m | m in resets && m >= h[0].mcu ensures Named(h, m) {
      assert Begun(yc, out, m);
      var n: nat :| n <= |out| && StartsAt(yc, {m}, out, n);
      BegunAt(yc, resets, out, n, m);
      if n < from { InOrder(yc, resets, out, n, from); }
      IsBegin(yc, resets, out, from, |out|, n);
      var j :| 0 <= j < |b| && b[j] == n;
      assert h[j].mcu == m;
    }
  }

  lemma BegunAt(yc: nat, resets: set<nat>, out: seq<Emit>, n: nat, m: nat)
    requires yc > 0 && n <= |out| && m in resets && StartsAt(yc, {m}, out, n)
    ensures StartsAt(yc, resets, out, n) && McuAt(yc, out, n) == m
  {}

  /** The decoder follows since the start of this MCU. */
  ghost predicate InStep(dec: Ssdv, qs: (Quant, Quant), resets: set<nat>, diffs: seq<int>, mcu: nat, k: nat)
    reads dec
  {
    Positive(qs.0) && Positive(qs.1) && k <= |diffs| && Follows(dec, qs, resets, diffs, mcu * (dec.yc + 2), k)
  }

  /** A decoder given the packets from one on that has a header, whatever it was given
      before: no drift, if no header comes too early for it. */
  method DecodePackets(dec: Ssdv, out: seq<Emit>, size: nat, resets: set<nat>, from: nat, lost: bool,
                       ghost qs: (Quant, Quant), ghost diffs: seq<int>) returns (n: nat, r: Status)
    requires dec.Valid() && !dec.encoding && !dec.greyscale && IsRun(qs, dec.yc, resets, out, diffs)
    requires size > 0 && from <= |out| && StartsAt(dec.yc, resets, out, from) && Coded(dec.yc, out)
    requires Laid(size, dec.yc, resets, out) && InTime(size, dec.yc, resets, out, from)
    requires dec.resetMcu <= McuAt(dec.yc, out, from)
    requires var m := if dec.mcupart > 0 || dec.acpart > 0 then dec.mcuId + 1 else dec.mcuId;
      if lost then m <= McuAt(dec.yc, out, from)
      else dec.mcuId == McuAt(dec.yc, out, from) && dec.mcupart == dec.acpart == 0
    modifies dec
    ensures n <= |out| && (n == |out| || r.Eoi?) && (n == |out| ==> Started(Scan(out)) == |diffs|)
    ensures InStep(dec, qs, resets, diffs, McuAt(dec.yc, out, from), Started(Scan(out[..n])))
  {
    hide Scan, Coded, Laid, InTime, Timely, IsRun, Follows, StartsAt;
    RunShape(qs, dec.yc, resets, out, diffs);
    TimelyIff(size, dec.yc, resets, out, from);
    n, r := DecodeFrom(dec, out, Heads(size, dec.yc, resets, out, from), lost, qs, resets, diffs);
    assert out[..|out|] == out;
  }

  // ----- The encoder -----

  /** The headers name the MCU that resets in each packet, if one does. */
  ghost predicate HeadersName(size: nat, yc: nat, resets: set<nat>, out: seq<Emit>, headers: seq<nat>)
    requires size > 0
  {
    && (forall a :: 0 <= a <= |out| && StartsAt(yc, resets, out, a) ==>
      var p := PacketAt(size, yc, resets, out, a); p < |headers| ==> headers[p] == McuAt(yc, out, a))
    && (forall p :: 0 <= p < |headers| && headers[p] != NO_MCU ==> HasReset(size, yc, resets, out, p))
  }

  ghost predicate HasReset(size: nat, yc: nat, resets: set<nat>, out: seq<Emit>, p: nat)
    requires size > 0
  {
    exists a :: 0 <= a <= |out| && StartsAt(yc, resets, out, a) && PacketAt(size, yc, resets, out, a) == p
  }

  /** What the encoder knows when some packets are complete: the newest MCU that resets
      is in one of these, or it is the MCU of a packet to come. */
  ghost predicate Packed(size: nat, yc: nat, resets: set<nat>, out: seq<Emit>, headers: seq<nat>, mcu: nat, newest: nat)
    requires size > 0
  {
    && Laid(size, yc, resets, out) && HeadersName(size, yc, resets, out, headers)
    && size * |headers| <= Pos(yc, resets, out) / 8
    && newest <= |out| && StartsAt(yc, resets, out, newest)
    && (forall a :: 0 <= a <= |out| && StartsAt(yc, resets, out, a) && a != newest ==>
      a < newest && PacketAt(size, yc, resets, out, a) < |headers|)
    && (if mcu == NO_MCU then PacketAt(size, yc, resets, out, newest) < |headers|
        else |headers| <= PacketAt(size, yc, resets, out, newest) && mcu == McuAt(yc, out, newest))
  }

  /** A packet is complete: its header names the newest MCU if that is in it, and the
      next MCU will be the first of the next packet unless it is there already. */
  lemma PackedComplete(size: nat, yc: nat, resets: set<nat>, out: seq<Emit>, headers: seq<nat>, mcu: nat, newest: nat)
    requires size > 0 && Packed(size, yc, resets, out, headers, mcu, newest)
    requires size * (|headers| + 1) <= Pos(yc, resets, out) / 8
    ensures var later := PacketAt(size, yc, resets, out, newest) > |headers|;
      Packed(size, yc, resets, out, headers + [if later then NO_MCU else mcu], if later then mcu else NO_MCU, newest)
  {
    hide Scan, StartsAt, PacketAt, Pos, Laid, McuAt;
    var later := PacketAt(size, yc, resets, out, newest) > |headers|;
    var h := headers + [if later then NO_MCU else mcu];
    forall p | 0 <= p < |h| && h[p] != NO_MCU ensures HasReset(size, yc, resets, out, p) {
      if p < |headers| {
        assert headers[p] != NO_MCU;
      } else {
        assert StartsAt(yc, resets, out, newest);
      }
    }
  }

  // ----- More values -----

  lemma SamePrefix(size: nat, yc: nat, resets: set<nat>, out: seq<Emit>, more: seq<Emit>, a: nat)
    requires size > 0 && a <= |out| && out <= more
    ensures StartsAt(yc, resets, more, a) == StartsAt(yc, resets, out, a) && McuAt(yc, more, a) == McuAt(yc, out, a)
    ensures PacketAt(size, yc, resets, more, a) == PacketAt(size, yc, resets, out, a)
  {
    assert more[..a] == out[..a];
  }

  /** An MCU that has begun does not begin again. */
  lemma NoMore(yc: nat, resets: set<nat>, out: seq<Emit>, more: seq<Emit>, b: nat)
    requires yc > 0 && AllBegun(yc, resets, out) && out <= more && |out| < b <= |more|
    ensures !StartsAt(yc, resets, more, b)
  {
    hide Scan, StartsReset;
    if StartsAt(yc, resets, more, b) {
      var m := McuAt(yc, more, b);
      StartsOne(yc, resets, Scan(more[..b]), m);
      assert Begun(yc, out, m);
      var a: nat :| a <= |out| && StartsAt(yc, {m}, out, a);
      assert more[..a] == out[..a];
      StartsOne(yc, {m}, Scan(more[..a]), m);
      PlacesGrow(more, a, b);
    }
  }

  lemma StillBegun(yc: nat, resets: set<nat>, out: seq<Emit>, more: seq<Emit>)
    requires AllBegun(yc, resets, out) && out <= more
    ensures AllBegun(yc, resets, more)
  {
    hide Scan, StartsReset;
    forall m | m in resets ensures Begun(yc, more, m) {
      assert Begun(yc, out, m);
      var a: nat :| a <= |out| && StartsAt(yc, {m}, out, a);
      assert more[..a] == out[..a];
      assert StartsAt(yc, {m}, more, a);
    }
  }

  /** Up to here the MCUs begin where they did. */
  ghost predicate Agree(size: nat, yc: nat, resets: set<nat>, out: seq<Emit>, later: set<nat>, more: seq<Emit>, k: int)
    requires size > 0 && k <= |out| <= |more|
  {
    forall a: nat :: a <= k ==>
      && StartsAt(yc, later, more, a) == StartsAt(yc, resets, out, a) && McuAt(yc, more, a) == McuAt(yc, out, a)
      && PacketAt(size, yc, later, more, a) == PacketAt(size, yc, resets, out, a)
  }

  /** And after it only at the end, in a later packet. */
  ghost predicate OnlyEnd(size: nat, yc: nat, resets: set<nat>, out: seq<Emit>, k: int)
    requires size > 0 && k <= |out|
  {
    forall a: nat, b: nat :: k < b <= |out| && StartsAt(yc, resets, out, b) ==>
      b == |out| && (a < b && StartsAt(yc, resets, out, a) ==>
        PacketAt(size, yc, resets, out, a) < PacketAt(size, yc, resets, out, b))
  }

  lemma OneEachMore(size: nat, yc: nat, resets: set<nat>, out: seq<Emit>, later: set<nat>, more: seq<Emit>, k: int)
    requires size > 0 && k <= |out| <= |more| && OneEach(size, yc, resets, out)
    requires Agree(size, yc, resets, out, later, more, k) && OnlyEnd(size, yc, later, more, k)
    ensures OneEach(size, yc, later, more)
  {
    hide StartsAt, PacketAt, McuAt;
  }

  lemma HeadersMore(size: nat, yc: nat, resets: set<nat>, out: seq<Emit>, later: set<nat>, more: seq<Emit>, k: int,
                    headers: seq<nat>)
    requires size > 0 && k <= |out| <= |more| && HeadersName(size, yc, resets, out, headers)
    requires Agree(size, yc, resets, out, later, more, k) && forall a: nat :: k < a <= |out| ==>
      !StartsAt(yc, resets, out, a)
    requires forall b: nat :: k < b <= |more| && StartsAt(yc, later, more, b) ==>
      |headers| <= PacketAt(size, yc, later, more, b)
    ensures HeadersName(size, yc, later, more, headers)
  {
    hide StartsAt, PacketAt, McuAt;
    forall p | 0 <= p < |headers| && headers[p] != NO_MCU ensures HasReset(size, yc, later, more, p) {
      assert HasReset(size, yc, resets, out, p);
      var a: nat :| a <= |out| && StartsAt(yc, resets, out, a) && PacketAt(size, yc, resets, out, a) == p;
      assert StartsAt(yc, later, more, a);
    }
  }

  /** More values, and no MCU that resets begins among them. */
  lemma PackedGrows(size: nat, yc: nat, resets: set<nat>, out: seq<Emit>, more: seq<Emit>, headers: seq<nat>, mcu: nat,
                    newest: nat)
    requires size > 0 && yc > 0 && Packed(size, yc, resets, out, headers, mcu, newest) && out <= more
    ensures Packed(size, yc, resets, more, headers, mcu, newest)
  {
    hide Scan, StartsAt, PacketAt, McuAt, Pos, OneEach, HeadersName, AllBegun;
    StillBegun(yc, resets, out, more);
    forall a: nat | a <= |out|
      ensures StartsAt(yc, resets, more, a) == StartsAt(yc, resets, out, a) && McuAt(yc, more, a) == McuAt(yc, out, a)
      ensures PacketAt(size, yc, resets, more, a) == PacketAt(size, yc, resets, out, a)
    {
      SamePrefix(size, yc, resets, out, more, a);
    }
    forall b: nat | |out| < b <= |more| ensures !StartsAt(yc, resets, more, b) { NoMore(yc, resets, out, more, b); }
    PosGrows(yc, resets, out, more);
    OneEachMore(size, yc, resets, out, resets, more, |out|);
    HeadersMore(size, yc, resets, out, resets, more, |out|, headers);
  }

  lemma PosGrows(yc: nat, resets: set<nat>, out: seq<Emit>, more: seq<Emit>)
    requires out <= more
    ensures Pos(yc, resets, out) <= Pos(yc, resets, more)
  {
    hide Scan, Len;
    StartsGrow(yc, resets, more, |out|, |more|);
    assert more[..|out|] == out && more[..|more|] == more;
  }

  /** Here an MCU begins that is not among those that reset. */
  ghost predicate Fresh(yc: nat, resets: set<nat>, out: seq<Emit>, m: nat) {
    m !in resets && StartsReset(yc, {m}, Scan(out)) && out != []
  }

  /** If it becomes one, that changes nothing before, and it begins at the next byte. */
  lemma FreshStarts(size: nat, yc: nat, resets: set<nat>, out: seq<Emit>, m: nat)
    requires size > 0 && yc > 0 && Fresh(yc, resets, out, m)
    ensures Agree(size, yc, resets, out, resets + {m}, out, |out| - 1)
    ensures StartsAt(yc, resets + {m}, out, |out|) && !StartsAt(yc, resets, out, |out|) && McuAt(yc, out, |out|) == m
    ensures Pos(yc, resets, out) <= Pos(yc, resets + {m}, out) == Start(yc, resets + {m}, out, |out|)
  {
    hide Scan, Len, PacketOf;
    var n := |out|;
    assert out[..n] == out;
    StartsOne(yc, resets, Scan(out), m);
    StartsOne(yc, resets + {m}, Scan(out), m);
    forall k: nat | k < n ensures !StartsReset(yc, {m}, Scan(out[..k])) {
      StartsOne(yc, {m}, Scan(out[..k]), m);
      PlacesGrow(out, k, n);
    }
    forall a: nat | a < n
      ensures StartsAt(yc, resets + {m}, out, a) == StartsAt(yc, resets, out, a)
      ensures PacketAt(size, yc, resets + {m}, out, a) == PacketAt(size, yc, resets, out, a)
    {
      StartLocal(yc, resets, m, out, a);
      StartsOne(yc, resets, Scan(out[..a]), m);
      StartsOne(yc, resets + {m}, Scan(out[..a]), m);
    }
    StartLocal(yc, resets, m, out, n - 1);
  }

  /** An MCU begins when the packets complete hold the newest one: it is the MCU of a
      packet to come. */
  lemma PackedOpens(size: nat, yc: nat, resets: set<nat>, out: seq<Emit>, m: nat, headers: seq<nat>, newest: nat)
    requires size > 0 && yc > 0 && Packed(size, yc, resets, out, headers, NO_MCU, newest)
    requires m < NO_MCU && Fresh(yc, resets, out, m)
    ensures Packed(size, yc, resets + {m}, out, headers, m, |out|)
  {
    hide Scan, StartsAt, McuAt, Pos, OneEach, HeadersName, AllBegun, Start;
    var later, n := resets + {m}, |out|;
    FreshStarts(size, yc, resets, out, m);
    assert PacketAt(size, yc, later, out, n) >= |headers| by {
      InPackets(size, Pos(yc, resets, out), Start(yc, later, out, n), |headers|);
    }
    forall a: nat | a < n && StartsAt(yc, later, out, a) ensures PacketAt(size, yc, later, out, a) < |headers| {
      assert StartsAt(yc, resets, out, a);
    }
    OneEachMore(size, yc, resets, out, later, out, n - 1);
    HeadersMore(size, yc, resets, out, later, out, n - 1, headers);
    NewBegun(yc, resets, out, m);
  }

  lemma InPackets(size: nat, at: nat, start: nat, n: nat)
    requires size > 0 && size * n <= at / 8 && at <= start
    ensures n <= PacketOf(size, start) && size * n <= start / 8
  {
    if PacketOf(size, start) < n { MulMono(size, PacketOf(size, start) + 1, n); }
  }

  lemma NewBegun(yc: nat, resets: set<nat>, out: seq<Emit>, m: nat)
    requires AllBegun(yc, resets, out) && StartsReset(yc, {m}, Scan(out))
    ensures AllBegun(yc, resets + {m}, out)
  {
    hide Scan, StartsReset;
    assert out[..|out|] == out;
    assert StartsAt(yc, {m}, out, |out|);
  }

  lemma FreshIs(s: Ssdv, resets: set<nat>)
    requires s.Valid() && s.mcupart == s.acpart == 0 && s.mcuId !in resets && s.mcuId > 0
    ensures Fresh(s.yc, resets, s.out, s.mcuId)
  {
    hide Scan;
    StartsOne(s.yc, resets, Scan(s.out), s.mcuId);
    MulMono(s.yc + 2, 1, s.mcuId);
    ScanNone();
  }

  lemma PackedBegins(size: nat, yc: nat)
    requires size > 0 && yc > 0
    ensures Packed(size, yc, {0}, [], [], 0, 0)
  {
    StartsOne(yc, {0}, Scan([]), 0);
    var none: seq<Emit> := [];
    assert none[..0] == none;
    assert StartsAt(yc, {0}, none, 0);
  }

  /** The encoder on one token, with the places in packets. */
  method PackToken(s: Ssdv, token: Token, size: nat, resets: set<nat>, headers: seq<nat>, newest: nat,
                   ghost diffs: seq<int>, ghost m: Image)
    returns (r: Status, newResets: set<nat>, last: nat, ghost newDiffs: seq<int>)
    requires s.Valid() && s.Fits(token) && Encoded(s, resets, diffs) && Knows(s, resets) && Grey(s)
    requires size > 0 && s.mcuCount <= NO_MCU && Packed(size, s.yc, resets, s.out, headers, s.packetMcuId, newest)
    modifies s
    ensures Encoded(s, newResets, newDiffs) && resets <= newResets && diffs <= newDiffs
    ensures !s.greyscale ==> newDiffs == diffs + Input(token)
    ensures r.Ok? ==> s.Valid() && Knows(s, newResets) && Grey(s)
    ensures Packed(size, s.yc, newResets, s.out, headers, s.packetMcuId, last)
    ensures old(AtShows(s, m)) ==> ShowsAfter(s, ReadToken(m, token, s.yc, s.greyscale), r)
  {
    hide Scan, Packed, Encoded, Grey, Inputs, AtShows, ShowsAfter, ReadToken;
    ghost var out := s.out;
    var mcu := s.mcuId;
    ghost var found;
    YcPositive(s);
    r, found, newDiffs := EncodeToken(s, token, resets, diffs, m);
    newResets, last := resets, newest;
    PackedGrows(size, s.yc, resets, out, s.out, headers, old(s.packetMcuId), newest);
    if r.Ok? && s.mcuId > mcu && s.nextResetMcu == s.mcuId {
      newResets, last := resets + {s.mcuId}, |s.out|;
      FreshIs(s, resets);
      PackedOpens(size, s.yc, resets, s.out, s.mcuId, headers, newest);
    }
    assert found == newResets;
  }

  lemma YcPositive(s: Ssdv)
    requires s.Valid()
    ensures s.yc > 0
  {}

  /** The encoder over any tokens, up to the first that no block can have at its place
      or to the end of the image, with packets of `size` bytes: the MCUs it sends
      absolutely begin in packets of their own, whose headers name them. */
  method EncodePackets(s: Ssdv, tokens: seq<Token>, size: nat)
    returns (n: nat, r: Status, resets: set<nat>, headers: seq<nat>, ghost diffs: seq<int>)
    requires s.Valid() && s.encoding && s.out == [] && s.mcuId == s.mcupart == s.acpart == 0
    requires s.resetMcu == s.nextResetMcu == s.packetMcuId == 0 && s.dc == s.adc == [0, 0, 0]
    requires size > 0 && s.mcuCount <= NO_MCU
    modifies s
    ensures Encoded(s, resets, diffs) && 0 in resets
    ensures n <= |tokens| && (r.Ok? && n < |tokens| ==> !s.Fits(tokens[n]))
    ensures !s.greyscale ==> diffs == Inputs(tokens[..n])
    ensures Laid(size, s.yc, resets, s.out) && HeadersName(size, s.yc, resets, s.out, headers) && OfImage(s, diffs)
    ensures Requantised(s.acQuant, s.yc, ReadAll(tokens[..n], s.yc, s.greyscale).coefs, Coefs(s.out))
  {
    hide Encoded, Knows, Grey, Ssdv.Valid, Ssdv.Fits, Packed, Laid, HeadersName, Pos, OfImage, Shows, Requantised,
      Coefs,
      ReadToken;
    n, r, resets, headers, diffs := 0, Ok, {0}, [], [];
    SsdvRun.Begins(s);
    ghost var m := Image(0, 0, map[]);
    NothingShows(s);
    YcPositive(s);
    PackedBegins(size, s.yc);
    var newest := 0;
    while n < |tokens| && s.Fits(tokens[n])
      invariant n <= |tokens| && r.Ok? && s.Valid() && Encoded(s, resets, diffs) && Knows(s, resets) && Grey(s)
      invariant 0 in resets && (!s.greyscale ==> diffs == Inputs(tokens[..n]))
      invariant Packed(size, s.yc, resets, s.out, headers, s.packetMcuId, newest)
      invariant m == ReadAll(tokens[..n], s.yc, s.greyscale) && AtShows(s, m)
      decreases |tokens| - n
    {
      r, resets, newest, diffs := PackToken(s, tokens[n], size, resets, headers, newest, diffs, m);
      assert tokens[..n + 1][..n] == tokens[..n];
      m := ReadToken(m, tokens[n], s.yc, s.greyscale);
      n := n + 1;
      if r.Eoi? {
        break;
      }
      if size * (|headers| + 1) <= Pos(s.yc, resets, s.out) / 8 {
        headers := PacketFull(s, size, resets, headers, newest, diffs);
      }
    }
    PackedIs(size, s.yc, resets, s.out, headers, s.packetMcuId, newest);
    ShowsIs(s, m);
    IsOfImage(s, resets, diffs);
  }

  lemma PackedIs(size: nat, yc: nat, resets: set<nat>, out: seq<Emit>, headers: seq<nat>, mcu: nat, newest: nat)
    requires size > 0 && Packed(size, yc, resets, out, headers, mcu, newest)
    ensures Laid(size, yc, resets, out) && HeadersName(size, yc, resets, out, headers) && newest <= |out|
  {}

  /** A packet is complete: its header, and what is known of the next. */
  method PacketFull(s: Ssdv, size: nat, resets: set<nat>, headers: seq<nat>, newest: nat, ghost diffs: seq<int>)
    returns (more: seq<nat>)
    requires s.Valid() && Encoded(s, resets, diffs) && Knows(s, resets) && Grey(s)
    requires size > 0 && Packed(size, s.yc, resets, s.out, headers, s.packetMcuId, newest)
    requires size * (|headers| + 1) <= Pos(s.yc, resets, s.out) / 8
    modifies s`packetMcuId
    ensures s.Valid() && Encoded(s, resets, diffs) && Knows(s, resets) && Grey(s)
    ensures Packed(size, s.yc, resets, s.out, more, s.packetMcuId, newest)
    ensures forall m :: old(AtShows(s, m)) ==> AtShows(s, m)
  {
    hide Scan, Packed, Encoded, Grey, Knows, Pos, PacketAt, Shows;
    PackedIs(size, s.yc, resets, s.out, headers, s.packetMcuId, newest);
    PackedComplete(size, s.yc, resets, s.out, headers, s.packetMcuId, newest);
    if PacketAt(size, s.yc, resets, s.out, newest) > |headers| {
      more := headers + [NO_MCU];
    } else {
      more := headers + [s.packetMcuId];
      EndOfPacket(s, resets, diffs);
    }
  }

  // ----- Both ends -----

  /** The encoder over any tokens, and a decoder that is given its packets from number
      p on, if that has a header for it to join at: if every value has a code and no
      header comes too early, then the decoder, having read all, has the encoder's DC
      value of every component of which it has seen a block. */
  method Downlink(enc: Ssdv, tokens: seq<Token>, size: nat, dec: Ssdv, p: nat)
    returns (read: nat, end: Status, n: nat, r: Status, from: nat, resets: set<nat>, headers: seq<nat>,
             ghost diffs: seq<int>)
    requires enc != dec && enc.Valid() && enc.encoding && enc.out == [] && enc.mcuId == enc.mcupart == enc.acpart == 0
    requires enc.resetMcu == enc.nextResetMcu == enc.packetMcuId == 0 && enc.dc == enc.adc == [0, 0, 0]
    requires size > 0 && enc.mcuCount <= NO_MCU
    requires dec.Valid() && !dec.encoding && !dec.greyscale && dec.yc == enc.yc
    requires dec.mcuId == dec.mcupart == dec.acpart == dec.resetMcu == 0
    modifies enc, dec
    ensures read <= |tokens| && (end.Ok? && read < |tokens| ==> !enc.Fits(tokens[read]))
    ensures Encoded(enc, resets, diffs) && HeadersName(size, enc.yc, resets, enc.out, headers) && OfImage(enc, diffs)
    ensures Requantised(enc.acQuant, enc.yc, ReadAll(tokens[..read], enc.yc, enc.greyscale).coefs, Coefs(enc.out))
    ensures p < |headers| && headers[p] != NO_MCU ==>
      && Joins(size, enc.yc, resets, enc.out, p, from, headers[p])
      && (Clear(size, enc.yc, resets, enc.out, from) ==> n == |enc.out| || r.Eoi?)
      && (Clear(size, enc.yc, resets, enc.out, from) && n == |enc.out| ==>
        SameDc(enc, dec, headers[p], |diffs|))
  {
    hide Scan, Encoded, Laid, HeadersName, Coded, InTime, IsRun, Follows, StartsAt, PacketAt, Inputs, McuAt, SameDc,
      OfImage,
      Requantised, Coefs, ReadAll, Ssdv.Fits;
    read, end, resets, headers, diffs := EncodePackets(enc, tokens, size);
    n, r := 0, Ok;
    var out, yc := enc.out, enc.yc;
    EncodedIs(enc, resets, diffs);
    from := 0;
    if p < |headers| && headers[p] != NO_MCU {
      NamedIs(size, yc, resets, out, headers, p);
      from :| from <= |out| && StartsAt(yc, resets, out, from) && PacketAt(size, yc, resets, out, from) == p;
      NameIs(size, yc, resets, out, headers, from);
      if Clear(size, yc, resets, out, from) {
        n, r := DecodePackets(dec, out, size, resets, from, headers[p] > 0, enc.dcQuant, diffs);
        if n == |out| {
          assert out[..n] == out;
          HasSame(enc, dec, resets, diffs, headers[p]);
        }
      }
    }
  }

  /** The MCU that begins here is this one, in packet p. */
  predicate Joins(size: nat, yc: nat, resets: set<nat>, out: seq<Emit>, p: nat, from: nat, mcu: nat) {
    && size > 0 && from <= |out| && StartsAt(yc, resets, out, from)
    && PacketAt(size, yc, resets, out, from) == p && McuAt(yc, out, from) == mcu
  }

  /** Every value has a code, and no header comes too early from here on. */
  predicate Clear(size: nat, yc: nat, resets: set<nat>, out: seq<Emit>, from: nat) {
    size > 0 && from <= |out| && Coded(yc, out) && InTime(size, yc, resets, out, from)
  }

  lemma NameIs(size: nat, yc: nat, resets: set<nat>, out: seq<Emit>, headers: seq<nat>, from: nat)
    requires size > 0 && HeadersName(size, yc, resets, out, headers)
    requires from <= |out| && StartsAt(yc, resets, out, from) && PacketAt(size, yc, resets, out, from) < |headers|
    ensures headers[PacketAt(size, yc, resets, out, from)] == McuAt(yc, out, from)
  {}

  /** Of each component seen since the start of an MCU, the decoder has the encoder's
      value. */
  ghost predicate SameDc(enc: Ssdv, dec: Ssdv, mcu: nat, k: nat)
    reads enc, dec
  {
    |dec.dc| == 3 == |enc.adc| &&
    forall c :: 0 <= c < 3 && mcu * (dec.yc + 2) + FirstOf(c, dec.yc) < k ==> dec.dc[c] == enc.adc[c]
  }

  lemma HasSame(enc: Ssdv, dec: Ssdv, resets: set<nat>, diffs: seq<int>, mcu: nat)
    requires Encoded(enc, resets, diffs) && dec.yc == enc.yc
    requires InStep(dec, enc.dcQuant, resets, diffs, mcu, |diffs|)
    ensures SameDc(enc, dec, mcu, |diffs|)
  {
    hide EncAfter, Scan;
    forall c | 0 <= c < 3 && mcu * (dec.yc + 2) + FirstOf(c, dec.yc) < |diffs| ensures dec.dc[c] == enc.adc[c] {
      FollowsEncoder(enc, dec, resets, diffs, mcu * (dec.yc + 2), c);
    }
  }

  lemma EncodedIs(s: Ssdv, resets: set<nat>, diffs: seq<int>)
    requires Encoded(s, resets, diffs)
    ensures IsRun(s.dcQuant, s.yc, resets, s.out, diffs) && |s.adc| == 3
  {}

  lemma NamedIs(size: nat, yc: nat, resets: set<nat>, out: seq<Emit>, headers: seq<nat>, p: nat)
    requires size > 0 && HeadersName(size, yc, resets, out, headers) && p < |headers| && headers[p] != NO_MCU
    ensures HasReset(size, yc, resets, out, p)
  {}
}