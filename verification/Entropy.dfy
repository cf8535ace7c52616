/** Runs and values written as Huffman codes and integers, and read back: what
    was written is recovered however the bytes come in. */
module Entropy {
  import opened Arith
  import opened Bytes
  import opened Huffman
  import opened BitStream

  // ----- Integers -----

  /** Bitwise exclusive or. */
  function Xor(a: nat, b: nat): nat {
    if a == 0 && b == 0 then 0 else 2 * Xor(a / 2, b / 2) + (a % 2 + b % 2) % 2
  }

  /** Against all ones it is the distance to all ones. */
  lemma {:induction false} XorOnes(x: nat, w: nat)
    requires x < Pow2(w)
    ensures Xor(x, Pow2(w) - 1) == Pow2(w) - 1 - x
  {
    if w > 0 {
      XorOnes(x / 2, w - 1);
      XorOdd(x, Pow2(w - 1));
    }
  }

  lemma XorOdd(x: nat, p: nat)
    requires p > 0
    ensures Xor(x, 2 * p - 1) == 2 * Xor(x / 2, p - 1) + 1 - x % 2
  {}

  function Abs(v: int): nat {
    if v < 0 then -v else v
  }

  function Width(v: nat): nat {
    if v == 0 then 0 else 1 + Width(v / 2)
  }

  lemma {:induction false} WidthBounds(v: nat)
    ensures v < Pow2(Width(v))
    ensures v > 0 ==> Pow2(Width(v)) <= 2 * v
  {
    if v > 1 { WidthBounds(v / 2); }
  }

  lemma {:induction false} WidthBelow(v: nat, w: nat)
    requires v < Pow2(w)
    ensures Width(v) <= w
  {
    if v > 0 { WidthBelow(v / 2, w - 1); }
  }

  /** The bits of an integer: itself, or its distance from all ones. */
  function IntBits(v: int): nat {
    WidthBounds(Abs(v));
    if v < 0 then Pow2(Width(Abs(v))) - 1 - Abs(v) else v
  }

  lemma IntBitsFit(v: int)
    ensures IntBits(v) < Pow2(Width(Abs(v)))
  {
    WidthBounds(Abs(v));
  }

  /** jpeg_encode_int. */
  method JpegEncodeInt(value: int) returns (bits: nat, width: nat)
    ensures bits == IntBits(value) && width == Width(Abs(value))
    ensures bits == if value < 0 then value + Pow2(width) - 1 else value
    ensures Abs(value) < Pow2(width) && (value != 0 ==> Pow2(width) <= 2 * Abs(value))
  {
    var v: nat := Abs(value);
    width := 0;
    while v > 0
      invariant width + Width(v) == Width(Abs(value))
    {
      v := v / 2;
      width := width + 1;
    }
    bits := Abs(value);
    WidthBounds(Abs(value));
    if value < 0 {
      XorOnes(Abs(value), width);
      bits := Xor(Abs(value), Pow2(width) - 1);
    }
  }

  /** jpeg_int. */
  function JpegInt(bits: nat, width: nat): int {
    var b := Pow2(width) - 1;
    if bits <= b / 2 then 0 - Xor(bits, b) else bits
  }

  /** An integer is what its bits decode to. */
  lemma IntRoundTrip(v: int)
    ensures JpegInt(IntBits(v), Width(Abs(v))) == v
  {
    var w := Width(Abs(v));
    WidthBounds(Abs(v));
    IntBitsFit(v);
    XorOnes(IntBits(v), w);
  }

  // ----- Tokens -----

  /** A run of zeros and a value, with the code the table has for them. */
  datatype Coded = Coded(t: Table, index: nat, width: nat, rle: nat, value: int)

  /** The symbol is the run and the width of the value, four bits each. */
  predicate Good(c: Coded) {
    && Canonical(c.t) && 1 <= c.width <= 16 && Offset(c.t, c.width) <= c.index < Offset(c.t, c.width + 1)
    && c.index < |c.t.symbols| && c.rle < 16 && Width(Abs(c.value)) < 16
    && c.t.symbols[c.index] == c.rle * 16 + Width(Abs(c.value))
  }

  function Code(c: Coded): nat
    requires Good(c)
  {
    First(c.t, c.width) + (c.index - Offset(c.t, c.width))
  }

  function CodedBits(c: Coded): seq<bool>
    requires Good(c)
  {
    Bits(Code(c), c.width) + Bits(IntBits(c.value), Width(Abs(c.value)))
  }

  function AllBits(cs: seq<Coded>): seq<bool>
    requires forall i :: 0 <= i < |cs| ==> Good(cs[i])
  {
    if cs == [] then [] else CodedBits(cs[0]) + AllBits(cs[1..])
  }

  // ----- Writing -----

  /** What becomes of bits put in. With room in the buffer they are kept. In a full
      buffer they are kept exactly when all that is owed to a reader then makes a
      number of 32 bits. */
  ghost predicate BitsPut(room: nat, kept: bool, owed: seq<bool>, stream: seq<bool>,
                          room1: nat, kept1: bool, owed1: seq<bool>, stream1: seq<bool>) {
    && stream <= stream1 && (kept1 ==> Num(owed1) < Pow2(32))
    && (room > 0 ==> kept1)
    && (room == 0 ==> room1 == 0 && owed1 == owed + stream1[|stream|..])
    && (room == 0 && kept ==> (kept1 <==> Num(owed1) < Pow2(32)))
  }

  /** Bits put in twice. */
  lemma PutTwice(room: nat, kept: bool, owed: seq<bool>, stream: seq<bool>,
                 room1: nat, kept1: bool, owed1: seq<bool>, stream1: seq<bool>,
                 room2: nat, kept2: bool, owed2: seq<bool>, stream2: seq<bool>)
    requires BitsPut(room, kept, owed, stream, room1, kept1, owed1, stream1)
    requires BitsPut(room1, kept1, owed1, stream1, room2, kept2, owed2, stream2)
    requires room > 0 && room1 == 0 ==> Num(owed1) < Pow2(15) && |stream2| <= |stream1| + 15
    ensures BitsPut(room, kept, owed, stream, room2, kept2, owed2, stream2)
  {
    hide Pow2, Num;
    var a, b := stream1[|stream|..], stream2[|stream1|..];
    assert stream2[|stream|..] == a + b;
    if room > 0 && room1 == 0 {
      NumAppended(owed1, b, 15);
      Pow2Monotone(15 + |b|, 32);
    } else if room == 0 {
      assert owed2 == owed + (a + b);
      NumAtLeast(owed1, b);
    }
  }

  lemma NumAtLeast(a: seq<bool>, b: seq<bool>)
    ensures Num(a) <= Num(a + b)
  {
    NumAppended(a, b, |a|);
  }

  /** ssdv_out_jpeg_int, the code: nothing, where the table has none. */
  method PutCode(s: BitWriter, t: Table, symbol: nat) returns (found: bool, ghost index: nat, ghost width: nat)
    requires s.Ready() && Canonical(t)
    modifies s
    ensures s.Ready() && s.outlen <= old(s.outlen) + 16 && |s.out| + s.room == old(|s.out| + s.room)
    ensures found ==> 1 <= width <= 16 && Offset(t, width) <= index < Offset(t, width + 1) && index < |t.symbols|
    ensures found ==> t.symbols[index] == symbol
    ensures found ==> s.stream == old(s.stream) + Bits(First(t, width) + (index - Offset(t, width)), width)
    ensures !found ==> s.stream == old(s.stream) && forall k :: 0 <= k < Offset(t, 17) ==> t.symbols[k] != symbol
    ensures BitsPut(old(s.room), old(s.Kept()), old(s.Owed()), old(s.stream),
                    s.room, s.Kept(), s.Owed(), s.stream)
    ensures s.room <= old(s.room)
      && old(s.Backlog()) + (|s.stream| - |old(s.stream)|) <= s.Backlog() + 8 * (old(s.room) - s.room)
    ensures old(s.room) > 0 && s.room == 0 ==> s.Kept() && s.Backlog() <= 15
  {
    hide Pow2, Bits, First, Taken, BitWriter.Kept, BitWriter.Owed, BitWriter.Pending;
    var huffbits, hufflen;
    found, huffbits, hufflen, index := JpegDhtLookupSymbol(t, symbol);
    width := hufflen;
    if found {
      CodeFits(t, index, hufflen, huffbits);
      ModSmall(huffbits, Pow2(hufflen));
    } else {
      huffbits, hufflen := 0, 0;
      NoneIsNone();
    }
    var full := s.OutBits(huffbits, hufflen);
  }

  /** ssdv_out_jpeg_int, the integer. */
  method PutInt(s: BitWriter, value: int, intbits: nat, intlen: nat)
    requires s.Ready() && intbits == IntBits(value) && intlen == Width(Abs(value)) && intlen < 16
    modifies s
    ensures s.Ready() && s.stream == old(s.stream) + Bits(IntBits(value), Width(Abs(value)))
    ensures BitsPut(old(s.room), old(s.Kept()), old(s.Owed()), old(s.stream),
                    s.room, s.Kept(), s.Owed(), s.stream)
    ensures s.room <= old(s.room)
      && old(s.Backlog()) + (|s.stream| - |old(s.stream)|) <= s.Backlog() + 8 * (old(s.room) - s.room)
    ensures s.outlen <= old(s.outlen) + intlen && |s.out| + s.room == old(|s.out| + s.room)
  {
    hide Pow2, Bits, IntBits, Taken, BitWriter.Kept, BitWriter.Owed, BitWriter.Pending;
    IntBitsFit(value);
    ModSmall(intbits, Pow2(intlen));
    if intlen > 0 {
      var full := s.OutBits(intbits, intlen);
    } else {
      NoneIsNone();
      s.NothingPut(0);
      if s.Kept() { s.BacklogIs(); }
    }
  }

  /** ssdv_out_jpeg_int. From a buffer with room the bits are always kept; from a full
      one, exactly when with those pending they make a number of 32 bits. A pair the
      table has no code for is reported, and only its integer written. */
  method OutJpegInt(s: BitWriter, t: Table, rle: nat, value: int) returns (found: bool, ghost c: Coded)
    requires s.Ready() && Canonical(t) && rle < 16 && Width(Abs(value)) < 16
    modifies s
    ensures s.Ready() && |s.out| + s.room == old(|s.out| + s.room)
    ensures found ==>
      Good(c) && c.t == t && c.rle == rle && c.value == value && s.stream == old(s.stream) + CodedBits(c)
    ensures !found ==> forall k :: 0 <= k < Offset(t, 17) ==> t.symbols[k] != rle * 16 + Width(Abs(value))
    ensures !found ==> s.stream == old(s.stream) + Bits(IntBits(value), Width(Abs(value)))
    ensures BitsPut(old(s.room), old(s.Kept()), old(s.Owed()), old(s.stream),
                    s.room, s.Kept(), s.Owed(), s.stream)
    ensures s.room <= old(s.room)
      && old(s.Backlog()) + (|s.stream| - |old(s.stream)|) <= s.Backlog() + 8 * (old(s.room) - s.room)
    ensures old(s.room) > 0 ==> s.outlen < 40
  {
    hide Pow2, Bits, IntBits, First, Offset, Canonical, Taken, Width, BitsPut, BitWriter.Kept, BitWriter.Owed,
      BitWriter.Pending, BitWriter.Backlog;
    var intbits, intlen := JpegEncodeInt(value);
    ghost var room, kept, owed, stream := s.room, s.Kept(), s.Owed(), s.stream;
    ghost var index, width;
    found, index, width := PutCode(s, t, rle * 16 + intlen % 16);
    ghost var room1, kept1, owed1, stream1 := s.room, s.Kept(), s.Owed(), s.stream;
    if room > 0 && room1 == 0 { LittleOwed(s); }
    c := Coded(t, index, width, rle, value);
    PutInt(s, value, intbits, intlen);
    PutTwice(room, kept, owed, stream, room1, kept1, owed1, stream1, s.room, s.Kept(), s.Owed(), s.stream);
    if found { JoinBits(stream, Bits(Code(c), width), Bits(IntBits(value), intlen)); }
  }

  /** What is left of a code when a buffer gets full with it. */
  lemma LittleOwed(s: BitWriter)
    requires s.Kept() && s.Backlog() <= 15
    ensures s.outlen <= 23 && Num(s.Owed()) < Pow2(15)
  {
    hide Pow2, Num, BitWriter.Kept, BitWriter.Owed, BitWriter.Pending;
    s.BacklogIs();
    Pow2Monotone(s.Backlog(), 15);
  }

  lemma ModSmall(x: nat, p: nat)
    requires x < p
    ensures x % p == x
  {
    QuotientIs(x, p, 0, x);
  }

  lemma NoneIsNone()
    ensures 0 % Pow2(0) == 0
    ensures forall x :: Bits(x, 0) == []
  {}

  lemma JoinBits(s: seq<bool>, a: seq<bool>, b: seq<bool>)
    ensures (s + a) + b == s + (a + b)
    ensures a == [] ==> s + a == s
    ensures b == [] ==> a + b == a && s + b == s
  {}

  // ----- Reading -----

  datatype Phase = Huff | Int(rle: nat, need: nat)

  /** A token, or another call without more bits, or more bits, or an error. */
  datatype Got = Token(rle: nat, value: int) | Again | FeedBits | Bad

  /** The bits still to come of a token, in either phase. */
  ghost function Due(c: Coded, phase: Phase): seq<bool>
    requires Good(c)
  {
    if phase.Huff? then CodedBits(c) else Bits(IntBits(c.value), Width(Abs(c.value)))
  }

  ghost predicate InPhase(c: Coded, phase: Phase) {
    phase.Int? ==> phase.rle == c.rle && phase.need == Width(Abs(c.value))
  }

  /** The bits in the buffer are the first of these. */
  ghost predicate Leads(r: BitReader, s: seq<bool>)
    reads r
  {
    r.Valid() && r.worklen <= |s| && r.taken[r.used..] == s[..r.worklen]
  }

  /** The buffer begins with the code of a token whose code it has in full; and
      with no code at all, where it has not. */
  lemma CodeBegins(c: Coded, more: seq<bool>, b: seq<bool>, n: nat)
    requires Good(c) && n <= |CodedBits(c) + more| && b == (CodedBits(c) + more)[..n]
    ensures n >= c.width ==> Begins(c.t, Num(b), n, c.index, c.width)
    ensures n < c.width ==> forall k: nat, w: nat :: !Begins(c.t, Num(b), n, k, w)
  {
    hide Num, Bits, Pow2, Top, First, Offset;
    var code := Code(c);
    assert IsCode(c.t, c.index, c.width, code);
    CodeFits(c.t, c.index, c.width, code);
    NumBits(code, c.width);
    if n >= c.width {
      NumSplit(b, c.width);
      assert b[..c.width] == Bits(code, c.width);
    } else {
      assert b == Bits(code, c.width)[..n];
      NumSplit(Bits(code, c.width), n);
      forall k: nat, w: nat ensures !Begins(c.t, Num(b), n, k, w) {
        NoShorter(c, code, n, k, w);
      }
    }
  }

  lemma NoShorter(c: Coded, code: nat, n: nat, k: nat, w: nat)
    requires Good(c) && IsCode(c.t, c.index, c.width, code) && n < c.width
    ensures !Begins(c.t, Top(code, c.width, n), n, k, w)
  {
    if Begins(c.t, Top(code, c.width, n), n, k, w) {
      TopTop(code, c.width, n, w);
      PrefixFree(c.t, k, w, Top(code, c.width, w), c.index, c.width, code);
    }
  }

  /** The first phase of ssdv_process: the code. */
  method StepHuff(r: BitReader, t: Table, ghost c: Coded, ghost more: seq<bool>) returns (got: Got, next: Phase)
    requires Good(c) && c.t == t && Leads(r, CodedBits(c) + more)
    modifies r
    ensures r.taken == old(r.taken) && r.skip == old(r.skip) && InPhase(c, next) && Leads(r, Due(c, next) + more)
    ensures got.FeedBits? || got.Again?
    ensures got.FeedBits? ==> next.Huff? && r.used == old(r.used) && r.worklen < Min16(|CodedBits(c)|)
    ensures got.Again? ==> next.Int? && r.used == old(r.used) + c.width
  {
    hide Bits, Num, Pow2, Top, First, Offset, Width, IntBits;
    CodeBegins(c, more, r.taken[r.used..], r.worklen);
    var found;
    ghost var index;
    found, index := JpegDhtLookup(t, r.workbits, r.worklen);
    if found.FeedMe? {
      return FeedBits, Huff;
    } else if found.Error? {
      return Bad, Huff;
    }
    BeginsOnce(t, r.workbits, r.worklen, index, found.width, c.index, c.width);
    ghost var buffer, rest := r.taken[r.used..], CodedBits(c) + more;
    r.Use(found.width);
    assert rest[c.width..] == Due(c, Int(c.rle, Width(Abs(c.value)))) + more;
    assert r.taken[r.used..] == buffer[c.width..] == rest[c.width..][..r.worklen];
    next := Int(found.symbol / 16, found.symbol % 16);
    got := Again;
  }

  function Min16(n: nat): nat {
    if n < 16 then n else 16
  }

  /** The second phase: the integer. */
  method StepInt(r: BitReader, phase: Phase, ghost c: Coded, ghost more: seq<bool>) returns (got: Got, next: Phase)
    requires Good(c) && phase.Int? && InPhase(c, phase) && Leads(r, Due(c, phase) + more)
    modifies r
    ensures r.taken == old(r.taken) && r.skip == old(r.skip)
    ensures got.FeedBits? || got == Token(c.rle, c.value)
    ensures got.FeedBits? ==> next == phase && Leads(r, Due(c, phase) + more)
    ensures got.FeedBits? ==> r.used == old(r.used) && r.worklen < Min16(|Due(c, phase)|)
    ensures got.Token? ==> next.Huff? && Leads(r, more) && r.used == old(r.used) + |Due(c, phase)|
  {
    hide Bits, Num, Pow2, Top, First, Offset, Canonical, Width, IntBits, JpegInt;
    var need := phase.need;
    if r.worklen < need {
      return FeedBits, phase;
    }
    ghost var buffer, rest := r.taken[r.used..], Due(c, phase) + more;
    NumSplit(buffer, need);
    assert buffer[..need] == rest[..need] == Bits(IntBits(c.value), need);
    IntBitsFit(c.value);
    NumBits(IntBits(c.value), need);
    IntRoundTrip(c.value);
    TopIs(r.workbits, r.worklen, need);
    var i := JpegInt(Over(r.workbits, Pow2(r.worklen - need)), need);
    r.Use(need);
    assert r.taken[r.used..] == buffer[need..] == rest[need..][..r.worklen];
    assert rest[need..] == more;
    return Token(phase.rle, i), Huff;
  }

  lemma TopIs(x: nat, n: nat, w: nat)
    requires w <= n
    ensures Top(x, n, w) == Over(x, Pow2(n - w))
  {}

  // ----- The whole stream -----

  ghost predicate AllGood(cs: seq<Coded>) {
    forall i :: 0 <= i < |cs| ==> Good(cs[i])
  }

  /** What is to come after the first k tokens and the phase of the next. */
  ghost function Rest(cs: seq<Coded>, k: nat, phase: Phase, pad: seq<bool>): seq<bool>
    requires AllGood(cs) && k <= |cs|
  {
    if k == |cs| then pad else Due(cs[k], phase) + (AllBits(cs[k + 1..]) + pad)
  }

  lemma RestAfter(cs: seq<Coded>, k: nat, pad: seq<bool>)
    requires AllGood(cs) && k <= |cs|
    ensures Rest(cs, k, Huff, pad) == AllBits(cs[k..]) + pad
  {
    hide CodedBits;
    if k < |cs| {
      assert cs[k..][1..] == cs[k + 1..];
      assert CodedBits(cs[k]) + (AllBits(cs[k + 1..]) + pad) == (CodedBits(cs[k]) + AllBits(cs[k + 1..])) + pad;
    } else {
      assert cs[k..] == [];
      assert [] + pad == pad;
    }
  }

  lemma {:induction false} TakenPrefix(bytes: seq<Byte>, n: nat)
    requires n <= |bytes|
    ensures Taken(bytes[..n], true).0 <= Taken(bytes, true).0
    decreases |bytes|
  {
    if n < |bytes| {
      var init := bytes[..|bytes| - 1];
      TakenPrefix(init, n);
      assert init[..n] == bytes[..n];
      TakenMore(init, bytes[|bytes| - 1], true);
      assert init + [bytes[|bytes| - 1]] == bytes;
    } else {
      assert bytes[..n] == bytes;
    }
  }

  /** The state of the parser: the tokens so far, and the place in the stream. */
  ghost predicate At(r: BitReader, full: seq<bool>, cs: seq<Coded>, pad: seq<bool>, tokens: seq<(nat, int)>,
                     phase: Phase)
    reads r
    requires AllGood(cs)
  {
    && r.Valid() && |tokens| <= |cs| && r.taken <= full && r.used <= |full|
    && (forall i :: 0 <= i < |tokens| ==> tokens[i] == (cs[i].rle, cs[i].value))
    && (|tokens| < |cs| ==> InPhase(cs[|tokens|], phase))
    && full[r.used..] == Rest(cs, |tokens|, phase, pad)
  }

  lemma AtLeads(r: BitReader, full: seq<bool>, cs: seq<Coded>, pad: seq<bool>, tokens: seq<(nat, int)>, phase: Phase)
    requires AllGood(cs) && At(r, full, cs, pad, tokens, phase) && |tokens| < |cs|
    ensures Leads(r, Due(cs[|tokens|], phase) + (AllBits(cs[|tokens| + 1..]) + pad))
  {
    hide Due, AllBits, Good;
    assert r.taken[r.used..] == full[..|r.taken|][r.used..] == full[r.used..][..r.worklen];
  }

  /** ssdv_process until it wants more bits, or all tokens are there. */
  method Drain(r: BitReader, tables: seq<Table>, tokens0: seq<(nat, int)>, phase0: Phase,
               ghost full: seq<bool>, ghost cs: seq<Coded>, ghost pad: seq<bool>)
    returns (tokens: seq<(nat, int)>, phase: Phase)
    requires AllGood(cs) && |tables| == |cs| && forall i :: 0 <= i < |cs| ==> tables[i] == cs[i].t
    requires At(r, full, cs, pad, tokens0, phase0)
    modifies r
    ensures r.taken == old(r.taken) && r.skip == old(r.skip) && At(r, full, cs, pad, tokens, phase)
    ensures |tokens| < |cs| ==> r.worklen < Min16(|Due(cs[|tokens|], phase)|)
  {
    hide Good, Due, Leads, Min16;
    tokens, phase := tokens0, phase0;
    while |tokens| < |tables|
      invariant At(r, full, cs, pad, tokens, phase) && r.taken == old(r.taken) && r.skip == old(r.skip)
      decreases |tables| - |tokens|, phase.Huff?
    {
      var got, next;
      got, next := DrainOne(r, tables[|tokens|], phase, full, cs, pad, tokens);
      phase := next;
      if got.FeedBits? {
        return;
      }
      if got.Token? {
        tokens := tokens + [(got.rle, got.value)];
      }
    }
  }

  method DrainOne(r: BitReader, t: Table, phase: Phase, ghost full: seq<bool>, ghost cs: seq<Coded>,
                  ghost pad: seq<bool>,
                  ghost tokens: seq<(nat, int)>)
    returns (got: Got, next: Phase)
    requires AllGood(cs) && At(r, full, cs, pad, tokens, phase) && |tokens| < |cs| && t == cs[|tokens|].t
    modifies r
    ensures r.taken == old(r.taken) && r.skip == old(r.skip)
    ensures got.FeedBits? || got.Token? || got.Again?
    ensures got.FeedBits? ==> At(r, full, cs, pad, tokens, next) && r.worklen < Min16(|Due(cs[|tokens|], next)|)
    ensures got.Again? ==> phase.Huff? && next.Int? && At(r, full, cs, pad, tokens, next)
    ensures got.Token? ==> next.Huff? && At(r, full, cs, pad, tokens + [(got.rle, got.value)], next)
  {
    hide Good, AllBits, Min16, Leads, Bits, Num, Pow2, Width, IntBits, CodedBits, Due, Canonical;
    DueInHuff(cs[|tokens|], phase);
    ghost var c, more := cs[|tokens|], AllBits(cs[|tokens| + 1..]) + pad;
    AtLeads(r, full, cs, pad, tokens, phase);
    ghost var used := r.used;
    if phase.Huff? {
      got, next := StepHuff(r, t, c, more);
      StillValid(r, Due(c, next) + more);
      DueAfterCode(c, more);
      if got.Again? { assert full[r.used..] == full[used..][c.width..]; }
    } else {
      got, next := StepInt(r, phase, c, more);
      if got.Token? {
        StillValid(r, more);
        RestAfter(cs, |tokens| + 1, pad);
        assert full[r.used..] == full[used..][|Due(c, phase)|..];
        assert (Due(c, phase) + more)[|Due(c, phase)|..] == more;
      } else {
        StillValid(r, Due(c, phase) + more);
      }
    }
  }

  lemma DueInHuff(c: Coded, phase: Phase)
    requires Good(c)
    ensures phase.Huff? ==> Due(c, phase) == CodedBits(c)
  {}

  lemma StillValid(r: BitReader, s: seq<bool>)
    requires Leads(r, s)
    ensures r.Valid()
  {}

  lemma DueAfterCode(c: Coded, more: seq<bool>)
    requires Good(c)
    ensures |CodedBits(c) + more| >= c.width
    ensures (CodedBits(c) + more)[c.width..] == Due(c, Int(c.rle, Width(Abs(c.value)))) + more
  {}

  /** Some token is not complete: fewer bits are there than it still needs. */
  ghost predicate Waiting(r: BitReader, cs: seq<Coded>, tokens: seq<(nat, int)>, phase: Phase)
    reads r
    requires AllGood(cs)
  {
    |tokens| < |cs| ==> r.worklen < Min16(|Due(cs[|tokens|], phase)|)
  }

  /** One byte more. */
  method FeedOne(r: BitReader, bytes: seq<Byte>, n: nat, tables: seq<Table>, tokens0: seq<(nat, int)>, phase0: Phase,
                 ghost cs: seq<Coded>, ghost pad: seq<bool>)
    returns (tokens: seq<(nat, int)>, phase: Phase)
    requires AllGood(cs) && |tables| == |cs| && forall i :: 0 <= i < |cs| ==> tables[i] == cs[i].t
    requires n < |bytes| && |tokens0| < |cs| && (r.taken, r.skip) == Taken(bytes[..n], true)
    requires At(r, Taken(bytes, true).0, cs, pad, tokens0, phase0) && Waiting(r, cs, tokens0, phase0)
    modifies r
    ensures (r.taken, r.skip) == Taken(bytes[..n + 1], true)
    ensures At(r, Taken(bytes, true).0, cs, pad, tokens, phase) && Waiting(r, cs, tokens, phase)
  {
    hide Good, Due, AllBits, Taken, InPhase, Bits, Num, Pow2, CodedBits, Canonical, Rest;
    TakenMore(bytes[..n], bytes[n], true);
    assert bytes[..n + 1] == bytes[..n] + [bytes[n]];
    TakenPrefix(bytes, n + 1);
    ghost var before := r.taken;
    assert before + [] == before;
    r.Feed(bytes[n]);
    tokens, phase := Drain(r, tables, tokens0, phase0, Taken(bytes, true).0, cs, pad);
  }

  /** Bytes fed one by one: all the tokens that were written are recovered, in
      their order, however the bytes divide them. */
  method Recover(bytes: seq<Byte>, tables: seq<Table>, ghost cs: seq<Coded>, ghost pad: seq<bool>)
    returns (tokens: seq<(nat, int)>)
    requires AllGood(cs) && |tables| == |cs| && forall i :: 0 <= i < |cs| ==> tables[i] == cs[i].t
    requires Taken(bytes, true).0 == AllBits(cs) + pad
    ensures |tokens| == |cs| && forall i :: 0 <= i < |cs| ==> tokens[i] == (cs[i].rle, cs[i].value)
  {
    hide Good, AllBits, Taken, Bits, Num, Pow2, CodedBits, Canonical;
    var r := new BitReader();
    ghost var full := Taken(bytes, true).0;
    RestAfter(cs, 0, pad);
    assert cs[0..] == cs && full[0..] == full && bytes[..0] == [];
    var phase := Huff;
    tokens := [];
    var n := 0;
    NoBytes();
    if |cs| > 0 { DueNotEmpty(cs[0]); }
    while n < |bytes| && |tokens| < |tables|
      invariant n <= |bytes| && (r.taken, r.skip) == Taken(bytes[..n], true)
      invariant At(r, full, cs, pad, tokens, phase) && Waiting(r, cs, tokens, phase)
      modifies r
    {
      hide At, Waiting, Rest;
      tokens, phase := FeedOne(r, bytes, n, tables, tokens, phase, cs, pad);
      n := n + 1;
    }
    assert n == |bytes| ==> bytes[..n] == bytes;
    AllThere(r, full, cs, pad, tokens, phase);
  }

  /** With all the bits taken in, no token can be waiting. */
  lemma AllThere(r: BitReader, full: seq<bool>, cs: seq<Coded>, pad: seq<bool>, tokens: seq<(nat, int)>, phase: Phase)
    requires AllGood(cs) && At(r, full, cs, pad, tokens, phase) && Waiting(r, cs, tokens, phase)
    ensures r.taken == full ==> |tokens| == |cs|
  {
    hide Due, AllBits, Good;
    if r.taken == full { assert |full[r.used..]| == r.worklen; }
  }

  lemma NoBytes()
    ensures Taken([], true) == ([], false)
  {}

  lemma DueNotEmpty(c: Coded)
    requires Good(c)
    ensures |Due(c, Huff)| > 0
  {}

  // ----- There and back -----

  /** Another buffer, and another, until there is room. */
  method MoreRoom(s: BitWriter, size: nat)
    requires s.Ready() && s.Kept() && s.outlen < 40 && size > 0
    modifies s
    ensures s.Ready() && s.Kept() && s.room > 0 && s.stream == old(s.stream) && s.outlen % 8 == old(s.outlen) % 8
  {
    hide Bits, Pow2, Taken, BitWriter.Kept, BitWriter.Owed, BitWriter.Pending;
    while s.room == 0
      invariant s.Ready() && s.Kept() && s.outlen < 40
      invariant s.stream == old(s.stream) && s.outlen % 8 == old(s.outlen) % 8
      decreases s.room == 0, s.Load()
    {
      s.BacklogIs();
      s.SetBuffer(size);
    }
  }

  /** ssdv_outbits_sync: ones up to the next byte. */
  method Sync(s: BitWriter)
    requires s.Ready() && s.Kept() && s.room > 0
    modifies s
    ensures s.Ready() && s.Kept() && s.outlen % 8 == 0 && s.outlen < 40
    ensures old(s.stream) <= s.stream && |s.stream| < |old(s.stream)| + 8
  {
    hide Bits, Pow2, Taken, BitWriter.Kept, BitWriter.Owed, BitWriter.Pending;
    var b := s.outlen % 8;
    if b != 0 {
      var full := s.OutBits(0xff, 8 - b);
    }
  }

  /** The table has a code for the token. */
  predicate HasCode(t: Table, token: (nat, int))
    requires |t.counts| == 16
  {
    && token.0 < 16 && Width(Abs(token.1)) < 16 && Offset(t, 17) <= |t.symbols|
    && exists k :: 0 <= k < Offset(t, 17) && t.symbols[k] == token.0 * 16 + Width(Abs(token.1))
  }

  lemma AllBitsMore(cs: seq<Coded>, c: Coded)
    requires AllGood(cs) && Good(c)
    ensures AllGood(cs + [c]) && AllBits(cs + [c]) == AllBits(cs) + CodedBits(c)
  {
    hide Good, CodedBits;
    if cs == [] {
      assert [c][1..] == [];
      assert CodedBits(c) + [] == CodedBits(c) == [] + CodedBits(c);
    } else {
      AllBitsMore(cs[1..], c);
      assert (cs + [c])[1..] == cs[1..] + [c];
      assert CodedBits(cs[0]) + (AllBits(cs[1..]) + CodedBits(c)) ==
        (CodedBits(cs[0]) + AllBits(cs[1..])) + CodedBits(c);
    }
  }

  /** Tokens written into buffers of any size, each replaced as soon as it is full,
      with stuffing, and padded to whole bytes, are what a reader recovers from the
      bytes: these hold the codes in order, less than a byte more, and no marker. */
  method RoundTrip(tables: seq<Table>, tokens: seq<(nat, int)>, size: nat)
    returns (bytes: seq<Byte>, back: seq<(nat, int)>, ghost cs: seq<Coded>)
    requires |tables| == |tokens| && size > 0
    requires forall i :: 0 <= i < |tokens| ==> Canonical(tables[i]) && HasCode(tables[i], tokens[i])
    ensures back == tokens
    ensures |cs| == |tokens| && AllGood(cs)
    ensures forall k :: 0 <= k < |cs| ==> cs[k].t == tables[k] && (cs[k].rle, cs[k].value) == tokens[k]
    ensures AllBits(cs) <= Taken(bytes, true).0 && |Taken(bytes, true).0| < |AllBits(cs)| + 8 && Stuffed(bytes)
  {
    hide Canonical, CodedBits, AllBits, Taken, Bits, Pow2, Num, BitWriter.Kept, BitWriter.Owed, BitWriter.Pending;
    var s := new BitWriter(size, true);
    cs := [];
    assert AllBits(cs) == [] by { NoTokens(); }
    for i := 0 to |tokens|
      invariant s.Ready() && s.Kept() && s.room > 0 && s.stuff
      invariant |cs| == i && AllGood(cs) && s.stream == AllBits(cs)
      invariant forall k :: 0 <= k < i ==> cs[k].t == tables[k] && (cs[k].rle, cs[k].value) == tokens[k]
      modifies s
    {
      hide Good, BitWriter.Ready, BitWriter.Load;
      CountsOf(tables[i]);
      var found;
      ghost var c;
      found, c := OutJpegInt(s, tables[i], tokens[i].0, tokens[i].1);
      assert found;
      MoreRoom(s, size);
      AllBitsMore(cs, c);
      cs := cs + [c];
    }
    Sync(s);
    MoreRoom(s, size);
    Flushed(s);
    bytes := s.out;
    ghost var pad := s.stream[|AllBits(cs)|..];
    assert s.stream == AllBits(cs) + pad;
    back := Recover(bytes, tables, cs, pad);
  }

  lemma NoTokens()
    ensures AllBits([]) == []
  {}

  lemma CountsOf(t: Table)
    requires Canonical(t)
    ensures |t.counts| == 16
  {}

  /** Nothing pending: the bytes are the whole stream. */
  lemma Flushed(s: BitWriter)
    requires s.Ready() && s.room > 0 && s.outlen % 8 == 0
    ensures Taken(s.out, s.stuff).0 == s.stream
  {
    hide Taken;
    s.BacklogIs();
  }
}
