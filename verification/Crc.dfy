/** The CRC-32 of littlefs (two table steps a byte) and of SSDV (eight bit steps
    a byte), both against the bitwise reflected CRC with polynomial 0xEDB88320.
    Proofs about single words are by bit-vector reasoning; everything above
    hides the bits and works from those facts alone. */
module Crc {
  import opened Bytes


  // ----- The definition: one bit at a time -----

  function Xor(a: Word, b: Word): Word { a ^ b }

  function Half(c: Word): Word { c >> 1 }

  predicate Odd(c: Word) { c & 1 == 1 }

  function Feedback(carry: bool): Word { if carry then 0xedb8_8320 else 0 }

  function BitStep(c: Word): Word { Xor(Half(c), Feedback(Odd(c))) }

  function Steps(n: nat, c: Word): Word { if n == 0 then c else Steps(n - 1, BitStep(c)) }

  /** The register after shifting in the bytes of data, least significant bits first. */
  function Crc32(crc: Word, data: seq<Octet>): Word {
    if data == [] then crc
    else Steps(8, Xor(Crc32(crc, data[..|data| - 1]), data[|data| - 1] as Word))
  }

  lemma {:induction false} StepsAdd(m: nat, n: nat, c: Word)
    ensures Steps(m + n, c) == Steps(n, Steps(m, c))
  {
    hide BitStep;
    if m > 0 { StepsAdd(m - 1, n, BitStep(c)); }
  }

  /** Bits of d that n steps bring no further than the bottom of the register. */
  predicate LowZero(n: nat, d: Word) { n == 0 || (!Odd(d) && LowZero(n - 1, Half(d))) }

  function Down(n: nat, d: Word): Word { if n == 0 then d else Down(n - 1, Half(d)) }

  /** Bits that have not reached the bottom of the register just move down. */
  lemma {:induction false} Waiting(n: nat, c: Word, d: Word)
    requires LowZero(n, d)
    ensures Steps(n, Xor(c, d)) == Xor(Steps(n, c), Down(n, d))
  {
    hide BitStep, Xor, Half, Odd;
    if n > 0 {
      OneWaits(c, d);
      Waiting(n - 1, BitStep(c), Half(d));
    }
  }

  lemma OneWaits(c: Word, d: Word)
    requires !Odd(d)
    ensures BitStep(Xor(c, d)) == Xor(BitStep(c), Half(d))
  {
    SameCarry(c, d);
    XorMoves(c, d, Feedback(Odd(c)));
  }

  lemma SameCarry(c: Word, d: Word)
    requires !Odd(d)
    ensures Odd(Xor(c, d)) == Odd(c)
  {}

  lemma XorMoves(c: Word, d: Word, f: Word)
    ensures Xor(Half(Xor(c, d)), f) == Xor(Xor(Half(c), f), Half(d))
  {
    HalfXor(c, d);
    XorLaws(Half(c), Half(d), f);
    XorLaws(Half(c), f, Half(d));
    XorLaws(Half(d), f, 0);
    hide Xor, Half;
  }

  lemma HalfXor(a: Word, b: Word)
    ensures Half(Xor(a, b)) == Xor(Half(a), Half(b))
  {}

  lemma XorLaws(a: Word, b: Word, c: Word)
    ensures Xor(a, 0) == a && Xor(a, b) == Xor(b, a) && Xor(Xor(a, b), c) == Xor(a, Xor(b, c)) && Xor(a, a) == 0
  {}

  lemma {:induction false} StepsInjective(n: nat, a: Word, b: Word)
    requires Steps(n, a) == Steps(n, b)
    ensures a == b
  {
    hide BitStep;
    if n > 0 {
      StepsInjective(n - 1, BitStep(a), BitStep(b));
      BitStepInjective(a, b);
    }
  }

  lemma BitStepInjective(a: Word, b: Word)
    requires BitStep(a) == BitStep(b)
    ensures a == b
  {}

  lemma {:induction false} StepsOfZero(n: nat)
    ensures Steps(n, 0) == 0
  {
    if n > 0 {
      assert BitStep(0) == 0;
      StepsOfZero(n - 1);
    }
  }

  // ----- lfs_crc -----

  /** The nibble table, by its sixteen entries. */
  function RTable(i: Word): Word {
    if i == 0 then 0x0000_0000 else if i == 1 then 0x1db7_1064
    else if i == 2 then 0x3b6e_20c8 else if i == 3 then 0x26d9_30ac
    else if i == 4 then 0x76dc_4190 else if i == 5 then 0x6b6b_51f4
    else if i == 6 then 0x4db2_6158 else if i == 7 then 0x5005_713c
    else if i == 8 then 0xedb8_8320 else if i == 9 then 0xf00f_9344
    else if i == 10 then 0xd6d6_a3e8 else if i == 11 then 0xcb61_b38c
    else if i == 12 then 0x9b64_c2b0 else if i == 13 then 0x86d3_d2d4
    else if i == 14 then 0xa00a_e278 else 0xbdbd_f21c
  }

  function Nibble(c: Word): Word { c & 0xf }

  function Rest(c: Word): Word { c & 0xffff_fff0 }

  function Down4(c: Word): Word { c >> 4 }

  /** One table step of the driver on the register xored with x. */
  function TableStep(crc: Word, x: Word): Word { Xor(Down4(crc), RTable(Nibble(Xor(crc, x)))) }

  /** The two table steps the driver takes for one byte. */
  function TableByte(crc: Word, d: Word): Word { TableStep(TableStep(crc, d), Down4(d)) }

  lemma TableIsFourBits(i: Word)
    requires i <= 0xf
    ensures RTable(i) == BitStep(BitStep(BitStep(BitStep(i))))
  {}

  lemma FourSteps(c: Word)
    ensures Steps(4, c) == BitStep(BitStep(BitStep(BitStep(c))))
  {
    hide BitStep;
    var c1 := BitStep(c);
    var c2 := BitStep(c1);
    var c3 := BitStep(c2);
    assert Steps(4, c) == Steps(3, c1) == Steps(2, c2) == Steps(1, c3) == Steps(0, BitStep(c3));
  }

  lemma RestWaits(d: Word)
    requires Nibble(d) == 0
    ensures LowZero(4, d) && Down(4, d) == Down4(d)
  {
    var d1 := Half(d);
    var d2 := Half(d1);
    var d3 := Half(d2);
    EvenHalves(d);
    hide Half, Odd, Down4;
    assert LowZero(0, Half(d3)) && LowZero(1, d3) && LowZero(2, d2) && LowZero(3, d1) && LowZero(4, d);
    assert Down(4, d) == Down(3, d1) == Down(2, d2) == Down(1, d3) == Down(0, Half(d3));
  }

  predicate Clear3(d: Word) { d & 7 == 0 }

  predicate Clear2(d: Word) { d & 3 == 0 }

  lemma EvenHalves(d: Word)
    requires Nibble(d) == 0
    ensures !Odd(d) && !Odd(Half(d)) && !Odd(Half(Half(d))) && !Odd(Half(Half(Half(d))))
    ensures Half(Half(Half(Half(d)))) == Down4(d)
  {
    hide Nibble, Odd, Half, Down4, Clear3, Clear2;
    FourClear(d);
    ThreeClear(Half(d));
    TwoClear(Half(Half(d)));
    FourHalves(d);
  }

  lemma FourClear(d: Word)
    requires Nibble(d) == 0
    ensures !Odd(d) && Clear3(Half(d))
  {}

  lemma ThreeClear(d: Word)
    requires Clear3(d)
    ensures !Odd(d) && Clear2(Half(d))
  {}

  lemma TwoClear(d: Word)
    requires Clear2(d)
    ensures !Odd(d) && !Odd(Half(d))
  {}

  lemma FourHalves(d: Word)
    ensures Half(Half(Half(Half(d)))) == Down4(d)
  {}

  lemma Parts(c: Word)
    ensures c == Xor(Nibble(c), Rest(c)) && Nibble(Rest(c)) == 0 && Nibble(c) <= 0xf
    ensures Down4(Rest(c)) == Down4(c)
  {}

  lemma XorBytes(crc: Word, x: Word)
    ensures Down4(Xor(crc, x)) == Xor(Down4(crc), Down4(x))
  {}

  /** A table step is four bit steps on the register xored with the nibble, as
      far as the rest of x is carried along. */
  lemma TableStepIsFour(crc: Word, x: Word)
    ensures Xor(TableStep(crc, x), Down4(x)) == Steps(4, Xor(crc, x))
  {
    hide Xor, Half, Odd, BitStep, Steps, RTable, Nibble, Rest, Down4;
    var c := Xor(crc, x);
    var low, rest := Nibble(c), Rest(c);
    Parts(c);
    RestWaits(rest);
    Waiting(4, low, rest);
    FourSteps(low);
    TableIsFourBits(low);
    XorBytes(crc, x);
    var r := RTable(low);
    XorLaws(r, Xor(Down4(crc), Down4(x)), 0);
    XorLaws(Down4(crc), r, Down4(x));
    XorLaws(r, Down4(crc), Down4(x));
  }

  lemma TableByteIsSteps(crc: Word, d: Word)
    requires d < 0x100
    ensures TableByte(crc, d) == Steps(8, Xor(crc, d))
  {
    NoMore(d);
    hide Xor, Half, Odd, BitStep, Steps, RTable, Nibble, Rest, Down4, TableStep;
    TableStepIsFour(crc, d);
    var half := TableStep(crc, d);
    TableStepIsFour(half, Down4(d));
    XorLaws(TableStep(half, Down4(d)), 0, 0);
    StepsAdd(4, 4, Xor(crc, d));
  }

  lemma NoMore(d: Word)
    requires d < 0x100
    ensures Down4(Down4(d)) == 0
  {}

  method LfsCrc(crc0: Word, data: seq<Octet>) returns (crc: Word)
    ensures crc == Crc32(crc0, data)
  {
    hide Xor, TableByte;
    crc := crc0;
    for i := 0 to |data|
      invariant crc == Crc32(crc0, data[..i])
    {
      assert data[..i + 1][..i] == data[..i];
      TableByteIsSteps(crc, data[i] as Word);
      crc := TableByte(crc, data[i] as Word);
    }
    assert data[..|data|] == data;
  }

  // ----- crc32 of the SSDV encoder -----

  function LowByte(c: Word): Word { c & 0xff }

  function HighBytes(c: Word): Word { c & 0xffff_ff00 }

  function Down8(c: Word): Word { c >> 8 }

  /** Eight conditional steps on the low byte, beside the rest moved down. */
  method SsdvByte(crc: Word, d: Word) returns (next: Word)
    requires d < 0x100
    ensures next == Steps(8, Xor(crc, d))
  {
    hide Xor, Steps, LowByte, Down8;
    var x := LowByte(Xor(crc, d));
    ghost var all := Steps(8, x);
    var i := 8;
    while i > 0
      invariant 0 <= i <= 8
      invariant Steps(i, x) == all
    {
      StepsHead(i, x);
      Branches(x);
      x := if x & 1 == 1 then (x >> 1) ^ 0xedb8_8320 else x >> 1;
      i := i - 1;
    }
    StepsNone(x);
    LowByteAlone(crc, d);
    next := Xor(Down8(crc), x);
  }

  lemma StepsHead(n: nat, c: Word)
    requires n > 0
    ensures Steps(n, c) == Steps(n - 1, BitStep(c))
  {}

  lemma StepsNone(c: Word)
    ensures Steps(0, c) == c
  {}

  lemma Branches(x: Word)
    ensures BitStep(x) == if x & 1 == 1 then (x >> 1) ^ 0xedb8_8320 else x >> 1
  {
    assert (x >> 1) ^ 0 == x >> 1;
  }

  lemma LowByteAlone(crc: Word, d: Word)
    requires d < 0x100
    ensures Steps(8, Xor(crc, d)) == Xor(Down8(crc), Steps(8, LowByte(Xor(crc, d))))
  {
    ByteParts(Xor(crc, d));
    BytesMoveDown(crc, d);
    hide Xor, Half, Odd, BitStep, Steps, LowByte, HighBytes, Down8;
    var c := Xor(crc, d);
    BytesWait(HighBytes(c));
    Waiting(8, LowByte(c), HighBytes(c));
    XorLaws(Steps(8, LowByte(c)), Down8(crc), 0);
  }

  lemma ByteParts(c: Word)
    ensures c == Xor(LowByte(c), HighBytes(c)) && LowByte(HighBytes(c)) == 0 && Down8(HighBytes(c)) == Down8(c)
  {}

  lemma BytesMoveDown(crc: Word, d: Word)
    requires d < 0x100
    ensures Down8(Xor(crc, d)) == Down8(crc)
  {}

  lemma BytesWait(d: Word)
    requires LowByte(d) == 0
    ensures LowZero(8, d) && Down(8, d) == Down8(d)
  {
    TwoNibbles(d);
    hide Half, Odd, Nibble, Down4, Down8, LowByte;
    RestWaits(d);
    RestWaits(Down4(d));
    LowZeroAdd(4, 4, d);
  }

  lemma TwoNibbles(d: Word)
    requires LowByte(d) == 0
    ensures Nibble(d) == 0 && Nibble(Down4(d)) == 0 && Down4(Down4(d)) == Down8(d)
  {}

  lemma {:induction false} LowZeroAdd(m: nat, n: nat, d: Word)
    requires LowZero(m, d) && LowZero(n, Down(m, d))
    ensures LowZero(m + n, d) && Down(m + n, d) == Down(n, Down(m, d))
  {
    hide Half, Odd;
    if m > 0 { LowZeroAdd(m - 1, n, Half(d)); }
  }

  method SsdvCrc32(data: seq<Octet>) returns (crc: Word)
    ensures crc == Xor(Crc32(0xffff_ffff, data), 0xffff_ffff)
  {
    hide Xor, Steps;
    crc := 0xffff_ffff;
    for i := 0 to |data|
      invariant crc == Crc32(0xffff_ffff, data[..i])
    {
      assert data[..i + 1][..i] == data[..i];
      crc := SsdvByte(crc, data[i] as Word);
    }
    assert data[..|data|] == data;
    crc := Xor(crc, 0xffff_ffff);
  }

  // ----- What the file system relies on -----

  /** A checksum may be taken chunk by chunk. */
  lemma {:induction false} CrcOfChunks(crc: Word, a: seq<Octet>, b: seq<Octet>)
    ensures Crc32(crc, a + b) == Crc32(Crc32(crc, a), b)
  {
    hide Xor, Steps;
    if b == [] {
      assert a + b == a;
    } else {
      assert (a + b)[..|a + b| - 1] == a + b[..|b| - 1];
      CrcOfChunks(crc, a, b[..|b| - 1]);
    }
  }

  /** The register keeps two different states apart, whatever follows. */
  lemma {:induction false} CrcInjective(a: Word, b: Word, data: seq<Octet>)
    requires Crc32(a, data) == Crc32(b, data)
    ensures a == b
  {
    hide Xor, Steps;
    if data != [] {
      var init, d := data[..|data| - 1], data[|data| - 1] as Word;
      StepsInjective(8, Xor(Crc32(a, init), d), Xor(Crc32(b, init), d));
      XorCancels(Crc32(a, init), Crc32(b, init), d);
      CrcInjective(a, b, init);
    }
  }

  lemma XorCancels(a: Word, b: Word, d: Word)
    requires Xor(a, d) == Xor(b, d)
    ensures a == b
  {
    assert (a ^ d) ^ d == a && (b ^ d) ^ d == b;
  }

  function Up8(c: Word): Word { c << 8 }

  /** The word that bytes hold in little-endian order. */
  function LeWord(b: seq<Octet>): Word { if b == [] then 0 else Xor(b[0] as Word, Up8(LeWord(b[1..]))) }

  function Le32Bytes(w: Word): seq<Octet> {
    [ByteOf(w), ByteOf(Down8(w)), ByteOf(Down8(Down8(w))), ByteOf(Down8(Down8(Down8(w))))]
  }

  function ByteOf(w: Word): Octet { LowByte(w) as Octet }

  lemma {:induction false} LeWordBound(b: seq<Octet>)
    ensures |b| <= 1 ==> LeWord(b) & 0xffff_ff00 == 0
    ensures |b| <= 2 ==> LeWord(b) & 0xffff_0000 == 0
    ensures |b| <= 3 ==> LeWord(b) & 0xff00_0000 == 0
  {
    if 0 < |b| <= 3 {
      LeWordBound(b[1..]);
      assert |b| == 1 ==> LeWord(b[1..]) == 0;
      UpBound(b[0] as Word, LeWord(b[1..]));
    }
  }

  lemma UpBound(d: Word, r: Word)
    requires d < 0x100
    ensures r == 0 ==> Xor(d, Up8(r)) & 0xffff_ff00 == 0
    ensures r & 0xffff_ff00 == 0 ==> Xor(d, Up8(r)) & 0xffff_0000 == 0
    ensures r & 0xffff_0000 == 0 ==> Xor(d, Up8(r)) & 0xff00_0000 == 0
    ensures Xor(d, Up8(r)) & 0xffff_ff00 == 0 ==> Xor(d, Up8(r)) & 0xffff_0000 == 0
    ensures Xor(d, Up8(r)) & 0xffff_0000 == 0 ==> Xor(d, Up8(r)) & 0xff00_0000 == 0
  {}

  /** Eight steps take in the first byte and leave the others as they are. */
  lemma FirstOfWord(crc: Word, b: seq<Octet>)
    requires 0 < |b| <= 4
    ensures Steps(8, Xor(crc, LeWord(b))) == Xor(Steps(8, Xor(crc, b[0] as Word)), LeWord(b[1..]))
  {
    var d, r := b[0] as Word, LeWord(b[1..]);
    LeWordBound(b[1..]);
    UpperWaits(r);
    PutByte(crc, d, r, LeWord(b));
  }

  lemma PutByte(crc: Word, d: Word, r: Word, w: Word)
    requires w == Xor(d, Up8(r)) && LowByte(Up8(r)) == 0 && Down8(Up8(r)) == r
    ensures Steps(8, Xor(crc, w)) == Xor(Steps(8, Xor(crc, d)), r)
  {
    hide Xor, Steps, Up8, Down8, LowByte;
    BytesWait(Up8(r));
    Waiting(8, Xor(crc, d), Up8(r));
    XorLaws(crc, d, Up8(r));
  }

  /** Up to four bytes can be put into the register at once before stepping. */
  lemma {:induction false} CrcOfWord(crc: Word, b: seq<Octet>)
    requires |b| <= 4
    ensures Crc32(crc, b) == Steps(8 * |b|, Xor(crc, LeWord(b)))
    decreases b
  {
    if b == [] {
      XorLaws(crc, 0, 0);
      StepsNone(crc);
    } else {
      hide Xor, Steps, LeWord, Crc32;
      var c1 := Steps(8, Xor(crc, b[0] as Word));
      assert b == b[..1] + b[1..];
      CrcOfChunks(crc, b[..1], b[1..]);
      CrcOfOne(crc, b[..1]);
      CrcOfWord(c1, b[1..]);
      FirstOfWord(crc, b);
      StepsAdd(8, 8 * |b[1..]|, Xor(crc, LeWord(b)));
    }
  }

  lemma CrcOfOne(crc: Word, b: seq<Octet>)
    requires |b| == 1
    ensures Crc32(crc, b) == Steps(8, Xor(crc, b[0] as Word))
  {
    assert b[..|b| - 1] == [] && Crc32(crc, []) == crc;
    assert Crc32(crc, b) == Steps(8, Xor(Crc32(crc, b[..|b| - 1]), b[|b| - 1] as Word));
  }

  lemma UpperWaits(r: Word)
    requires r & 0xff00_0000 == 0
    ensures LowByte(Up8(r)) == 0 && Down8(Up8(r)) == r
  {}

  lemma BytesOfWord(w: Word)
    ensures LeWord(Le32Bytes(w)) == w
  {
    hide Xor, Up8, Down8, ByteOf;
    var w1 := Down8(w);
    var w2 := Down8(w1);
    var w3 := Down8(w2);
    AllShiftedOut(w);
    var b := Le32Bytes(w);
    assert b == [ByteOf(w)] + ([ByteOf(w1)] + ([ByteOf(w2)] + ([ByteOf(w3)] + [])));
    Rejoin(w3, []);
    Rejoin(w2, [ByteOf(w3)] + []);
    Rejoin(w1, [ByteOf(w2)] + ([ByteOf(w3)] + []));
    Rejoin(w, [ByteOf(w1)] + ([ByteOf(w2)] + ([ByteOf(w3)] + [])));
  }

  lemma Rejoin(w: Word, rest: seq<Octet>)
    requires LeWord(rest) == Down8(w)
    ensures LeWord([ByteOf(w)] + rest) == w
  {
    assert ([ByteOf(w)] + rest)[1..] == rest;
    LowAndUp(w);
  }

  lemma LowAndUp(w: Word)
    ensures Xor(ByteOf(w) as Word, Up8(Down8(w))) == w
  {}

  lemma AllShiftedOut(w: Word)
    ensures Down8(Down8(Down8(Down8(w)))) == 0
  {}

  /** A checksum followed by itself checks to zero: how a commit is verified
      after it was written. */
  lemma CrcOfItself(crc: Word)
    ensures Crc32(crc, Le32Bytes(crc)) == 0
  {
    hide Xor, Steps;
    CrcOfWord(crc, Le32Bytes(crc));
    BytesOfWord(crc);
    XorLaws(crc, crc, crc);
    StepsOfZero(32);
  }

  /** Any change confined to four consecutive bytes changes the checksum. */
  lemma CrcSeesWindow(crc: Word, before: seq<Octet>, a: seq<Octet>, b: seq<Octet>, after: seq<Octet>)
    requires |a| == |b| <= 4 && a != b
    ensures Crc32(crc, before + a + after) != Crc32(crc, before + b + after)
  {
    hide Xor, Steps;
    var c := Crc32(crc, before);
    CrcOfChunks(crc, before + a, after);
    CrcOfChunks(crc, before + b, after);
    CrcOfChunks(crc, before, a);
    CrcOfChunks(crc, before, b);
    if Crc32(crc, before + a + after) == Crc32(crc, before + b + after) {
      CrcInjective(Crc32(c, a), Crc32(c, b), after);
      CrcOfWord(c, a);
      CrcOfWord(c, b);
      StepsInjective(8 * |a|, Xor(c, LeWord(a)), Xor(c, LeWord(b)));
      XorLaws(c, LeWord(a), 0);
      XorLaws(c, LeWord(b), 0);
      XorCancels(LeWord(a), LeWord(b), c);
      LeWordInjective(a, b);
    }
  }

  lemma {:induction false} LeWordInjective(a: seq<Octet>, b: seq<Octet>)
    requires |a| == |b| <= 4 && LeWord(a) == LeWord(b)
    ensures a == b
  {
    hide Xor, Up8, TopClear;
    if a != [] {
      LeWordTop(a[1..]);
      LeWordTop(b[1..]);
      TopBytes(a[0], LeWord(a[1..]), b[0], LeWord(b[1..]));
      LeWordInjective(a[1..], b[1..]);
      assert a == [a[0]] + a[1..] && b == [b[0]] + b[1..];
    }
  }

  predicate TopClear(r: Word) { r & 0xff00_0000 == 0 }

  lemma LeWordTop(b: seq<Octet>)
    requires |b| <= 3
    ensures TopClear(LeWord(b))
  {
    LeWordBound(b);
  }

  lemma TopBytes(d: Octet, r: Word, e: Octet, q: Word)
    requires TopClear(r) && TopClear(q)
    requires Xor(d as Word, Up8(r)) == Xor(e as Word, Up8(q))
    ensures d == e && r == q
  {}
}
