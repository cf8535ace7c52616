/** The four Huffman tables of the transcoder's output: each is a code, and the
    tokens that have one are exactly those of coefficients of a JPEG scan. */
module StdTables {
  import opened Arith
  import opened Huffman
  import opened BitStream
  import opened Entropy

  // ----- Tables from counts -----

  /** Counting through the lengths: the codes of each length fit it, and there are
      n of them in all. */
  predicate Fits(counts: seq<nat>, w: nat, p: nat, first: nat, offset: nat, n: nat)
    requires |counts| == 16
    decreases 17 - w
  {
    if 1 <= w <= 16 then
      && first + counts[w - 1] <= p
      && Fits(counts, w + 1, 2 * p, 2 * (first + counts[w - 1]), offset + counts[w - 1], n)
    else
      offset == n
  }

  lemma FitsEnd(counts: seq<nat>, p: nat, first: nat, n: nat)
    requires |counts| == 16
    ensures Fits(counts, 17, p, first, n, n)
  {}

  lemma FitsBack(counts: seq<nat>, w: nat, p: nat, first: nat, offset: nat, n: nat)
    requires |counts| == 16 && 1 <= w <= 16 && first + counts[w - 1] <= p
    requires Fits(counts, w + 1, 2 * p, 2 * (first + counts[w - 1]), offset + counts[w - 1], n)
    ensures Fits(counts, w, p, first, offset, n)
  {}

  lemma {:induction false} FitsMeans(t: Table, w: nat, n: nat)
    requires |t.counts| == 16 && 1 <= w <= 17 && Fits(t.counts, w, Pow2(w), First(t, w), Offset(t, w), n)
    ensures Offset(t, 17) == n
    ensures forall v :: w <= v <= 16 ==> First(t, v) + t.counts[v - 1] <= Pow2(v)
    decreases 17 - w
  {
    if w <= 16 { FitsMeans(t, w + 1, n); }
  }

  lemma CanonicalIf(t: Table, n: nat)
    requires |t.counts| == 16 && Fits(t.counts, 1, 2, 0, 0, n) && |t.symbols| == n
    requires forall j, k :: 0 <= j < k < n ==> t.symbols[j] != t.symbols[k]
    ensures Canonical(t) && Offset(t, 17) == n
  {
    assert Pow2(1) == 2;
    FitsMeans(t, 1, n);
  }

  // ----- DC values -----

  /** How many codes of i + 1 bits there are. */
  function LumaDcCount(i: nat): nat {
    if i == 1 then 1 else if i == 2 then 5 else if i == 3 then 1 else if i == 4 then 1 else if i == 5 then 1 else
    if i == 6 then 1 else if i == 7 then 1 else if i == 8 then 1 else 0
  }

  function LumaDc(): (t: Table)
    ensures |t.counts| == 16 && forall i :: 0 <= i < 16 ==> t.counts[i] == LumaDcCount(i)
    ensures |t.symbols| == 12 && forall k :: 0 <= k < 12 ==> t.symbols[k] == k
  {
    Table(seq(16, i requires 0 <= i => LumaDcCount(i)), seq(12, i => i))
  }

  /** How many codes of i + 1 bits there are. */
  function ChromaDcCount(i: nat): nat {
    if i == 1 then 3 else if i == 2 then 1 else if i == 3 then 1 else if i == 4 then 1 else if i == 5 then 1 else
    if i == 6 then 1 else if i == 7 then 1 else if i == 8 then 1 else if i == 9 then 1 else if i == 10 then 1 else 0
  }

  function ChromaDc(): (t: Table)
    ensures |t.counts| == 16 && forall i :: 0 <= i < 16 ==> t.counts[i] == ChromaDcCount(i)
    ensures |t.symbols| == 12 && forall k :: 0 <= k < 12 ==> t.symbols[k] == k
  {
    Table(seq(16, i requires 0 <= i => ChromaDcCount(i)), seq(12, i => i))
  }

  lemma LumaDcFits(c: seq<nat>, n: nat)
    requires |c| == 16 && n == 12 && forall i :: 0 <= i < 16 ==> c[i] == LumaDcCount(i)
    ensures Fits(c, 1, 2, 0, 0, n)
  {
    hide Fits;
    FitsEnd(c, 131072, 130816, n); FitsBack(c, 16, 65536, 65408, 12, n);
    FitsBack(c, 15, 32768, 32704, 12, n); FitsBack(c, 14, 16384, 16352, 12, n);
    FitsBack(c, 13, 8192, 8176, 12, n); FitsBack(c, 12, 4096, 4088, 12, n);
    FitsBack(c, 11, 2048, 2044, 12, n); FitsBack(c, 10, 1024, 1022, 12, n);
    FitsBack(c, 9, 512, 510, 11, n); FitsBack(c, 8, 256, 254, 10, n);
    FitsBack(c, 7, 128, 126, 9, n); FitsBack(c, 6, 64, 62, 8, n);
    FitsBack(c, 5, 32, 30, 7, n); FitsBack(c, 4, 16, 14, 6, n);
    FitsBack(c, 3, 8, 2, 1, n); FitsBack(c, 2, 4, 0, 0, n);
    FitsBack(c, 1, 2, 0, 0, n);
  }

  lemma ChromaDcFits(c: seq<nat>, n: nat)
    requires |c| == 16 && n == 12 && forall i :: 0 <= i < 16 ==> c[i] == ChromaDcCount(i)
    ensures Fits(c, 1, 2, 0, 0, n)
  {
    hide Fits;
    FitsEnd(c, 131072, 131008, n); FitsBack(c, 16, 65536, 65504, 12, n);
    FitsBack(c, 15, 32768, 32752, 12, n); FitsBack(c, 14, 16384, 16376, 12, n);
    FitsBack(c, 13, 8192, 8188, 12, n); FitsBack(c, 12, 4096, 4094, 12, n);
    FitsBack(c, 11, 2048, 2046, 11, n); FitsBack(c, 10, 1024, 1022, 10, n);
    FitsBack(c, 9, 512, 510, 9, n); FitsBack(c, 8, 256, 254, 8, n);
    FitsBack(c, 7, 128, 126, 7, n); FitsBack(c, 6, 64, 62, 6, n);
    FitsBack(c, 5, 32, 30, 5, n); FitsBack(c, 4, 16, 14, 4, n);
    FitsBack(c, 3, 8, 6, 3, n); FitsBack(c, 2, 4, 0, 0, n);
    FitsBack(c, 1, 2, 0, 0, n);
  }

  lemma LumaDcCanonical()
    ensures Canonical(LumaDc()) && Offset(LumaDc(), 17) == 12
  {
    hide Fits, Canonical, Offset;
    LumaDcFits(LumaDc().counts, 12);
    CanonicalIf(LumaDc(), 12);
  }

  lemma ChromaDcCanonical()
    ensures Canonical(ChromaDc()) && Offset(ChromaDc(), 17) == 12
  {
    hide Fits, Canonical, Offset;
    ChromaDcFits(ChromaDc().counts, 12);
    CanonicalIf(ChromaDc(), 12);
  }

  /** The DC tables are codes, with the widths up to eleven. */
  lemma DcCanonical()
    ensures Canonical(LumaDc()) && Canonical(ChromaDc())
    ensures Offset(LumaDc(), 17) == 12 && Offset(ChromaDc(), 17) == 12
  {
    hide Canonical, Offset;
    LumaDcCanonical();
    ChromaDcCanonical();
  }

  /** They have codes for exactly the values of eleven bits. */
  lemma DcHasCode(t: Table, value: int)
    requires t == LumaDc() || t == ChromaDc()
    ensures HasCode(t, (0, value)) <==> Width(Abs(value)) <= 11
  {
    hide Offset, Width;
    DcCanonical();
    var w := Width(Abs(value));
    if w <= 11 { assert t.symbols[w] == 0 * 16 + w; }
  }

  // ----- AC coefficients -----

  /** A run of up to fifteen zeros and a value of one to ten bits, or the end of the
      block, or sixteen zeros. */
  predicate AcSymbol(s: nat) {
    1 <= s % 16 <= 10 || s == 0x00 || s == 0xf0
  }

  /** How many codes of i + 1 bits there are. */
  function LumaAcCount(i: nat): nat {
    if i == 1 then 2 else if i == 2 then 1 else if i == 3 then 3 else if i == 4 then 3 else if i == 5 then 2 else
    if i == 6 then 4 else if i == 7 then 3 else if i == 8 then 5 else if i == 9 then 5 else if i == 10 then 4 else
    if i == 11 then 4 else if i == 14 then 1 else if i == 15 then 125 else 0
  }

  function LumaAc(): (t: Table)
    ensures |t.counts| == 16 && forall i :: 0 <= i < 16 ==> t.counts[i] == LumaAcCount(i)
    ensures |t.symbols| == 162 && forall k :: 0 <= k < 162 ==> t.symbols[k] == LumaSymbol(k)
  {
    Table(seq(16, i requires 0 <= i => LumaAcCount(i)), seq(162, i requires 0 <= i => LumaSymbol(i)))
  }

  /** How many codes of i + 1 bits there are. */
  function ChromaAcCount(i: nat): nat {
    if i == 1 then 2 else if i == 2 then 1 else if i == 3 then 2 else if i == 4 then 4 else if i == 5 then 4 else
    if i == 6 then 3 else if i == 7 then 4 else if i == 8 then 7 else if i == 9 then 5 else if i == 10 then 4 else
    if i == 11 then 4 else if i == 13 then 1 else if i == 14 then 2 else if i == 15 then 119 else 0
  }

  function ChromaAc(): (t: Table)
    ensures |t.counts| == 16 && forall i :: 0 <= i < 16 ==> t.counts[i] == ChromaAcCount(i)
    ensures |t.symbols| == 162 && forall k :: 0 <= k < 162 ==> t.symbols[k] == ChromaSymbol(k)
  {
    Table(seq(16, i requires 0 <= i => ChromaAcCount(i)), seq(162, i requires 0 <= i => ChromaSymbol(i)))
  }

  // ----- The symbols of the luminance coefficients -----

  function LumaSymbol(k: nat): nat {
    if k < 21 then LumaSymbol0(k) else if k < 41 then LumaSymbol1(k) else if k < 61 then LumaSymbol2(k) else
    if k < 82 then LumaSymbol3(k) else if k < 102 then LumaSymbol4(k) else if k < 123 then LumaSymbol5(k) else
    if k < 143 then LumaSymbol6(k) else LumaSymbol7(k)
  }

  function LumaSymbol0(k: nat): nat {
    if k == 0 then 0x01 else if k == 1 then 0x02 else if k == 2 then 0x03 else if k == 3 then 0x00 else
    if k == 4 then 0x04 else if k == 5 then 0x11 else if k == 6 then 0x05 else if k == 7 then 0x12 else
    if k == 8 then 0x21 else if k == 9 then 0x31 else if k == 10 then 0x41 else if k == 11 then 0x06 else
    if k == 12 then 0x13 else if k == 13 then 0x51 else if k == 14 then 0x61 else if k == 15 then 0x07 else
    if k == 16 then 0x22 else if k == 17 then 0x71 else if k == 18 then 0x14 else if k == 19 then 0x32 else
    if k == 20 then 0x81 else 0
  }

  function LumaSymbol1(k: nat): nat {
    if k == 21 then 0x91 else if k == 22 then 0xa1 else if k == 23 then 0x08 else if k == 24 then 0x23 else
    if k == 25 then 0x42 else if k == 26 then 0xb1 else if k == 27 then 0xc1 else if k == 28 then 0x15 else
    if k == 29 then 0x52 else if k == 30 then 0xd1 else if k == 31 then 0xf0 else if k == 32 then 0x24 else
    if k == 33 then 0x33 else if k == 34 then 0x62 else if k == 35 then 0x72 else if k == 36 then 0x82 else
    if k == 37 then 0x09 else if k == 38 then 0x0a else if k == 39 then 0x16 else if k == 40 then 0x17 else
    0
  }

  function LumaSymbol2(k: nat): nat {
    if k == 41 then 0x18 else if k == 42 then 0x19 else if k == 43 then 0x1a else if k == 44 then 0x25 else
    if k == 45 then 0x26 else if k == 46 then 0x27 else if k == 47 then 0x28 else if k == 48 then 0x29 else
    if k == 49 then 0x2a else if k == 50 then 0x34 else if k == 51 then 0x35 else if k == 52 then 0x36 else
    if k == 53 then 0x37 else if k == 54 then 0x38 else if k == 55 then 0x39 else if k == 56 then 0x3a else
    if k == 57 then 0x43 else if k == 58 then 0x44 else if k == 59 then 0x45 else if k == 60 then 0x46 else
    0
  }

  function LumaSymbol3(k: nat): nat {
    if k == 61 then 0x47 else if k == 62 then 0x48 else if k == 63 then 0x49 else if k == 64 then 0x4a else
    if k == 65 then 0x53 else if k == 66 then 0x54 else if k == 67 then 0x55 else if k == 68 then 0x56 else
    if k == 69 then 0x57 else if k == 70 then 0x58 else if k == 71 then 0x59 else if k == 72 then 0x5a else
    if k == 73 then 0x63 else if k == 74 then 0x64 else if k == 75 then 0x65 else if k == 76 then 0x66 else
    if k == 77 then 0x67 else if k == 78 then 0x68 else if k == 79 then 0x69 else if k == 80 then 0x6a else
    if k == 81 then 0x73 else 0
  }

  function LumaSymbol4(k: nat): nat {
    if k == 82 then 0x74 else if k == 83 then 0x75 else if k == 84 then 0x76 else if k == 85 then 0x77 else
    if k == 86 then 0x78 else if k == 87 then 0x79 else if k == 88 then 0x7a else if k == 89 then 0x83 else
    if k == 90 then 0x84 else if k == 91 then 0x85 else if k == 92 then 0x86 else if k == 93 then 0x87 else
    if k == 94 then 0x88 else if k == 95 then 0x89 else if k == 96 then 0x8a else if k == 97 then 0x92 else
    if k == 98 then 0x93 else if k == 99 then 0x94 else if k == 100 then 0x95 else if k == 101 then 0x96 else
    0
  }

  function LumaSymbol5(k: nat): nat {
    if k == 102 then 0x97 else if k == 103 then 0x98 else if k == 104 then 0x99 else if k == 105 then 0x9a else
    if k == 106 then 0xa2 else if k == 107 then 0xa3 else if k == 108 then 0xa4 else if k == 109 then 0xa5 else
    if k == 110 then 0xa6 else if k == 111 then 0xa7 else if k == 112 then 0xa8 else if k == 113 then 0xa9 else
    if k == 114 then 0xaa else if k == 115 then 0xb2 else if k == 116 then 0xb3 else if k == 117 then 0xb4 else
    if k == 118 then 0xb5 else if k == 119 then 0xb6 else if k == 120 then 0xb7 else if k == 121 then 0xb8 else
    if k == 122 then 0xb9 else 0
  }

  function LumaSymbol6(k: nat): nat {
    if k == 123 then 0xba else if k == 124 then 0xc2 else if k == 125 then 0xc3 else if k == 126 then 0xc4 else
    if k == 127 then 0xc5 else if k == 128 then 0xc6 else if k == 129 then 0xc7 else if k == 130 then 0xc8 else
    if k == 131 then 0xc9 else if k == 132 then 0xca else if k == 133 then 0xd2 else if k == 134 then 0xd3 else
    if k == 135 then 0xd4 else if k == 136 then 0xd5 else if k == 137 then 0xd6 else if k == 138 then 0xd7 else
    if k == 139 then 0xd8 else if k == 140 then 0xd9 else if k == 141 then 0xda else if k == 142 then 0xe1 else
    0
  }

  function LumaSymbol7(k: nat): nat {
    if k == 143 then 0xe2 else if k == 144 then 0xe3 else if k == 145 then 0xe4 else if k == 146 then 0xe5 else
    if k == 147 then 0xe6 else if k == 148 then 0xe7 else if k == 149 then 0xe8 else if k == 150 then 0xe9 else
    if k == 151 then 0xea else if k == 152 then 0xf1 else if k == 153 then 0xf2 else if k == 154 then 0xf3 else
    if k == 155 then 0xf4 else if k == 156 then 0xf5 else if k == 157 then 0xf6 else if k == 158 then 0xf7 else
    if k == 159 then 0xf8 else if k == 160 then 0xf9 else if k == 161 then 0xfa else 0
  }

  /** The place of a symbol, or 162. */
  function LumaPlace(s: nat): nat {
    if s < 0x20 then LumaPlace0(s) else if s < 0x40 then LumaPlace1(s) else if s < 0x60 then LumaPlace2(s) else
    if s < 0x80 then LumaPlace3(s) else if s < 0xa0 then LumaPlace4(s) else if s < 0xc0 then LumaPlace5(s) else
    if s < 0xe0 then LumaPlace6(s) else LumaPlace7(s)
  }

  function LumaPlace0(s: nat): nat {
    if s == 0x00 then 3 else if s == 0x01 then 0 else if s == 0x02 then 1 else if s == 0x03 then 2 else
    if s == 0x04 then 4 else if s == 0x05 then 6 else if s == 0x06 then 11 else if s == 0x07 then 15 else
    if s == 0x08 then 23 else if s == 0x09 then 37 else if s == 0x0a then 38 else if s == 0x11 then 5 else
    if s == 0x12 then 7 else if s == 0x13 then 12 else if s == 0x14 then 18 else if s == 0x15 then 28 else
    if s == 0x16 then 39 else if s == 0x17 then 40 else if s == 0x18 then 41 else if s == 0x19 then 42 else
    if s == 0x1a then 43 else 162
  }

  function LumaPlace1(s: nat): nat {
    if s == 0x21 then 8 else if s == 0x22 then 16 else if s == 0x23 then 24 else if s == 0x24 then 32 else
    if s == 0x25 then 44 else if s == 0x26 then 45 else if s == 0x27 then 46 else if s == 0x28 then 47 else
    if s == 0x29 then 48 else if s == 0x2a then 49 else if s == 0x31 then 9 else if s == 0x32 then 19 else
    if s == 0x33 then 33 else if s == 0x34 then 50 else if s == 0x35 then 51 else if s == 0x36 then 52 else
    if s == 0x37 then 53 else if s == 0x38 then 54 else if s == 0x39 then 55 else if s == 0x3a then 56 else
    162
  }

  function LumaPlace2(s: nat): nat {
    if s == 0x41 then 10 else if s == 0x42 then 25 else if s == 0x43 then 57 else if s == 0x44 then 58 else
    if s == 0x45 then 59 else if s == 0x46 then 60 else if s == 0x47 then 61 else if s == 0x48 then 62 else
    if s == 0x49 then 63 else if s == 0x4a then 64 else if s == 0x51 then 13 else if s == 0x52 then 29 else
    if s == 0x53 then 65 else if s == 0x54 then 66 else if s == 0x55 then 67 else if s == 0x56 then 68 else
    if s == 0x57 then 69 else if s == 0x58 then 70 else if s == 0x59 then 71 else if s == 0x5a then 72 else
    162
  }

  function LumaPlace3(s: nat): nat {
    if s == 0x61 then 14 else if s == 0x62 then 34 else if s == 0x63 then 73 else if s == 0x64 then 74 else
    if s == 0x65 then 75 else if s == 0x66 then 76 else if s == 0x67 then 77 else if s == 0x68 then 78 else
    if s == 0x69 then 79 else if s == 0x6a then 80 else if s == 0x71 then 17 else if s == 0x72 then 35 else
    if s == 0x73 then 81 else if s == 0x74 then 82 else if s == 0x75 then 83 else if s == 0x76 then 84 else
    if s == 0x77 then 85 else if s == 0x78 then 86 else if s == 0x79 then 87 else if s == 0x7a then 88 else
    162
  }

  function LumaPlace4(s: nat): nat {
    if s == 0x81 then 20 else if s == 0x82 then 36 else if s == 0x83 then 89 else if s == 0x84 then 90 else
    if s == 0x85 then 91 else if s == 0x86 then 92 else if s == 0x87 then 93 else if s == 0x88 then 94 else
    if s == 0x89 then 95 else if s == 0x8a then 96 else if s == 0x91 then 21 else if s == 0x92 then 97 else
    if s == 0x93 then 98 else if s == 0x94 then 99 else if s == 0x95 then 100 else if s == 0x96 then 101 else
    if s == 0x97 then 102 else if s == 0x98 then 103 else if s == 0x99 then 104 else if s == 0x9a then 105 else
    162
  }

  function LumaPlace5(s: nat): nat {
    if s == 0xa1 then 22 else if s == 0xa2 then 106 else if s == 0xa3 then 107 else if s == 0xa4 then 108 else
    if s == 0xa5 then 109 else if s == 0xa6 then 110 else if s == 0xa7 then 111 else if s == 0xa8 then 112 else
    if s == 0xa9 then 113 else if s == 0xaa then 114 else if s == 0xb1 then 26 else if s == 0xb2 then 115 else
    if s == 0xb3 then 116 else if s == 0xb4 then 117 else if s == 0xb5 then 118 else if s == 0xb6 then 119 else
    if s == 0xb7 then 120 else if s == 0xb8 then 121 else if s == 0xb9 then 122 else if s == 0xba then 123 else
    162
  }

  function LumaPlace6(s: nat): nat {
    if s == 0xc1 then 27 else if s == 0xc2 then 124 else if s == 0xc3 then 125 else if s == 0xc4 then 126 else
    if s == 0xc5 then 127 else if s == 0xc6 then 128 else if s == 0xc7 then 129 else if s == 0xc8 then 130 else
    if s == 0xc9 then 131 else if s == 0xca then 132 else if s == 0xd1 then 30 else if s == 0xd2 then 133 else
    if s == 0xd3 then 134 else if s == 0xd4 then 135 else if s == 0xd5 then 136 else if s == 0xd6 then 137 else
    if s == 0xd7 then 138 else if s == 0xd8 then 139 else if s == 0xd9 then 140 else if s == 0xda then 141 else
    162
  }

  function LumaPlace7(s: nat): nat {
    if s == 0xe1 then 142 else if s == 0xe2 then 143 else if s == 0xe3 then 144 else if s == 0xe4 then 145 else
    if s == 0xe5 then 146 else if s == 0xe6 then 147 else if s == 0xe7 then 148 else if s == 0xe8 then 149 else
    if s == 0xe9 then 150 else if s == 0xea then 151 else if s == 0xf0 then 31 else if s == 0xf1 then 152 else
    if s == 0xf2 then 153 else if s == 0xf3 then 154 else if s == 0xf4 then 155 else if s == 0xf5 then 156 else
    if s == 0xf6 then 157 else if s == 0xf7 then 158 else if s == 0xf8 then 159 else if s == 0xf9 then 160 else
    if s == 0xfa then 161 else 162
  }

  lemma LumaOnce0(k: nat)
    requires 0 <= k < 21
    ensures LumaPlace(LumaSymbol(k)) == k && LumaSymbol(k) < 256
  {}

  lemma LumaOnce1(k: nat)
    requires 21 <= k < 41
    ensures LumaPlace(LumaSymbol(k)) == k && LumaSymbol(k) < 256
  {}

  lemma LumaOnce2(k: nat)
    requires 41 <= k < 61
    ensures LumaPlace(LumaSymbol(k)) == k && LumaSymbol(k) < 256
  {}

  lemma LumaOnce3(k: nat)
    requires 61 <= k < 82
    ensures LumaPlace(LumaSymbol(k)) == k && LumaSymbol(k) < 256
  {}

  lemma LumaOnce4(k: nat)
    requires 82 <= k < 102
    ensures LumaPlace(LumaSymbol(k)) == k && LumaSymbol(k) < 256
  {}

  lemma LumaOnce5(k: nat)
    requires 102 <= k < 123
    ensures LumaPlace(LumaSymbol(k)) == k && LumaSymbol(k) < 256
  {}

  lemma LumaOnce6(k: nat)
    requires 123 <= k < 143
    ensures LumaPlace(LumaSymbol(k)) == k && LumaSymbol(k) < 256
  {}

  lemma LumaOnce7(k: nat)
    requires 143 <= k < 162
    ensures LumaPlace(LumaSymbol(k)) == k && LumaSymbol(k) < 256
  {}

  lemma LumaEach0(s: nat)
    requires 0x00 <= s < 0x20
    ensures LumaPlace(s) < 162 <==> AcSymbol(s)
    ensures LumaPlace(s) < 162 ==> LumaSymbol(LumaPlace(s)) == s
  {}

  lemma LumaEach1(s: nat)
    requires 0x20 <= s < 0x40
    ensures LumaPlace(s) < 162 <==> AcSymbol(s)
    ensures LumaPlace(s) < 162 ==> LumaSymbol(LumaPlace(s)) == s
  {}

  lemma LumaEach2(s: nat)
    requires 0x40 <= s < 0x60
    ensures LumaPlace(s) < 162 <==> AcSymbol(s)
    ensures LumaPlace(s) < 162 ==> LumaSymbol(LumaPlace(s)) == s
  {}

  lemma LumaEach3(s: nat)
    requires 0x60 <= s < 0x80
    ensures LumaPlace(s) < 162 <==> AcSymbol(s)
    ensures LumaPlace(s) < 162 ==> LumaSymbol(LumaPlace(s)) == s
  {}

  lemma LumaEach4(s: nat)
    requires 0x80 <= s < 0xa0
    ensures LumaPlace(s) < 162 <==> AcSymbol(s)
    ensures LumaPlace(s) < 162 ==> LumaSymbol(LumaPlace(s)) == s
  {}

  lemma LumaEach5(s: nat)
    requires 0xa0 <= s < 0xc0
    ensures LumaPlace(s) < 162 <==> AcSymbol(s)
    ensures LumaPlace(s) < 162 ==> LumaSymbol(LumaPlace(s)) == s
  {}

  lemma LumaEach6(s: nat)
    requires 0xc0 <= s < 0xe0
    ensures LumaPlace(s) < 162 <==> AcSymbol(s)
    ensures LumaPlace(s) < 162 ==> LumaSymbol(LumaPlace(s)) == s
  {}

  lemma LumaEach7(s: nat)
    requires 0xe0 <= s < 0x100
    ensures LumaPlace(s) < 162 <==> AcSymbol(s)
    ensures LumaPlace(s) < 162 ==> LumaSymbol(LumaPlace(s)) == s
  {}

  lemma LumaOnce(k: nat)
    requires k < 162
    ensures LumaPlace(LumaSymbol(k)) == k && LumaSymbol(k) < 256
  {
    hide LumaPlace, LumaSymbol;
    if k < 21 { LumaOnce0(k); } else if k < 41 { LumaOnce1(k); } else
    if k < 61 { LumaOnce2(k); } else if k < 82 { LumaOnce3(k); } else
    if k < 102 { LumaOnce4(k); } else if k < 123 { LumaOnce5(k); } else
    if k < 143 { LumaOnce6(k); } else { LumaOnce7(k); }
  }

  lemma LumaEach(s: nat)
    requires s < 256
    ensures LumaPlace(s) < 162 <==> AcSymbol(s)
    ensures LumaPlace(s) < 162 ==> LumaSymbol(LumaPlace(s)) == s
  {
    hide LumaPlace, LumaSymbol, AcSymbol;
    if s < 0x20 { LumaEach0(s); } else if s < 0x40 { LumaEach1(s); } else
    if s < 0x60 { LumaEach2(s); } else if s < 0x80 { LumaEach3(s); } else
    if s < 0xa0 { LumaEach4(s); } else if s < 0xc0 { LumaEach5(s); } else
    if s < 0xe0 { LumaEach6(s); } else { LumaEach7(s); }
  }

  // ----- The symbols of the chrominance coefficients -----

  function ChromaSymbol(k: nat): nat {
    if k < 21 then ChromaSymbol0(k) else if k < 41 then ChromaSymbol1(k) else if k < 61 then ChromaSymbol2(k) else
    if k < 82 then ChromaSymbol3(k) else if k < 102 then ChromaSymbol4(k) else if k < 123 then ChromaSymbol5(k) else
    if k < 143 then ChromaSymbol6(k) else ChromaSymbol7(k)
  }

  function ChromaSymbol0(k: nat): nat {
    if k == 0 then 0x00 else if k == 1 then 0x01 else if k == 2 then 0x02 else if k == 3 then 0x03 else
    if k == 4 then 0x11 else if k == 5 then 0x04 else if k == 6 then 0x05 else if k == 7 then 0x21 else
    if k == 8 then 0x31 else if k == 9 then 0x06 else if k == 10 then 0x12 else if k == 11 then 0x41 else
    if k == 12 then 0x51 else if k == 13 then 0x07 else if k == 14 then 0x61 else if k == 15 then 0x71 else
    if k == 16 then 0x13 else if k == 17 then 0x22 else if k == 18 then 0x32 else if k == 19 then 0x81 else
    if k == 20 then 0x08 else 0
  }

  function ChromaSymbol1(k: nat): nat {
    if k == 21 then 0x14 else if k == 22 then 0x42 else if k == 23 then 0x91 else if k == 24 then 0xa1 else
    if k == 25 then 0xb1 else if k == 26 then 0xc1 else if k == 27 then 0x09 else if k == 28 then 0x23 else
    if k == 29 then 0x33 else if k == 30 then 0x52 else if k == 31 then 0xf0 else if k == 32 then 0x15 else
    if k == 33 then 0x62 else if k == 34 then 0x72 else if k == 35 then 0xd1 else if k == 36 then 0x0a else
    if k == 37 then 0x16 else if k == 38 then 0x24 else if k == 39 then 0x34 else if k == 40 then 0xe1 else
    0
  }

  function ChromaSymbol2(k: nat): nat {
    if k == 41 then 0x25 else if k == 42 then 0xf1 else if k == 43 then 0x17 else if k == 44 then 0x18 else
    if k == 45 then 0x19 else if k == 46 then 0x1a else if k == 47 then 0x26 else if k == 48 then 0x27 else
    if k == 49 then 0x28 else if k == 50 then 0x29 else if k == 51 then 0x2a else if k == 52 then 0x35 else
    if k == 53 then 0x36 else if k == 54 then 0x37 else if k == 55 then 0x38 else if k == 56 then 0x39 else
    if k == 57 then 0x3a else if k == 58 then 0x43 else if k == 59 then 0x44 else if k == 60 then 0x45 else
    0
  }

  function ChromaSymbol3(k: nat): nat {
    if k == 61 then 0x46 else if k == 62 then 0x47 else if k == 63 then 0x48 else if k == 64 then 0x49 else
    if k == 65 then 0x4a else if k == 66 then 0x53 else if k == 67 then 0x54 else if k == 68 then 0x55 else
    if k == 69 then 0x56 else if k == 70 then 0x57 else if k == 71 then 0x58 else if k == 72 then 0x59 else
    if k == 73 then 0x5a else if k == 74 then 0x63 else if k == 75 then 0x64 else if k == 76 then 0x65 else
    if k == 77 then 0x66 else if k == 78 then 0x67 else if k == 79 then 0x68 else if k == 80 then 0x69 else
    if k == 81 then 0x6a else 0
  }

  function ChromaSymbol4(k: nat): nat {
    if k == 82 then 0x73 else if k == 83 then 0x74 else if k == 84 then 0x75 else if k == 85 then 0x76 else
    if k == 86 then 0x77 else if k == 87 then 0x78 else if k == 88 then 0x79 else if k == 89 then 0x7a else
    if k == 90 then 0x82 else if k == 91 then 0x83 else if k == 92 then 0x84 else if k == 93 then 0x85 else
    if k == 94 then 0x86 else if k == 95 then 0x87 else if k == 96 then 0x88 else if k == 97 then 0x89 else
    if k == 98 then 0x8a else if k == 99 then 0x92 else if k == 100 then 0x93 else if k == 101 then 0x94 else
    0
  }

  function ChromaSymbol5(k: nat): nat {
    if k == 102 then 0x95 else if k == 103 then 0x96 else if k == 104 then 0x97 else if k == 105 then 0x98 else
    if k == 106 then 0x99 else if k == 107 then 0x9a else if k == 108 then 0xa2 else if k == 109 then 0xa3 else
    if k == 110 then 0xa4 else if k == 111 then 0xa5 else if k == 112 then 0xa6 else if k == 113 then 0xa7 else
    if k == 114 then 0xa8 else if k == 115 then 0xa9 else if k == 116 then 0xaa else if k == 117 then 0xb2 else
    if k == 118 then 0xb3 else if k == 119 then 0xb4 else if k == 120 then 0xb5 else if k == 121 then 0xb6 else
    if k == 122 then 0xb7 else 0
  }

  function ChromaSymbol6(k: nat): nat {
    if k == 123 then 0xb8 else if k == 124 then 0xb9 else if k == 125 then 0xba else if k == 126 then 0xc2 else
    if k == 127 then 0xc3 else if k == 128 then 0xc4 else if k == 129 then 0xc5 else if k == 130 then 0xc6 else
    if k == 131 then 0xc7 else if k == 132 then 0xc8 else if k == 133 then 0xc9 else if k == 134 then 0xca else
    if k == 135 then 0xd2 else if k == 136 then 0xd3 else if k == 137 then 0xd4 else if k == 138 then 0xd5 else
    if k == 139 then 0xd6 else if k == 140 then 0xd7 else if k == 141 then 0xd8 else if k == 142 then 0xd9 else
    0
  }

  function ChromaSymbol7(k: nat): nat {
    if k == 143 then 0xda else if k == 144 then 0xe2 else if k == 145 then 0xe3 else if k == 146 then 0xe4 else
    if k == 147 then 0xe5 else if k == 148 then 0xe6 else if k == 149 then 0xe7 else if k == 150 then 0xe8 else
    if k == 151 then 0xe9 else if k == 152 then 0xea else if k == 153 then 0xf2 else if k == 154 then 0xf3 else
    if k == 155 then 0xf4 else if k == 156 then 0xf5 else if k == 157 then 0xf6 else if k == 158 then 0xf7 else
    if k == 159 then 0xf8 else if k == 160 then 0xf9 else if k == 161 then 0xfa else 0
  }

  /** The place of a symbol, or 162. */
  function ChromaPlace(s: nat): nat {
    if s < 0x20 then ChromaPlace0(s) else if s < 0x40 then ChromaPlace1(s) else if s < 0x60 then ChromaPlace2(s) else
    if s < 0x80 then ChromaPlace3(s) else if s < 0xa0 then ChromaPlace4(s) else if s < 0xc0 then ChromaPlace5(s) else
    if s < 0xe0 then ChromaPlace6(s) else ChromaPlace7(s)
  }

  function ChromaPlace0(s: nat): nat {
    if s == 0x00 then 0 else if s == 0x01 then 1 else if s == 0x02 then 2 else if s == 0x03 then 3 else
    if s == 0x04 then 5 else if s == 0x05 then 6 else if s == 0x06 then 9 else if s == 0x07 then 13 else
    if s == 0x08 then 20 else if s == 0x09 then 27 else if s == 0x0a then 36 else if s == 0x11 then 4 else
    if s == 0x12 then 10 else if s == 0x13 then 16 else if s == 0x14 then 21 else if s == 0x15 then 32 else
    if s == 0x16 then 37 else if s == 0x17 then 43 else if s == 0x18 then 44 else if s == 0x19 then 45 else
    if s == 0x1a then 46 else 162
  }

  function ChromaPlace1(s: nat): nat {
    if s == 0x21 then 7 else if s == 0x22 then 17 else if s == 0x23 then 28 else if s == 0x24 then 38 else
    if s == 0x25 then 41 else if s == 0x26 then 47 else if s == 0x27 then 48 else if s == 0x28 then 49 else
    if s == 0x29 then 50 else if s == 0x2a then 51 else if s == 0x31 then 8 else if s == 0x32 then 18 else
    if s == 0x33 then 29 else if s == 0x34 then 39 else if s == 0x35 then 52 else if s == 0x36 then 53 else
    if s == 0x37 then 54 else if s == 0x38 then 55 else if s == 0x39 then 56 else if s == 0x3a then 57 else
    162
  }

  function ChromaPlace2(s: nat): nat {
    if s == 0x41 then 11 else if s == 0x42 then 22 else if s == 0x43 then 58 else if s == 0x44 then 59 else
    if s == 0x45 then 60 else if s == 0x46 then 61 else if s == 0x47 then 62 else if s == 0x48 then 63 else
    if s == 0x49 then 64 else if s == 0x4a then 65 else if s == 0x51 then 12 else if s == 0x52 then 30 else
    if s == 0x53 then 66 else if s == 0x54 then 67 else if s == 0x55 then 68 else if s == 0x56 then 69 else
    if s == 0x57 then 70 else if s == 0x58 then 71 else if s == 0x59 then 72 else if s == 0x5a then 73 else
    162
  }

  function ChromaPlace3(s: nat): nat {
    if s == 0x61 then 14 else if s == 0x62 then 33 else if s == 0x63 then 74 else if s == 0x64 then 75 else
    if s == 0x65 then 76 else if s == 0x66 then 77 else if s == 0x67 then 78 else if s == 0x68 then 79 else
    if s == 0x69 then 80 else if s == 0x6a then 81 else if s == 0x71 then 15 else if s == 0x72 then 34 else
    if s == 0x73 then 82 else if s == 0x74 then 83 else if s == 0x75 then 84 else if s == 0x76 then 85 else
    if s == 0x77 then 86 else if s == 0x78 then 87 else if s == 0x79 then 88 else if s == 0x7a then 89 else
    162
  }

  function ChromaPlace4(s: nat): nat {
    if s == 0x81 then 19 else if s == 0x82 then 90 else if s == 0x83 then 91 else if s == 0x84 then 92 else
    if s == 0x85 then 93 else if s == 0x86 then 94 else if s == 0x87 then 95 else if s == 0x88 then 96 else
    if s == 0x89 then 97 else if s == 0x8a then 98 else if s == 0x91 then 23 else if s == 0x92 then 99 else
    if s == 0x93 then 100 else if s == 0x94 then 101 else if s == 0x95 then 102 else if s == 0x96 then 103 else
    if s == 0x97 then 104 else if s == 0x98 then 105 else if s == 0x99 then 106 else if s == 0x9a then 107 else
    162
  }

  function ChromaPlace5(s: nat): nat {
    if s == 0xa1 then 24 else if s == 0xa2 then 108 else if s == 0xa3 then 109 else if s == 0xa4 then 110 else
    if s == 0xa5 then 111 else if s == 0xa6 then 112 else if s == 0xa7 then 113 else if s == 0xa8 then 114 else
    if s == 0xa9 then 115 else if s == 0xaa then 116 else if s == 0xb1 then 25 else if s == 0xb2 then 117 else
    if s == 0xb3 then 118 else if s == 0xb4 then 119 else if s == 0xb5 then 120 else if s == 0xb6 then 121 else
    if s == 0xb7 then 122 else if s == 0xb8 then 123 else if s == 0xb9 then 124 else if s == 0xba then 125 else
    162
  }

  function ChromaPlace6(s: nat): nat {
    if s == 0xc1 then 26 else if s == 0xc2 then 126 else if s == 0xc3 then 127 else if s == 0xc4 then 128 else
    if s == 0xc5 then 129 else if s == 0xc6 then 130 else if s == 0xc7 then 131 else if s == 0xc8 then 132 else
    if s == 0xc9 then 133 else if s == 0xca then 134 else if s == 0xd1 then 35 else if s == 0xd2 then 135 else
    if s == 0xd3 then 136 else if s == 0xd4 then 137 else if s == 0xd5 then 138 else if s == 0xd6 then 139 else
    if s == 0xd7 then 140 else if s == 0xd8 then 141 else if s == 0xd9 then 142 else if s == 0xda then 143 else
    162
  }

  function ChromaPlace7(s: nat): nat {
    if s == 0xe1 then 40 else if s == 0xe2 then 144 else if s == 0xe3 then 145 else if s == 0xe4 then 146 else
    if s == 0xe5 then 147 else if s == 0xe6 then 148 else if s == 0xe7 then 149 else if s == 0xe8 then 150 else
    if s == 0xe9 then 151 else if s == 0xea then 152 else if s == 0xf0 then 31 else if s == 0xf1 then 42 else
    if s == 0xf2 then 153 else if s == 0xf3 then 154 else if s == 0xf4 then 155 else if s == 0xf5 then 156 else
    if s == 0xf6 then 157 else if s == 0xf7 then 158 else if s == 0xf8 then 159 else if s == 0xf9 then 160 else
    if s == 0xfa then 161 else 162
  }

  lemma ChromaOnce0(k: nat)
    requires 0 <= k < 21
    ensures ChromaPlace(ChromaSymbol(k)) == k && ChromaSymbol(k) < 256
  {}

  lemma ChromaOnce1(k: nat)
    requires 21 <= k < 41
    ensures ChromaPlace(ChromaSymbol(k)) == k && ChromaSymbol(k) < 256
  {}

  lemma ChromaOnce2(k: nat)
    requires 41 <= k < 61
    ensures ChromaPlace(ChromaSymbol(k)) == k && ChromaSymbol(k) < 256
  {}

  lemma ChromaOnce3(k: nat)
    requires 61 <= k < 82
    ensures ChromaPlace(ChromaSymbol(k)) == k && ChromaSymbol(k) < 256
  {}

  lemma ChromaOnce4(k: nat)
    requires 82 <= k < 102
    ensures ChromaPlace(ChromaSymbol(k)) == k && ChromaSymbol(k) < 256
  {}

  lemma ChromaOnce5(k: nat)
    requires 102 <= k < 123
    ensures ChromaPlace(ChromaSymbol(k)) == k && ChromaSymbol(k) < 256
  {}

  lemma ChromaOnce6(k: nat)
    requires 123 <= k < 143
    ensures ChromaPlace(ChromaSymbol(k)) == k && ChromaSymbol(k) < 256
  {}

  lemma ChromaOnce7(k: nat)
    requires 143 <= k < 162
    ensures ChromaPlace(ChromaSymbol(k)) == k && ChromaSymbol(k) < 256
  {}

  lemma ChromaEach0(s: nat)
    requires 0x00 <= s < 0x20
    ensures ChromaPlace(s) < 162 <==> AcSymbol(s)
    ensures ChromaPlace(s) < 162 ==> ChromaSymbol(ChromaPlace(s)) == s
  {}

  lemma ChromaEach1(s: nat)
    requires 0x20 <= s < 0x40
    ensures ChromaPlace(s) < 162 <==> AcSymbol(s)
    ensures ChromaPlace(s) < 162 ==> ChromaSymbol(ChromaPlace(s)) == s
  {}

  lemma ChromaEach2(s: nat)
    requires 0x40 <= s < 0x60
    ensures ChromaPlace(s) < 162 <==> AcSymbol(s)
    ensures ChromaPlace(s) < 162 ==> ChromaSymbol(ChromaPlace(s)) == s
  {}

  lemma ChromaEach3(s: nat)
    requires 0x60 <= s < 0x80
    ensures ChromaPlace(s) < 162 <==> AcSymbol(s)
    ensures ChromaPlace(s) < 162 ==> ChromaSymbol(ChromaPlace(s)) == s
  {}

  lemma ChromaEach4(s: nat)
    requires 0x80 <= s < 0xa0
    ensures ChromaPlace(s) < 162 <==> AcSymbol(s)
    ensures ChromaPlace(s) < 162 ==> ChromaSymbol(ChromaPlace(s)) == s
  {}

  lemma ChromaEach5(s: nat)
    requires 0xa0 <= s < 0xc0
    ensures ChromaPlace(s) < 162 <==> AcSymbol(s)
    ensures ChromaPlace(s) < 162 ==> ChromaSymbol(ChromaPlace(s)) == s
  {}

  lemma ChromaEach6(s: nat)
    requires 0xc0 <= s < 0xe0
    ensures ChromaPlace(s) < 162 <==> AcSymbol(s)
    ensures ChromaPlace(s) < 162 ==> ChromaSymbol(ChromaPlace(s)) == s
  {}

  lemma ChromaEach7(s: nat)
    requires 0xe0 <= s < 0x100
    ensures ChromaPlace(s) < 162 <==> AcSymbol(s)
    ensures ChromaPlace(s) < 162 ==> ChromaSymbol(ChromaPlace(s)) == s
  {}

  lemma ChromaOnce(k: nat)
    requires k < 162
    ensures ChromaPlace(ChromaSymbol(k)) == k && ChromaSymbol(k) < 256
  {
    hide ChromaPlace, ChromaSymbol;
    if k < 21 { ChromaOnce0(k); } else if k < 41 { ChromaOnce1(k); } else
    if k < 61 { ChromaOnce2(k); } else if k < 82 { ChromaOnce3(k); } else
    if k < 102 { ChromaOnce4(k); } else if k < 123 { ChromaOnce5(k); } else
    if k < 143 { ChromaOnce6(k); } else { ChromaOnce7(k); }
  }

  lemma ChromaEach(s: nat)
    requires s < 256
    ensures ChromaPlace(s) < 162 <==> AcSymbol(s)
    ensures ChromaPlace(s) < 162 ==> ChromaSymbol(ChromaPlace(s)) == s
  {
    hide ChromaPlace, ChromaSymbol, AcSymbol;
    if s < 0x20 { ChromaEach0(s); } else if s < 0x40 { ChromaEach1(s); } else
    if s < 0x60 { ChromaEach2(s); } else if s < 0x80 { ChromaEach3(s); } else
    if s < 0xa0 { ChromaEach4(s); } else if s < 0xc0 { ChromaEach5(s); } else
    if s < 0xe0 { ChromaEach6(s); } else { ChromaEach7(s); }
  }

  // ----- Both -----

  lemma LumaAcFits(c: seq<nat>, n: nat)
    requires |c| == 16 && n == 162 && forall i :: 0 <= i < 16 ==> c[i] == LumaAcCount(i)
    ensures Fits(c, 1, 2, 0, 0, n)
  {
    hide Fits;
    FitsEnd(c, 131072, 131070, n); FitsBack(c, 16, 65536, 65410, 37, n);
    FitsBack(c, 15, 32768, 32704, 36, n); FitsBack(c, 14, 16384, 16352, 36, n);
    FitsBack(c, 13, 8192, 8176, 36, n); FitsBack(c, 12, 4096, 4084, 32, n);
    FitsBack(c, 11, 2048, 2038, 28, n); FitsBack(c, 10, 1024, 1014, 23, n);
    FitsBack(c, 9, 512, 502, 18, n); FitsBack(c, 8, 256, 248, 15, n);
    FitsBack(c, 7, 128, 120, 11, n); FitsBack(c, 6, 64, 58, 9, n);
    FitsBack(c, 5, 32, 26, 6, n); FitsBack(c, 4, 16, 10, 3, n);
    FitsBack(c, 3, 8, 4, 2, n); FitsBack(c, 2, 4, 0, 0, n);
    FitsBack(c, 1, 2, 0, 0, n);
  }

  lemma ChromaAcFits(c: seq<nat>, n: nat)
    requires |c| == 16 && n == 162 && forall i :: 0 <= i < 16 ==> c[i] == ChromaAcCount(i)
    ensures Fits(c, 1, 2, 0, 0, n)
  {
    hide Fits;
    FitsEnd(c, 131072, 131070, n); FitsBack(c, 16, 65536, 65416, 43, n);
    FitsBack(c, 15, 32768, 32706, 41, n); FitsBack(c, 14, 16384, 16352, 40, n);
    FitsBack(c, 13, 8192, 8176, 40, n); FitsBack(c, 12, 4096, 4084, 36, n);
    FitsBack(c, 11, 2048, 2038, 32, n); FitsBack(c, 10, 1024, 1014, 27, n);
    FitsBack(c, 9, 512, 500, 20, n); FitsBack(c, 8, 256, 246, 16, n);
    FitsBack(c, 7, 128, 120, 13, n); FitsBack(c, 6, 64, 56, 9, n);
    FitsBack(c, 5, 32, 24, 5, n); FitsBack(c, 4, 16, 10, 3, n);
    FitsBack(c, 3, 8, 4, 2, n); FitsBack(c, 2, 4, 0, 0, n);
    FitsBack(c, 1, 2, 0, 0, n);
  }

  lemma LumaAcCanonical()
    ensures Canonical(LumaAc()) && Offset(LumaAc(), 17) == 162
  {
    hide LumaSymbol, LumaPlace, Fits, Canonical, Offset;
    LumaAcFits(LumaAc().counts, 162);
    forall k | 0 <= k < 162 ensures LumaPlace(LumaSymbol(k)) == k { LumaOnce(k); }
    CanonicalIf(LumaAc(), 162);
  }

  lemma ChromaAcCanonical()
    ensures Canonical(ChromaAc()) && Offset(ChromaAc(), 17) == 162
  {
    hide ChromaSymbol, ChromaPlace, Fits, Canonical, Offset;
    ChromaAcFits(ChromaAc().counts, 162);
    forall k | 0 <= k < 162 ensures ChromaPlace(ChromaSymbol(k)) == k { ChromaOnce(k); }
    CanonicalIf(ChromaAc(), 162);
  }

  /** The AC tables are codes. */
  lemma AcCanonical()
    ensures Canonical(LumaAc()) && Canonical(ChromaAc())
    ensures Offset(LumaAc(), 17) == 162 && Offset(ChromaAc(), 17) == 162
  {
    hide Canonical, Offset;
    LumaAcCanonical();
    ChromaAcCanonical();
  }

  /** They have codes for exactly the runs before values of one to ten bits, the end
      of a block and sixteen zeros. */
  lemma AcHasCode(t: Table, rle: nat, value: int)
    requires (t == LumaAc() || t == ChromaAc()) && rle < 16 && Width(Abs(value)) < 16
    ensures HasCode(t, (rle, value)) <==> 1 <= Width(Abs(value)) <= 10 || (value == 0 && (rle == 0 || rle == 15))
  {
    hide Offset, Width, LumaSymbol, ChromaSymbol, LumaPlace, ChromaPlace;
    AcCanonical();
    var s := rle * 16 + Width(Abs(value));
    NoWidth(value);
    if t == LumaAc() {
      LumaEach(s);
      if LumaPlace(s) < 162 { assert t.symbols[LumaPlace(s)] == s; }
      forall k | 0 <= k < 162 && t.symbols[k] == s ensures LumaPlace(s) < 162 { LumaOnce(k); }
    } else {
      ChromaEach(s);
      if ChromaPlace(s) < 162 { assert t.symbols[ChromaPlace(s)] == s; }
      forall k | 0 <= k < 162 && t.symbols[k] == s ensures ChromaPlace(s) < 162 { ChromaOnce(k); }
    }
  }

  lemma NoWidth(value: int)
    ensures Width(Abs(value)) == 0 <==> value == 0
  {}
}
