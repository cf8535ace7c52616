/** Bits in and out of bytes: the output buffer of the transcoder, which puts a
    zero byte after every 0xff, and the input buffer, which skips the byte after
    every 0xff. Together they pass every bit on. */
module BitStream {
  import opened Arith
  import opened Bytes
  import opened Huffman

  // ----- Bits and numbers -----

  function Num(s: seq<bool>): (x: nat)
    ensures x < Pow2(|s|)
  {
    if s == [] then 0 else 2 * Num(s[..|s| - 1]) + if s[|s| - 1] then 1 else 0
  }

  function Bits(x: nat, n: nat): (s: seq<bool>)
    ensures |s| == n
  {
    if n == 0 then [] else Bits(x / 2, n - 1) + [x % 2 == 1]
  }

  lemma {:induction false} NumBits(x: nat, n: nat)
    requires x < Pow2(n)
    ensures Num(Bits(x, n)) == x
  {
    if n > 0 { NumBits(x / 2, n - 1); }
  }

  lemma {:induction false} BitsNum(s: seq<bool>)
    ensures Bits(Num(s), |s|) == s
  {
    if s != [] { BitsNum(s[..|s| - 1]); }
  }

  lemma {:induction false} NumConcat(a: seq<bool>, b: seq<bool>)
    ensures Num(a + b) == Pow2(|b|) * Num(a) + Num(b)
  {
    if b == [] {
      assert a + b == a;
    } else {
      var c := b[..|b| - 1];
      NumConcat(a, c);
      assert (a + b)[..|a + b| - 1] == a + c;
      Append(Pow2(|c|), Num(a), Num(c), if b[|b| - 1] then 1 else 0);
    }
  }

  lemma Append(p: nat, x: nat, y: nat, z: nat)
    ensures 2 * (p * x + y) + z == (2 * p) * x + (2 * y + z)
  {}

  /** The first bits and the rest, by division. */
  lemma NumSplit(s: seq<bool>, w: nat)
    requires w <= |s|
    ensures Top(Num(s), |s|, w) == Num(s[..w])
    ensures Num(s) % Pow2(|s| - w) == Num(s[w..])
  {
    assert s == s[..w] + s[w..];
    NumConcat(s[..w], s[w..]);
    QuotientIs(Num(s), Pow2(|s| - w), Num(s[..w]), Num(s[w..]));
  }

  function Zeros(n: nat): (s: seq<bool>)
    ensures |s| == n && forall i :: 0 <= i < n ==> !s[i]
  {
    seq(n, _ => false)
  }

  lemma {:induction false} NumZeros(n: nat, s: seq<bool>)
    ensures Num(Zeros(n) + s) == Num(s)
  {
    if s == [] {
      assert Zeros(n) + s == Zeros(n);
      if n > 0 {
        NumZeros(n - 1, []);
        assert Zeros(n - 1) + [] == Zeros(n)[..n - 1];
      }
    } else {
      NumZeros(n, s[..|s| - 1]);
      assert (Zeros(n) + s)[..n + |s| - 1] == Zeros(n) + s[..|s| - 1];
    }
  }

  // ----- Bytes as a reader takes them -----

  /** The bits of the bytes, without the byte after each 0xff where there is
      stuffing; and whether the next byte is to be skipped. */
  function Taken(out: seq<Byte>, stuff: bool): (seq<bool>, bool) {
    if out == [] then ([], false)
    else
      var (s, skip) := Taken(out[..|out| - 1], stuff);
      var b := out[|out| - 1];
      if skip then (s, false) else (s + Bits(b, 8), stuff && b == 0xff)
  }

  lemma TakenMore(out: seq<Byte>, b: Byte, stuff: bool)
    ensures var (s, skip) := Taken(out, stuff);
      Taken(out + [b], stuff) == if skip then (s, false) else (s + Bits(b, 8), stuff && b == 0xff)
  {
    assert (out + [b])[..|out|] == out;
  }

  /** After every 0xff there is a zero, so that no two bytes read as a marker of the
      image. */
  predicate Stuffed(out: seq<Byte>) {
    forall i :: 0 < i < |out| && out[i - 1] == 0xff ==> out[i] == 0
  }

  lemma StuffedMore(out: seq<Byte>, b: Byte)
    requires Stuffed(out) && (Taken(out, true).1 ==> b == 0)
    ensures Stuffed(out + [b])
  {
    var all := out + [b];
    var n := |out|;
    assert n > 0 && Taken(out[..n - 1], true).1 ==> n > 1 && out[..n - 1][n - 2] == 0xff && out[n - 2] == 0xff;
    forall i | 0 < i < |all| && all[i - 1] == 0xff ensures all[i] == 0 {
      if i < |out| { assert out[i - 1] == 0xff; }
    }
  }

  /** Without stuffing every bit counts. */
  lemma {:induction false} AllTaken(out: seq<Byte>)
    ensures |Taken(out, false).0| == 8 * |out| && !Taken(out, false).1
  {
    if out != [] { AllTaken(out[..|out| - 1]); }
  }

  // ----- The output buffer -----

  lemma EightBits()
    ensures Pow2(8) == 256
  {
    assert Pow2(4) == 16;
  }

  lemma Bits32()
    ensures Pow2(32) == 0x1_0000_0000
  {
    EightBits();
    Pow2Add(8, 8);
    Pow2Add(16, 16);
  }

  /** Shifting in bits of a word of 32 bits keeps those that are to be kept. */
  lemma ShiftIn(o: nat, n: nat, m: nat, l: nat)
    requires n + l <= 32 && m < Pow2(l)
    ensures ((o * Pow2(l)) % Pow2(32) + m) % Pow2(n + l) == (o % Pow2(n)) * Pow2(l) + m
  {
    hide Pow2;
    Pow2Add(n, l);
    Pow2Add(n + l, 32 - n - l);
    ModOfMod(o * Pow2(l), Pow2(n + l), Pow2(32 - n - l));
    ModTimes(o, Pow2(n), Pow2(l));
    ModPlus((o * Pow2(l)) % Pow2(32), Pow2(n), Pow2(l), o % Pow2(n), m);
  }

  lemma ModTimes(o: nat, p: nat, q: nat)
    requires p > 0 && q > 0
    ensures (o * q) % (p * q) == (o % p) * q
  {
    var a, r := o / p, o % p;
    assert o == p * a + r;
    assert o * q == (p * q) * a + r * q by { Spread(p, a, r, q); }
    SmallProduct(r, q, p);
    QuotientIs(o * q, p * q, a, r * q);
  }

  lemma Spread(p: nat, a: nat, r: nat, q: nat)
    ensures (p * a + r) * q == (p * q) * a + r * q
  {}

  lemma ModPlus(y: nat, p: nat, q: nat, r: nat, m: nat)
    requires p > 0 && q > 0 && y % (p * q) == r * q && r < p && m < q
    ensures (y + m) % (p * q) == r * q + m
  {
    var b := y / (p * q);
    assert y == (p * q) * b + r * q;
    SmallSum(r, q, p, m);
    QuotientIs(y + m, p * q, b, r * q + m);
  }

  lemma SmallProduct(r: nat, q: nat, p: nat)
    requires r < p && q > 0
    ensures r * q < p * q
  {
    MulMono(q, r + 1, p);
    assert q * (r + 1) == r * q + q;
  }

  lemma SmallSum(r: nat, q: nat, p: nat, m: nat)
    requires r < p && m < q
    ensures r * q + m < p * q
  {
    MulMono(q, r + 1, p);
    assert q * (r + 1) == r * q + q;
  }

  lemma ModOfMod(x: nat, m: nat, k: nat)
    requires m > 0 && k > 0
    ensures (x % (m * k)) % m == x % m
  {
    var a := x / (m * k);
    var y := x % (m * k);
    assert x == (m * k) * a + y;
    var b := y / m;
    assert y == m * b + y % m;
    assert x == m * (k * a + b) + y % m;
    QuotientIs(x, m, k * a + b, y % m);
  }

  /** Bits appended are a number shifted and added. */
  lemma BitsConcat(x: nat, n: nat, m: nat, l: nat)
    requires x < Pow2(n) && m < Pow2(l)
    ensures x * Pow2(l) + m < Pow2(n + l)
    ensures Bits(x * Pow2(l) + m, n + l) == Bits(x, n) + Bits(m, l)
  {
    hide Pow2, Num, Bits;
    NumBits(x, n);
    NumBits(m, l);
    NumConcat(Bits(x, n), Bits(m, l));
    Commute(x, Pow2(l));
    BitsNum(Bits(x, n) + Bits(m, l));
  }

  lemma Commute(a: nat, b: nat)
    ensures a * b == b * a
  {}

  /** A shifted word has room for the bits that come in. */
  lemma ShiftedFits(o: nat, l: nat, m: nat)
    requires l <= 32 && m < Pow2(l)
    ensures (o * Pow2(l)) % Pow2(32) + m < Pow2(32)
  {
    hide Pow2;
    Pow2Add(32 - l, l);
    ModTimes(o, Pow2(32 - l), Pow2(l));
    SmallSum(o % Pow2(32 - l), Pow2(l), Pow2(32 - l), m);
  }

  lemma MidBits(o: nat, k: nat)
    requires k > 0
    ensures Over(o, k) % 256 == Over(o % (k * 256), k)
  {
    DivMod(o, k);
    DivMod(o / k, 256);
    MidNumbers(o, k, o / k, o % k, o / k / 256, o / k % 256);
  }

  lemma DivMod(o: nat, k: nat)
    requires k > 0
    ensures o == k * (o / k) + o % k && o % k < k
  {}

  lemma MidNumbers(o: nat, k: nat, q: nat, r: nat, a: nat, c: nat)
    requires o == k * q + r && r < k && q == 256 * a + c && c < 256
    ensures o / k % 256 == c == o % (k * 256) / k
  {
    Regroup(k, a, c);
    SmallSum(c, k, 256, r);
    QuotientIs(o, k, q, r);
    QuotientIs(q, 256, a, c);
    QuotientIs(o, k * 256, a, k * c + r);
    QuotientIs(k * c + r, k, c, r);
  }

  lemma Regroup(k: nat, a: nat, c: nat)
    ensures k * (256 * a + c) == (k * 256) * a + k * c && k * c == c * k
  {}

  /** The byte that leaves, and what stays: the first eight of n bits, and the
      others. */
  lemma ByteOut(o: nat, n: nat)
    requires n >= 8
    ensures var p := Bits(o % Pow2(n), n);
      && Over(o, Pow2(n - 8)) % 256 == Num(p[..8]) < 256
      && Bits(Over(o, Pow2(n - 8)) % 256, 8) == p[..8]
      && Bits(o % Pow2(n - 8), n - 8) == p[8..] && Num(p[8..]) == o % Pow2(n - 8)
  {
    hide Pow2, Over;
    EightBits();
    Pow2Add(n - 8, 8);
    var k := Pow2(n - 8);
    var p := Bits(o % Pow2(n), n);
    NumBits(o % Pow2(n), n);
    MidBits(o, k);
    NumSplit(p, 8);
    ModOfMod(o, k, 256);
    BitsNum(p[..8]);
    BitsNum(p[8..]);
  }

  // ----- What the word of pending bits holds -----

  /** ssdv_outbits on the 32-bit word of pending bits. */
  function Shifted(o: nat, l: nat, m: nat): nat {
    (o * Pow2(l)) % Pow2(32) + m
  }

  /** Of n pending bits of the word o and l more, all are there afterwards exactly
      when their number fits the word. */
  lemma ShiftInIff(o: nat, n: nat, m: nat, l: nat)
    requires o < Pow2(32) && l <= 32 && m < Pow2(l)
    ensures Shifted(o, l, m) < Pow2(32)
    ensures Shifted(o, l, m) % Pow2(n + l) == (o % Pow2(n)) * Pow2(l) + m
      <==> (o % Pow2(n)) * Pow2(l) + m < Pow2(32)
  {
    hide Pow2;
    ShiftedFits(o, l, m);
    if n + l <= 32 {
      ShiftIn(o, n, m, l);
      Pow2Monotone(n + l, 32);
      ModSmaller(Shifted(o, l, m), Pow2(n + l));
    } else {
      Pow2Monotone(32, n + l);
      LowBits(o, n, l);
      var y, z := Shifted(o, l, m), (o % Pow2(n)) * Pow2(l);
      QuotientIs(y, Pow2(n + l), 0, y);
      if z < Pow2(32) { QuotientIs(z, Pow2(32), 0, z); }
    }
  }

  lemma ModSmaller(x: nat, p: nat)
    requires p > 0
    ensures x % p < p
  {}

  /** The bits above the pending ones do not matter to a shift that moves them out
      of the word. */
  lemma LowBits(o: nat, n: nat, l: nat)
    requires o < Pow2(32) && l <= 32 < n + l
    ensures (o * Pow2(l)) % Pow2(32) == ((o % Pow2(n)) * Pow2(l)) % Pow2(32)
  {
    hide Pow2;
    if n >= 32 {
      Pow2Monotone(32, n);
      QuotientIs(o, Pow2(n), 0, o);
    } else {
      Pow2Add(n, l);
      Pow2Add(32, n + l - 32);
      ModTimes(o, Pow2(n), Pow2(l));
      ModOfMod(o * Pow2(l), Pow2(32), Pow2(n + l - 32));
    }
  }

  /** The same in bits. */
  lemma WordHolds(o: nat, n: nat, m: nat, l: nat)
    requires o < Pow2(32) && l <= 32 && m < Pow2(l)
    ensures Shifted(o, l, m) < Pow2(32)
    ensures var p := Bits(o % Pow2(n), n) + Bits(m, l);
      Bits(Shifted(o, l, m) % Pow2(n + l), n + l) == p <==> Num(p) < Pow2(32)
  {
    hide Pow2, Num, Bits, Shifted;
    var x, y := o % Pow2(n), Shifted(o, l, m) % Pow2(n + l);
    ShiftInIff(o, n, m, l);
    BitsConcat(x, n, m, l);
    NumBits(x * Pow2(l) + m, n + l);
    NumBits(y, n + l);
  }

  class BitWriter {
    var outbits: nat
    var outlen: nat
    var out: seq<Byte>
    var room: nat
    const stuff: bool
    /** All the bits that were put in. */
    ghost var stream: seq<bool>

    /** The bits that have not left as bytes. */
    ghost function Pending(): (s: seq<bool>)
      reads this`outbits, this`outlen
      ensures |s| == outlen
    {
      Bits(outbits % Pow2(outlen), outlen)
    }

    /** The bits a reader of the bytes does not have yet, behind the stuffing byte
        that may still have to go out. */
    ghost function Owed(): seq<bool>
      reads this`out, this`stream
    {
      var (s, skip) := Taken(out, stuff);
      (if skip then Zeros(8) else []) + if |s| <= |stream| then stream[|s|..] else []
    }

    /** Twice the pending bits, less the stuffing byte among them: eight of these go
        with every byte. */
    ghost function Load(): int
      reads this`outlen, this`out
    {
      2 * outlen - if Taken(out, stuff).1 then 8 else 0
    }

    /** The pending bits are in a word, what a reader gets from the bytes is part of what
        was put in, and where there is to be stuffing there is. */
    ghost predicate Valid()
      reads this`outbits, this`out, this`stream
    {
      outbits < Pow2(32) && Taken(out, stuff).0 <= stream && (stuff ==> Stuffed(out))
    }

    /** No bit is lost: what is pending is what is owed to a reader of the bytes, for
        whom the byte after each 0xff is no part of the stream. */
    ghost predicate Kept()
      reads this`outbits, this`outlen, this`out, this`stream
    {
      Valid() && Pending() == Owed()
    }

    /** With room left all whole bytes are out, and no bit has been lost. */
    ghost predicate Ready()
      reads this
    {
      Valid() && (room > 0 ==> outlen < 8 && Kept())
    }

    constructor (room: nat, stuff: bool)
      ensures Ready() && Kept() && stream == [] && out == [] && outlen == 0
      ensures this.room == room && this.stuff == stuff
    {
      this.outbits, this.outlen, this.out, this.room, this.stuff, this.stream := 0, 0, [], room, stuff, [];
      Bits32();
    }

    /** ssdv_outbits, the bits going in: they and all bits before them are kept
        exactly when those that have not left make a number of 32 bits. */
    method Insert(bits: nat, length: nat)
      requires Valid() && length <= 32
      modifies this`outbits, this`outlen, this`stream
      ensures Valid() && outlen == old(outlen) + length
      ensures stream == old(stream) + Bits(bits % Pow2(length), length)
      ensures Owed() == old(Owed()) + Bits(bits % Pow2(length), length)
      ensures old(Kept()) ==> (Kept() <==> Num(Owed()) < Pow2(32))
    {
      hide Pow2, Bits, Taken, Num, Zeros, Shifted;
      var m := bits % Pow2(length);
      WordHolds(outbits, outlen, m, length);
      outbits := Shifted(outbits, length, m);
      outlen := outlen + length;
      stream := stream + Bits(m, length);
      ghost var s := Taken(out, stuff).0;
      if s <= old(stream) { assert stream[|s|..] == old(stream)[|s|..] + Bits(m, length); }
    }

    /** What a byte that goes out does to what is owed to a reader. */
    lemma ByteTaken(p: seq<bool>, b: Byte)
      requires |p| >= 8 && p == Owed() && Taken(out, stuff).0 <= stream && Bits(b, 8) == p[..8] && b == Num(p[..8])
      ensures var (s, skip) := Taken(out + [b], stuff);
        s <= stream && stream[|s|..] == p[8..] && skip == (stuff && b == 0xff)
      ensures Taken(out, stuff).1 ==> b == 0
    {
      hide Pow2, Num, Bits, Taken, Zeros;
      TakenMore(out, b, stuff);
      var s := Taken(out, stuff).0;
      assert stream == s + stream[|s|..];
      assert p == p[..8] + p[8..];
      if Taken(out, stuff).1 {
        assert p[..8] == Zeros(8);
        ZeroByte(p[..8]);
      }
    }

    /** ssdv_outbits, one byte going out, and the stuffing byte coming in. */
    method PutByte()
      requires Kept() && 8 <= outlen < 40 && room > 0
      modifies this`outbits, this`outlen, this`out, this`room
      ensures Valid() && Kept() && room == old(room) - 1 && (outlen == old(outlen) - 8 || outlen == old(outlen))
      ensures Load() + 8 <= old(Load()) && |out| == |old(out)| + 1
      ensures Backlog() == old(Backlog()) - if old(Taken(out, stuff)).1 then 0 else 8
    {
      hide Pow2, Num, Bits, Taken, Over, Zeros;
      ByteOut(outbits, outlen);
      ghost var p := Pending();
      var b: Byte := Over(outbits, Pow2(outlen - 8)) % 256;
      ByteTaken(p, b);
      TakenMore(out, b, stuff);
      if stuff { StuffedMore(out, b); }
      out := out + [b];
      outlen := outlen - 8;
      room := room - 1;
      if stuff && b == 0xff {
        Stuff();
      }
    }

    /** The zero byte after 0xff, put before the pending bits. */
    method Stuff()
      requires Valid() && Taken(out, stuff).1
      requires Pending() == stream[|Taken(out, stuff).0|..]
      modifies this`outbits, this`outlen
      ensures Kept() && outlen == old(outlen) + 8
    {
      hide Num, Taken;
      ghost var rest := Pending();
      MaskedFits(outbits, outlen);
      PendingNum();
      outbits := outbits % Pow2(outlen);
      outlen := outlen + 8;
      Restuff(rest, outbits, outlen);
      assert Pending() == Pending()[..8] + Pending()[8..];
    }

    lemma PendingNum()
      ensures Num(Pending()) == outbits % Pow2(outlen)
    {
      NumBits(outbits % Pow2(outlen), outlen);
    }

    lemma MaskedFits(o: nat, n: nat)
      ensures o % Pow2(n) <= o
    {
      hide Pow2;
      if o < Pow2(n) { QuotientIs(o, Pow2(n), 0, o); }
    }

    lemma ZeroByte(p: seq<bool>)
      requires p == Zeros(8)
      ensures Num(p) == 0
    {
      NumZeros(8, []);
      assert Zeros(8) + [] == p;
    }

    /** Eight zeros put before the pending bits. */
    lemma Restuff(rest: seq<bool>, o: nat, n: nat)
      requires n >= 8 && |rest| == n - 8 && o == Num(rest)
      ensures Bits(o % Pow2(n), n)[..8] == Zeros(8) && Bits(o % Pow2(n), n)[8..] == rest
    {
      NumZeros(8, rest);
      var s := Zeros(8) + rest;
      BitsNum(s);
      QuotientIs(o, Pow2(n), 0, o);
    }

    /** How many bits of the stream a reader does not have yet. */
    ghost function Backlog(): int
      reads this`out, this`stream
    {
      |stream| - |Taken(out, stuff).0|
    }

    /** All that is pending is the backlog, and a stuffing byte, which is no more
        than zeros. */
    lemma BacklogIs()
      requires Kept()
      ensures Valid() && Pending() == Owed() && Num(Owed()) < Pow2(32)
      ensures outlen == Backlog() + if Taken(out, stuff).1 then 8 else 0
      ensures Backlog() >= 0 && Num(Pending()) < Pow2(Backlog())
    {
      hide Pow2, Num, Taken, Zeros;
      PendingNum();
      MaskedFits(outbits, outlen);
      var (s, skip) := Taken(out, stuff);
      var rest := stream[|s|..];
      NumZeros(8, rest);
      assert [] + rest == rest;
    }

    lemma NothingOut()
      requires out == []
      ensures Owed() == stream && (Valid() ==> (Kept() <==> Pending() == stream))
    {
      assert stream[0..] == stream;
    }

    /** Whole bytes go out. */
    method Flush()
      requires Kept() && room > 0 && outlen < 40
      modifies this`outbits, this`outlen, this`out, this`room
      ensures Ready() && Kept() && room <= old(room) && |out| + room == old(|out| + room)
      ensures outlen % 8 == old(outlen) % 8 && outlen <= old(outlen)
      ensures 8 * (old(room) - room) + Load() <= old(Load())
      ensures old(Backlog()) <= Backlog() + 8 * (old(room) - room)
      ensures room == 0 && !old(Taken(out, stuff).1) ==> Backlog() <= old(Backlog()) - 8
    {
      hide Pow2, Bits, Num, Zeros, Pending, Owed, Taken, Kept, Valid;
      BacklogIs();
      while outlen >= 8 && room > 0
        invariant Valid() && Kept() && outlen <= old(outlen) && room <= old(room) && outlen % 8 == old(outlen) % 8
        invariant 8 * (old(room) - room) + Load() <= old(Load())
        invariant old(Backlog()) <= Backlog() + 8 * (old(room) - room)
        invariant Backlog() <= old(Backlog()) && (room == old(room) ==> out == old(out))
        invariant |out| + room == old(|out| + room)
        invariant room < old(room) && !old(Taken(out, stuff).1) ==> Backlog() <= old(Backlog()) - 8
        decreases room
      {
        PutByte();
      }
    }

    /** ssdv_outbits: the bits go in, if there are any. */
    method Put(bits: nat, length: nat)
      requires Valid() && length <= 16
      modifies this`outbits, this`outlen, this`stream
      ensures Valid() && outlen == old(outlen) + length
      ensures stream == old(stream) + Bits(bits % Pow2(length), length)
      ensures Owed() == old(Owed()) + Bits(bits % Pow2(length), length)
      ensures old(Kept()) ==> (Kept() <==> Num(Owed()) < Pow2(32))
      ensures old(Kept()) && (outlen <= 32 || length == 0) ==> Kept()
    {
      hide Pow2, Bits, Num, Pending, Owed, Taken, Kept;
      NothingPut(bits);
      ghost var kept := Kept();
      if kept { BacklogIs(); }
      if length > 0 {
        Insert(bits, length);
      }
      if kept && outlen <= 32 { Pow2Monotone(outlen, 32); }
    }

    lemma NothingPut(bits: nat)
      ensures Bits(bits % Pow2(0), 0) == [] && Owed() + [] == Owed() && stream + [] == stream
      ensures Kept() ==> Num(Owed()) < Pow2(32)
    {
      hide Num, Taken;
      if Kept() { BacklogIs(); }
    }

    /** ssdv_outbits: the bits go in, and whole bytes go out while there is room.
        With room left no bit is ever lost. In a full buffer they are kept exactly
        when all pending bits make a number of 32 bits. */
    method OutBits(bits: nat, length: nat) returns (full: bool)
      requires Valid() && length <= 16 && (Ready() || (Kept() && length == 0 && outlen < 40))
      modifies this
      ensures Ready() && full == (room == 0) && |out| + room == old(|out| + room)
      ensures stream == old(stream) + Bits(bits % Pow2(length), length)
      ensures outlen % 8 == (old(outlen) + length) % 8 && outlen <= old(outlen) + length
      ensures old(room) > 0 ==> Kept()
      ensures old(room) == 0 ==> room == 0 && out == old(out) && outlen == old(outlen) + length
      ensures old(room) == 0 ==> Owed() == old(Owed()) + Bits(bits % Pow2(length), length)
      ensures old(room) == 0 && old(Kept()) ==> (Kept() <==> Num(Owed()) < Pow2(32))
      ensures Kept() ==> Num(Owed()) < Pow2(32)
      ensures room <= old(room) && old(Backlog()) + length <= Backlog() + 8 * (old(room) - room)
      ensures old(room) > 0 ==> 8 * (old(room) - room) + Load() <= old(Load()) + 2 * length
      ensures old(room) > 0 && old(outlen) < 8 && room == 0 ==> Backlog() <= old(outlen) + length - 8
    {
      hide Pow2, Bits, Num, Pending, Owed, Taken, Kept;
      if room > 0 { BacklogIs(); }
      Put(bits, length);
      if room > 0 {
        BacklogIs();
        Flush();
      }
      if Kept() { BacklogIs(); }
      full := room == 0;
    }

    /** ssdv_enc_set_buffer, ssdv_dec_set_buffer: room for more bytes, into which go
        those that are pending. */
    method SetBuffer(size: nat)
      requires Kept() && room == 0 && outlen < 40
      modifies this
      ensures Ready() && Kept() && stream == old(stream) && room <= size
      ensures outlen % 8 == old(outlen) % 8 && outlen <= old(outlen)
      ensures size > 0 && room == 0 ==> Load() + 8 <= old(Load())
    {
      hide Pow2, Bits, Num, Pending, Owed, Taken, Kept;
      BacklogIs();
      NothingPut(0);
      room := size;
      var full := OutBits(0, 0);
    }
  }

  /** Where bits are appended, the number grows by as many places. */
  lemma NumAppended(a: seq<bool>, b: seq<bool>, k: nat)
    requires Num(a) < Pow2(k)
    ensures Num(a + b) < Pow2(k + |b|) && Num(a) <= Num(a + b)
  {
    hide Pow2, Num;
    NumConcat(a, b);
    Commute(Num(a), Pow2(|b|));
    Pow2Add(k, |b|);
    NumBelow(b);
    SmallSum(Num(a), Pow2(|b|), Pow2(k), Num(b));
    MulMono(Num(a), 1, Pow2(|b|));
  }

  lemma NumBelow(b: seq<bool>)
    ensures Num(b) < Pow2(|b|) && Pow2(|b|) >= 1
  {}

  /** Ones where a number of 32 bits has no place are more than it holds. */
  lemma {:induction false} NumAbove(s: seq<bool>)
    requires s != [] && s[0]
    ensures Num(s) >= Pow2(|s| - 1)
  {
    hide Pow2, Num;
    assert s == [true] + s[1..];
    NumConcat([true], s[1..]);
    OneIsOne();
    MulMono(Pow2(|s| - 1), 1, Num([true]));
  }

  lemma OneIsOne()
    ensures Num([true]) == 1
  {
    assert [true][..0] == [];
  }

  /** In a buffer without room one bit more than the word holds is lost: no bytes
      and the bits that are pending are no longer those that were put in. */
  method LoseABit() returns (w: BitWriter)
    ensures fresh(w) && w.room == 0 && w.out == [] && |w.stream| == |w.Pending()| == 33
    ensures !w.Kept() && w.Pending() != w.stream
  {
    hide Pow2, Bits, Num, BitWriter.Pending, BitWriter.Owed, Taken, BitWriter.Kept;
    TwoWords();
    w := new BitWriter(0, false);
    ghost var none := w.Pending();
    var full := w.OutBits(0xffff, 16);
    NumAppended(none, Bits(0xffff, 16), 0);
    Pow2Monotone(16, 32);
    w.BacklogIs();
    ghost var a := w.Pending();
    full := w.OutBits(0xffff, 16);
    NumAppended(a, Bits(0xffff, 16), 16);
    w.BacklogIs();
    ghost var b := w.Pending();
    full := w.OutBits(1, 1);
    NumAbove(b + Bits(1, 1));
    w.NothingOut();
  }

  lemma TwoWords()
    ensures 0xffff % Pow2(16) == 0xffff && 1 % Pow2(1) == 1
    ensures Bits(0xffff, 16)[0]
  {
    Pow2Add(8, 8);
    EightBits();
    assert Pow2(1) == 2;
    FirstOfOnes(16);
  }

  lemma {:induction false} FirstOfOnes(n: nat)
    requires n > 0
    ensures Bits(Pow2(n) - 1, n)[0]
  {
    var p := Pow2(n - 1);
    assert (2 * p - 1) % 2 == 1 && (2 * p - 1) / 2 == p - 1;
    if n > 1 { FirstOfOnes(n - 1); }
  }

  // ----- The input buffer -----

  class BitReader {
    var workbits: nat
    var worklen: nat
    var skip: bool
    /** Bits taken in, and how many of them are used up. */
    ghost var taken: seq<bool>
    ghost var used: nat

    ghost predicate Valid()
      reads this
    {
      worklen <= 32 && used + worklen == |taken| && workbits == Num(taken[used..])
    }

    constructor ()
      ensures Valid() && taken == [] && used == 0 && worklen == 0 && !skip
    {
      workbits, worklen, skip, taken, used := 0, 0, false, [], 0;
    }

    /** ssdv_enc_get_packet, a byte of the scan: the byte after 0xff is skipped, the
        others go into the buffer. */
    method Feed(b: Byte)
      requires Valid() && worklen + 8 <= 32
      modifies this
      ensures Valid() && used == old(used) && taken == old(taken) + (if old(skip) then [] else Bits(b, 8))
      ensures skip == (!old(skip) && b == 0xff) && worklen == old(worklen) + if old(skip) then 0 else 8
    {
      hide Pow2, Num, Bits;
      if skip {
        skip := false;
        return;
      }
      if b == 0xff {
        skip := true;
      }
      EightBits();
      ShiftedByte(taken[used..], b);
      workbits := (workbits * 256) % Pow2(32) + b;
      worklen := worklen + 8;
      taken := taken + Bits(b, 8);
      assert taken[used..] == old(taken)[used..] + Bits(b, 8);
    }

    lemma ShiftedByte(s: seq<bool>, b: Byte)
      requires |s| + 8 <= 32
      ensures (Num(s) * 256) % Pow2(32) + b == Num(s + Bits(b, 8))
    {
      hide Num, Bits, Pow2;
      EightBits();
      NumBits(b, 8);
      var t := s + Bits(b, 8);
      NumConcat(s, Bits(b, 8));
      assert Num(t) == 256 * Num(s) + b;
      Pow2Monotone(|t|, 32);
      assert Num(s) * 256 < Pow2(32);
      QuotientIs(Num(s) * 256, Pow2(32), 0, Num(s) * 256);
    }

    /** The bits looked at are used up. */
    method Use(width: nat)
      requires Valid() && width <= worklen
      modifies this
      ensures Valid() && taken == old(taken) && used == old(used) + width && skip == old(skip)
      ensures worklen == old(worklen) - width
    {
      hide Pow2, Num;
      NumSplit(taken[used..], width);
      assert taken[used..][width..] == taken[used + width..];
      worklen := worklen - width;
      workbits := workbits % Pow2(worklen);
      used := used + width;
    }
  }
}
