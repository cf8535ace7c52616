/** The arithmetic of CTZ skip lists: which block of a file, and where in that
    block, a byte position falls. Block n > 0 starts with ctz(n) + 1 pointers of
    four bytes, so block n holds fewer bytes the more trailing zeros n has. */
module Ctz {
  import opened Arith

  /** LFS_FILE_MAX: files are smaller than 2^31 bytes. */
  const FILE_MAX: nat := 0x7fff_ffff

  /** lfs_popc: the number of ones in the binary form of n. */
  function Popc(n: nat): nat {
    if n == 0 then 0 else n % 2 + Popc(n / 2)
  }

  /** lfs_ctz: the number of trailing zeros in the binary form of n. */
  function CtzOf(n: nat): nat
    requires n > 0
  {
    if n % 2 == 1 then 0 else 1 + CtzOf(n / 2)
  }

  /** lfs_npw2 is one more than this of its argument less one: the position of
      the highest one in the binary form of n. */
  function Log2(n: nat): nat
    requires n > 0
  {
    if n == 1 then 0 else 1 + Log2(n / 2)
  }

  function BitLength(n: nat): nat {
    if n == 0 then 0 else 1 + Log2(n)
  }

  /** lfs_npw2, for arguments of two or more. */
  function Npw2(n: nat): (r: nat)
    requires n >= 2
    ensures r > 0
  {
    BitLength(n - 1)
  }

  /** Npw2 is the exponent of the smallest power of two no smaller than n. */
  lemma Npw2Bounds(n: nat)
    requires n >= 2
    ensures Pow2(Npw2(n) - 1) < n <= Pow2(Npw2(n))
  {
    Log2Bounds(n - 1);
  }

  lemma {:induction false} Log2Bounds(n: nat)
    requires n > 0
    ensures Pow2(Log2(n)) <= n < 2 * Pow2(Log2(n))
  {
    if n > 1 { Log2Bounds(n / 2); }
  }

  lemma {:induction false} Log2Below(n: nat, k: nat)
    requires 0 < n < Pow2(k)
    ensures Log2(n) < k
  {
    if n > 1 { Log2Below(n / 2, k - 1); }
  }

  lemma {:induction false} Log2Monotone(m: nat, n: nat)
    requires 0 < m <= n
    ensures Log2(m) <= Log2(n)
  {
    if m > 1 { Log2Monotone(m / 2, n / 2); }
  }

  lemma {:induction false} PopcBound(n: nat)
    ensures Popc(n) <= BitLength(n)
  {
    if n > 1 { PopcBound(n / 2); }
  }

  /** Counting down from n turns its trailing zeros to ones and takes its lowest
      one away. */
  lemma {:induction false} PopcBefore(n: nat)
    requires n > 0
    ensures Popc(n - 1) == Popc(n) - 1 + CtzOf(n)
  {
    if n % 2 == 0 {
      PopcBefore(n / 2);
      assert (n - 1) / 2 == n / 2 - 1;
    }
  }

  lemma {:induction false} CtzFits(n: nat)
    requires n > 0
    ensures Pow2(CtzOf(n)) <= n && CtzOf(n) <= Log2(n)
  {
    if n % 2 == 0 { CtzFits(n / 2); }
  }

  /** Taking the lowest one away leaves one less. */
  lemma {:induction false} PopcWithoutLowest(n: nat)
    requires n > 0
    ensures Pow2(CtzOf(n)) <= n && Popc(n - Pow2(CtzOf(n))) == Popc(n) - 1
  {
    if n % 2 == 0 {
      PopcWithoutLowest(n / 2);
      assert (n - Pow2(CtzOf(n))) / 2 == n / 2 - Pow2(CtzOf(n / 2));
    }
  }

  /** A step back by a power of two that divides n lands where it divides too. */
  lemma {:induction false} CtzOfStep(n: nat, k: nat)
    requires n > 0 && k <= CtzOf(n) && Pow2(k) < n
    ensures CtzOf(n - Pow2(k)) >= k
  {
    if k > 0 {
      CtzOfStep(n / 2, k - 1);
      assert (n - Pow2(k)) / 2 == n / 2 - Pow2(k - 1);
    }
  }

  // ----- Where a byte falls -----

  /** The bytes of pointers at the start of block n. */
  function Header(n: nat): nat {
    if n == 0 then 0 else 4 * (CtzOf(n) + 1)
  }

  /** The first byte position in block n: all the bytes of the blocks before. */
  function Start(n: nat, blockSize: nat): int {
    if n == 0 then 0 else Start(n - 1, blockSize) + blockSize - Header(n - 1)
  }

  function Times(b: nat, n: nat): nat {
    b * n
  }

  function Over(x: nat, b: nat): nat
    requires b > 0
  {
    x / b
  }

  lemma OverBounds(x: nat, b: nat)
    requires b > 0
    ensures Times(b, Over(x, b)) <= x < Times(b, Over(x, b)) + b
  {
    assert x == b * (x / b) + x % b;
  }

  lemma TimesStep(b: nat, n: nat)
    ensures Times(b, n + 1) == Times(b, n) + b && Times(b, 0) == 0
  {}

  lemma TimesMonotone(b: nat, m: nat, n: nat)
    requires m <= n
    ensures Times(b, m) <= Times(b, n)
  {
    assert Times(b, n) == Times(b, m) + b * (n - m);
  }

  lemma TimesAtLeast(a: nat, b: nat, n: nat)
    requires a <= b
    ensures a * n <= Times(b, n)
  {
    assert Times(b, n) == a * n + (b - a) * n;
  }

  lemma OverIs(x: nat, b: nat, q: nat)
    requires b > 0 && Times(b, q) <= x < Times(b, q) + b
    ensures Over(x, b) == q
  {
    hide Times, Over;
    OverBounds(x, b);
    var p := Over(x, b);
    if p < q {
      TimesStep(b, p);
      TimesMonotone(b, p + 1, q);
    } else if p > q {
      TimesStep(b, q);
      TimesMonotone(b, q + 1, p);
    }
  }

  lemma {:induction false} StartIsPopc(n: nat, blockSize: nat)
    requires n > 0 && blockSize >= 8
    ensures Start(n, blockSize) == Times(blockSize - 8, n) + 8 + 4 * Popc(n - 1)
  {
    hide Times;
    TimesStep(blockSize - 8, n - 1);
    if n > 1 {
      StartIsPopc(n - 1, blockSize);
      PopcBefore(n - 1);
    } else {
      TimesStep(blockSize - 8, 0);
    }
  }

  lemma Pow25()
    ensures Pow2(25) == 0x200_0000
  {
    assert Pow2(5) == 32;
    assert Pow2(10) == 1024;
    assert Pow2(15) == 32768;
    assert Pow2(20) == 0x10_0000;
  }

  /** No block of a file has an index of more than 25 bits. */
  lemma IndexIsSmall(i: nat, b: nat)
    requires b >= 120 && Times(b, i) <= FILE_MAX + 1
    ensures Popc(i) <= 25 && (i > 0 ==> CtzOf(i) < 25 && Log2(i) < 25)
  {
    hide Times;
    TimesAtLeast(120, b, i);
    Pow25();
    PopcBound(i);
    if i > 0 {
      Log2Below(i, 25);
      CtzFits(i);
    }
  }

  /** Block sizes the file system accepts: at least 128 bytes. */
  predicate BlockSize(blockSize: nat) {
    blockSize >= 128
  }

  lemma HeaderFits(n: nat, blockSize: nat)
    requires BlockSize(blockSize) && Start(n, blockSize) <= FILE_MAX + 1
    ensures Header(n) <= 100 < blockSize
  {
    hide Times;
    if n > 0 {
      StartIsPopc(n, blockSize);
      IndexIsSmall(n, blockSize - 8);
    }
  }

  lemma {:induction false} StartMonotone(m: nat, n: nat, blockSize: nat)
    requires BlockSize(blockSize) && m <= n && Start(n, blockSize) <= FILE_MAX + 1
    ensures Start(m, blockSize) <= Start(n, blockSize)
    ensures m < n ==> Start(m + 1, blockSize) <= Start(n, blockSize)
    decreases n
  {
    hide Times;
    if m < n {
      StartIsPopc(n, blockSize);
      TimesStep(blockSize - 8, n - 1);
      IndexIsSmall(n - 1, blockSize - 8);
      StartMonotone(m, n - 1, blockSize);
    }
  }

  /** Byte `pos` is byte `off` of block i, and is not one of its pointers. */
  predicate FallsIn(pos: nat, blockSize: nat, i: nat, off: nat) {
    && Start(i, blockSize) <= pos < Start(i + 1, blockSize)
    && off == pos - Start(i, blockSize) + Header(i)
  }

  /** lfs_ctz_index: block and offset of a byte, without a loop. No subtraction
      in it goes below zero. */
  function CtzIndex(pos: nat, blockSize: nat): (r: (nat, nat))
    requires BlockSize(blockSize) && pos <= FILE_MAX
    ensures FallsIn(pos, blockSize, r.0, r.1) && Header(r.0) <= r.1 < blockSize
  {
    hide Times, Over, Popc, Start, FallsIn;
    var b := blockSize - 8;
    var i := Over(pos, b);
    if i == 0 then
      FirstBlock(pos, blockSize);
      (0, pos)
    else
      GuessIsClose(pos, b);
      var j := Over(pos - 4 * (Popc(i - 1) + 2), b);
      GuessIsRight(pos, blockSize);
      (j, pos - Times(b, j) - 4 * Popc(j))
  }

  lemma FirstBlock(pos: nat, blockSize: nat)
    requires BlockSize(blockSize) && Over(pos, blockSize - 8) == 0
    ensures FallsIn(pos, blockSize, 0, pos) && Header(0) <= pos < blockSize
  {
    hide Times, Over;
    OverBounds(pos, blockSize - 8);
    TimesStep(blockSize - 8, 0);
    assert Start(1, blockSize) == blockSize;
  }

  /** The first guess is at most one block too far. */
  lemma GuessIsClose(pos: nat, b: nat)
    requires b >= 120 && pos <= FILE_MAX && Over(pos, b) > 0
    ensures 4 * (Popc(Over(pos, b) - 1) + 2) <= 108 <= b <= Times(b, Over(pos, b)) <= pos
  {
    hide Times, Over, Popc;
    var i := Over(pos, b);
    OverBounds(pos, b);
    TimesStep(b, 0);
    TimesMonotone(b, 1, i);
    TimesMonotone(b, i - 1, i);
    IndexIsSmall(i - 1, b);
  }

  lemma GuessIsRight(pos: nat, blockSize: nat)
    requires BlockSize(blockSize) && pos <= FILE_MAX && Over(pos, blockSize - 8) > 0
    requires 4 * (Popc(Over(pos, blockSize - 8) - 1) + 2) <= pos
    ensures var b := blockSize - 8;
      var j := Over(pos - 4 * (Popc(Over(pos, b) - 1) + 2), b);
      && Times(b, j) + 4 * Popc(j) <= pos
      && FallsIn(pos, blockSize, j, pos - Times(b, j) - 4 * Popc(j))
      && Header(j) <= pos - Times(b, j) - 4 * Popc(j) < blockSize
  {
    hide Times, Over, Popc, CtzOf, Start, FallsIn, Header;
    var b := blockSize - 8;
    var i := Over(pos, b);
    GuessIsClose(pos, b);
    var x: nat := pos - 4 * (Popc(i - 1) + 2);
    OverBounds(pos, b);
    TimesStep(b, i - 1);
    if x >= Times(b, i) {
      OverIs(x, b, i);
      Placed(pos, blockSize, i);
    } else {
      OverIs(x, b, i - 1);
      if i > 1 {
        TimesMonotone(b, i - 2, i);
        IndexIsSmall(i - 2, b);
      }
      Placed(pos, blockSize, i - 1);
    }
  }

  lemma Placed(pos: nat, blockSize: nat, j: nat)
    requires BlockSize(blockSize) && pos <= FILE_MAX
    requires var b := blockSize - 8;
      && (j > 0 ==> Times(b, j) + 8 + 4 * Popc(j - 1) <= pos) && pos < Times(b, j) + b + 8 + 4 * Popc(j)
    ensures var b := blockSize - 8;
      && Times(b, j) + 4 * Popc(j) <= pos
      && FallsIn(pos, blockSize, j, pos - Times(b, j) - 4 * Popc(j))
      && Header(j) <= pos - Times(b, j) - 4 * Popc(j) < blockSize
  {
    hide Times, Over;
    StartIsPopc(j + 1, blockSize);
    TimesStep(blockSize - 8, j);
    TimesStep(blockSize - 8, 0);
    if j > 0 {
      StartIsPopc(j, blockSize);
      PopcBefore(j);
    }
  }

  /** The block of a byte is determined, so the formula gives the only answer. */
  lemma FallsInOnce(pos: nat, blockSize: nat, i: nat, off: nat)
    requires BlockSize(blockSize) && pos <= FILE_MAX && FallsIn(pos, blockSize, i, off)
    ensures CtzIndex(pos, blockSize) == (i, off)
  {
    hide CtzIndex, Header;
    var (j, o) := CtzIndex(pos, blockSize);
    if j < i {
      StartMonotone(j + 1, i, blockSize);
    } else if i < j {
      StartMonotone(i + 1, j, blockSize);
    }
  }

  /** The byte after: the next of the same block, or the first after the
      pointers of the next block. */
  lemma NextByte(pos: nat, blockSize: nat)
    requires BlockSize(blockSize) && pos < FILE_MAX
    ensures var (i, off) := CtzIndex(pos, blockSize);
      CtzIndex(pos + 1, blockSize) == if off + 1 < blockSize then (i, off + 1) else (i + 1, Header(i + 1))
  {
    hide CtzIndex, CtzOf;
    var (i, off) := CtzIndex(pos, blockSize);
    var (j, o) := CtzIndex(pos + 1, blockSize);
    if off + 1 < blockSize {
      FallsInOnce(pos + 1, blockSize, i, off + 1);
    } else {
      if j > i + 1 { StartMonotone(i + 2, j, blockSize); }
      HeaderFits(i + 1, blockSize);
      FallsInOnce(pos + 1, blockSize, i + 1, Header(i + 1));
    }
  }

  lemma IndexMonotone(p: nat, q: nat, blockSize: nat)
    requires BlockSize(blockSize) && p <= q <= FILE_MAX
    ensures CtzIndex(p, blockSize).0 <= CtzIndex(q, blockSize).0
  {
    hide CtzIndex, Header;
    var i, j := CtzIndex(p, blockSize).0, CtzIndex(q, blockSize).0;
    if j < i { StartMonotone(j + 1, i, blockSize); }
  }

  lemma FirstByte(blockSize: nat)
    requires BlockSize(blockSize)
    ensures CtzIndex(0, blockSize) == (0, 0)
  {
    assert Start(1, blockSize) == blockSize;
    FallsInOnce(0, blockSize, 0, 0);
  }

  /** Bytes of one block are next to each other. */
  lemma InBlock(pos: nat, blockSize: nat, k: nat)
    requires BlockSize(blockSize) && pos + k <= FILE_MAX && CtzIndex(pos, blockSize).1 + k < blockSize
    ensures CtzIndex(pos + k, blockSize) == (CtzIndex(pos, blockSize).0, CtzIndex(pos, blockSize).1 + k)
  {
    hide CtzIndex;
    var (i, off) := CtzIndex(pos, blockSize);
    FallsInOnce(pos + k, blockSize, i, off + k);
  }

  /** A byte before another in the same block is at a lower offset. */
  lemma LowerInBlock(p: nat, q: nat, blockSize: nat)
    requires BlockSize(blockSize) && p < q <= FILE_MAX
    requires CtzIndex(p, blockSize).0 == CtzIndex(q, blockSize).0
    ensures CtzIndex(p, blockSize).1 < CtzIndex(q, blockSize).1
  {
    hide CtzIndex, Header;
  }
}
