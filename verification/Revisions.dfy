/** The revision counts of a metadata pair: 32-bit numbers in a circle, of which one is
    newer than another if it is ahead by less than half of it. */
module Revisions {
  import opened Arith
  import opened Bytes

  /** lfs_scmp(a, b) > 0: read as a signed number the distance from b to a is
      positive, so a is ahead of b in the circular order of revisions. */
  predicate Newer(a: Word, b: Word) { a != b && a - b < 0x8000_0000 }

  function Plus(a: Word, b: Word): Word { a + b }

  lemma NewerAhead(b: Word, d: Word)
    ensures Newer(b + d, b) <==> 0 < d < 0x8000_0000
  {}

  lemma NewerPlus(b: Word, d: Word)
    ensures Newer(Plus(b, d), b) <==> 0 < d < 0x8000_0000
  {
    hide Newer, Plus;
    PlusIs(b, d);
    NewerAhead(b, d);
  }

  /** The revision n steps after 0. */
  function Revision(n: nat): Word { if n == 0 then 0 else Plus(Revision(n - 1), 1) }

  lemma PlusIs(a: Word, b: Word)
    ensures Plus(a, b) == a + b && Plus(a, 0) == a
  {}

  lemma PlusAssoc(a: Word, b: Word, c: Word)
    ensures Plus(Plus(a, b), c) == Plus(a, Plus(b, c))
  {
    hide Plus;
    PlusIs(a, b);
    PlusIs(Plus(a, b), c);
    PlusIs(b, c);
    PlusIs(a, Plus(b, c));
    SumsAgree(a, b, c, Plus(a, b), Plus(Plus(a, b), c), Plus(b, c), Plus(a, Plus(b, c)));
  }

  lemma SumsAgree(a: Word, b: Word, c: Word, p: Word, q: Word, r: Word, s: Word)
    requires p == a + b && q == p + c && r == b + c && s == a + r
    ensures q == s
  {
    calc {
      q;
      p + c;
      (a + b) + c;
      a + (b + c);
      a + r;
      s;
    }
  }

  lemma {:induction false} RevisionsAdd(m: nat, n: nat)
    ensures Revision(m + n) == Plus(Revision(m), Revision(n))
  {
    hide Plus;
    PlusIs(Revision(m), 0);
    if n > 0 {
      RevisionsAdd(m, n - 1);
      PlusAssoc(Revision(m), Revision(n - 1), 1);
    }
  }

  // ----- Revisions as numbers -----

  function Twice(x: Word, bit: Word): Word { Plus(Plus(x, x), bit) }

  function BitOf(n: nat): (b: Word)
    ensures b <= 1 && (b == 0 <==> n % 2 == 0)
  {
    if n % 2 == 1 then 1 else 0
  }

  lemma TwiceBelow(x: Word, bit: Word, l: Word)
    requires x < l <= 0x4000_0000 && bit <= 1
    ensures Twice(x, bit) < Twice(l, 0) <= 0x8000_0000
    ensures Twice(x, bit) == 0 ==> x == 0 && bit == 0
  {}

  lemma RevisionTwice(n: nat)
    ensures Revision(n) == Twice(Revision(n / 2), BitOf(n))
  {
    hide Plus;
    var m := n / 2;
    RevisionsAdd(m, m);
    PlusIs(Revision(m + m), 0);
  }

  lemma FirstRevisions()
    ensures Revision(0) == 0 && Revision(1) == 1
  {}

  /** 2^k, for k up to 31. */
  function Bound(k: nat): Word { if k == 0 then 1 else Twice(Bound(k - 1), 0) }

  lemma LowBounds(k: nat)
    requires k <= 15
    ensures 0 < Bound(k) <= 0x8000 && Bound(15) == 0x8000
  {
    hide Bound, Twice;
    BoundNext(0);
    BoundStep(0, 1); BoundStep(1, 2); BoundStep(2, 4); BoundStep(3, 8); BoundStep(4, 0x10); BoundStep(5, 0x20);
    BoundStep(6, 0x40); BoundStep(7, 0x80); BoundStep(8, 0x100); BoundStep(9, 0x200); BoundStep(10, 0x400);
    BoundStep(11, 0x800); BoundStep(12, 0x1000); BoundStep(13, 0x2000); BoundStep(14, 0x4000);
  }

  lemma Bounds(k: nat)
    requires k <= 30
    ensures 0 < Bound(k) <= 0x4000_0000 && Bound(31) == 0x8000_0000 && Bound(32) == 0
  {
    hide Bound, Twice;
    LowBounds(if k < 15 then k else 15);
    BoundStep(15, 0x8000); BoundStep(16, 0x10000); BoundStep(17, 0x20000); BoundStep(18, 0x40000);
    BoundStep(19, 0x80000); BoundStep(20, 0x100000); BoundStep(21, 0x200000); BoundStep(22, 0x400000);
    BoundStep(23, 0x800000); BoundStep(24, 0x1000000); BoundStep(25, 0x2000000); BoundStep(26, 0x4000000);
    BoundStep(27, 0x8000000); BoundStep(28, 0x10000000); BoundStep(29, 0x20000000); BoundStep(30, 0x40000000);
    BoundStep(31, 0x80000000);
  }

  lemma BoundStep(k: nat, v: Word)
    requires Bound(k) == v
    ensures Bound(k + 1) == v + v
  {
    hide Bound;
    BoundNext(k + 1);
  }

  lemma BoundNext(k: nat)
    ensures k > 0 ==> Bound(k) == Twice(Bound(k - 1), 0)
    ensures k == 0 ==> Bound(k) == 1
  {}

  lemma HalfPow(n: nat, k: nat)
    requires n < Pow2(k) && k > 0
    ensures n / 2 < Pow2(k - 1) && (n == 0 <==> n / 2 == 0 && BitOf(n) == 0)
  {}

  lemma SmallTwice(x: Word, bit: Word, l: Word, w: Word, m: Word)
    requires x < l <= 0x4000_0000 && bit <= 1 && w == Twice(x, bit) && m == Twice(l, 0)
    ensures w < m && (w == 0 ==> x == 0 && bit == 0)
  {
    hide Twice;
    TwiceBelow(x, bit, l);
  }

  /** Fewer than 2^k steps are a word below 2^k, and some steps are not none. */
  lemma {:induction false} RevisionSmall(n: nat, k: nat)
    requires n < Pow2(k) && k <= 31
    ensures Revision(n) < Bound(k) && (Revision(n) == 0 ==> n == 0)
  {
    hide Revision, Twice, Bound, BitOf, Pow2;
    FirstRevisions();
    BoundNext(k);
    if k == 0 {
      NoPow();
    } else {
      HalfPow(n, k);
      RevisionSmall(n / 2, k - 1);
      RevisionTwice(n);
      Bounds(k - 1);
      SmallTwice(Revision(n / 2), BitOf(n), Bound(k - 1), Revision(n), Bound(k));
    }
  }

  lemma NoPow()
    ensures Pow2(0) == 1
  {}

  lemma {:induction false} RevisionOfPow(k: nat)
    ensures Revision(Pow2(k)) == Bound(k)
  {
    hide Revision, Twice, Bound;
    BoundNext(k);
    if k == 0 {
      FirstRevisions();
    } else {
      RevisionOfPow(k - 1);
      RevisionTwice(Pow2(k));
    }
  }

  function Half(w: Word): Word { w >> 1 }

  function Low(w: Word): Word { w & 1 }

  lemma Halves(w: Word, l: Word)
    ensures w == Twice(Half(w), Low(w)) && Low(w) <= 1 && Half(w) < 0x8000_0000
    ensures l <= 0x4000_0000 && w < Twice(l, 0) ==> Half(w) < l
  {}

  /** The number of a revision, as k bits. */
  function Number(w: Word, k: nat): (n: nat)
    ensures n < Pow2(k)
    decreases k
  {
    if k == 0 then 0 else 2 * Number(Half(w), k - 1) + if Low(w) == 0 then 0 else 1
  }

  lemma NumberHalves(w: Word, k: nat)
    requires k > 0
    ensures Number(w, k) / 2 == Number(Half(w), k - 1) && BitOf(Number(w, k)) == Low(w)
  {
    hide Half, Low;
    LowIs(w);
  }

  lemma LowIs(w: Word)
    ensures Low(w) == 0 || Low(w) == 1
  {}

  lemma HalfBelow(w: Word, k: nat)
    requires 0 < k <= 32 && (k < 32 ==> w < Bound(k))
    ensures Half(w) < Bound(k - 1)
  {
    hide Half, Low, Bound, Twice;
    BoundNext(k);
    if k == 32 {
      Bounds(0);
      Halves(w, 0);
    } else {
      Bounds(k - 1);
      Halves(w, Bound(k - 1));
    }
  }

  lemma {:induction false} RevisionOfNumber(w: Word, k: nat)
    requires k <= 32 && (k < 32 ==> w < Bound(k))
    ensures Revision(Number(w, k)) == w
    decreases k
  {
    hide Revision, Twice, Bound, Half, Low, BitOf;
    if k == 0 {
      FirstRevisions();
      BoundNext(0);
    } else {
      HalfBelow(w, k);
      RevisionOfNumber(Half(w), k - 1);
      RevisionTwice(Number(w, k));
      NumberHalves(w, k);
      Halves(w, 0);
    }
  }

  /** The revision as a number, and how many steps after b the revision a is. */
  function Index(w: Word): (n: nat)
    ensures n < 0x1_0000_0000
  {
    Pow32();
    Number(w, 32)
  }

  function Ahead(a: Word, b: Word): (n: nat)
    ensures n < 0x1_0000_0000
  {
    (Index(a) - Index(b)) % 0x1_0000_0000
  }

  lemma Pow32()
    ensures Pow2(31) == 0x8000_0000 && Pow2(32) == 0x1_0000_0000
  {
    assert Pow2(8) == 256;
    Pow2Add(8, 8);
    Pow2Add(16, 16);
  }

  /** So many steps lead there. */
  lemma AheadIs(a: Word, b: Word)
    ensures a == Plus(b, Revision(Ahead(a, b)))
  {
    hide Plus, Revision, Number, Bound;
    var p, q, n := Index(a), Index(b), Ahead(a, b);
    Pow32();
    RevisionOfNumber(a, 32);
    RevisionOfNumber(b, 32);
    RevisionsAdd(q, n);
    if p < q {
      RevisionsAdd(p, 0x1_0000_0000);
      RevisionOfPow(32);
      Bounds(0);
      PlusIs(a, 0);
    }
  }

  /** A revision is newer than another exactly if it is at least one step ahead of it, and
      less than half the circle. */
  lemma NewerIff(a: Word, b: Word)
    ensures Newer(a, b) <==> 0 < Ahead(a, b) < 0x8000_0000
  {
    hide Plus, Revision, Newer, Ahead;
    AheadIs(a, b);
    RevisionBelow(Ahead(a, b));
    NewerPlus(b, Revision(Ahead(a, b)));
  }

  /** There and back is once around. */
  lemma AroundOnce(a: Word, b: Word)
    ensures Ahead(a, b) + Ahead(b, a) == if a == b then 0 else 0x1_0000_0000
  {
    hide Revision, Number, Bound;
    RevisionOfNumber(a, 32);
    RevisionOfNumber(b, 32);
    Opposite(Index(a), Index(b));
  }

  lemma Opposite(p: nat, q: nat)
    requires p < 0x1_0000_0000 && q < 0x1_0000_0000
    ensures (p - q) % 0x1_0000_0000 + (q - p) % 0x1_0000_0000 == if p == q then 0 else 0x1_0000_0000
  {}

  lemma RevisionBelow(n: nat)
    requires n < 0x1_0000_0000
    ensures 0 < Revision(n) < 0x8000_0000 <==> 0 < n < 0x8000_0000
  {
    hide Plus, Revision, Bound;
    Pow32();
    Bounds(0);
    FirstRevisions();
    if n < 0x8000_0000 {
      RevisionSmall(n, 31);
    } else {
      RevisionsAdd(0x8000_0000, n - 0x8000_0000);
      RevisionOfPow(31);
      RevisionSmall(n - 0x8000_0000, 31);
      TopHalf(Revision(n - 0x8000_0000));
    }
  }

  lemma TopHalf(w: Word)
    requires w < 0x8000_0000
    ensures Plus(0x8000_0000, w) >= 0x8000_0000
  {}

  /** The revision n steps after b is newer than b for any n below half the circle. */
  lemma RevisionAhead(b: Word, n: nat)
    requires 0 < n < 0x8000_0000
    ensures Newer(Plus(b, Revision(n)), b)
  {
    hide Revision, Newer, Plus;
    RevisionBelow(n);
    NewerPlus(b, Revision(n));
  }

  /** Of two revisions that are neither the same nor half the circle apart, exactly one is
      newer. */
  lemma OneIsNewer(a: Word, b: Word)
    requires a != b && Ahead(a, b) != 0x8000_0000
    ensures Newer(a, b) != Newer(b, a)
  {
    hide Newer, Ahead;
    NewerIff(a, b);
    NewerIff(b, a);
    AroundOnce(a, b);
  }

  lemma NextIsNewer(a: Word)
    ensures Newer(a + 1, a)
  {
    NewerAhead(a, 1);
  }

  lemma NewerIsOneWay(a: Word, b: Word)
    requires Newer(a, b)
    ensures !Newer(b, a)
  {
    hide Newer, Ahead;
    NewerIff(a, b);
    NewerIff(b, a);
    AroundOnce(a, b);
  }
}
