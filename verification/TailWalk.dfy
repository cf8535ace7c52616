/** The walk along the tail list of metadata pairs, with Brent's cycle detection:
    for any list on the medium it ends, soon, and reports corruption exactly
    when the list never ends. */
module TailWalk {
  const NULL: nat := 0xffff_ffff

  datatype Pair = Pair(a: nat, b: nat)

  /** lfs_pair_isnull. */
  predicate IsNull(p: Pair) {
    p.a == NULL || p.b == NULL
  }

  /** lfs_pair_issync: the same two blocks, in either order. */
  predicate IsSync(p: Pair, q: Pair) {
    (p.a == q.a && p.b == q.b) || (p.a == q.b && p.b == q.a)
  }

  /** The pair with its blocks in order. */
  function Ordered(p: Pair): Pair {
    if p.a <= p.b then p else Pair(p.b, p.a)
  }

  lemma SyncIsOrdered(p: Pair, q: Pair)
    ensures IsSync(p, q) <==> Ordered(p) == Ordered(q)
  {}

  // ----- Walks -----

  /** What the directories on the medium say: the tail of each pair. Which of the
      two orders a pair is named in makes no difference to what is fetched. */
  ghost predicate IsMedium(next: Pair -> Pair, pairs: set<Pair>) {
    && (forall p, q :: IsSync(p, q) ==> next(p) == next(q))
    && (forall p :: Ordered(p) in pairs && !IsNull(p) ==> IsNull(next(p)) || Ordered(next(p)) in pairs)
  }

  /** The n-th tail of the walk; the walk stays where it meets a null pair. */
  function Tail(next: Pair -> Pair, start: Pair, n: nat): Pair {
    if n == 0 then start
    else
      var p := Tail(next, start, n - 1);
      if IsNull(p) then p else next(p)
  }

  lemma {:induction false} StaysNull(next: Pair -> Pair, start: Pair, m: nat, n: nat)
    requires m <= n && IsNull(Tail(next, start, m))
    ensures IsNull(Tail(next, start, n))
  {
    if m < n { StaysNull(next, start, m, n - 1); }
  }

  lemma {:induction false} InPairs(next: Pair -> Pair, pairs: set<Pair>, start: Pair, n: nat)
    requires IsMedium(next, pairs) && Ordered(start) in pairs && !IsNull(Tail(next, start, n))
    ensures Ordered(Tail(next, start, n)) in pairs
  {
    if n > 0 {
      InPairs(next, pairs, start, n - 1);
    }
  }

  /** Two tails that are the same pair are followed by the same list. */
  lemma {:induction false} SameAfter(next: Pair -> Pair, pairs: set<Pair>, start: Pair, a: nat, b: nat, n: nat)
    requires IsMedium(next, pairs) && IsSync(Tail(next, start, a), Tail(next, start, b))
    ensures IsSync(Tail(next, start, a + n), Tail(next, start, b + n))
  {
    if n > 0 {
      SameAfter(next, pairs, start, a, b, n - 1);
      var p, q := Tail(next, start, a + n - 1), Tail(next, start, b + n - 1);
      assert Tail(next, start, a + n) == if IsNull(p) then p else next(p);
      assert Tail(next, start, b + n) == if IsNull(q) then q else next(q);
    }
  }

  /** A list that comes back to a pair never ends. */
  lemma {:induction false} ComesBack(next: Pair -> Pair, pairs: set<Pair>, start: Pair, a: nat, b: nat, m: nat)
    requires IsMedium(next, pairs) && a < b && IsSync(Tail(next, start, a), Tail(next, start, b))
    requires !IsNull(Tail(next, start, a))
    ensures !IsNull(Tail(next, start, m))
  {
    if m > b {
      SameAfter(next, pairs, start, a, b, m - b);
      ComesBack(next, pairs, start, a, b, a + (m - b));
    } else if IsNull(Tail(next, start, m)) {
      StaysNull(next, start, m, b);
      assert false;
    }
  }

  /** The pairs among the first n tails. */
  function Seen(next: Pair -> Pair, start: Pair, n: nat): set<Pair> {
    if n == 0 then {} else Seen(next, start, n - 1) + {Ordered(Tail(next, start, n - 1))}
  }

  lemma {:induction false} SeenIndex(next: Pair -> Pair, start: Pair, n: nat, p: Pair) returns (a: nat)
    requires p in Seen(next, start, n)
    ensures a < n && Ordered(Tail(next, start, a)) == p
  {
    if p == Ordered(Tail(next, start, n - 1)) { a := n - 1; } else { a := SeenIndex(next, start, n - 1, p); }
  }

  lemma SubsetSize(s: set<Pair>, t: set<Pair>)
    requires s <= t
    ensures |s| <= |t|
  {
    if s != {} {
      var x :| x in s;
      SubsetSize(s - {x}, t - {x});
    }
  }

  /** Either the first n tails are n different pairs, or two of them are the same. */
  lemma {:induction false} Repeats(next: Pair -> Pair, pairs: set<Pair>, start: Pair, n: nat)
    returns (found: bool, a: nat, b: nat)
    requires IsMedium(next, pairs) && Ordered(start) in pairs
    requires n > 0 ==> !IsNull(Tail(next, start, n - 1))
    ensures found ==> a < b < n && IsSync(Tail(next, start, a), Tail(next, start, b))
    ensures !found ==> |Seen(next, start, n)| == n && Seen(next, start, n) <= pairs
  {
    found, a, b := false, 0, 0;
    if n > 0 {
      found, a, b := Repeats(next, pairs, start, n - 1);
      if !found {
        var p := Ordered(Tail(next, start, n - 1));
        InPairs(next, pairs, start, n - 1);
        if p in Seen(next, start, n - 1) {
          a := SeenIndex(next, start, n - 1, p);
          b := n - 1;
          found := true;
          SyncIsOrdered(Tail(next, start, a), Tail(next, start, b));
        }
      }
    }
  }

  /** A list that does not end within as many tails as there are pairs comes back
      to one of them. */
  lemma Cycle(next: Pair -> Pair, pairs: set<Pair>, start: Pair) returns (a: nat, b: nat)
    requires IsMedium(next, pairs) && Ordered(start) in pairs && !IsNull(Tail(next, start, |pairs|))
    ensures a < b <= |pairs| && IsSync(Tail(next, start, a), Tail(next, start, b))
  {
    var found;
    found, a, b := Repeats(next, pairs, start, |pairs| + 1);
    if !found {
      SubsetSize(Seen(next, start, |pairs| + 1), pairs);
      assert false;
    }
  }

  // ----- Brent's algorithm -----

  class Tortoise {
    var pair: Pair
    var i: nat
    var period: nat

    constructor ()
      ensures pair == Pair(NULL, NULL) && i == period == 1
    {
      pair, i, period := Pair(NULL, NULL), 1, 1;
    }

    /** lfs_tortoise_detectcycles. */
    method DetectCycles(tail: Pair) returns (corrupt: bool)
      modifies this
      ensures corrupt == IsSync(tail, old(pair))
      ensures corrupt ==> unchanged(this)
      ensures !corrupt && old(i == period) ==> pair == tail && i == 1 && period == 2 * old(period)
      ensures !corrupt && old(i != period) ==> pair == old(pair) && i == old(i) + 1 && period == old(period)
    {
      if IsSync(tail, pair) {
        return true;
      }
      if i == period {
        pair := tail;
        i := 0;
        period := period * 2;
      }
      i := i + 1;
      return false;
    }
  }

  /** Where the tortoise stands at the n-th tail: on tail t, for n - t rounds of
      the t + 2 it waits. */
  predicate Waits(t: nat, n: nat, i: nat, period: nat) {
    t < n <= t + period && i == n - t && period == t + 2
  }

  /** While a cycle of length b - a that starts at a has not been noticed: the
      tortoise is not in it yet, or it has not waited long enough, or the walk
      is on its way around. */
  predicate NotYet(t: nat, n: nat, a: nat, b: nat) {
    && (t >= a && t + 2 >= b - a ==> n <= t + (b - a))
    && t <= 2 * b
  }

  /** One round that does not notice the cycle. */
  lemma RoundPasses(next: Pair -> Pair, pairs: set<Pair>, start: Pair, t: nat, n: nat, a: nat, b: nat)
    requires IsMedium(next, pairs) && a < b && IsSync(Tail(next, start, a), Tail(next, start, b))
    requires t < n <= 2 * t + 2 && NotYet(t, n, a, b)
    requires !IsSync(Tail(next, start, n), Tail(next, start, t))
    ensures NotYet(if n == 2 * t + 2 then n else t, n + 1, a, b)
  {
    if t >= a && t + 2 >= b - a && n == t + (b - a) {
      SameAfter(next, pairs, start, a, b, t - a);
      assert false;
    }
  }

  lemma NotYetBound(t: nat, n: nat, a: nat, b: nat)
    requires a < b && t < n <= 2 * t + 2 && NotYet(t, n, a, b)
    ensures n <= 3 * b
  {}

  lemma Distinct(next: Pair -> Pair, pairs: set<Pair>, start: Pair, n: nat)
    requires IsMedium(next, pairs) && IsNull(Tail(next, start, n)) && (n > 0 ==> !IsNull(Tail(next, start, n - 1)))
    ensures forall a, b :: 0 <= a < b < n ==> !IsSync(Tail(next, start, a), Tail(next, start, b))
  {
    forall a, b | 0 <= a < b < n ensures !IsSync(Tail(next, start, a), Tail(next, start, b)) {
      if IsSync(Tail(next, start, a), Tail(next, start, b)) {
        if IsNull(Tail(next, start, a)) {
          StaysNull(next, start, a, n - 1);
        } else {
          ComesBack(next, pairs, start, a, b, n);
        }
        assert false;
      }
    }
  }

  /** Back at a pair: the list never ends. */
  lemma Caught(next: Pair -> Pair, pairs: set<Pair>, start: Pair, t: nat, n: nat)
    requires IsMedium(next, pairs) && t < n && IsSync(Tail(next, start, n), Tail(next, start, t))
    requires !IsNull(Tail(next, start, t))
    ensures forall m :: !IsNull(Tail(next, start, m))
  {
    hide IsMedium, IsSync, IsNull;
    Sync(Tail(next, start, n), Tail(next, start, t));
    forall m ensures !IsNull(Tail(next, start, m)) { ComesBack(next, pairs, start, t, n, m); }
  }

  /** The loop over the tail list. It goes on for at most three times as many
      rounds as there are pairs; it reports corruption if and only if the list
      does not end; and otherwise it has met every pair of the list once. */
  method Walk(next: Pair -> Pair, start: Pair, ghost pairs: set<Pair>) returns (corrupt: bool, ghost n: nat)
    requires IsMedium(next, pairs) && (IsNull(start) || Ordered(start) in pairs)
    ensures n <= 3 * |pairs|
    ensures corrupt <==> forall m :: !IsNull(Tail(next, start, m))
    ensures !corrupt ==> IsNull(Tail(next, start, n))
    ensures !corrupt ==> forall a, b :: 0 <= a < b < n ==> !IsSync(Tail(next, start, a), Tail(next, start, b))
  {
    hide IsMedium, IsSync;
    var tail := start;
    var tortoise := new Tortoise();
    n := 0;
    ghost var t, a, b := 0, 0, 0;
    ghost var ends := IsNull(Tail(next, start, |pairs|));
    if !ends {
      if IsNull(start) { StaysNull(next, start, 0, |pairs|); }
      a, b := Cycle(next, pairs, start);
    }
    NullIsNoPair(start);
    while !IsNull(tail)
      invariant tail == Tail(next, start, n) && (n > 0 ==> !IsNull(Tail(next, start, n - 1)))
      invariant n == 0 ==> tortoise.pair == Pair(NULL, NULL) && tortoise.i == tortoise.period == 1
      invariant n > 0 ==> tortoise.pair == Tail(next, start, t) && !IsNull(tortoise.pair)
      invariant n > 0 ==> Waits(t, n, tortoise.i, tortoise.period)
      invariant ends ==> n <= |pairs|
      invariant !ends && n > 0 ==> NotYet(t, n, a, b)
      invariant n <= 3 * |pairs|
      modifies tortoise
      decreases 3 * |pairs| - n
    {
      hide IsNull, NotYet, Tail;
      TailNext(next, start, n);
      var corrupted := tortoise.DetectCycles(tail);
      if corrupted {
        Caught(next, pairs, start, t, n);
        return true, n;
      }
      if !ends {
        if n > 0 { RoundPasses(next, pairs, start, t, n, a, b); }
        NotYetBound(if n == 0 || n == 2 * t + 2 then n else t, n + 1, a, b);
      }
      if n == 0 || n == 2 * t + 2 { t := n; }
      tail := next(tail);
      n := n + 1;
    }
    corrupt := false;
    Distinct(next, pairs, start, n);
  }

  lemma TailNext(next: Pair -> Pair, start: Pair, n: nat)
    ensures Tail(next, start, n + 1) == if IsNull(Tail(next, start, n)) then Tail(next, start, n)
      else next(Tail(next, start, n))
  {}

  lemma NullIsNoPair(p: Pair)
    ensures IsSync(p, Pair(NULL, NULL)) ==> IsNull(p)
  {}

  lemma Sync(p: Pair, q: Pair)
    requires IsSync(p, q)
    ensures IsSync(q, p)
  {}
}
