/** The block allocator: a window of the device as a bitmap of blocks in use,
    moved around the device, and a checkpoint that bounds how far it may go. */
module Alloc {
  import opened Bytes
  import opened Arith

  datatype Outcome = Block(b: nat) | NoSpace | Failed

  /** What a traversal of the file system reported, or that it failed. */
  datatype Traversal = Blocks(blocks: seq<nat>) | Error

  function Reported(t: Traversal): set<nat> {
    match t
    case Blocks(blocks) => set b | b in blocks
    case Error => {}
  }

  // ----- The bitmap -----

  function Bit(i: nat): Octet
    requires i < 8
  {
    if i == 0 then 1 else if i == 1 then 2 else if i == 2 then 4 else if i == 3 then 8
    else if i == 4 then 16 else if i == 5 then 32 else if i == 6 then 64 else 128
  }

  predicate Marked(buf: seq<Octet>, k: nat)
    requires k / 8 < |buf|
  {
    buf[k / 8] & Bit(k % 8) != 0
  }

  lemma BitsApart(x: Octet, i: nat, j: nat)
    requires i < 8 && j < 8
    ensures (x | Bit(i)) & Bit(j) != 0 <==> i == j || x & Bit(j) != 0
  {}

  lemma MarkOne(buf: seq<Octet>, k: nat, j: nat)
    requires k / 8 < |buf| && j / 8 < |buf|
    ensures Marked(buf[k / 8 := buf[k / 8] | Bit(k % 8)], j) <==> j == k || Marked(buf, j)
  {
    BitsApart(buf[k / 8], k % 8, j % 8);
  }

  lemma NoneMarked(buf: seq<Octet>, j: nat)
    requires j / 8 < |buf| && buf[j / 8] == 0
    ensures !Marked(buf, j)
  {}

  // ----- Positions on the device -----

  /** The block n places after origin, around the end of the device. */
  function Around(origin: nat, n: nat, count: nat): nat {
    if origin + n < count then origin + n else origin + n - count
  }

  /** How many places after origin block b comes. */
  function Places(origin: nat, b: nat, count: nat): nat
    requires origin < count && b < count
  {
    if b >= origin then b - origin else b + count - origin
  }

  lemma PlacesAround(origin: nat, n: nat, count: nat)
    requires origin < count && n < count
    ensures Around(origin, n, count) < count
    ensures Places(origin, Around(origin, n, count), count) == n
  {}

  lemma AroundPlaces(origin: nat, b: nat, count: nat)
    requires origin < count && b < count
    ensures Places(origin, b, count) < count
    ensures Around(origin, Places(origin, b, count), count) == b
  {}

  /** Two walks that stand on the same block stand on the same block after one
      more place. */
  lemma WalkOn(o: nat, n: nat, p: nat, m: nat, count: nat)
    requires o < count && p < count && n < count && m < count
    requires Around(o, n, count) == Around(p, m, count)
    ensures Around(o, n + 1, count) == Around(p, m + 1, count)
  {}

  /** The source's modulo is one turn around the device at most. */
  lemma ModOnce(x: nat, count: nat)
    requires x < 2 * count
    ensures x % count == if x < count then x else x - count
  {
    if x < count {
      QuotientIs(x, count, 0, x);
    } else {
      QuotientIs(x, count, 1, x - count);
    }
  }

  // ----- What the window and the checkpoint stand for -----

  /** From `next` on, the bitmap marks exactly the busy blocks of the window. */
  ghost predicate Mirrors(buf: seq<Octet>, start: nat, next: nat, size: nat, count: nat, busy: set<nat>)
    requires start < count && size <= 8 * |buf|
  {
    forall b :: 0 <= b < count && next <= Places(start, b, count) < size ==>
      (Marked(buf, Places(start, b, count)) <==> b in busy)
  }

  /** The blocks handed out and those passed over are, together, exactly the
      first `inspected` ones after origin. */
  ghost predicate Ledger(origin: nat, inspected: nat, count: nat, taken: set<nat>, passed: set<nat>)
    requires origin < count
  {
    && taken !! passed
    && (forall b :: b in taken + passed ==> b < count)
    && (forall b :: 0 <= b < count ==> (b in taken + passed <==> Places(origin, b, count) < inspected))
  }

  lemma LedgerStep(origin: nat, n: nat, count: nat, taken: set<nat>, passed: set<nat>)
    requires origin < count && n < count && Ledger(origin, n, count, taken, passed)
    ensures Around(origin, n, count) !in taken + passed
    ensures Ledger(origin, n + 1, count, taken + {Around(origin, n, count)}, passed)
    ensures Ledger(origin, n + 1, count, taken, passed + {Around(origin, n, count)})
  {
    PlacesAround(origin, n, count);
    forall b: nat | b < count ensures Places(origin, b, count) == n <==> b == Around(origin, n, count) {
      AroundPlaces(origin, b, count);
    }
  }

  lemma LedgerFull(origin: nat, count: nat, taken: set<nat>, passed: set<nat>)
    requires origin < count && Ledger(origin, count, count, taken, passed)
    ensures forall b :: 0 <= b < count ==> b in taken || b in passed
  {
    forall b: nat | b < count ensures b in taken || b in passed {
      AroundPlaces(origin, b, count);
    }
  }

  lemma MirrorsStep(buf: seq<Octet>, start: nat, next: nat, size: nat, count: nat, busy: set<nat>)
    requires start < count && next < size <= 8 * |buf| && size <= count
    requires Mirrors(buf, start, next, size, count, busy)
    ensures Marked(buf, next) <==> Around(start, next, count) in busy
    ensures Mirrors(buf, start, next + 1, size, count, busy + {Around(start, next, count)})
    ensures Mirrors(buf, start, next + 1, size, count, busy)
  {
    PlacesAround(start, next, count);
  }

  // ----- The allocator -----

  class Lookahead {
    const count: nat
    var start: nat
    var size: nat
    var next: nat
    var ckpoint: nat
    const buffer: array<Octet>

    /** Where the last checkpoint stood, and what became of the blocks inspected
        since: handed out, or passed over because they were in use. */
    ghost var origin: nat
    ghost var taken: set<nat>
    ghost var passed: set<nat>
    /** The blocks this window must not hand out: those its traversal reported,
        and those it has handed out. */
    ghost var busy: set<nat>

    ghost predicate Valid()
      reads this, buffer
    {
      && count > 0 && buffer.Length > 0
      && start < count && next <= size <= 8 * buffer.Length && size <= count
      && size - next <= ckpoint <= count
      && origin < count && Around(origin, count - ckpoint, count) == Around(start, next, count)
      && Mirrors(buffer[..], start, next, size, count, busy)
      && Ledger(origin, count - ckpoint, count, taken, passed)
    }

    /** The bit of the block under the cursor is clear. */
    predicate Free(k: nat)
      reads this, buffer
      requires k < 8 * buffer.Length
    {
      buffer[k / 8] & Bit(k % 8) == 0
    }

    constructor (count: nat, lookaheadSize: nat, seed: nat)
      requires count > 0 && lookaheadSize > 0
      ensures Valid() && this.count == count && ckpoint == count && size == 0
      ensures fresh(buffer) && buffer.Length == lookaheadSize && taken == passed == busy == {}
    {
      this.count, this.size, this.next, this.ckpoint := count, 0, 0, count;
      this.start := seed % count;
      this.buffer := new Octet[lookaheadSize];
      this.origin, this.taken, this.passed, this.busy := seed % count, {}, {}, {};
    }

    /** lfs_alloc_ckpoint: everything handed out so far is in the file system. */
    method Ckpoint()
      requires Valid()
      modifies this`ckpoint, this`origin, this`taken, this`passed
      ensures Valid() && ckpoint == count && taken == passed == {}
    {
      ckpoint := count;
      origin, taken, passed := Around(start, next, count), {}, {};
    }

    /** lfs_alloc_drop: forget the window. */
    method Drop()
      requires count > 0 && buffer.Length > 0 && start < count
      modifies this`size, this`next, this`ckpoint, this`origin, this`taken, this`passed
      ensures Valid() && size == next == 0 && ckpoint == count && taken == passed == {}
    {
      size, next := 0, 0;
      ckpoint := count;
      origin, taken, passed := start, {}, {};
    }

    /** lfs_alloc_lookahead: one block the traversal reports. */
    method Mark(block: nat)
      requires start < count && block < count && size <= 8 * buffer.Length
      requires Mirrors(buffer[..], start, 0, size, count, busy)
      modifies buffer, this`busy
      ensures busy == old(busy) + {block}
      ensures Mirrors(buffer[..], start, 0, size, count, busy)
    {
      ghost var before := buffer[..];
      var off := ((block - start) + count) % count;
      ModOnce(block - start + count, count);
      busy := busy + {block};
      if off < size {
        buffer[off / 8] := buffer[off / 8] | Bit(off % 8);
        assert buffer[..] == before[off / 8 := before[off / 8] | Bit(off % 8)];
      }
      forall b | 0 <= b < count && 0 <= Places(start, b, count) < size
        ensures Marked(buffer[..], Places(start, b, count)) <==> b in busy
      {
        if off < size { MarkOne(before, off, Places(start, b, count)); }
        AroundPlaces(start, b, count);
        AroundPlaces(start, block, count);
      }
    }

    /** lfs_alloc_scan: move the window to the first block not inspected and
        learn which of its blocks are in use. */
    method Scan(found: Traversal) returns (ok: bool)
      requires Valid() && next == size && ckpoint > 0
      requires forall v :: v in Reported(found) ==> v < count
      modifies this`start, this`size, this`next, this`ckpoint, this`origin, this`taken, this`passed, this`busy, buffer
      ensures Valid() && ok == found.Blocks?
      ensures ok ==> next == 0 && size == if 8 * buffer.Length < ckpoint then 8 * buffer.Length else ckpoint
      ensures ok ==> busy == Reported(found) && unchanged(`ckpoint, `origin, `taken, `passed)
      ensures !ok ==> size == next == 0 && ckpoint == count && taken == passed == {}
    {
      hide Ledger;
      ModOnce(start + next, count);
      start := (start + next) % count;
      next := 0;
      size := if 8 * buffer.Length < ckpoint then 8 * buffer.Length else ckpoint;
      busy := {};
      for i := 0 to buffer.Length
        modifies buffer
        invariant forall j :: 0 <= j < i ==> buffer[j] == 0
      {
        buffer[i] := 0;
      }
      forall k: nat | k < size ensures !Marked(buffer[..], k) {
        NoneMarked(buffer[..], k);
      }
      if found.Error? {
        Drop();
        return false;
      }
      for i := 0 to |found.blocks|
        modifies buffer, this`busy
        invariant Mirrors(buffer[..], start, 0, size, count, busy)
        invariant busy == set b | b in found.blocks[..i]
      {
        assert found.blocks[i] in Reported(found);
        Mark(found.blocks[i]);
        assert found.blocks[..i + 1] == found.blocks[..i] + [found.blocks[i]];
      }
      assert found.blocks[..|found.blocks|] == found.blocks;
      ok := true;
    }

    /** Step past the block under the window's cursor. */
    method Inspect(ghost give: bool)
      requires Valid() && next < size
      requires !give ==> !Free(next)
      modifies this`next, this`ckpoint, this`taken, this`passed, this`busy
      ensures Valid() && next == old(next) + 1 && ckpoint == old(ckpoint) - 1
      ensures var b := old(Around(start, next, count));
        && b < count && b !in old(taken) + old(passed) && (give ==> (old(Free(next)) <==> b !in old(busy)))
        && taken == (if give then old(taken) + {b} else old(taken))
        && passed == (if give then old(passed) else old(passed) + {b})
        && busy == (if give then old(busy) + {b} else old(busy))
        && (!give ==> b in busy)
    {
      hide Around, Places, Mirrors, Ledger;
      ghost var b := Around(start, next, count);
      PlacesAround(start, next, count);
      LedgerStep(origin, count - ckpoint, count, taken, passed);
      MirrorsStep(buffer[..], start, next, size, count, busy);
      WalkOn(start, next, origin, count - ckpoint, count);
      if give {
        taken, busy := taken + {b}, busy + {b};
      } else {
        passed := passed + {b};
      }
      next := next + 1;
      ckpoint := ckpoint - 1;
    }

    /** The inner loops of lfs_alloc: find a free block in the window and leave
        the cursor on the next one. */
    method Search() returns (found: bool, b: nat)
      requires Valid()
      modifies this`next, this`ckpoint, this`taken, this`passed, this`busy
      ensures Valid() && old(passed) <= passed <= old(passed) + old(busy)
      ensures next - old(next) == old(ckpoint) - ckpoint >= 0
      ensures !found ==> next == size && taken == old(taken) && busy == old(busy)
      ensures found ==> b < count && b !in old(taken) + old(passed) + old(busy)
      ensures found ==> taken == old(taken) + {b} && busy == old(busy) + {b} && next > old(next)
      ensures found ==> old(next) < size && (next == size || Free(next))
    {
      hide Places, Mirrors, Ledger;
      while next < size && !Free(next)
        invariant Valid() && old(passed) <= passed <= old(passed) + old(busy)
        invariant next - old(next) == old(ckpoint) - ckpoint >= 0
        invariant taken == old(taken) && busy == old(busy)
        decreases size - next
      {
        Inspect(false);
      }
      if next == size { return false, 0; }
      ModOnce(start + next, count);
      found, b := true, (start + next) % count;
      Inspect(true);
      while next < size && !Free(next)
        invariant Valid() && old(passed) <= passed <= old(passed) + old(busy)
        invariant next - old(next) == old(ckpoint) - ckpoint > 0
        invariant taken == old(taken) + {b} && busy == old(busy) + {b}
        decreases size - next
      {
        Inspect(false);
      }
    }

    /** lfs_alloc. A block handed out is on the device, was neither handed out
        nor passed over since the checkpoint, and was not in use for the window
        it came from: the old one, or one filled from this call's traversal. No
        space is reported only when every block of the device was inspected
        since the checkpoint, and each one passed over in this call was
        reported by a traversal. */
    method Alloc(traversal: Traversal) returns (r: Outcome, ghost scanned: bool)
      requires Valid()
      requires forall v :: v in Reported(traversal) ==> v < count
      modifies this`start, this`size, this`next, this`ckpoint, this`origin, this`taken, this`passed, this`busy, buffer
      ensures Valid()
      ensures r.Block? ==> r.b < count && r.b !in old(taken) + old(passed) && taken == old(taken) + {r.b}
      ensures r.Block? ==> if scanned then r.b !in Reported(traversal) else r.b !in old(busy)
      ensures r.Block? ==> next == size || Free(next)
      ensures scanned || r.Failed? || old(next < size) || old(ckpoint) == 0
      ensures !r.Failed? ==>
        busy == (if scanned then Reported(traversal) else old(busy)) + (if r.Block? then {r.b} else {})
      ensures r.NoSpace? ==> ckpoint == 0 && taken == old(taken)
      ensures r.NoSpace? ==> forall b :: 0 <= b < count ==> b in taken || b in passed
      ensures !r.Failed? ==> old(passed) <= passed <= old(passed) + old(busy) + Reported(traversal)
      ensures !r.Failed? ==> origin == old(origin) && ckpoint <= old(ckpoint)
      ensures r.Failed? ==> traversal.Error? && size == next == 0 && ckpoint == count && taken == passed == {}
    {
      hide Mirrors, Ledger, Around;
      scanned := false;
      while true
        invariant Valid() && unchanged(`origin, `taken) && ckpoint <= old(ckpoint)
        invariant busy == if scanned then Reported(traversal) else old(busy)
        invariant scanned || unchanged(`next, `size, `ckpoint)
        invariant old(passed) <= passed <= old(passed) + old(busy) + Reported(traversal)
        decreases ckpoint, next == size
      {
        var found, b := Search();
        if found {
          r := Block(b);
          return;
        }
        if ckpoint <= 0 {
          LedgerFull(origin, count, taken, passed);
          r := NoSpace;
          return;
        }
        var ok := Scan(traversal);
        if !ok {
          r := Failed;
          return;
        }
        scanned := true;
      }
    }

    /** Any run of allocations after a checkpoint, each with its own traversal
        of the file system, until one does not succeed: the blocks are all
        different, and a run that ends for lack of space has inspected them all. */
    method Run(traversals: seq<Traversal>) returns (blocks: seq<nat>, last: Outcome)
      requires Valid() && taken == passed == {}
      requires forall t, v :: t in traversals && v in Reported(t) ==> v < count
      modifies this`start, this`size, this`next, this`ckpoint, this`origin, this`taken, this`passed, this`busy, buffer
      ensures Valid() && |blocks| <= |traversals| && (last.Block? ==> |blocks| == |traversals|)
      ensures forall i :: 0 <= i < |blocks| ==> blocks[i] < count
      ensures forall i, j :: 0 <= i < j < |blocks| ==> blocks[i] != blocks[j]
      ensures last.NoSpace? ==> forall b :: 0 <= b < count ==> b in blocks || b in passed
    {
      blocks, last := [], Block(0);
      while |blocks| < |traversals|
        invariant Valid() && |blocks| <= |traversals|
        invariant taken == set b | b in blocks
        invariant forall i :: 0 <= i < |blocks| ==> blocks[i] < count
        invariant forall i, j :: 0 <= i < j < |blocks| ==> blocks[i] != blocks[j]
        invariant last.Block?
      {
        hide Mirrors, Ledger, Around;
        assert traversals[|blocks|] in traversals;
        ghost var scanned;
        last, scanned := Alloc(traversals[|blocks|]);
        if !last.Block? { return; }
        blocks := blocks + [last.b];
      }
    }
  }
}
