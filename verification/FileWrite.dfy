/** Reading, writing, seeking and flushing a file kept as a CTZ skip list. The
    file is a byte sequence; writes go to freshly allocated blocks only, so the
    list the metadata refers to stays as it is until the file is synced. */
module FileWrite {
  import opened Arith
  import opened Bytes
  import opened Ctz
  import opened CtzList
  import Alloc

  // ----- The file as a byte sequence -----

  /** `bytes` written over s from position p on. */
  function Spliced(s: seq<Byte>, p: nat, bytes: seq<Byte>): (r: seq<Byte>)
    requires p <= |s|
  {
    s[..p] + bytes + if p + |bytes| < |s| then s[p + |bytes|..] else []
  }

  lemma SplicedInParts(s: seq<Byte>, p: nat, a: seq<Byte>, b: seq<Byte>)
    requires p <= |s|
    ensures Spliced(Spliced(s, p, a), p + |a|, b) == Spliced(s, p, a + b)
  {
    var t, u := Spliced(Spliced(s, p, a), p + |a|, b), Spliced(s, p, a + b);
    assert |t| == |u|;
    assert forall k :: 0 <= k < |t| ==> t[k] == u[k];
  }

  function Zeros(n: nat): (z: seq<Byte>)
    ensures |z| == n && forall k :: 0 <= k < n ==> z[k] == 0
  {
    seq(n, _ => 0)
  }

  /** What a file shows while it holds `data` and the bytes before `draft` ends
      have been rewritten. */
  function Shown(data: seq<Byte>, draft: seq<Byte>): seq<Byte> {
    draft + if |draft| < |data| then data[|draft|..] else []
  }

  lemma ShownMore(data: seq<Byte>, draft: seq<Byte>, more: seq<Byte>)
    ensures |draft| <= |Shown(data, draft)|
    ensures Shown(data, draft + more) == Spliced(Shown(data, draft), |draft|, more)
  {
    var t, u := Shown(data, draft + more), Spliced(Shown(data, draft), |draft|, more);
    assert |t| == |u|;
    assert forall k :: 0 <= k < |t| ==> t[k] == u[k];
  }

  // ----- Lists with their head -----

  /** The list with this head and size is `chain`, and holds `data`. */
  ghost predicate Stored(blocks: seq<seq<Byte>>, head: nat, size: nat, chain: seq<nat>, data: seq<Byte>, blockSize: nat)
    requires BlockSize(blockSize)
  {
    && size == |data| && Holds(blocks, chain, data, blockSize)
    && |chain| == BlocksFor(size, blockSize) && (size > 0 ==> head == chain[|chain| - 1])
  }

  lemma StoredKept(before: seq<seq<Byte>>, after: seq<seq<Byte>>, head: nat, size: nat, chain: seq<nat>,
                   data: seq<Byte>, blockSize: nat)
    requires BlockSize(blockSize) && Stored(before, head, size, chain, data, blockSize)
    requires Untouched(before, after, chain)
    ensures Stored(after, head, size, chain, data, blockSize)
  {
    assert chain[..|chain|] == chain && data[..|data|] == data;
    HoldsKept(before, after, chain, data, |data|, blockSize);
  }

  // ----- A position in a list being read -----

  datatype Cursor = Cursor(pos: nat, reading: bool, block: nat, off: nat)

  ghost predicate CursorOk(c: Cursor, chain: seq<nat>, blockSize: nat)
    requires BlockSize(blockSize)
  {
    c.pos <= FILE_MAX && (c.reading && c.off != blockSize ==>
      && c.off == CtzIndex(c.pos, blockSize).1
      && CtzIndex(c.pos, blockSize).0 < |chain| && c.block == chain[CtzIndex(c.pos, blockSize).0])
  }

  /** Bytes of a list that are in one block, read at once. */
  lemma RunHolds(blocks: seq<seq<Byte>>, chain: seq<nat>, data: seq<Byte>, pos: nat, diff: nat, blockSize: nat)
    requires BlockSize(blockSize) && Holds(blocks, chain, data, blockSize) && pos + diff <= |data|
    requires CtzIndex(pos, blockSize).0 < |chain| && CtzIndex(pos, blockSize).1 + diff <= blockSize
    ensures var (i, off) := CtzIndex(pos, blockSize);
      && chain[i] < |blocks| && |blocks[chain[i]]| == blockSize
      && blocks[chain[i]][off..off + diff] == data[pos..pos + diff]
  {
    hide CtzIndex, LeadsBack, Header;
    var (i, off) := CtzIndex(pos, blockSize);
    OnDevice(blocks, chain, blockSize, i);
    var there, here := blocks[chain[i]][off..off + diff], data[pos..pos + diff];
    forall k | 0 <= k < diff ensures there[k] == here[k] {
      InBlock(pos, blockSize, k);
      assert HasByte(blocks, chain, pos + k, data[pos + k], blockSize);
    }
  }

  /** One round of lfs_file_flushedread: find the block if need be, and read as
      much of it as is wanted. */
  method ReadSome(disk: Disk, start: Cursor, head: nat, size: nat, nsize: nat,
                  ghost chain: seq<nat>, ghost data: seq<Byte>)
    returns (ok: bool, c: Cursor, bytes: seq<Byte>)
    requires disk.Valid() && Stored(disk.blocks, head, size, chain, data, disk.blockSize)
    requires CursorOk(start, chain, disk.blockSize) && 0 < nsize && start.pos + nsize <= size
    ensures ok && CursorOk(c, chain, disk.blockSize) && c.pos == start.pos + |bytes|
    ensures 0 < |bytes| <= nsize && bytes == data[start.pos..start.pos + |bytes|]
  {
    hide CtzIndex, Linked, HasByte;
    ok, c := true, start;
    if !c.reading || c.off == disk.blockSize {
      var block, off;
      ghost var hops;
      ok, block, off, hops := disk.CtzFind(head, size, c.pos, chain);
      c := c.(reading := true, block := block, off := off);
    }
    var diff := if nsize < disk.blockSize - c.off then nsize else disk.blockSize - c.off;
    RunHolds(disk.blocks, chain, data, c.pos, diff, disk.blockSize);
    ok, bytes := disk.Read(c.block, c.off, diff);
    if c.off + diff < disk.blockSize { InBlock(c.pos, disk.blockSize, diff); }
    c := c.(pos := c.pos + diff, off := c.off + diff);
  }

  /** lfs_file_flushedread. */
  method FlushedRead(disk: Disk, start: Cursor, head: nat, size: nat, n: nat,
                     ghost chain: seq<nat>, ghost data: seq<Byte>)
    returns (ok: bool, c: Cursor, bytes: seq<Byte>)
    requires disk.Valid() && Stored(disk.blocks, head, size, chain, data, disk.blockSize)
    requires CursorOk(start, chain, disk.blockSize)
    ensures ok && CursorOk(c, chain, disk.blockSize) && c.pos == start.pos + |bytes|
    ensures start.pos >= size ==> bytes == []
    ensures start.pos < size ==> bytes == data[start.pos..if n < size - start.pos then start.pos + n else size]
  {
    hide CtzIndex, Holds, CursorOk;
    ok, c, bytes := true, start, [];
    if start.pos >= size {
      return;
    }
    var nsize: nat := if n < size - start.pos then n else size - start.pos;
    ghost var end := start.pos + nsize;
    while nsize > 0
      invariant ok && CursorOk(c, chain, disk.blockSize) && c.pos + nsize == end <= size && start.pos <= c.pos
      invariant c.pos == start.pos + |bytes| && bytes == data[start.pos..c.pos]
    {
      var part;
      ok, c, part := ReadSome(disk, c, head, size, nsize, chain, data);
      bytes, nsize := bytes + part, nsize - |part|;
    }
  }

  /** A cursor moved to another byte of the same block. */
  lemma SameBlock(c: Cursor, pos: nat, chain: seq<nat>, blockSize: nat)
    requires BlockSize(blockSize) && CursorOk(c, chain, blockSize) && c.reading && c.off != blockSize
    requires pos <= FILE_MAX && CtzIndex(pos, blockSize).0 == CtzIndex(c.pos, blockSize).0
    ensures CursorOk(Cursor(pos, true, c.block, CtzIndex(pos, blockSize).1), chain, blockSize)
  {}

  // ----- A list being written -----

  /** The blocks of an open list of `pos` bytes: `chain`, with `block` last, and
      the next byte goes at `off` in it. */
  ghost predicate Room(blocks: seq<seq<Byte>>, chain: seq<nat>, draft: seq<Byte>, block: nat, off: nat, blockSize: nat)
    requires BlockSize(blockSize)
  {
    && Holds(blocks, chain, draft, blockSize)
    && CtzIndex(|draft|, blockSize) == (|chain| - 1, off)
    && block == chain[|chain| - 1] && block !in chain[..|chain| - 1]
  }

  /** The same after a byte was written: the last byte is just before `off`,
      which may be the end of the block. */
  ghost predicate Written(blocks: seq<seq<Byte>>, chain: seq<nat>, draft: seq<Byte>, block: nat, off: nat,
                          blockSize: nat)
    requires BlockSize(blockSize)
  {
    && Holds(blocks, chain, draft, blockSize) && |draft| > 0
    && CtzIndex(|draft| - 1, blockSize) == (|chain| - 1, off - 1)
    && block == chain[|chain| - 1] && block !in chain[..|chain| - 1]
  }

  lemma WrittenHasRoom(blocks: seq<seq<Byte>>, chain: seq<nat>, draft: seq<Byte>, block: nat, off: nat, blockSize: nat)
    requires BlockSize(blockSize) && Written(blocks, chain, draft, block, off, blockSize)
    ensures off <= blockSize && |chain| == BlocksFor(|draft|, blockSize)
    ensures off < blockSize ==> Room(blocks, chain, draft, block, off, blockSize)
    ensures Stored(blocks, block, |draft|, chain, draft, blockSize)
  {
    hide CtzIndex, Linked;
    if off < blockSize { InBlock(|draft| - 1, blockSize, 1); }
  }

  /** Where the last block is full, the next byte is in a block more. */
  lemma FullHasNone(blocks: seq<seq<Byte>>, chain: seq<nat>, draft: seq<Byte>, block: nat, blockSize: nat)
    requires BlockSize(blockSize) && Written(blocks, chain, draft, block, blockSize, blockSize)
    requires |draft| <= FILE_MAX
    ensures CtzIndex(|draft|, blockSize).0 == |chain|
  {
    hide CtzIndex, Holds;
    NextByte(|draft| - 1, blockSize);
  }

  lemma RoomIsWritten(before: seq<seq<Byte>>, after: seq<seq<Byte>>, chain: seq<nat>, draft: seq<Byte>,
                      block: nat, off: nat, more: seq<Byte>, blockSize: nat)
    requires BlockSize(blockSize) && Room(before, chain, draft, block, off, blockSize)
    requires more != [] && off + |more| <= blockSize && |draft| + |more| <= FILE_MAX
    requires block < |before| && |before[block]| == blockSize
    requires after == before[block := Overlay(before[block], off, more)]
    ensures Written(after, chain, draft + more, block, off + |more|, blockSize)
  {
    hide CtzIndex, Holds;
    ProgHolds(before, after, chain, draft, more, blockSize);
  }

  /** lfs_ctz_extend, on the list of the bytes before the next. */
  method Extend(disk: Disk, nblock: nat, from: nat, pos: nat, ghost w: seq<nat>, ghost d: seq<Byte>)
    returns (ok: bool, block: nat, off: nat, ghost grown: seq<nat>)
    requires disk.Valid() && nblock < |disk.blocks| && nblock !in SetOf(w)
    requires Stored(disk.blocks, from, pos, w, d, disk.blockSize)
    modifies disk
    ensures disk.Valid() && ok && block == nblock && OnlyAt(old(disk.blocks), disk.blocks, nblock)
    ensures |disk.blocks| == |old(disk.blocks)|
    ensures Room(disk.blocks, grown, d, block, off, disk.blockSize) && off < disk.blockSize
    ensures SetOf(grown) <= SetOf(w) + {nblock}
    ensures CtzIndex(pos, disk.blockSize).0 <= |w| && grown == w[..CtzIndex(pos, disk.blockSize).0] + [nblock]
  {
    hide CtzIndex, Linked, HasByte;
    ok, block, off := disk.CtzExtend(nblock, from, pos, w, d);
    grown := w[..CtzIndex(pos, disk.blockSize).0] + [nblock];
  }

  lemma NotInPart(live: set<nat>, part: set<nat>, b: nat)
    requires part <= live && b !in live
    ensures b !in part
  {}

  lemma GrownTwice(first: set<nat>, live: set<nat>, busy: set<nat>, now: set<nat>, last: set<nat>)
    requires busy <= first + live && live <= now && last <= busy + now
    ensures last <= first + now
  {}

  lemma WithBlock(was: set<nat>, busy: set<nat>, live: set<nat>, now: set<nat>, b: nat)
    requires busy <= was + live + {b} && live <= now && b in now
    ensures busy <= was + now
  {}

  lemma Covers(settled: set<nat>, was: bool, had: set<nat>, has: set<nat>, b: nat)
    requires b in has && (was ==> has == had + {b})
    ensures (settled + if was then had else {}) <= settled + has && b in settled + has
  {}

  lemma SetOfMore(w: seq<nat>, n: nat)
    ensures SetOf(w + [n]) == SetOf(w) + {n}
  {
    forall b | b in w ensures b in w + [n] {
      var i :| 0 <= i < |w| && w[i] == b;
      assert (w + [n])[i] == b;
    }
    assert (w + [n])[|w|] == n;
  }

  lemma OtherListKept(before: seq<seq<Byte>>, after: seq<seq<Byte>>, n: nat, head: nat, size: nat, chain: seq<nat>,
                      data: seq<Byte>, blockSize: nat)
    requires BlockSize(blockSize) && Stored(before, head, size, chain, data, blockSize)
    requires OnlyAt(before, after, n) && n !in SetOf(chain)
    ensures Stored(after, head, size, chain, data, blockSize)
  {
    hide Holds, BlocksFor;
    StoredKept(before, after, head, size, chain, data, blockSize);
  }

  function SetOf(s: seq<nat>): set<nat> {
    set b | b in s
  }

  /** None of these blocks has changed. */
  ghost predicate Kept(before: seq<seq<Byte>>, after: seq<seq<Byte>>, kept: set<nat>) {
    && |after| == |before|
    && forall b :: 0 <= b < |before| && b in kept ==> after[b] == before[b]
  }

  lemma ElsewhereKept(before: seq<seq<Byte>>, after: seq<seq<Byte>>, n: nat, kept: set<nat>)
    requires OnlyAt(before, after, n) && n !in kept
    ensures Kept(before, after, kept)
  {}

  lemma NothingChanged(a: seq<seq<Byte>>, kept: set<nat>)
    ensures Kept(a, a, kept)
  {}

  lemma KeptTwice(a: seq<seq<Byte>>, b: seq<seq<Byte>>, c: seq<seq<Byte>>, kept: set<nat>)
    requires Kept(a, b, kept) && Kept(b, c, kept)
    ensures Kept(a, c, kept)
  {}

  lemma KeptPart(a: seq<seq<Byte>>, b: seq<seq<Byte>>, kept: set<nat>, more: set<nat>)
    requires Kept(a, b, kept + more)
    ensures Kept(a, b, kept)
  {}

  datatype WriteResult = Done | TooBig | NoSpace

  datatype Whence = FromStart | FromPosition | FromEnd

  datatype SeekResult = At(pos: nat) | OutOfRange | SeekFailed

  // ----- An open file -----

  class File {
    const disk: Disk
    const alloc: Alloc.Lookahead
    /** Opened with LFS_O_APPEND. */
    const append: bool
    /** The blocks everything else in the file system uses. */
    const others: seq<nat>

    /** The list the metadata refers to, file->ctz, and the position. */
    var syncedHead: nat
    var syncedSize: nat
    var head: nat
    var size: nat
    var pos: nat
    var block: nat
    var off: nat
    var reading: bool
    var writing: bool
    var dirty: bool
    var errored: bool

    ghost var syncedChain: seq<nat>
    ghost var synced: seq<Byte>
    ghost var chain: seq<nat>
    ghost var data: seq<Byte>
    ghost var draftChain: seq<nat>
    ghost var draft: seq<Byte>

    /** The blocks that must not be written over. */
    ghost function Synced(): set<nat>
      reads `syncedChain
    {
      SetOf(others) + SetOf(syncedChain)
    }

    ghost function Settled(): set<nat>
      reads `syncedChain, `chain
    {
      Synced() + SetOf(chain)
    }

    ghost function Live(): set<nat>
      reads `syncedChain, `chain, `writing, `draftChain
    {
      Settled() + if writing then SetOf(draftChain) else {}
    }

    /** The blocks are on the device, and the allocator's window will not hand
        any of them out. */
    ghost predicate Guarded(blocks: set<nat>)
      reads alloc`next, alloc`size, alloc`busy
    {
      && (forall b :: b in blocks ==> b < alloc.count)
      && (alloc.next < alloc.size ==> forall b :: b in blocks ==> b in alloc.busy)
    }

    /** Every block of the device is the file system's, or one of these. */
    ghost predicate Full(busy: set<nat>)
      reads `syncedChain, `chain, `writing, `draftChain
    {
      forall b :: 0 <= b < alloc.count ==> b in busy || b in Live()
    }

    /** What the allocator's window marks was marked before or is the file system's. */
    lemma FullBefore(busy: set<nat>, live: set<nat>, later: set<nat>)
      requires Full(later) && later <= busy + live && live <= Live()
      ensures Full(busy)
    {}

    lemma GuardedWith(blocks: set<nat>, b: nat)
      requires Guarded(blocks) && Guarded({b})
      ensures Guarded(blocks + {b}) && b < alloc.count
    {
      assert b in {b};
    }

    lemma GuardedPart(blocks: set<nat>, part: set<nat>)
      requires Guarded(blocks) && part <= blocks
      ensures Guarded(part)
    {}

    /** A file that is not dirty is the list the metadata refers to. */
    ghost predicate SameWhenClean()
      reads `syncedHead, `syncedChain, `synced, `head, `chain, `data, `dirty
    {
      !dirty ==> chain == syncedChain && data == synced && head == syncedHead
    }

    /** The device, the allocator, and the lists on them. */
    ghost predicate Lists()
      reads `syncedHead, `syncedSize, `syncedChain, `synced, `head, `size, `chain, `data, `writing, `draftChain
      reads `dirty, disk, alloc, alloc.buffer
    {
      && disk.Valid() && alloc.Valid() && alloc.count == |disk.blocks|
      && Stored(disk.blocks, syncedHead, syncedSize, syncedChain, synced, disk.blockSize)
      && Stored(disk.blocks, head, size, chain, data, disk.blockSize)
      && SameWhenClean() && Guarded(Live())
    }

    /** Everything but the state of reading or writing. */
    ghost predicate Base()
      reads `syncedHead, `syncedSize, `syncedChain, `synced, `head, `size, `chain, `data, `writing, `draftChain
      reads `pos, `dirty, disk, alloc, alloc.buffer
    {
      pos <= FILE_MAX && Lists()
    }

    /** No block of the metadata's list, of the file's own, or of anything else
        in the file system has changed. */
    ghost predicate KeptSince(before: seq<seq<Byte>>)
      reads `syncedChain, `chain, disk
    {
      Kept(before, disk.blocks, Settled())
    }

    /** A list being written: its last block is no one else's. */
    ghost predicate Drafting()
      reads `draft, `pos, `size, `block, `syncedChain, `chain
    {
      |draft| == pos && (append ==> pos >= size) && block !in Settled()
    }

    ghost predicate Valid()
      reads `syncedHead, `syncedSize, `syncedChain, `synced, `head, `size, `chain, `data, `draftChain, `draft
      reads `pos, `dirty, `reading, `writing, `block, `off, disk, alloc, alloc.buffer
    {
      && Base() && !(reading && writing)
      && (reading ==> CursorOk(Cursor(pos, true, block, off), chain, disk.blockSize))
      && (writing ==> Drafting() && Written(disk.blocks, draftChain, draft, block, off, disk.blockSize))
    }

    /** The file as its user sees it. */
    ghost function Contents(): seq<Byte>
      reads `writing, `data, `draft
    {
      if writing then Shown(data, draft) else data
    }

    /** lfs_file_opencfg_, for a file the metadata says is stored like this. */
    constructor (disk: Disk, alloc: Alloc.Lookahead, append: bool, others: seq<nat>, head: nat, size: nat,
                 ghost chain: seq<nat>, ghost data: seq<Byte>)
      requires disk.Valid() && alloc.Valid() && alloc.count == |disk.blocks|
      requires Stored(disk.blocks, head, size, chain, data, disk.blockSize)
      requires forall b :: b in SetOf(others) + SetOf(chain) ==> b < |disk.blocks|
      requires alloc.next < alloc.size ==> SetOf(others) + SetOf(chain) <= alloc.busy
      ensures Valid() && this.disk == disk && this.alloc == alloc && this.append == append && this.others == others
      ensures Contents() == synced == data && pos == 0 && !dirty
    {
      this.disk, this.alloc, this.append, this.others := disk, alloc, append, others;
      this.syncedHead, this.syncedSize, this.syncedChain, this.synced := head, size, chain, data;
      this.head, this.size, this.chain, this.data := head, size, chain, data;
      this.pos, this.block, this.off := 0, 0, 0;
      this.reading, this.writing, this.dirty, this.errored := false, false, false, false;
      this.draftChain, this.draft := [], [];
    }

    /** lfs_fs_traverse_, for this file: the list in the metadata, the list of
        a file not synced, and the list being written. */
    method Traverse() returns (blocks: seq<nat>)
      requires Base()
        && (writing ==> Written(disk.blocks, draftChain, draft, block, off, disk.blockSize) && |draft| == pos)
      ensures forall b :: b in Live() <==> b in blocks
    {
      hide CtzIndex, LeadsBack, Header, HasByte, Linked;
      var ok;
      ok, blocks := disk.CtzTraverse(syncedHead, syncedSize, syncedChain);
      Covered(blocks, syncedChain);
      var more := [];
      if dirty {
        ok, more := disk.CtzTraverse(head, size, chain);
        Covered(more, chain);
      }
      blocks, more := others + blocks + more, [];
      if writing {
        WrittenHasRoom(disk.blocks, draftChain, draft, block, off, disk.blockSize);
        ok, more := disk.CtzTraverse(block, pos, draftChain);
        Covered(more, draftChain);
      }
      blocks := blocks + more;
    }

    /** The list of the bytes before pos, which a new block is to extend: the one
        being written, or the first blocks of the file's own. */
    method Extended() returns (from: nat, ghost w: seq<nat>, ghost d: seq<Byte>)
      requires Base()
        && (if writing then Drafting() && Written(disk.blocks, draftChain, draft, block, off, disk.blockSize)
                          else pos <= size)
      ensures Stored(disk.blocks, from, pos, w, d, disk.blockSize) && Shown(data, d) == Contents() && |d| == pos
      ensures SetOf(w) <= Live() && (writing ==> w == draftChain)
    {
      hide CtzIndex, Linked, HasByte;
      if writing {
        WrittenHasRoom(disk.blocks, draftChain, draft, block, off, disk.blockSize);
        return block, draftChain, draft;
      }
      from, w, d := 0, chain[..BlocksWithin(chain, pos, disk.blockSize)], data[..pos];
      HoldsKept(disk.blocks, disk.blocks, chain, data, pos, disk.blockSize);
      assert Shown(data, d) == data;
      if pos > 0 {
        var ok, o;
        ghost var hops;
        ok, from, o, hops := disk.CtzFind(head, size, pos - 1, chain);
      }
    }

    /** A checkpoint, a block from the allocator, and what that makes of the
        blocks in use. */
    method Take() returns (ok: bool, b: nat)
      requires Base()
        && (writing ==> Written(disk.blocks, draftChain, draft, block, off, disk.blockSize) && |draft| == pos)
      modifies alloc, alloc.buffer
      ensures Base() && unchanged(disk)
      ensures ok ==> b !in Live() && Guarded({b})
      ensures alloc.busy <= old(alloc.busy) + Live() + if ok then {b} else {}
      ensures !ok ==> Full(old(alloc.busy))
    {
      hide Stored, Written;
      alloc.Ckpoint();
      var inUse := Traverse();
      var r;
      ghost var scanned;
      r, scanned := alloc.Alloc(Alloc.Blocks(inUse));
      ok, b := r.Block?, if r.Block? then r.b else 0;
    }

    lemma ListsAre()
      requires Lists()
      ensures disk.Valid() && alloc.Valid() && alloc.count == |disk.blocks| && SameWhenClean() && Guarded(Live())
      ensures Stored(disk.blocks, syncedHead, syncedSize, syncedChain, synced, disk.blockSize)
      ensures Stored(disk.blocks, head, size, chain, data, disk.blockSize)
    {}

    /** The lists are the same where only a block that is none of theirs was written. */
    lemma ListsKept(before: seq<seq<Byte>>, b: nat)
      requires disk.Valid() && alloc.Valid() && alloc.count == |disk.blocks| && SameWhenClean() && Guarded(Live())
      requires Stored(before, syncedHead, syncedSize, syncedChain, synced, disk.blockSize)
      requires Stored(before, head, size, chain, data, disk.blockSize)
      requires OnlyAt(before, disk.blocks, b) && b !in Settled()
      ensures Lists() && Kept(before, disk.blocks, Settled())
    {
      hide SetOf, Stored, OnlyAt, Kept, Alloc.Lookahead.Valid, CtzIndex, Guarded;
      OtherListKept(before, disk.blocks, b, syncedHead, syncedSize, syncedChain, synced, disk.blockSize);
      OtherListKept(before, disk.blocks, b, head, size, chain, data, disk.blockSize);
      ElsewhereKept(before, disk.blocks, b, Settled());
    }

    /** lfs_ctz_extend with the block taken. */
    method Adopt(b: nat, from: nat, ghost w: seq<nat>, ghost d: seq<Byte>)
      requires Base() && b !in Live() && Guarded({b})
      requires Stored(disk.blocks, from, pos, w, d, disk.blockSize) && |d| == pos
      requires SetOf(w) <= Live() && (writing ==> w == draftChain && CtzIndex(pos, disk.blockSize).0 == |w|)
      modifies this`block, this`off, this`writing, this`draft, this`draftChain, disk
      ensures Base() && writing && draft == d && block == b && off < disk.blockSize
      ensures KeptSince(old(disk.blocks)) && Room(disk.blocks, draftChain, draft, block, off, disk.blockSize)
      ensures CtzIndex(pos, disk.blockSize).0 <= |w| && draftChain == w[..CtzIndex(pos, disk.blockSize).0] + [b]
    {
      hide Lists, SameWhenClean, SetOf, Stored, Room, OnlyAt, Kept, Alloc.Lookahead.Valid, CtzIndex, Guarded;
      ListsAre();
      GuardedWith(Live(), b);
      ghost var before, live := disk.blocks, Live();
      NotInPart(live, SetOf(w), b);
      StartDraft(b, from, w, d);
      GuardedPart(live + {b}, Live());
      ListsKept(before, b);
    }

    /** The list being written is the one extended, from now on. */
    method StartDraft(b: nat, from: nat, ghost w: seq<nat>, ghost d: seq<Byte>)
      requires disk.Valid() && b < |disk.blocks| && b !in SetOf(w)
      requires Stored(disk.blocks, from, pos, w, d, disk.blockSize) && |d| == pos
      modifies this`block, this`off, this`writing, this`draft, this`draftChain, disk
      ensures disk.Valid() && OnlyAt(old(disk.blocks), disk.blocks, b) && |disk.blocks| == |old(disk.blocks)|
      ensures writing && draft == d && block == b && off < disk.blockSize
      ensures Room(disk.blocks, draftChain, draft, block, off, disk.blockSize) && SetOf(draftChain) <= SetOf(w) + {b}
      ensures CtzIndex(pos, disk.blockSize).0 <= |w| && draftChain == w[..CtzIndex(pos, disk.blockSize).0] + [b]
    {
      hide SetOf, Stored, Room, OnlyAt, CtzIndex;
      ghost var grown;
      var ok;
      ok, block, off, grown := Extend(disk, b, from, pos, w, d);
      draft, draftChain, writing := d, grown, true;
    }

    /** lfs_file_flushedwrite, where it needs a new block. */
    method Grow() returns (ok: bool)
      requires Base() && !reading
      requires if writing
               then Drafting() && Written(disk.blocks, draftChain, draft, block, off, disk.blockSize)
                 && off == disk.blockSize
               else pos <= size && (append ==> pos == size)
      modifies this`block, this`off, this`writing, this`draft, this`draftChain, disk, alloc, alloc.buffer
      ensures Base() && Contents() == old(Contents()) && KeptSince(old(disk.blocks))
      ensures ok ==> writing && Drafting() && Room(disk.blocks, draftChain, draft, block, off, disk.blockSize)
      ensures ok ==> off < disk.blockSize
      ensures !ok ==> unchanged(`block, `off, `writing, `draft, `draftChain, disk)
      ensures old(Live()) <= Live() && alloc.busy <= old(alloc.busy) + Live()
      ensures !ok ==> Full(old(alloc.busy))
    {
      hide Stored, Written, Room, Shown, Kept, Alloc.Lookahead.Valid;
      var from;
      ghost var w, d;
      from, w, d := Extended();
      var b;
      ok, b := Take();
      NothingChanged(disk.blocks, Settled());
      if ok {
        if writing { FullHasNone(disk.blocks, draftChain, draft, block, disk.blockSize); }
        ghost var live, was, had := Live(), writing, SetOf(draftChain);
        Adopt(b, from, w, d);
        SetOfMore(w[..CtzIndex(pos, disk.blockSize).0], b);
        assert was ==> w[..CtzIndex(pos, disk.blockSize).0] == w;
        Covers(Settled(), was, had, SetOf(draftChain), b);
        WithBlock(old(alloc.busy), alloc.busy, live, Live(), b);
      }
    }

    /** lfs_file_flushedwrite, the program of a chunk that fits the block. */
    method ProgSome(bytes: seq<Byte>)
      requires Base() && !reading && writing && Drafting()
      requires Room(disk.blocks, draftChain, draft, block, off, disk.blockSize)
      requires bytes != [] && off + |bytes| <= disk.blockSize && pos + |bytes| <= FILE_MAX
      modifies this`pos, this`off, this`draft, disk, alloc`ckpoint, alloc`origin, alloc`taken, alloc`passed
      ensures Valid() && pos == old(pos) + |bytes| && off == old(off) + |bytes|
      ensures KeptSince(old(disk.blocks))
      ensures old(pos) <= |old(Contents())| && Contents() == Spliced(old(Contents()), old(pos), bytes)
    {
      hide Stored, Written, Shown, Spliced, CtzIndex, Linked, HasByte, Kept, SetOf, Alloc.Lookahead.Valid;
      ghost var before := disk.blocks;
      LastIsLive();
      disk.Prog(block, off, bytes);
      RoomIsWritten(before, disk.blocks, draftChain, draft, block, off, bytes, disk.blockSize);
      OtherListKept(before, disk.blocks, block, syncedHead, syncedSize, syncedChain, synced, disk.blockSize);
      OtherListKept(before, disk.blocks, block, head, size, chain, data, disk.blockSize);
      ElsewhereKept(before, disk.blocks, block, Settled());
      ShownMore(data, draft, bytes);
      pos, off, draft := pos + |bytes|, off + |bytes|, draft + bytes;
      alloc.Ckpoint();
    }

    lemma LastIsLive()
      requires Base() && writing && Room(disk.blocks, draftChain, draft, block, off, disk.blockSize)
      ensures block < |disk.blocks|
    {
      assert block in draftChain && block in Live();
    }

    /** One round of lfs_file_flushedwrite: a new block if need be, and as many
        bytes as fit it. */
    method WriteSome(bytes: seq<Byte>) returns (ok: bool, n: nat)
      requires Valid() && !reading && bytes != [] && pos + |bytes| <= FILE_MAX
      requires !writing ==> pos <= size && (append ==> pos == size)
      modifies this`block, this`off, this`pos, this`writing, this`draft, this`draftChain, disk, alloc, alloc.buffer
      ensures Valid() && n <= |bytes| && pos == old(pos) + n && KeptSince(old(disk.blocks))
      ensures if ok then writing && n > 0 else writing == old(writing) && n == 0
      ensures old(pos) <= |old(Contents())| && Contents() == Spliced(old(Contents()), old(pos), bytes[..n])
      ensures old(Live()) <= Live() && alloc.busy <= old(alloc.busy) + Live()
      ensures !ok ==> Full(old(alloc.busy))
    {
      hide Stored, Written, Room, Spliced, CtzIndex, Holds, Kept, Alloc.Lookahead.Valid, Full, Live;
      ok, n := true, 0;
      PosInContents();
      SplicedNothing(Contents(), pos);
      NothingChanged(disk.blocks, Settled());
      if !writing || off == disk.blockSize {
        ok := Grow();
        if !ok { return; }
      } else {
        WrittenHasRoom(disk.blocks, draftChain, draft, block, off, disk.blockSize);
      }
      ghost var before := disk.blocks;
      n := if |bytes| < disk.blockSize - off then |bytes| else disk.blockSize - off;
      ProgSome(bytes[..n]);
      KeptTwice(old(disk.blocks), before, disk.blocks, Settled());
    }

    /** lfs_file_flushedwrite: n bytes were written, all of them unless the device
        is full. */
    method FlushedWrite(bytes: seq<Byte>) returns (ok: bool, n: nat)
      requires Valid() && !reading && pos + |bytes| <= FILE_MAX
      requires !writing ==> pos <= size && (append ==> pos == size)
      modifies this`errored, this`block, this`off, this`pos, this`writing, this`draft, this`draftChain, disk, alloc
      modifies alloc.buffer
      ensures Valid() && n <= |bytes| && (ok ==> n == |bytes|) && pos == old(pos) + n
      ensures old(writing) || n > 0 <==> writing
      ensures KeptSince(old(disk.blocks))
      ensures old(pos) <= |old(Contents())| && Contents() == Spliced(old(Contents()), old(pos), bytes[..n])
      ensures old(Live()) <= Live() && alloc.busy <= old(alloc.busy) + Live()
      ensures !ok ==> Full(old(alloc.busy))
    {
      hide Valid, Contents, Spliced, Kept, Full, Live;
      ok, n := true, 0;
      PosInContents();
      SplicedNothing(Contents(), pos);
      NothingChanged(disk.blocks, Settled());
      while n < |bytes|
        invariant Valid() && !reading && n <= |bytes| && pos == old(pos) + n
        invariant writing || (n == 0 && pos <= size && (append ==> pos == size))
        invariant old(writing) || n > 0 <==> writing
        invariant KeptSince(old(disk.blocks))
        invariant Contents() == Spliced(old(Contents()), old(pos), bytes[..n])
        invariant old(Live()) <= Live() && alloc.busy <= old(alloc.busy) + Live()
      {
        ghost var before, live, busy := disk.blocks, Live(), alloc.busy;
        var m;
        ok, m := WriteSome(bytes[n..]);
        GrownTwice(old(alloc.busy), live, busy, Live(), alloc.busy);
        if !ok { FullBefore(old(alloc.busy), live, busy); }
        SplicedInParts(old(Contents()), old(pos), bytes[..n], bytes[n..][..m]);
        assert bytes[..n] + bytes[n..][..m] == bytes[..n + m];
        KeptTwice(old(disk.blocks), before, disk.blocks, Settled());
        n := n + m;
        if !ok {
          errored := true;
          return;
        }
      }
    }

    lemma PosInContents()
      requires Valid() && (!writing ==> pos <= size)
      ensures pos <= |Contents()|
    {}

    /** lfs_file_flush, one byte read from the old list and written to the new. */
    method CopyByte(orig: Cursor) returns (ok: bool, next: Cursor)
      requires Valid() && writing && pos < size
      requires orig.pos == pos && CursorOk(orig, chain, disk.blockSize)
      modifies this`errored, this`block, this`off, this`pos, this`writing, this`draft, this`draftChain, disk, alloc
      modifies alloc.buffer
      ensures Valid() && writing && Contents() == old(Contents()) && KeptSince(old(disk.blocks))
      ensures ok ==> pos > old(pos) && next.pos == pos && CursorOk(next, chain, disk.blockSize)
      ensures old(Live()) <= Live() && alloc.busy <= old(alloc.busy) + Live()
      ensures !ok ==> Full(old(alloc.busy))
    {
      hide Valid, CursorOk, Stored, Spliced, Shown, Kept, CtzIndex, Full, Live;
      ghost var shown := Contents();
      assert |draft| == pos && size == |data| && disk.Valid()
        && Stored(disk.blocks, head, size, chain, data, disk.blockSize) by {
        InList();
      }
      PosFits();
      var bytes, n;
      ok, next, bytes := FlushedRead(disk, orig, head, size, 1, chain, data);
      assert bytes == data[|draft|..|draft| + 1];
      SplicedSame(data, draft);
      SplicedNothing(shown, pos);
      ok, n := FlushedWrite(bytes);
      FirstOrNone(bytes, n);
    }

    lemma InList()
      requires Valid() && writing
      ensures |draft| == pos && size == |data| && disk.Valid()
      ensures Stored(disk.blocks, head, size, chain, data, disk.blockSize)
    {}

    /** lfs_file_flush, the copy of what comes after the bytes rewritten. */
    method CopyRest() returns (ok: bool)
      requires Valid() && writing
      modifies this`errored, this`block, this`off, this`pos, this`writing, this`draft, this`draftChain, disk, alloc
      modifies alloc.buffer
      ensures Valid() && writing && Contents() == old(Contents()) && KeptSince(old(disk.blocks))
      ensures ok ==> pos >= size
      ensures old(Live()) <= Live() && alloc.busy <= old(alloc.busy) + Live()
      ensures !ok ==> Full(old(alloc.busy))
    {
      hide Valid, Contents, Kept, CtzIndex, Full, Live;
      ok := true;
      PosFits();
      var orig := Cursor(pos, false, 0, 0);
      NothingChanged(disk.blocks, Settled());
      while pos < size
        invariant Valid() && writing && Contents() == old(Contents()) && KeptSince(old(disk.blocks))
        invariant orig.pos == pos && CursorOk(orig, chain, disk.blockSize)
        invariant old(Live()) <= Live() && alloc.busy <= old(alloc.busy) + Live()
        decreases size - pos
      {
        ghost var before, live, busy := disk.blocks, Live(), alloc.busy;
        ok, orig := CopyByte(orig);
        GrownTwice(old(alloc.busy), live, busy, Live(), alloc.busy);
        if !ok { FullBefore(old(alloc.busy), live, busy); }
        KeptTwice(old(disk.blocks), before, disk.blocks, Settled());
        if !ok { return; }
      }
    }

    lemma PosFits()
      requires Valid()
      ensures pos <= FILE_MAX && disk.Valid() && size == |data| <= FILE_MAX && (writing ==> !reading)
    {}

    /** What the list being written is, once the file may refer to it. */
    lemma Drafted()
      requires Valid() && writing && pos >= size
      ensures disk.Valid() && alloc.Valid() && alloc.count == |disk.blocks| && !reading && Shown(data, draft) == draft
      ensures Stored(disk.blocks, syncedHead, syncedSize, syncedChain, synced, disk.blockSize)
      ensures Stored(disk.blocks, block, pos, draftChain, draft, disk.blockSize)
      ensures Guarded(Synced() + SetOf(draftChain) + {})
    {
      hide Kept, CtzIndex, Alloc.Lookahead.Valid;
      WrittenHasRoom(disk.blocks, draftChain, draft, block, off, disk.blockSize);
      GuardedPart(Live(), Synced() + SetOf(draftChain) + {});
    }

    lemma Published()
      requires disk.Valid() && alloc.Valid() && alloc.count == |disk.blocks|
      requires !reading && !writing && dirty && pos <= FILE_MAX
      requires Stored(disk.blocks, syncedHead, syncedSize, syncedChain, synced, disk.blockSize)
      requires Stored(disk.blocks, head, size, chain, data, disk.blockSize)
      requires Guarded(Synced() + SetOf(chain) + {})
      ensures Valid()
    {}

    /** lfs_file_flush, its end: the file is the list written, from now on. */
    method Publish(p: nat)
      requires Valid() && writing && pos >= size && p <= FILE_MAX
      modifies this`pos, this`writing, this`dirty, this`head, this`size, this`chain, this`data
      ensures Valid() && !writing && dirty && pos == p && !reading && data == old(Contents())
    {
      hide Valid, Base, Lists, Stored, Written, Synced, SetOf, Kept, Guarded, Shown, Alloc.Lookahead.Valid;
      Drafted();
      head, size, chain, data := block, pos, draftChain, draft;
      writing, dirty, pos := false, true, p;
      Published();
    }

    method StopReading()
      requires Valid()
      modifies this`reading
      ensures Valid() && !reading && Contents() == old(Contents())
    {
      hide Lists, Written, CursorOk;
      reading := false;
    }

    /** lfs_file_flush: after it the list the file refers to holds what the file
        shows. If the device fills up meanwhile, the file still shows the same. */
    method Flush() returns (ok: bool)
      requires Valid()
      modifies this`errored, this`block, this`off, this`pos, this`reading, this`writing, this`dirty, this`draft
      modifies this`draftChain
      modifies this`head, this`size, this`chain, this`data, disk, alloc, alloc.buffer
      ensures Valid() && !reading && Contents() == old(Contents())
      ensures Kept(old(disk.blocks), disk.blocks, Synced())
      ensures ok ==> !writing && pos == old(pos) && (old(writing) ==> dirty) && data == Contents()
      ensures !old(writing) ==> ok && unchanged(disk, `head, `size, `data, `dirty)
      ensures !ok ==> Full(old(alloc.busy))
    {
      hide Valid, Shown, Kept, Full, Live;
      NothingChanged(disk.blocks, Synced());
      ok := true;
      StopReading();
      if writing {
        ghost var before := disk.blocks;
        var p := pos;
        PosFits();
        ok := CopyRest();
        KeptPart(before, disk.blocks, Synced(), SetOf(chain));
        if !ok { return; }
        Publish(p);
      }
    }

    lemma NotReading(c: Cursor)
      requires Lists() && CursorOk(c, chain, disk.blockSize)
      ensures c.pos <= FILE_MAX
      ensures c.reading ==> CursorOk(Cursor(c.pos, true, c.block, c.off), chain, disk.blockSize)
    {}

    /** Take over a cursor after reading. */
    method Follow(c: Cursor)
      requires Valid() && !writing && CursorOk(c, chain, disk.blockSize)
      modifies this`pos, this`reading, this`block, this`off
      ensures Valid() && !writing && pos == c.pos && reading == c.reading
    {
      hide Lists, Written, CursorOk;
      NotReading(c);
      pos, reading, block, off := c.pos, c.reading, c.block, c.off;
    }

    lemma AtCursor()
      requires Valid() && !writing
      ensures BlockSize(disk.blockSize) && CursorOk(Cursor(pos, reading, block, off), chain, disk.blockSize)
      ensures Contents() == data && disk.Valid() && size == |data|
        && Stored(disk.blocks, head, size, chain, data, disk.blockSize)
    {}

    /** lfs_file_read_: the bytes the file shows, from its position on. */
    method Read(n: nat) returns (ok: bool, bytes: seq<Byte>)
      requires Valid()
      modifies this, disk, alloc, alloc.buffer
      ensures Valid() && Contents() == old(Contents()) && SameSynced()
      ensures ok ==> pos == old(pos) + |bytes|
      ensures !ok ==> old(writing) && Full(old(alloc.busy))
      ensures ok ==> var s := old(Contents()); var p := old(pos);
        bytes == if p >= |s| then [] else s[p..if n < |s| - p then p + n else |s|]
    {
      hide Valid, Stored, CursorOk, Shown, Kept, CtzIndex, Full, Live;
      ok, bytes := true, [];
      NothingChanged(disk.blocks, Synced());
      if writing {
        ok := Flush();
        if !ok { return; }
      }
      AtCursor();
      var c;
      ok, c, bytes := FlushedRead(disk, Cursor(pos, reading, block, off), head, size, n, chain, data);
      Follow(c);
    }

    /** The list in the metadata is the same list, and no block of it, nor of
        anything else in the file system, has changed. */
    twostate predicate SameSynced()
      reads `syncedHead, `syncedSize, `syncedChain, `synced, disk
    {
      && unchanged(`syncedHead, `syncedSize, `syncedChain, `synced)
      && Kept(old(disk.blocks), disk.blocks, Synced())
    }

    /** Move a file that is neither being read nor written. */
    method MoveTo(p: nat)
      requires Valid() && !reading && !writing && p <= FILE_MAX
      modifies this`pos
      ensures Valid() && pos == p
    {
      hide Lists, Written, CursorOk;
      pos := p;
    }

    /** lfs_file_write_, where it writes past the end: n zeros are written, up to
        the position unless the device is full. */
    method FillTo(p: nat) returns (ok: bool, ghost n: nat)
      requires Valid() && !reading && !writing && size <= p <= FILE_MAX && pos == size
      modifies this`errored, this`block, this`off, this`pos, this`writing, this`draft, this`draftChain, disk, alloc
      modifies alloc.buffer
      ensures Valid() && n <= p - size && pos == size + n && (ok ==> n == p - size) && (n > 0 <==> writing)
      ensures KeptSince(old(disk.blocks))
      ensures size == |old(Contents())| && Contents() == Spliced(old(Contents()), size, Zeros(n))
      ensures old(Live()) <= Live() && alloc.busy <= old(alloc.busy) + Live()
      ensures !ok ==> Full(old(alloc.busy))
    {
      hide Valid, Contents, Stored, CursorOk, Spliced, Kept, Full, Live;
      ok, n := true, 0;
      AtCursor();
      SplicedNothing(Contents(), pos);
      NothingChanged(disk.blocks, Settled());
      while pos < p
        invariant Valid() && !reading && size <= pos <= p && n == pos - size && (n > 0 <==> writing)
        invariant KeptSince(old(disk.blocks))
        invariant Contents() == Spliced(old(Contents()), size, Zeros(n))
        invariant old(Live()) <= Live() && alloc.busy <= old(alloc.busy) + Live()
        decreases p - pos
      {
        ghost var before, live, busy := disk.blocks, Live(), alloc.busy;
        var m;
        ok, m := FlushedWrite([0]);
        GrownTwice(old(alloc.busy), live, busy, Live(), alloc.busy);
        if !ok { FullBefore(old(alloc.busy), live, busy); }
        SplicedInParts(old(Contents()), size, Zeros(n), [0][..m]);
        assert Zeros(n) + [0][..m] == Zeros(n + m);
        KeptTwice(old(disk.blocks), before, disk.blocks, Settled());
        n := n + m;
        if !ok { return; }
      }
    }

    /** The zeros a write at `at` puts between the end of the file and itself. */
    ghost function Gap(s: seq<Byte>, at: nat): (g: seq<Byte>)
      ensures |g| <= at && at - |g| <= |s|
    {
      Zeros(if at > |s| then at - |s| else 0)
    }

    /** lfs_file_write_, up to the position: the gap is filled, unless the device is full. */
    method FillGap() returns (ok: bool, ghost n: nat)
      requires Valid() && !reading && (append ==> pos >= size) && pos <= FILE_MAX
      modifies this`errored, this`block, this`off, this`pos, this`writing, this`draft, this`draftChain, disk, alloc
      modifies alloc.buffer
      ensures Valid() && KeptSince(old(disk.blocks))
      ensures ok ==> pos == old(pos) && (!writing ==> pos <= size && (append ==> pos == size))
      ensures var s, at := old(Contents()), old(pos);
        && n <= |Gap(s, at)| && (ok ==> n == |Gap(s, at)|)
        && Contents() == Spliced(s, at - |Gap(s, at)|, Gap(s, at)[..n])
      ensures old(Live()) <= Live() && alloc.busy <= old(alloc.busy) + Live()
      ensures !ok ==> Full(old(alloc.busy))
    {
      hide Valid, Contents, Stored, CursorOk, Spliced, Kept, Full, Live;
      AppendsAtEnd();
      NothingChanged(disk.blocks, Settled());
      ghost var gap := Gap(Contents(), pos);
      ok, n := true, 0;
      if !writing { AtCursor(); }
      if !writing && pos > size {
        var p := pos;
        MoveTo(size);
        ok, n := FillTo(p);
        assert Zeros(n) == gap[..n];
      } else {
        SplicedNothing(Contents(), pos);
      }
    }

    /** lfs_file_write_, from where the position is settled. */
    method WriteHere(bytes: seq<Byte>) returns (ok: bool, ghost n: nat)
      requires Valid() && !reading && (append ==> pos >= size) && pos + |bytes| <= FILE_MAX
      modifies this`errored, this`block, this`off, this`pos, this`writing, this`draft, this`draftChain, disk, alloc
      modifies alloc.buffer
      ensures Valid() && KeptSince(old(disk.blocks))
      ensures var s, at := old(Contents()), old(pos);
        var all := Gap(s, at) + bytes;
        && n <= |all| && (ok ==> n == |all| && pos == at + |bytes|)
        && Contents() == Spliced(s, at - |Gap(s, at)|, all[..n])
      ensures !ok ==> Full(old(alloc.busy))
    {
      hide Valid, Contents, Stored, CursorOk, Spliced, Kept, Gap, Full, Live;
      ghost var s, at, gap := Contents(), pos, Gap(Contents(), pos);
      ok, n := FillGap();
      assert (gap + bytes)[..n] == gap[..n];
      if !ok { return; }
      assert gap[..n] == gap;
      ghost var before, filled, live, busy := disk.blocks, n, Live(), alloc.busy;
      var m;
      ok, m := FlushedWrite(bytes);
      if !ok { FullBefore(old(alloc.busy), live, busy); }
      KeptTwice(old(disk.blocks), before, disk.blocks, Settled());
      SplicedInParts(s, at - |gap|, gap, bytes[..m]);
      assert gap + bytes[..m] == (gap + bytes)[..filled + m];
      n := filled + m;
    }

    /** lfs_file_write_, its beginning: no longer reading, and at the end to append. */
    method ToStart()
      requires Valid()
      modifies this`reading, this`pos
      ensures Valid() && !reading && Contents() == old(Contents()) && pos == old(StartOfWrite())
      ensures append ==> pos >= size
    {
      hide Valid, Contents;
      if reading { StopReading(); }
      AppendsAtEnd();
      if append && pos < size {
        MoveTo(size);
      }
    }

    /** Byte by byte: what was there, zeros in the gap, and what was written. */
    lemma WrittenOver(s: seq<Byte>, at: nat, bytes: seq<Byte>, n: nat)
      requires n <= |Gap(s, at)| + |bytes|
      ensures var from, t := Min(at, |s|), Spliced(s, at - |Gap(s, at)|, (Gap(s, at) + bytes)[..n]);
        && at - |Gap(s, at)| == from && |t| == Max(|s|, from + n)
        && forall k :: 0 <= k < |t| ==>
          t[k] == if k < from || k >= from + n then s[k] else if k < at then 0 else bytes[k - at]
    {
      var gap := Gap(s, at);
      var from, all := at - |gap|, gap + bytes;
      var t := Spliced(s, from, all[..n]);
      forall k | 0 <= k < |t|
        ensures t[k] == if k < from || k >= from + n then s[k] else if k < at then 0 else bytes[k - at]
      {
        if from <= k < from + n { assert t[k] == all[k - from]; }
      }
    }

    /** lfs_file_write_. Appending starts at the end of the file; writing past
        the end fills the gap with zeros. Of the gap and the bytes together, the
        first n are written, and all of them unless the device is full. */
    method Write(bytes: seq<Byte>) returns (r: WriteResult, ghost n: nat)
      requires Valid() && |bytes| <= FILE_MAX
      modifies this, disk, alloc, alloc.buffer
      ensures Valid() && SameSynced() && unchanged(`head, `size, `chain, `data)
      ensures r.TooBig? <==> (if old(append && pos < size) then old(size) else old(pos)) + |bytes| > FILE_MAX
      ensures r.NoSpace? ==> Full(old(alloc.busy))
      ensures r.TooBig? ==> Contents() == old(Contents()) && unchanged(disk)
      ensures !r.TooBig? ==>
        var s, at := old(Contents()), if old(append && pos < size) then old(size) else old(pos);
        var from := Min(at, |s|);
        && from + n <= at + |bytes| && (r.Done? ==> from + n == at + |bytes| == pos && !errored)
        && |Contents()| == Max(|s|, from + n)
        && forall k :: 0 <= k < |Contents()| ==>
          Contents()[k] == if k < from || k >= from + n then s[k] else if k < at then 0 else bytes[k - at]
    {
      hide Valid, Contents, Spliced, Kept, Gap, Full, Live;
      n := 0;
      NothingChanged(disk.blocks, Synced());
      ToStart();
      if pos + |bytes| > FILE_MAX {
        return TooBig, 0;
      }
      var ok;
      ok, n := WriteHere(bytes);
      WrittenOver(old(Contents()), old(StartOfWrite()), bytes, n);
      KeptPart(old(disk.blocks), disk.blocks, Synced(), SetOf(chain));
      if !ok {
        return NoSpace, n;
      }
      errored := false;
      r := Done;
    }

    /** lfs_file_size_. */
    function Size(): nat
      reads `writing, `pos, `size
    {
      if writing && pos > size then pos else size
    }

    lemma SizeIsLength()
      requires Valid()
      ensures Size() == |Contents()|
    {}

    /** The position a seek asks for, in 32-bit arithmetic. */
    function Target(offset: int, whence: Whence): nat
      reads `writing, `pos, `size
    {
      match whence
      case FromStart => offset % 0x1_0000_0000
      case FromPosition => (pos + offset) % 0x1_0000_0000
      case FromEnd => (Size() + offset) % 0x1_0000_0000
    }

    /** lfs_file_seek_. `cached` says whether the file's cache holds the byte
        sought; then a file being read is not flushed. */
    method Seek(offset: int, whence: Whence, cached: bool) returns (r: SeekResult)
      requires Valid()
      modifies this, disk, alloc, alloc.buffer
      ensures Valid() && Contents() == old(Contents()) && SameSynced()
      ensures var from := match whence
          case FromStart => 0
          case FromPosition => old(pos)
          case FromEnd => |old(Contents())|;
        && (r.OutOfRange? <==> (from + offset) % 0x1_0000_0000 > FILE_MAX)
        && (r.At? ==> r.pos == pos == (from + offset) % 0x1_0000_0000)
      ensures r.OutOfRange? ==> pos == old(pos)
      ensures r.SeekFailed? ==> old(writing) && Full(old(alloc.busy))
    {
      hide Valid, Contents, Stored, CursorOk, Kept, CtzIndex, Full, Live;
      NothingChanged(disk.blocks, Synced());
      SizeIsLength();
      var npos := Target(offset, whence);
      if npos > FILE_MAX {
        return OutOfRange;
      }
      if pos == npos {
        return At(npos);
      }
      PosFits();
      if reading && off != disk.blockSize {
        AtCursor();
        var oindex := CtzIndex(pos, disk.blockSize).0;
        var (nindex, noff) := CtzIndex(npos, disk.blockSize);
        if oindex == nindex && cached {
          SameBlock(Cursor(pos, reading, block, off), npos, chain, disk.blockSize);
          Follow(Cursor(npos, reading, block, noff));
          return At(npos);
        }
      }
      var ok := Flush();
      if !ok {
        return SeekFailed;
      }
      MoveTo(npos);
      r := At(npos);
    }

    /** lfs_file_sync_: flush, and commit the file's list to the metadata.
        `commit` says whether that commit succeeds. A file with an error is
        left alone. */
    method Sync(commit: bool) returns (ok: bool)
      requires Valid()
      modifies this, disk, alloc, alloc.buffer
      ensures Valid() && Contents() == old(Contents())
      ensures Kept(old(disk.blocks), disk.blocks, old(Synced()))
      ensures ok && !old(errored) ==> synced == Contents() && !dirty && !writing
      ensures old(errored) ==> ok && unchanged(this, disk)
      ensures !ok && commit ==> old(writing) && Full(old(alloc.busy))
      ensures !ok || old(errored) ==> unchanged(`syncedHead, `syncedSize, `syncedChain, `synced)
    {
      hide Valid, Contents, Stored, CursorOk, Kept, CtzIndex, Full, Live;
      NothingChanged(disk.blocks, Synced());
      if errored {
        return true;
      }
      ok := Flush();
      if !ok {
        errored := true;
        return;
      }
      AtCursor();
      if dirty {
        if !commit {
          errored := true;
          return false;
        }
        Commit();
      }
      CleanIsSynced();
    }

    /** The metadata refers to the file's list from now on. */
    method Commit()
      requires Valid() && !writing
      modifies this`syncedHead, this`syncedSize, this`syncedChain, this`synced, this`dirty
      ensures Valid() && !dirty && synced == data
    {
      hide Stored, Written, SetOf, Guarded, CursorOk, CtzIndex, Alloc.Lookahead.Valid;
      GuardedPart(Live(), SetOf(others) + SetOf(chain) + SetOf(chain) + {});
      syncedHead, syncedSize, syncedChain, synced := head, size, chain, data;
      dirty := false;
    }

    lemma CleanIsSynced()
      requires Valid()
      ensures !dirty ==> data == synced
    {}

    ghost function StartOfWrite(): nat
      reads `pos, `size
    {
      if append && pos < size then size else pos
    }

    lemma AppendsAtEnd()
      requires Valid()
      ensures append && writing ==> pos >= size
      ensures writing ==> pos <= |Contents()|
      ensures size <= FILE_MAX && pos <= FILE_MAX && |data| == size
    {}
  }

  /** Writing over a file the byte it has there changes nothing. */
  lemma SplicedSame(data: seq<Byte>, draft: seq<Byte>)
    requires |draft| < |data|
    ensures |draft| < |Shown(data, draft)|
    ensures Spliced(Shown(data, draft), |draft|, data[|draft|..|draft| + 1]) == Shown(data, draft)
  {
    var s := Shown(data, draft);
    assert s[..|draft|] == draft;
    assert s[|draft|] == data[|draft|];
    assert s == s[..|draft|] + [s[|draft|]] + s[|draft| + 1..];
  }

  lemma FirstOrNone(bytes: seq<Byte>, n: nat)
    requires |bytes| == 1 && n <= 1
    ensures bytes[..n] == if n == 0 then [] else bytes
  {}

  lemma SplicedNothing(s: seq<Byte>, p: nat)
    requires p <= |s|
    ensures Spliced(s, p, []) == s
  {}

  lemma Covered(reported: seq<nat>, chain: seq<nat>)
    requires |reported| == |chain| && forall k :: 0 <= k < |chain| ==> reported[k] == chain[|chain| - 1 - k]
    ensures forall b :: b in chain <==> b in reported
  {
    forall b | b in chain ensures b in reported {
      var n :| 0 <= n < |chain| && chain[n] == b;
      assert reported[|chain| - 1 - n] == b;
    }
  }
}
