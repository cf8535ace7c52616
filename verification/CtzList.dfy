/** CTZ skip lists on the device: pointer i of block n is block n - 2^i, for
    every i up to the trailing zeros of n. Finding a block, copying the list's
    end into a fresh block, and visiting every block. */
module CtzList {
  import opened Arith
  import opened Bytes
  import opened Ctz

  // ----- Block numbers as bytes -----

  function Le32(n: nat): (s: seq<Byte>)
    requires n < 0x1_0000_0000
    ensures |s| == 4 && LeNumber(s) == n
  {
    var n1 := n / 0x100;
    var n2 := n1 / 0x100;
    [n % 0x100, n1 % 0x100, n2 % 0x100, n2 / 0x100]
  }

  function LeNumber(s: seq<Byte>): nat
    requires |s| == 4
  {
    s[0] as int + 0x100 * (s[1] as int + 0x100 * (s[2] as int + 0x100 * s[3] as int))
  }

  /** Pointer i of a block with the given bytes. */
  function Pointer(bytes: seq<Byte>, i: nat): nat {
    if 4 * i + 4 <= |bytes| then LeNumber(bytes[4 * i..4 * i + 4]) else 0
  }

  lemma PointerWritten(bytes: seq<Byte>, i: nat, n: nat, j: nat)
    requires 4 * i + 4 <= |bytes| && n < 0x1_0000_0000 && j <= i
    ensures Pointer(Overlay(bytes, 4 * i, Le32(n)), j) == if j == i then n else Pointer(bytes, j)
  {
    var after := Overlay(bytes, 4 * i, Le32(n));
    if j == i {
      assert after[4 * i..4 * i + 4] == Le32(n);
    } else {
      assert after[4 * j..4 * j + 4] == bytes[4 * j..4 * j + 4];
    }
  }

  // ----- The list -----

  /** The first k pointers of a block that comes after `before` lead back a
      power of two of blocks each. */
  ghost predicate LeadsBackBy(bytes: seq<Byte>, before: seq<nat>, k: nat) {
    forall i: nat {:trigger Pointer(bytes, i)} :: i < k && Pow2(i) <= |before| ==>
      Pointer(bytes, i) == before[|before| - Pow2(i)]
  }

  /** All the pointers a block has, by the trailing zeros of its index. */
  ghost predicate LeadsBack(bytes: seq<Byte>, before: seq<nat>) {
    |before| > 0 ==> LeadsBackBy(bytes, before, CtzOf(|before|) + 1)
  }

  /** The blocks of the list, by index, are the device blocks `chain`. */
  ghost predicate Linked(blocks: seq<seq<Byte>>, chain: seq<nat>, blockSize: nat) {
    && (forall n :: 0 <= n < |chain| ==>
      chain[n] < |blocks| <= 0x1_0000_0000 && |blocks[chain[n]]| == blockSize && Header(n) <= blockSize)
    && (forall n :: 0 <= n < |chain| ==> LeadsBack(blocks[chain[n]], chain[..n]))
  }

  /** The list holds the bytes `data`, each where the index arithmetic says. */
  ghost predicate Holds(blocks: seq<seq<Byte>>, chain: seq<nat>, data: seq<Byte>, blockSize: nat)
    requires BlockSize(blockSize)
  {
    && Linked(blocks, chain, blockSize) && |data| <= FILE_MAX
    && (forall p :: 0 <= p < |data| ==> HasByte(blocks, chain, p, data[p], blockSize))
  }

  /** Byte p of the list, by the index arithmetic. */
  ghost predicate HasByte(blocks: seq<seq<Byte>>, chain: seq<nat>, p: nat, v: Byte, blockSize: nat)
    requires BlockSize(blockSize) && p <= FILE_MAX
  {
    var (i, off) := CtzIndex(p, blockSize);
    i < |chain| && chain[i] < |blocks| && off < |blocks[chain[i]]| && blocks[chain[i]][off] == v
  }

  /** The number of blocks of a list of `size` bytes. */
  function BlocksFor(size: nat, blockSize: nat): nat
    requires BlockSize(blockSize) && size <= FILE_MAX
  {
    if size == 0 then 0 else CtzIndex(size - 1, blockSize).0 + 1
  }

  lemma LinkedAt(blocks: seq<seq<Byte>>, chain: seq<nat>, blockSize: nat, n: nat, i: nat)
    requires Linked(blocks, chain, blockSize) && 0 < n < |chain| && i <= CtzOf(n)
    ensures Pow2(i) <= n && 4 * i + 4 <= blockSize && chain[n] < |blocks|
    ensures Pointer(blocks[chain[n]], i) == chain[n - Pow2(i)]
  {
    CtzFits(n);
    Pow2Monotone(i, CtzOf(n));
    assert Header(n) <= blockSize && LeadsBack(blocks[chain[n]], chain[..n]);
  }

  /** From the block pointer i leads to, pointer i leads as far again. */
  lemma NextPointer(blocks: seq<seq<Byte>>, chain: seq<nat>, blockSize: nat, i: nat)
    requires Linked(blocks, chain, blockSize) && |chain| > 0 && i < CtzOf(|chain|)
    ensures 4 * i + 4 <= blockSize && Pow2(i + 1) <= |chain| && Pow2(i + 1) == 2 * Pow2(i)
    ensures chain[|chain| - Pow2(i)] < |blocks|
    ensures Pointer(blocks[chain[|chain| - Pow2(i)]], i) == chain[|chain| - Pow2(i + 1)]
  {
    CtzFits(|chain|);
    Pow2Monotone(i + 1, CtzOf(|chain|));
    CtzOfStep(|chain|, i);
    LinkedAt(blocks, chain, blockSize, |chain| - Pow2(i), i);
  }

  // ----- How far a search may step, and how many steps it takes -----

  /** What is left of a search that stands at block `current`, d blocks past its
      target: the ones of `current`, until the power of two below d divides it,
      and the bits of d. */
  function Left(current: nat, d: nat): nat
    requires d <= current
  {
    if d == 0 then 0
    else if Log2(d) <= CtzOf(current) then BitLength(d)
    else Popc(current) + BitLength(d)
  }

  lemma LeftBound(current: nat, d: nat)
    requires d <= current
    ensures Left(current, d) <= 2 * BitLength(current)
  {
    PopcBound(current);
    if d > 0 { Log2Monotone(d, current); }
  }

  lemma SearchStep(current: nat, d: nat, skip: nat)
    requires 0 < d <= current
    requires var high := Npw2(d + 1) - 1; skip == if high < CtzOf(current) then high else CtzOf(current)
    ensures Pow2(skip) <= d
    ensures Left(current - Pow2(skip), d - Pow2(skip)) < Left(current, d)
  {
    hide Pow2, Log2, CtzOf, Popc;
    Log2Bounds(d);
    CtzFits(current);
    Pow2Monotone(skip, Log2(d));
    var rest := d - Pow2(skip);
    if rest > 0 {
      Log2Monotone(rest, d);
      PopcBound(current);
      PopcWithoutLowest(current);
      if Log2(d) <= CtzOf(current) {
        Log2Below(rest, Log2(d));
        CtzOfStep(current, skip);
      }
    }
  }

  // ----- A list with a fresh last block -----

  /** Only block n of the device has changed. */
  ghost predicate OnlyAt(before: seq<seq<Byte>>, after: seq<seq<Byte>>, n: nat) {
    && |after| == |before|
    && forall b :: 0 <= b < |before| && b != n ==> after[b] == before[b]
  }

  /** The blocks of a list are the same before and after. */
  ghost predicate Untouched(before: seq<seq<Byte>>, after: seq<seq<Byte>>, chain: seq<nat>) {
    && |after| == |before|
    && forall b :: b in chain && b < |before| ==> after[b] == before[b]
  }

  lemma OnDevice(blocks: seq<seq<Byte>>, chain: seq<nat>, blockSize: nat, n: nat)
    requires Linked(blocks, chain, blockSize) && n < |chain|
    ensures chain[n] < |blocks| <= 0x1_0000_0000 && |blocks[chain[n]]| == blockSize && chain[n] in chain
    ensures Header(n) <= blockSize && LeadsBack(blocks[chain[n]], chain[..n])
  {}

  /** The first p blocks of a list are a list, wherever other blocks change. */
  lemma PrefixKept(before: seq<seq<Byte>>, after: seq<seq<Byte>>, chain: seq<nat>, p: nat, blockSize: nat)
    requires Linked(before, chain, blockSize) && p <= |chain| && Untouched(before, after, chain[..p])
    ensures Linked(after, chain[..p], blockSize)
  {
    hide Header, LeadsBack;
    var w := chain[..p];
    forall m | 0 <= m < |w|
      ensures w[m] < |after| <= 0x1_0000_0000 && |after[w[m]]| == blockSize && Header(m) <= blockSize
    {
      OneKept(before, after, chain, p, blockSize, m);
    }
    forall m | 0 <= m < |w|
      ensures LeadsBack(after[w[m]], w[..m])
    {
      OneKept(before, after, chain, p, blockSize, m);
    }
    assert forall n :: 0 <= n < |w| ==>
      w[n] < |after| <= 0x1_0000_0000 && |after[w[n]]| == blockSize && Header(n) <= blockSize;
    assert forall n :: 0 <= n < |w| ==> LeadsBack(after[w[n]], w[..n]);
  }

  lemma OneKept(before: seq<seq<Byte>>, after: seq<seq<Byte>>, chain: seq<nat>, p: nat, blockSize: nat, m: nat)
    requires Linked(before, chain, blockSize) && m < p <= |chain| && Untouched(before, after, chain[..p])
    ensures var w := chain[..p];
      && w[m] < |after| <= 0x1_0000_0000 && |after[w[m]]| == blockSize && Header(m) <= blockSize
      && LeadsBack(after[w[m]], w[..m])
  {
    hide Header, LeadsBack;
    OnDevice(before, chain, blockSize, m);
    hide Linked;
    var w := chain[..p];
    assert w[..m] == chain[..m];
    assert w[m] == chain[m] && w[m] in w;
    assert after[w[m]] == before[w[m]];
  }

  /** A list is as long and holds the same bytes where its blocks are the same;
      and its first blocks hold its first bytes. */
  lemma HoldsKept(before: seq<seq<Byte>>, after: seq<seq<Byte>>, chain: seq<nat>, data: seq<Byte>, size: nat,
                  blockSize: nat)
    requires BlockSize(blockSize) && Holds(before, chain, data, blockSize) && size <= |data|
    requires Untouched(before, after, chain[..BlocksWithin(chain, size, blockSize)])
    ensures BlocksFor(size, blockSize) <= |chain|
    ensures Holds(after, chain[..BlocksFor(size, blockSize)], data[..size], blockSize)
  {
    hide CtzIndex, Linked;
    var p := BlocksFor(size, blockSize);
    assert p <= |chain| by {
      if size > 0 { assert HasByte(before, chain, size - 1, data[size - 1], blockSize); }
    }
    PrefixKept(before, after, chain, p, blockSize);
    forall q | 0 <= q < size
      ensures HasByte(after, chain[..p], q, data[..size][q], blockSize)
    {
      var (i, off) := CtzIndex(q, blockSize);
      assert HasByte(before, chain, q, data[q], blockSize);
      IndexMonotone(q, size - 1, blockSize);
      OnDevice(before, chain, blockSize, i);
      assert chain[..p][i] == chain[i] && chain[i] in chain[..p];
    }
  }

  function BlocksWithin(chain: seq<nat>, size: nat, blockSize: nat): (p: nat)
    requires BlockSize(blockSize) && size <= FILE_MAX
    ensures p <= |chain|
  {
    if BlocksFor(size, blockSize) <= |chain| then BlocksFor(size, blockSize) else |chain|
  }

  lemma LinkedWith(blocks: seq<seq<Byte>>, chain: seq<nat>, n: nat, blockSize: nat)
    requires Linked(blocks, chain, blockSize) && n < |blocks| <= 0x1_0000_0000 && |blocks[n]| == blockSize
    requires Header(|chain|) <= blockSize && LeadsBack(blocks[n], chain)
    ensures Linked(blocks, chain + [n], blockSize)
  {
    hide Header, LeadsBack;
    var w := chain + [n];
    forall m | 0 <= m < |w|
      ensures w[m] < |blocks| <= 0x1_0000_0000 && |blocks[w[m]]| == blockSize && Header(m) <= blockSize
    {
      if m < |chain| { OnDevice(blocks, chain, blockSize, m); }
    }
    forall m | 0 <= m < |w| ensures LeadsBack(blocks[w[m]], w[..m]) {
      assert w[..m] == chain[..m];
      if m == |chain| { assert chain[..m] == chain; }
    }
  }

  /** lfs_ctz_extend, when it copies the last, incomplete block. */
  lemma CopyHolds(before: seq<seq<Byte>>, after: seq<seq<Byte>>, chain: seq<nat>, data: seq<Byte>, n: nat,
                  blockSize: nat)
    requires BlockSize(blockSize) && Holds(before, chain, data, blockSize) && n !in chain
    requires OnlyAt(before, after, n) && n < |after| && |after[n]| == blockSize
    requires var (i, off) := CtzIndex(|data|, blockSize);
      |chain| == i + 1 && after[n][..off] == before[chain[i]][..off]
    ensures Holds(after, chain[..|chain| - 1] + [n], data, blockSize)
  {
    hide CtzIndex;
    var (i, off) := CtzIndex(|data|, blockSize);
    EndHolds(before, after, chain, chain[..i] + [n], data, blockSize);
  }

  /** Blocks that agree as far as the pointers reach have the same pointers. */
  lemma SamePointers(b: seq<Byte>, a: seq<Byte>, before: seq<nat>, off: nat)
    requires Header(|before|) <= off <= |a| && off <= |b| && a[..off] == b[..off] && LeadsBack(b, before)
    ensures LeadsBack(a, before)
  {
    hide CtzOf, Pow2;
    if |before| > 0 {
      forall j: nat | j < CtzOf(|before|) + 1 && Pow2(j) <= |before|
        ensures Pointer(a, j) == before[|before| - Pow2(j)]
      {
        assert 4 * j + 4 <= off;
        assert a[4 * j..4 * j + 4] == a[..off][4 * j..4 * j + 4];
        assert b[4 * j..4 * j + 4] == b[..off][4 * j..4 * j + 4];
        assert Pointer(b, j) == before[|before| - Pow2(j)];
      }
    }
  }

  /** A list whose last block has changed, or is another block, but has the same
      bytes up to the end of the data. */
  lemma EndHolds(before: seq<seq<Byte>>, after: seq<seq<Byte>>, chain: seq<nat>, w: seq<nat>, data: seq<Byte>,
                 blockSize: nat)
    requires BlockSize(blockSize) && Holds(before, chain, data, blockSize)
    requires |w| == |chain| == CtzIndex(|data|, blockSize).0 + 1
    requires var last := |chain| - 1;
      && w == chain[..last] + [w[last]] && w[last] < |after| && |after[w[last]]| == blockSize
      && Untouched(before, after, chain[..last])
      && var off := CtzIndex(|data|, blockSize).1; after[w[last]][..off] == before[chain[last]][..off]
    ensures Holds(after, w, data, blockSize)
  {
    hide CtzIndex, CtzOf, HasByte, LeadsBack;
    var (i, off) := CtzIndex(|data|, blockSize);
    var n := w[i];
    PrefixKept(before, after, chain, i, blockSize);
    OnDevice(before, chain, blockSize, i);
    SamePointers(before[chain[i]], after[n], chain[..i], off);
    LinkedWith(after, chain[..i], n, blockSize);
    forall p | 0 <= p < |data|
      ensures HasByte(after, w, p, data[p], blockSize)
    {
      EndByte(before, after, chain, w, data, p, blockSize);
    }
  }

  lemma EndByte(before: seq<seq<Byte>>, after: seq<seq<Byte>>, chain: seq<nat>, w: seq<nat>, data: seq<Byte>,
                p: nat, blockSize: nat)
    requires BlockSize(blockSize) && Holds(before, chain, data, blockSize) && p < |data|
    requires |w| == |chain| == CtzIndex(|data|, blockSize).0 + 1
    requires var last := |chain| - 1;
      && w == chain[..last] + [w[last]] && w[last] < |after| && |after[w[last]]| == blockSize
      && Untouched(before, after, chain[..last])
      && var off := CtzIndex(|data|, blockSize).1; after[w[last]][..off] == before[chain[last]][..off]
    ensures HasByte(after, w, p, data[p], blockSize)
  {
    hide CtzIndex, LeadsBack, Header;
    var (i, off) := CtzIndex(|data|, blockSize);
    var (k, o) := CtzIndex(p, blockSize);
    IndexMonotone(p, |data|, blockSize);
    assert HasByte(before, chain, p, data[p], blockSize);
    if k == i {
      LowerInBlock(p, |data|, blockSize);
      assert after[w[i]][o] == after[w[i]][..off][o] == before[chain[i]][..off][o];
    } else {
      assert w[k] == chain[k] && chain[k] in chain[..i];
    }
  }

  /** Bytes programmed at the end of a list, in its last block, extend it. */
  lemma ProgHolds(before: seq<seq<Byte>>, after: seq<seq<Byte>>, chain: seq<nat>, data: seq<Byte>, more: seq<Byte>,
                  blockSize: nat)
    requires BlockSize(blockSize) && Holds(before, chain, data, blockSize)
    requires |data| + |more| <= FILE_MAX && |chain| == CtzIndex(|data|, blockSize).0 + 1
    requires var last, off := |chain| - 1, CtzIndex(|data|, blockSize).1;
      && chain[last] !in chain[..last] && OnlyAt(before, after, chain[last])
      && chain[last] < |before| && |before[chain[last]]| == blockSize && off + |more| <= blockSize
      && after[chain[last]] == Overlay(before[chain[last]], off, more)
    ensures Holds(after, chain, data + more, blockSize)
    ensures more != [] ==> CtzIndex(|data| + |more| - 1, blockSize)
                           == (|chain| - 1, CtzIndex(|data|, blockSize).1 + |more| - 1)
  {
    hide CtzIndex, Linked;
    var (last, off) := CtzIndex(|data|, blockSize);
    EndHolds(before, after, chain, chain, data, blockSize);
    forall p | 0 <= p < |data + more|
      ensures HasByte(after, chain, p, (data + more)[p], blockSize)
    {
      if p >= |data| {
        InBlock(|data|, blockSize, p - |data|);
      } else {
        assert HasByte(after, chain, p, data[p], blockSize);
      }
    }
    if more != [] { InBlock(|data|, blockSize, |more| - 1); }
  }

  /** lfs_ctz_extend, when it starts a new block. */
  lemma AppendHolds(before: seq<seq<Byte>>, after: seq<seq<Byte>>, chain: seq<nat>, data: seq<Byte>, n: nat,
                    blockSize: nat)
    requires BlockSize(blockSize) && Holds(before, chain, data, blockSize) && n !in chain
    requires OnlyAt(before, after, n) && n < |after| <= 0x1_0000_0000 && |after[n]| == blockSize
    requires |chain| == CtzIndex(|data|, blockSize).0
    requires LeadsBack(after[n], chain)
    ensures Holds(after, chain + [n], data, blockSize)
  {
    hide CtzIndex, LeadsBack;
    assert chain[..|chain|] == chain;
    PrefixKept(before, after, chain, |chain|, blockSize);
    HeaderFits(|chain|, blockSize);
    LinkedWith(after, chain, n, blockSize);
    forall p | 0 <= p < |data|
      ensures HasByte(after, chain + [n], p, data[p], blockSize)
    {
      var (k, o) := CtzIndex(p, blockSize);
      assert HasByte(before, chain, p, data[p], blockSize);
      assert (chain + [n])[k] == chain[k] && chain[k] in chain;
    }
  }

  // ----- The device -----

  class Disk {
    const blockSize: nat
    var blocks: seq<seq<Byte>>

    ghost predicate Valid()
      reads this
    {
      && BlockSize(blockSize) && 0 < |blocks| <= 0x1_0000_0000
      && forall b :: 0 <= b < |blocks| ==> |blocks[b]| == blockSize
    }

    /** lfs_bd_read: out of the device or of the block is an error. */
    method Read(block: nat, off: nat, size: nat) returns (ok: bool, data: seq<Byte>)
      requires Valid()
      ensures ok == (off + size <= blockSize && block < |blocks|)
      ensures ok ==> data == blocks[block][off..off + size]
    {
      if off + size > blockSize || block >= |blocks| {
        return false, [];
      }
      return true, blocks[block][off..off + size];
    }

    /** A read of pointer i of a block. */
    method ReadPointer(block: nat, i: nat) returns (ok: bool, n: nat)
      requires Valid()
      ensures ok == (4 * i + 4 <= blockSize && block < |blocks|)
      ensures ok ==> n == Pointer(blocks[block], i)
    {
      var data;
      ok, data := Read(block, 4 * i, 4);
      n := if ok then LeNumber(data) else 0;
    }

    /** lfs_bd_prog. */
    method Prog(block: nat, off: nat, data: seq<Byte>)
      requires Valid() && block < |blocks| && off + |data| <= blockSize
      modifies this
      ensures Valid() && blocks == old(blocks)[block := Overlay(old(blocks[block]), off, data)]
    {
      blocks := blocks[block := Overlay(blocks[block], off, data)];
    }

    /** lfs_ctz_find: the block and the offset of byte pos of a list. */
    method CtzFind(head: nat, size: nat, pos: nat, ghost chain: seq<nat>)
      returns (ok: bool, block: nat, off: nat, ghost hops: nat)
      requires Valid() && pos < size <= FILE_MAX
      requires Linked(blocks, chain, blockSize) && |chain| == BlocksFor(size, blockSize) && head == chain[|chain| - 1]
      ensures ok && CtzIndex(pos, blockSize).0 < |chain|
      ensures block == chain[CtzIndex(pos, blockSize).0] && off == CtzIndex(pos, blockSize).1
      ensures hops <= 2 * BitLength(|chain| - 1)
    {
      hide CtzIndex, CtzOf, Pow2, Linked, Pointer, Left, Npw2, BitLength, Log2;
      var current := CtzIndex(size - 1, blockSize).0;
      var (target, o) := CtzIndex(pos, blockSize);
      IndexMonotone(pos, size - 1, blockSize);
      LeftBound(current, current - target);
      block, off, hops := head, o, 0;
      while current > target
        invariant target <= current < |chain| && block == chain[current]
        invariant hops + Left(current, current - target) <= 2 * BitLength(|chain| - 1)
      {
        var high := Npw2(current - target + 1) - 1;
        var skip := if high < CtzOf(current) then high else CtzOf(current);
        SearchStep(current, current - target, skip);
        LinkedAt(blocks, chain, blockSize, current, skip);
        ok, block := ReadPointer(block, skip);
        current := current - Pow2(skip);
        hops := hops + 1;
      }
      ok := true;
    }

    /** lfs_ctz_extend: make `fresh` the last block of a list of `size` bytes,
        with room for the next byte. The bytes it takes over are copied, or its
        pointers written; no other block changes. */
    method CtzExtend(nblock: nat, head: nat, size: nat, ghost chain: seq<nat>, ghost data: seq<Byte>)
      returns (ok: bool, block: nat, off: nat)
      requires Valid() && nblock < |blocks| && nblock !in chain && size == |data|
      requires Holds(blocks, chain, data, blockSize) && |chain| == BlocksFor(size, blockSize)
      requires size > 0 ==> head == chain[|chain| - 1]
      modifies this
      ensures Valid() && ok && block == nblock && off == CtzIndex(size, blockSize).1
      ensures OnlyAt(old(blocks), blocks, nblock)
      ensures CtzIndex(size, blockSize).0 <= |chain|
      ensures Holds(blocks, chain[..CtzIndex(size, blockSize).0] + [nblock], data, blockSize)
    {
      hide CtzIndex, CtzOf, Pow2, Linked, Pointer;
      if size == 0 {
        FirstByte(blockSize);
        assert chain == [];
        AppendHolds(old(blocks), blocks, chain, data, nblock, blockSize);
        assert chain[..0] + [nblock] == chain + [nblock];
        return true, nblock, 0;
      }
      var (index, noff) := CtzIndex(size - 1, blockSize);
      noff := noff + 1;
      NextByte(size - 1, blockSize);
      OnDevice(blocks, chain, blockSize, index);
      if noff != blockSize {
        ok := CopyBlock(nblock, head, noff);
        CopyHolds(old(blocks), blocks, chain, data, nblock, blockSize);
        return ok, nblock, noff;
      }
      index := index + 1;
      HeaderFits(index, blockSize);
      ok := WritePointers(nblock, head, index, chain);
      AppendHolds(old(blocks), blocks, chain, data, nblock, blockSize);
      assert chain[..index] == chain;
      return ok, nblock, 4 * (CtzOf(index) + 1);
    }

    /** The loop of lfs_ctz_extend that copies an incomplete block. */
    method CopyBlock(nblock: nat, head: nat, noff: nat) returns (ok: bool)
      requires Valid() && nblock < |blocks| && head < |blocks| && nblock != head && noff <= blockSize
      modifies this
      ensures Valid() && ok && OnlyAt(old(blocks), blocks, nblock)
      ensures blocks[nblock][..noff] == old(blocks[head][..noff])
    {
      ok := true;
      for i := 0 to noff
        invariant Valid() && ok && OnlyAt(old(blocks), blocks, nblock)
        invariant blocks[nblock][..i] == old(blocks[head][..i])
      {
        var data;
        ok, data := Read(head, i, 1);
        Prog(nblock, i, data);
        assert blocks[nblock][..i + 1] == blocks[nblock][..i] + data;
      }
    }

    method WritePointer(nblock: nat, i: nat, n: nat, ghost before: seq<nat>)
      requires Valid() && nblock < |blocks| && 4 * i + 4 <= blockSize && n < |blocks|
      requires LeadsBackBy(blocks[nblock], before, i) && Pow2(i) <= |before| && n == before[|before| - Pow2(i)]
      modifies this
      ensures Valid() && OnlyAt(old(blocks), blocks, nblock)
      ensures LeadsBackBy(blocks[nblock], before, i + 1)
    {
      hide Pow2, Pointer;
      ghost var bytes := blocks[nblock];
      Prog(nblock, 4 * i, Le32(n));
      forall j: nat | j < i + 1 && Pow2(j) <= |before|
        ensures Pointer(blocks[nblock], j) == before[|before| - Pow2(j)]
      {
        PointerWritten(bytes, i, n, j);
      }
    }

    /** The loop of lfs_ctz_extend that writes the pointers of a new block,
        reading each from the block the one before points to. */
    method WritePointers(nblock: nat, head: nat, index: nat, ghost chain: seq<nat>) returns (ok: bool)
      requires Valid() && nblock < |blocks| && nblock !in chain && index > 0
      requires Linked(blocks, chain, blockSize) && |chain| == index && head == chain[index - 1]
      requires Header(index) <= blockSize
      modifies this
      ensures Valid() && ok && OnlyAt(old(blocks), blocks, nblock)
      ensures LeadsBack(blocks[nblock], chain)
    {
      ok := true;
      var skips := CtzOf(index) + 1;
      var nhead := head;
      assert Pow2(0) == 1 && Header(index) == 4 * skips;
      hide Pow2, CtzOf, Pointer, Linked, Header, LeadsBackBy;
      for i := 0 to skips
        invariant Valid() && ok && OnlyAt(old(blocks), blocks, nblock)
        invariant i < skips ==> Pow2(i) <= index && nhead == chain[index - Pow2(i)]
        invariant LeadsBackBy(blocks[nblock], chain, i)
      {
        OnDevice(old(blocks), chain, blockSize, index - Pow2(i));
        WritePointer(nblock, i, nhead, chain);
        if i != skips - 1 {
          NextPointer(old(blocks), chain, blockSize, i);
          ok, nhead := ReadPointer(nhead, i);
        }
      }
    }

    /** lfs_ctz_traverse: visit the list from its last block, two blocks a read
        where the index is even. Every block is reported once, last first. */
    method CtzTraverse(head: nat, size: nat, ghost chain: seq<nat>) returns (ok: bool, reported: seq<nat>)
      requires Valid() && size <= FILE_MAX
      requires Linked(blocks, chain, blockSize) && |chain| == BlocksFor(size, blockSize)
      requires size > 0 ==> head == chain[|chain| - 1]
      ensures ok && |reported| == |chain|
      ensures forall k :: 0 <= k < |chain| ==> reported[k] == chain[|chain| - 1 - k]
    {
      hide CtzIndex, Linked, Pointer, LeadsBack;
      if size == 0 {
        return true, [];
      }
      var index: nat, block: nat := CtzIndex(size - 1, blockSize).0, head;
      reported := [];
      while true
        invariant index < |chain| && block == chain[index] && |reported| == |chain| - 1 - index
        invariant forall k :: 0 <= k < |reported| ==> reported[k] == chain[|chain| - 1 - k]
        decreases index
      {
        reported := reported + [block];
        if index == 0 {
          return true, reported;
        }
        var count := 2 - index % 2;
        LinkedAt(blocks, chain, blockSize, index, 0);
        var first;
        ok, first := ReadPointer(block, 0);
        if count == 2 {
          LinkedAt(blocks, chain, blockSize, index, 1);
          reported := reported + [first];
          ok, first := ReadPointer(block, 1);
        }
        block := first;
        index := index - count;
      }
    }
  }
}
