/** The block device behind its two caches. A read sees the device with the
    program cache laid over it, whatever the read cache holds; programs in a row
    reach the device as what was written, in aligned pieces, each once. */
module Cache {
  import opened Arith
  import opened Bytes
  import opened Wrappers

  const NULL: nat := 0xffff_ffff
  const INLINE: nat := 0xffff_fffe

  // ----- Alignment -----

  lemma AlignDownIs(a: nat, m: nat)
    requires m > 0
    ensures AlignDown(a, m) % m == 0 && AlignDown(a, m) <= a < AlignDown(a, m) + m
  {
    var q := a / m;
    assert a == m * q + a % m;
    QuotientIs(a - a % m, m, q, 0);
  }

  lemma AlignUpIs(a: nat, m: nat)
    requires m > 0
    ensures AlignUp(a, m) % m == 0 && a <= AlignUp(a, m) < a + m
  {
    AlignDownIs(a + m - 1, m);
  }

  /** Aligned numbers are at least one step apart. */
  lemma AlignedApart(a: nat, b: nat, m: nat)
    requires m > 0 && a % m == 0 && b % m == 0 && a < b
    ensures a + m <= b && (b - a) % m == 0
  {
    var p, q := a / m, b / m;
    assert a == m * p && b == m * q;
    if q <= p {
      MulMono(m, q, p);
    } else {
      MulMono(m, p + 1, q);
      assert m * (p + 1) == m * p + m;
      assert b - a == m * (q - p);
      QuotientIs(b - a, m, q - p, 0);
    }
  }

  // ----- The device and its caches -----

  class RamCache {
    var block: nat
    var off: nat
    var size: nat
    const buffer: array<Byte>

    constructor (cacheSize: nat)
      ensures block == NULL && size == 0 && fresh(buffer) && buffer.Length == cacheSize
      ensures forall k :: 0 <= k < cacheSize ==> buffer[k] == 0xff
    {
      block, off, size := NULL, 0, 0;
      buffer := new Byte[cacheSize](_ => 0xff);
    }

    /** lfs_cache_drop. */
    method Drop()
      modifies this`block
      ensures block == NULL
    {
      block := NULL;
    }

    /** lfs_cache_zero. */
    method Zero()
      modifies this`block, buffer
      ensures block == NULL && forall k :: 0 <= k < buffer.Length ==> buffer[k] == 0xff
    {
      for i := 0 to buffer.Length
        modifies buffer
        invariant forall k :: 0 <= k < i ==> buffer[k] == 0xff
      {
        buffer[i] := 0xff;
      }
      block := NULL;
    }
  }

  /** The sizes the configuration is checked for, and one more: the program size
      is a multiple of the read size. */
  datatype Geometry = Geometry(readSize: nat, progSize: nat, cacheSize: nat, blockSize: nat, blockCount: nat)

  predicate Checked(g: Geometry) {
    && g.readSize > 0 && g.progSize > 0 && g.cacheSize > 0
    && g.cacheSize % g.readSize == 0 && g.cacheSize % g.progSize == 0 && g.blockSize % g.cacheSize == 0
    && 0 < g.blockCount <= INLINE
  }

  predicate ReadDividesProg(g: Geometry)
    requires Checked(g)
  {
    g.progSize % g.readSize == 0
  }

  class Device {
    const g: Geometry
    var blocks: seq<seq<Byte>>
    /** How far each block has been programmed since it was erased. */
    ghost var frontier: seq<nat>

    ghost predicate Valid()
      reads this
    {
      && Checked(g) && |blocks| == |frontier| == g.blockCount
      && forall b :: 0 <= b < |blocks| ==> |blocks[b]| == g.blockSize
    }

    /** A device all erased. */
    constructor (g: Geometry)
      requires Checked(g)
      ensures Valid() && this.g == g && forall b :: 0 <= b < |frontier| ==> frontier[b] == 0
    {
      this.g := g;
      blocks := seq(g.blockCount, _ => seq(g.blockSize, _ => 0xff));
      frontier := seq(g.blockCount, _ => 0);
    }

    /** The driver's read. */
    method Read(block: nat, off: nat, size: nat) returns (data: seq<Byte>)
      requires Valid() && block < |blocks| && off + size <= g.blockSize
      requires off % g.readSize == 0 && size % g.readSize == 0
      ensures data == blocks[block][off..off + size]
    {
      data := blocks[block][off..off + size];
    }

    /** The driver's program: aligned, and never the same place twice. */
    method Program(block: nat, off: nat, data: seq<Byte>)
      requires Valid() && block < |blocks| && off + |data| <= g.blockSize
      requires off % g.progSize == 0 && |data| % g.progSize == 0 && frontier[block] <= off
      modifies this
      ensures Valid() && blocks == old(blocks)[block := Overlay(old(blocks[block]), off, data)]
      ensures frontier == old(frontier)[block := off + |data|]
    {
      blocks := blocks[block := Overlay(blocks[block], off, data)];
      frontier := frontier[block := off + |data|];
    }
  }

  /** The read cache holds what the device has. */
  ghost predicate Agrees(rcache: RamCache, device: Device)
    reads rcache, rcache.buffer, device
  {
    rcache.block != NULL ==>
      && rcache.block < |device.blocks| && rcache.size <= rcache.buffer.Length
      && rcache.off + rcache.size <= |device.blocks[rcache.block]|
      && rcache.off % Max(device.g.readSize, 1) == 0
      && rcache.buffer[..rcache.size] == device.blocks[rcache.block][rcache.off..rcache.off + rcache.size]
  }

  /** The program cache holds part of a block that is still to be programmed. */
  ghost predicate Pending(pcache: RamCache, device: Device)
    reads pcache, pcache.buffer, device
  {
    && pcache.buffer.Length == device.g.cacheSize
    && (pcache.block != NULL && pcache.block != INLINE ==>
      && pcache.block < |device.blocks| && pcache.size <= pcache.buffer.Length
      && pcache.off + pcache.size <= |device.blocks[pcache.block]|
      && pcache.off % Max(device.g.progSize, 1) == 0)
  }

  /** A block as a read sees it. */
  ghost function View(pcache: RamCache?, device: Device, b: nat): seq<Byte>
    requires b < |device.blocks| && b != INLINE && b != NULL
    requires pcache != null ==> Pending(pcache, device)
    reads pcache, if pcache == null then {} else {pcache.buffer}, device
  {
    if pcache != null && pcache.block == b then Overlay(device.blocks[b], pcache.off, pcache.buffer[..pcache.size])
    else device.blocks[b]
  }

  // ----- Reading -----

  /** The range is not, not even in part, in the program cache. */
  predicate Clear(pcache: RamCache?, block: nat, off: nat, diff: nat)
    reads pcache
  {
    pcache == null || pcache.block != block || off + diff <= pcache.off || pcache.off + pcache.size <= off
  }

  lemma ViewOfDevice(pcache: RamCache?, device: Device, b: nat, off: nat, diff: nat)
    requires device.Valid() && b < |device.blocks| && off + diff <= device.g.blockSize
    requires pcache != null ==> Pending(pcache, device)
    requires Clear(pcache, b, off, diff)
    ensures |View(pcache, device, b)| == device.g.blockSize
    ensures View(pcache, device, b)[off..off + diff] == device.blocks[b][off..off + diff]
  {}

  lemma ViewOfCache(pcache: RamCache, device: Device, off: nat, diff: nat)
    requires device.Valid() && pcache.block < |device.blocks| && Pending(pcache, device)
    requires pcache.off <= off && off + diff <= pcache.off + pcache.size
    ensures |View(pcache, device, pcache.block)| == device.g.blockSize && off + diff <= device.g.blockSize
    ensures View(pcache, device, pcache.block)[off..off + diff]
         == pcache.buffer[off - pcache.off..off - pcache.off + diff]
  {
    var v, c := View(pcache, device, pcache.block)[off..off + diff],
      pcache.buffer[off - pcache.off..off - pcache.off + diff];
    assert |v| == |c| == diff;
    assert forall k :: 0 <= k < diff ==> v[k] == c[k];
  }

  /** A multiple of the program size is one of the read size. */
  lemma ReadAligned(x: nat, prog: nat, read: nat)
    requires prog > 0 && read > 0 && prog % read == 0 && x % prog == 0
    ensures x % read == 0
  {
    var k, j := x / prog, prog / read;
    assert x == prog * k && prog == read * j;
    assert x == read * (j * k);
    QuotientIs(x, read, j * k, 0);
  }

  /** lfs_bd_read, its loading of the read cache: what is loaded is aligned, from
      the device, and has the byte wanted in it. */
  method Load(device: Device, rcache: RamCache, hint: nat, block: nat, off: nat)
    requires device.Valid() && block < |device.blocks| && off < device.g.blockSize && hint > 0
    requires rcache.buffer.Length == device.g.cacheSize
    modifies rcache, rcache.buffer
    ensures Agrees(rcache, device) && rcache.block == block && rcache.off <= off < rcache.off + rcache.size
  {
    var g := device.g;
    LoadBounds(g, off, hint);
    rcache.block := block;
    rcache.off := AlignDown(off, g.readSize);
    rcache.size := Min(Min(AlignUp(off + hint, g.readSize), g.blockSize) - rcache.off, g.cacheSize);
    var bytes := device.Read(block, rcache.off, rcache.size);
    for i := 0 to rcache.size
      modifies rcache.buffer
      invariant forall k :: 0 <= k < i ==> rcache.buffer[k] == bytes[k]
    {
      rcache.buffer[i] := bytes[i];
    }
    assert rcache.buffer[..rcache.size] == bytes;
  }

  lemma LoadBounds(g: Geometry, off: nat, hint: nat)
    requires Checked(g) && off < g.blockSize && hint > 0
    ensures var from := AlignDown(off, g.readSize);
      var end := Min(AlignUp(off + hint, g.readSize), g.blockSize);
      && from % g.readSize == 0 && from <= off < end && from < g.blockSize
      && var size := Min(end - from, g.cacheSize);
        size % g.readSize == 0 && off < from + size <= g.blockSize
  {
    var from := AlignDown(off, g.readSize);
    var end := Min(AlignUp(off + hint, g.readSize), g.blockSize);
    AlignDownIs(off, g.readSize);
    AlignUpIs(off + hint, g.readSize);
    ReadAligned(g.blockSize, g.cacheSize, g.readSize);
    AlignedApart(from, end, g.readSize);
    AlignedApart(0, g.cacheSize, g.readSize);
  }

  /** The byte at off is in the read cache. */
  predicate Hit(rcache: RamCache, block: nat, off: nat)
    reads rcache
  {
    rcache.block == block && rcache.off <= off < rcache.off + rcache.size
  }

  /** The read goes past the caches, and less than a read unit before it begins the
      program cache. */
  predicate StuckAt(g: Geometry, hint: nat, off: nat, size: nat, from: nat)
    requires Checked(g)
  {
    hint <= size && off % g.readSize == 0 && g.readSize <= size && off < from < off + g.readSize
  }

  /** Neither cache has the byte, and the device is not asked for it. */
  predicate Stuck(device: Device, pcache: RamCache?, rcache: RamCache, hint: nat, block: nat, off: nat, size: nat)
    requires Checked(device.g)
    reads pcache, rcache
  {
    && pcache != null && pcache.block == block && StuckAt(device.g, hint, off, size, pcache.off)
    && !Hit(rcache, block, off)
  }

  /** A place where a program cache may begin and a read gets stuck before it. */
  predicate StuckPlace(g: Geometry, hint: nat, off: nat, size: nat, from: nat)
    requires Checked(g)
  {
    hint > 0 && from % g.progSize == 0 && from < g.blockSize && off + size <= g.blockSize
      && StuckAt(g, hint, off, size, from)
  }

  /** A read can get stuck exactly where the read size does not divide the program
      size. */
  lemma StuckIff(g: Geometry)
    requires Checked(g) && g.blockSize > 0
    ensures (exists hint: nat, off: nat, size: nat, from: nat :: StuckPlace(g, hint, off, size, from)) <==>
      !ReadDividesProg(g)
  {
    if !ReadDividesProg(g) {
      FirstStuck(g);
    } else {
      forall hint: nat, off: nat, size: nat, from: nat | StuckPlace(g, hint, off, size, from) ensures false {
        NeverStuck(g, hint, off, size, from);
      }
    }
  }

  lemma NeverStuck(g: Geometry, hint: nat, off: nat, size: nat, from: nat)
    requires Checked(g) && ReadDividesProg(g) && from % g.progSize == 0
    ensures !StuckAt(g, hint, off, size, from)
  {
    if StuckAt(g, hint, off, size, from) {
      ReadAligned(from, g.progSize, g.readSize);
      AlignedApart(off, from, g.readSize);
    }
  }

  /** Before the second program unit of a block. */
  lemma FirstStuck(g: Geometry)
    requires Checked(g) && g.blockSize > 0 && !ReadDividesProg(g)
    ensures StuckPlace(g, g.readSize, AlignDown(g.progSize, g.readSize), g.readSize, g.progSize)
  {
    var off := AlignDown(g.progSize, g.readSize);
    AlignDownIs(g.progSize, g.readSize);
    QuotientIs(g.progSize, g.progSize, 1, 0);
    AlignedApart(0, g.cacheSize, g.progSize);
    AlignedApart(0, g.cacheSize, g.readSize);
    AlignedApart(0, g.blockSize, g.cacheSize);
    AlignedApart(off, g.cacheSize, g.readSize);
  }

  lemma SliceOfSlice(s: seq<Byte>, off: nat, n: nat, i: nat, diff: nat)
    requires off + n <= |s| && i + diff <= n
    ensures s[off..off + n][i..i + diff] == s[off + i..off + i + diff]
  {
    var a, b := s[off..off + n][i..i + diff], s[off + i..off + i + diff];
    assert |a| == |b| == diff;
    assert forall k :: 0 <= k < diff ==> a[k] == b[k];
  }

  lemma SliceMore(s: seq<Byte>, off: nat, a: seq<Byte>, b: seq<Byte>)
    requires off + |a| + |b| <= |s| && a == s[off..off + |a|] && b == s[off + |a|..off + |a| + |b|]
    ensures a + b == s[off..off + |a + b|]
  {}

  /** What the read cache has of a block is what the device has. */
  lemma HitBytes(device: Device, rcache: RamCache, off: nat, diff: nat)
    requires Agrees(rcache, device) && rcache.block != NULL
    requires rcache.off <= off && off + diff <= rcache.off + rcache.size
    ensures off - rcache.off + diff <= rcache.buffer.Length && off + diff <= |device.blocks[rcache.block]|
    ensures rcache.buffer[off - rcache.off..off - rcache.off + diff] == device.blocks[rcache.block][off..off + diff]
  {
    var all, at := rcache.buffer[..], off - rcache.off;
    assert rcache.buffer[..rcache.size] == all[0..0 + rcache.size];
    SliceOfSlice(all, 0, rcache.size, at, diff);
    SliceOfSlice(device.blocks[rcache.block], rcache.off, rcache.size, at, diff);
    assert rcache.buffer[at..at + diff] == all[at..at + diff];
  }

  lemma CachedAligned(device: Device, rcache: RamCache)
    requires Agrees(rcache, device) && rcache.block != NULL && device.g.readSize > 0
    ensures rcache.off % device.g.readSize == 0
  {}

  /** What is read past the caches, up to `upTo` bytes and the read cache: something,
      or less than a read unit was asked for. */
  lemma BypassReads(g: Geometry, off: nat, upTo: nat, diff: nat, from: nat)
    requires Checked(g) && off % g.readSize == 0 && upTo > 0
    requires diff == upTo || (off < from && diff == Min(upTo, from - off) && from % g.readSize == 0)
    ensures AlignDown(diff, g.readSize) <= diff && AlignDown(diff, g.readSize) % g.readSize == 0
    ensures AlignDown(diff, g.readSize) == 0 <==> upTo < g.readSize
  {
    AlignDownIs(diff, g.readSize);
    if diff < upTo { AlignedApart(off, from, g.readSize); }
    if diff < g.readSize { QuotientIs(diff, g.readSize, 0, diff); }
  }

  /** One round of lfs_bd_read, past the program cache: up to diff bytes, which
      are not in it, or the read cache loaded with them; or nothing at all, where the
      read goes past the caches for less than a read unit. */
  method Fetch(device: Device, rcache: RamCache, hint: nat, block: nat, off: nat, size: nat, upTo: nat)
    returns (data: seq<Byte>)
    requires device.Valid() && Agrees(rcache, device) && hint > 0 && rcache.buffer.Length == device.g.cacheSize
    requires block < |device.blocks| && 0 < upTo <= size && off + size <= device.g.blockSize
    modifies rcache, rcache.buffer
    ensures Agrees(rcache, device) && |data| <= upTo && data == device.blocks[block][off..off + |data|]
    ensures
      if hint <= size && off % device.g.readSize == 0 && upTo < device.g.readSize <= size
        && !old(Hit(rcache, block, off))
      then data == [] && unchanged(rcache, rcache.buffer)
      else data == [] ==> Hit(rcache, block, off) && !old(Hit(rcache, block, off))
  {
    hide AlignDown, AlignUp, Agrees;
    var g := device.g;
    var diff := upTo;
    if rcache.block == block { CachedAligned(device, rcache); }
    if block == rcache.block && off < rcache.off + rcache.size {
      if off >= rcache.off {
        diff := Min(diff, rcache.size - (off - rcache.off));
        HitBytes(device, rcache, off, diff);
        return rcache.buffer[off - rcache.off..off - rcache.off + diff];
      }
      diff := Min(diff, rcache.off - off);
    }
    if size >= hint && off % g.readSize == 0 && size >= g.readSize {
      BypassReads(g, off, upTo, diff, rcache.off);
      diff := AlignDown(diff, g.readSize);
      data := device.Read(block, off, diff);
      return;
    }
    Load(device, rcache, hint, block, off);
    data := [];
  }

  /** One round of lfs_bd_read: some bytes, or the read cache loaded with them. It
      gives nothing and leaves everything as it was exactly where it is stuck, so
      that the loop goes round for ever. */
  method ReadRound(device: Device, pcache: RamCache?, rcache: RamCache, hint: nat, block: nat, off: nat, size: nat)
    returns (data: seq<Byte>)
    requires device.Valid() && Agrees(rcache, device) && hint > 0
    requires block < |device.blocks| && 0 < size && off + size <= device.g.blockSize
    requires rcache.buffer.Length == device.g.cacheSize
    requires pcache != null ==> Pending(pcache, device) && pcache != rcache && pcache.buffer != rcache.buffer
    modifies rcache, rcache.buffer
    ensures Agrees(rcache, device) && |data| <= size
    ensures pcache != null ==> Pending(pcache, device)
    ensures off + |data| <= |View(pcache, device, block)|
    ensures data == View(pcache, device, block)[off..off + |data|]
    ensures if old(Stuck(device, pcache, rcache, hint, block, off, size))
      then data == [] && unchanged(rcache, rcache.buffer)
      else data == [] ==> Hit(rcache, block, off) && !old(Hit(rcache, block, off))
  {
    hide View, Agrees;
    var diff := size;
    if pcache != null && block == pcache.block && off < pcache.off + pcache.size {
      if off >= pcache.off {
        diff := Min(diff, pcache.size - (off - pcache.off));
        ViewOfCache(pcache, device, off, diff);
        return pcache.buffer[off - pcache.off..off - pcache.off + diff];
      }
      diff := Min(diff, pcache.off - off);
    }
    data := Fetch(device, rcache, hint, block, off, size, diff);
    ViewOfDevice(pcache, device, block, off, |data|);
  }

  lemma WholeView(pcache: RamCache?, device: Device, b: nat)
    requires device.Valid() && b < |device.blocks| && (pcache != null ==> Pending(pcache, device))
    ensures |View(pcache, device, b)| == device.g.blockSize
  {}

  lemma NotStuck(device: Device, pcache: RamCache?, rcache: RamCache, hint: nat, block: nat, off: nat, size: nat)
    requires device.Valid() && ReadDividesProg(device.g) && block < |device.blocks|
    requires pcache != null ==> Pending(pcache, device)
    ensures !Stuck(device, pcache, rcache, hint, block, off, size)
  {
    if pcache != null && pcache.block == block { NeverStuck(device.g, hint, off, size, pcache.off); }
  }

  /** What holds while a read goes on: the caches are right, and what has been read is
      the block as it will be. */
  ghost predicate Reading(device: Device, pcache: RamCache?, rcache: RamCache, block: nat, off: nat, data: seq<Byte>,
                          view: seq<Byte>)
    reads device, rcache, rcache.buffer, pcache, if pcache == null then {} else {pcache.buffer}
  {
    && device.Valid() && block < |device.blocks| && Agrees(rcache, device)
    && (pcache != null ==> Pending(pcache, device))
    && View(pcache, device, block) == view && |view| == device.g.blockSize
    && off + |data| <= |view| && data == view[off..off + |data|]
  }

  /** One round of a read that has come to the end of data. */
  method ReadMore(device: Device, pcache: RamCache?, rcache: RamCache, hint: nat, block: nat, off: nat, size: nat,
                  data: seq<Byte>, ghost view: seq<Byte>)
    returns (more: seq<Byte>)
    requires Reading(device, pcache, rcache, block, off, data, view) && |data| < size && off + size <= |view|
    requires ReadDividesProg(device.g) && hint > 0 && rcache.buffer.Length == device.g.cacheSize
    requires pcache != null ==> pcache != rcache && pcache.buffer != rcache.buffer
    modifies rcache, rcache.buffer
    ensures Reading(device, pcache, rcache, block, off, more, view) && |data| <= |more| <= size
    ensures |more| == |data| ==> Hit(rcache, block, off + |data|) && !old(Hit(rcache, block, off + |data|))
  {
    hide Agrees, Pending, View, Stuck, Hit, ReadDividesProg;
    NotStuck(device, pcache, rcache, hint, block, off + |data|, size - |data|);
    var part := ReadRound(device, pcache, rcache, hint, block, off + |data|, size - |data|);
    more := data + part;
    SliceMore(view, off, data, part);
  }

  /** lfs_bd_read: for every offset, size and hint, the block as it will be once
      the program cache has been flushed; and nothing outside the device. */
  method BdRead(device: Device, pcache: RamCache?, rcache: RamCache, hint: nat, block: nat, off: nat, size: nat)
    returns (ok: bool, data: seq<Byte>)
    requires device.Valid() && ReadDividesProg(device.g) && Agrees(rcache, device) && hint > 0
    requires rcache.buffer.Length == device.g.cacheSize
    requires pcache != null ==> Pending(pcache, device) && pcache != rcache && pcache.buffer != rcache.buffer
    modifies rcache, rcache.buffer
    ensures Agrees(rcache, device) && (pcache != null ==> Pending(pcache, device))
    ensures ok == (off + size <= device.g.blockSize && block < device.g.blockCount)
    ensures ok ==> off + size <= |View(pcache, device, block)| && data == View(pcache, device, block)[off..off + size]
  {
    data := [];
    if off + size > device.g.blockSize || block >= device.g.blockCount {
      return false, [];
    }
    ok := true;
    WholeView(pcache, device, block);
    hide Agrees, Pending, View, Hit, ReadDividesProg;
    ghost var view := View(pcache, device, block);
    while |data| < size
      invariant |data| <= size && Reading(device, pcache, rcache, block, off, data, view)
      decreases size - |data|, !Hit(rcache, block, off + |data|)
    {
      hide Reading;
      data := ReadMore(device, pcache, rcache, hint, block, off, size, data, view);
    }
  }

  // ----- Comparing and programming -----

  datatype Cmp = Eq | Lt | Gt

  /** memcmp: the first bytes that differ decide. */
  function Compare(a: seq<Byte>, b: seq<Byte>): Cmp
    requires |a| == |b|
  {
    if a == [] then Eq else if a[0] < b[0] then Lt else if a[0] > b[0] then Gt else Compare(a[1..], b[1..])
  }

  lemma {:induction false} CompareEq(a: seq<Byte>, b: seq<Byte>)
    requires |a| == |b|
    ensures Compare(a, b) == Eq <==> a == b
  {
    if a != [] {
      CompareEq(a[1..], b[1..]);
      assert a == [a[0]] + a[1..] && b == [b[0]] + b[1..];
    }
  }

  /** Compared up to k and from there on. */
  lemma {:induction false} CompareParts(a: seq<Byte>, b: seq<Byte>, k: nat)
    requires |a| == |b| && k <= |a|
    ensures Compare(a, b) == if Compare(a[..k], b[..k]) == Eq then Compare(a[k..], b[k..]) else Compare(a[..k], b[..k])
  {
    if k > 0 {
      CompareParts(a[1..], b[1..], k - 1);
      assert a[..k][1..] == a[1..][..k - 1] && b[..k][1..] == b[1..][..k - 1];
      assert a[1..][k - 1..] == a[k..] && b[1..][k - 1..] == b[k..];
    } else {
      assert a[0..] == a && b[0..] == b;
    }
  }

  /** How many of n bytes are in pieces of eight that end within the block. */
  function InBlock(blockSize: nat, off: nat, n: nat): (k: nat)
    ensures k <= n && (k > 0 ==> off + k <= blockSize)
  {
    if off + n <= blockSize then n else if off > blockSize then 0 else (blockSize - off) / 8 * 8
  }

  /** These bytes against a block, or nothing if the pieces within it are the same and
      there are more. */
  function Against(blk: seq<Byte>, off: nat, buffer: seq<Byte>): Option<Cmp> {
    var n := InBlock(|blk|, off, |buffer|);
    var c := if n == 0 then Eq else Compare(blk[off..off + n], buffer[..n]);
    if n == |buffer| || c != Eq then Some(c) else None
  }

  lemma AgainstWithin(blk: seq<Byte>, off: nat, buffer: seq<Byte>)
    requires off + |buffer| <= |blk|
    ensures Against(blk, off, buffer) == Some(Compare(blk[off..off + |buffer|], buffer))
  {
    hide Compare;
    assert buffer[..|buffer|] == buffer;
    if buffer == [] { NothingLeft(blk[off..off], buffer); }
  }

  /** The first piece decides, if it is within the block and not the same. */
  lemma AgainstNext(blk: seq<Byte>, off: nat, buffer: seq<Byte>, diff: nat)
    requires buffer != [] && diff == Min(|buffer|, 8)
    ensures off + diff > |blk| ==> Against(blk, off, buffer) == None
    ensures off + diff <= |blk| ==>
      var c := Compare(blk[off..off + diff], buffer[..diff]);
      Against(blk, off, buffer) == if c == Eq then Against(blk, off + diff, buffer[diff..]) else Some(c)
  {
    hide Compare;
    var n, m := InBlock(|blk|, off, |buffer|), InBlock(|blk|, off + diff, |buffer| - diff);
    if off + diff <= |blk| {
      assert n == m + diff;
      assert buffer[..n][..diff] == buffer[..diff] && buffer[diff..][..m] == buffer[..n][diff..];
      CompareNext(blk, off, buffer[..n], 0, diff);
      assert blk[off..off + n][0..] == blk[off..off + n] && buffer[..n][0..] == buffer[..n];
      assert blk[off..off + n][diff..] == blk[off + diff..off + n];
      if m == 0 { NothingLeft(blk[off..off + n], buffer[..n]); }
    } else {
      assert n == 0;
    }
  }

  lemma AgainstNothing(blk: seq<Byte>, off: nat)
    ensures Against(blk, off, []) == Some(Eq)
  {
    if off <= |blk| { NothingLeft(blk[off..off], []); }
  }

  /** lfs_bd_cmp, eight bytes at a time: the block, as a read sees it, against these
      bytes. It fails where they go on beyond the device. */
  method BdCmp(device: Device, rcache: RamCache, hint: nat, block: nat, off: nat, buffer: seq<Byte>)
    returns (ok: bool, cmp: Cmp)
    requires device.Valid() && ReadDividesProg(device.g) && Agrees(rcache, device) && hint >= |buffer|
    requires rcache.buffer.Length == device.g.cacheSize
    modifies rcache, rcache.buffer
    ensures Agrees(rcache, device)
    ensures block < |device.blocks| ==>
      var c := Against(device.blocks[block], off, buffer); ok == c.Some? && (ok ==> c == Some(cmp))
    ensures block >= |device.blocks| ==> ok == (buffer == []) && cmp == Eq
  {
    hide Agrees, View, Compare, Against;
    ok, cmp := true, Eq;
    var i := 0;
    ghost var blk := if block < |device.blocks| then device.blocks[block] else [];
    assert buffer[0..] == buffer;
    while i < |buffer|
      invariant i <= |buffer| && Agrees(rcache, device) && cmp == Eq && (block >= |device.blocks| ==> i == 0)
      invariant block < |device.blocks| ==> Against(blk, off, buffer) == Against(blk, off + i, buffer[i..])
    {
      var diff := Min(|buffer| - i, 8);
      var dat;
      if block < |device.blocks| {
        Uncached(device, block);
        AgainstNext(blk, off + i, buffer[i..], diff);
      }
      ok, dat := BdRead(device, null, rcache, hint - i, block, off + i, diff);
      if !ok {
        return false, Eq;
      }
      NextSlice(buffer, i, diff);
      var res := Compare(dat, buffer[i..i + diff]);
      if res != Eq {
        return true, res;
      }
      i := i + diff;
    }
    AgainstNothing(blk, off + i);
    assert buffer[i..] == [];
  }

  /** What one piece decides. */
  lemma CompareNext(blk: seq<Byte>, off: nat, buffer: seq<Byte>, i: nat, diff: nat)
    requires off + |buffer| <= |blk| && i + diff <= |buffer|
    ensures var stored := blk[off..off + |buffer|];
      var cmp := Compare(blk[off + i..off + i + diff], buffer[i..i + diff]);
      Compare(stored[i..], buffer[i..]) == if cmp == Eq then Compare(stored[i + diff..], buffer[i + diff..]) else cmp
  {
    hide Compare;
    var stored := blk[off..off + |buffer|];
    SliceOfSlice(blk, off, |buffer|, i, diff);
    CompareParts(stored[i..], buffer[i..], diff);
    NextSlice(stored, i, diff);
    NextSlice(buffer, i, diff);
  }

  lemma NothingLeft(a: seq<Byte>, b: seq<Byte>)
    requires |a| == |b|
    ensures Compare(a[|a|..], b[|b|..]) == Eq
  {}

  lemma NextSlice(s: seq<Byte>, i: nat, diff: nat)
    requires i + diff <= |s|
    ensures s[i..][..diff] == s[i..i + diff] && s[i..][diff..] == s[i + diff..]
  {}

  lemma Uncached(device: Device, b: nat)
    requires b < |device.blocks| <= INLINE
    ensures View(null, device, b) == device.blocks[b]
  {}

  /** The program cache is clear, or holds the end of what is being programmed:
      the next byte of `block` goes to off. */
  ghost predicate Follows(pcache: RamCache, device: Device, block: nat, off: nat)
    reads pcache, pcache.buffer, device
  {
    && Pending(pcache, device) && device.Valid() && pcache.block != INLINE && block < |device.blocks|
    && (forall k :: pcache.size <= k < pcache.buffer.Length || pcache.block == NULL ==>
      0 <= k < pcache.buffer.Length ==> pcache.buffer[k] == 0xff)
    && (if pcache.block == NULL
        then off % device.g.progSize == 0 && device.frontier[block] <= off
        else pcache.block == block && off == pcache.off + pcache.size && pcache.size < pcache.buffer.Length
             && device.frontier[block] <= pcache.off)
  }

  /** lfs_bd_flush: what is pending is programmed, filled up with 0xff to the
      program size. With validation it is read back; without, the read cache is
      left as it is. */
  method BdFlush(device: Device, pcache: RamCache, rcache: RamCache, validate: bool) returns (ok: bool)
    requires device.Valid() && ReadDividesProg(device.g) && Pending(pcache, device) && pcache.block != INLINE
    requires rcache.buffer.Length == device.g.cacheSize && pcache != rcache && pcache.buffer != rcache.buffer
    requires pcache.block != NULL ==> device.frontier[pcache.block] <= pcache.off
    modifies device, pcache`block, pcache.buffer, rcache, rcache.buffer
    ensures ok && device.Valid() && pcache.block == NULL
    ensures old(pcache.block) == NULL ==>
      device.blocks == old(device.blocks) && device.frontier == old(device.frontier)
        && unchanged(pcache.buffer, rcache, rcache.buffer)
    ensures old(pcache.block) != NULL ==>
      var b, off, diff := old(pcache.block), old(pcache.off), AlignUp(old(pcache.size), device.g.progSize);
      && diff <= pcache.buffer.Length && off + diff <= device.g.blockSize
      && device.blocks == old(device.blocks)[b := Overlay(old(device.blocks[b]), off, old(pcache.buffer[..])[..diff])]
      && device.frontier == old(device.frontier)[b := off + diff]
      && forall k :: 0 <= k < pcache.buffer.Length ==> pcache.buffer[k] == 0xff
    ensures validate ==> (old(pcache.block) != NULL ==> Agrees(rcache, device))
    ensures !validate ==> unchanged(rcache, rcache.buffer)
  {
    hide Against, Compare;
    ok := true;
    if pcache.block != NULL && pcache.block != INLINE {
      var g := device.g;
      var diff := AlignUp(pcache.size, g.progSize);
      PadFits(g, pcache.off, pcache.size);
      var bytes := pcache.buffer[..diff];
      device.Program(pcache.block, pcache.off, bytes);
      if validate {
        rcache.Drop();
        var cmp;
        ok, cmp := BdCmp(device, rcache, diff, pcache.block, pcache.off, bytes);
        ReadBack(device.blocks[pcache.block], pcache.off, bytes);
        AgainstWithin(device.blocks[pcache.block], pcache.off, bytes);
        ok := ok && cmp == Eq;
      }
      pcache.Zero();
    }
  }

  lemma PadFits(g: Geometry, off: nat, size: nat)
    requires Checked(g) && off % g.progSize == 0 && size <= g.cacheSize && off + size <= g.blockSize
    ensures var diff := AlignUp(size, g.progSize);
      diff % g.progSize == 0 && size <= diff < size + g.progSize && diff <= g.cacheSize && off + diff <= g.blockSize
  {
    AlignUpIs(size, g.progSize);
    var diff := AlignUp(size, g.progSize);
    if diff > g.cacheSize { AlignedApart(g.cacheSize, diff, g.progSize); }
    ReadAligned(g.blockSize, g.cacheSize, g.progSize);
    if off + diff > g.blockSize {
      AlignedSum(off, diff, g.progSize);
      AlignedApart(g.blockSize, off + diff, g.progSize);
    }
  }

  lemma AlignedSum(a: nat, b: nat, m: nat)
    requires m > 0 && a % m == 0 && b % m == 0
    ensures (a + b) % m == 0
  {
    var p, q := a / m, b / m;
    assert a == m * p && b == m * q;
    assert a + b == m * (p + q);
    QuotientIs(a + b, m, p + q, 0);
  }

  lemma ReadBack(after: seq<Byte>, off: nat, bytes: seq<Byte>)
    requires off + |bytes| <= |after| && forall k :: 0 <= k < |bytes| ==> after[off + k] == bytes[k]
    ensures Compare(after[off..off + |bytes|], bytes) == Eq
  {
    assert after[off..off + |bytes|] == bytes;
    CompareEq(bytes, bytes);
  }

  /** One round of lfs_bd_prog: as many bytes as fit the program cache. */
  method ProgRound(device: Device, pcache: RamCache, rcache: RamCache, validate: bool, block: nat, off: nat,
                   data: seq<Byte>)
    returns (ok: bool, n: nat)
    requires Follows(pcache, device, block, off) && ReadDividesProg(device.g)
    requires data != [] && off + |data| <= device.g.blockSize
    requires rcache.buffer.Length == device.g.cacheSize && pcache != rcache && pcache.buffer != rcache.buffer
    modifies device, pcache, pcache.buffer, rcache, rcache.buffer
    ensures ok && 0 < n <= |data| && Follows(pcache, device, block, off + n)
    ensures off + n <= |old(View(pcache, device, block))|
    ensures View(pcache, device, block) == Overlay(old(View(pcache, device, block)), off, data[..n])
    ensures forall b :: 0 <= b < |device.blocks| && b != block ==> device.blocks[b] == old(device.blocks[b])
  {
    hide View, Follows, Pending, Padded, Device.Valid, ReadDividesProg, Overlay, Checked;
    KnowsBlock(device, pcache, block, off);
    if pcache.block == NULL {
      Prepare(device, pcache, block, off);
    }
    InCache(device, pcache, block, off);
    ok, n := true, Min(|data|, device.g.cacheSize - (off - pcache.off));
    Fill(device, pcache, block, off, data[..n]);
    if pcache.size == device.g.cacheSize {
      ok := FlushFull(device, pcache, rcache, validate, block);
    } else {
      FollowsIf(device, pcache, block, off + n);
    }
  }

  /** Behind what is pending the program cache is all ones. */
  ghost predicate Padded(pcache: RamCache)
    reads pcache, pcache.buffer
  {
    forall k :: pcache.size <= k < pcache.buffer.Length ==> pcache.buffer[k] == 0xff
  }

  lemma InCache(device: Device, pcache: RamCache, block: nat, off: nat)
    requires Follows(pcache, device, block, off) && pcache.block != NULL
    ensures pcache.block == block && off == pcache.off + pcache.size && pcache.size < device.g.cacheSize
    ensures block < |device.frontier| && device.frontier[block] <= pcache.off
  {}

  lemma FollowsIf(device: Device, pcache: RamCache, block: nat, off: nat)
    requires device.Valid() && Pending(pcache, device) && Padded(pcache) && pcache.block == block < |device.blocks|
    requires off == pcache.off + pcache.size && pcache.size < device.g.cacheSize && device.frontier[block] <= pcache.off
    ensures Follows(pcache, device, block, off)
  {}

  /** The program cache set up for a place that is aligned: empty, it changes
      nothing yet. */
  method Prepare(device: Device, pcache: RamCache, block: nat, off: nat)
    requires Follows(pcache, device, block, off) && pcache.block == NULL && off < device.g.blockSize
    modifies pcache`block, pcache`off, pcache`size
    ensures Follows(pcache, device, block, off) && pcache.block == block && pcache.size == 0
    ensures View(pcache, device, block) == old(View(pcache, device, block))
  {
    pcache.block := block;
    pcache.off := AlignDown(off, device.g.progSize);
    pcache.size := 0;
  }

  /** Some bytes into the program cache, after those that are there. */
  method Fill(device: Device, pcache: RamCache, block: nat, off: nat, data: seq<Byte>)
    requires Follows(pcache, device, block, off) && pcache.block == block
    requires pcache.size + |data| <= device.g.cacheSize && off + |data| <= device.g.blockSize
    modifies pcache`size, pcache.buffer
    ensures Pending(pcache, device) && pcache.size == old(pcache.size) + |data| && Padded(pcache)
    ensures off + |data| <= |old(View(pcache, device, block))|
    ensures View(pcache, device, block) == Overlay(old(View(pcache, device, block)), off, data)
  {
    ghost var was := pcache.buffer[..];
    var at := off - pcache.off;
    for i := 0 to |data|
      modifies pcache.buffer
      invariant forall k :: 0 <= k < pcache.buffer.Length ==>
        pcache.buffer[k] == if at <= k < at + i then data[k - at] else was[k]
    {
      pcache.buffer[at + i] := data[i];
    }
    pcache.size := Max(pcache.size, off + |data| - pcache.off);
    assert pcache.buffer[..pcache.size] == was[..at] + data;
    OverlayTwice(device.blocks[block], pcache.off, was[..at], data);
  }

  /** A full program cache is flushed, which changes nothing a read sees. */
  method FlushFull(device: Device, pcache: RamCache, rcache: RamCache, validate: bool, block: nat) returns (ok: bool)
    requires device.Valid() && ReadDividesProg(device.g) && Pending(pcache, device)
    requires pcache.block == block < |device.blocks| && pcache.size == device.g.cacheSize
    requires device.frontier[block] <= pcache.off
    requires rcache.buffer.Length == device.g.cacheSize && pcache != rcache && pcache.buffer != rcache.buffer
    modifies device, pcache`block, pcache.buffer, rcache, rcache.buffer
    ensures ok && Follows(pcache, device, block, pcache.off + device.g.cacheSize) && pcache.block == NULL
    ensures View(pcache, device, block) == old(View(pcache, device, block))
    ensures forall b :: 0 <= b < |device.blocks| && b != block ==> device.blocks[b] == old(device.blocks[b])
  {
    AlignUpIs(pcache.size, device.g.progSize);
    if AlignUp(pcache.size, device.g.progSize) > pcache.size {
      AlignedApart(pcache.size, AlignUp(pcache.size, device.g.progSize), device.g.progSize);
    }
    AlignedSum(pcache.off, device.g.cacheSize, device.g.progSize);
    ok := BdFlush(device, pcache, rcache, validate);
  }

  /** What holds while bytes are programmed from off on: a read of the block sees them
      written over what it was, and the other blocks are the same. */
  ghost predicate Programmed(device: Device, pcache: RamCache, block: nat, off: nat, all: seq<Byte>, view: seq<Byte>,
                             before: seq<seq<Byte>>)
    reads device, pcache, pcache.buffer
  {
    && Follows(pcache, device, block, off + |all|) && off + |all| <= |view| == device.g.blockSize
    && View(pcache, device, block) == Overlay(view, off, all)
    && |device.blocks| == |before|
    && forall b :: 0 <= b < |before| && b != block ==> device.blocks[b] == before[b]
  }

  /** One round, after the first i bytes. */
  method ProgMore(device: Device, pcache: RamCache, rcache: RamCache, validate: bool, block: nat, off: nat,
                  data: seq<Byte>, i: nat, ghost view: seq<Byte>, ghost before: seq<seq<Byte>>)
    returns (ok: bool, n: nat)
    requires i < |data| && Programmed(device, pcache, block, off, data[..i], view, before)
    requires off + |data| <= device.g.blockSize && ReadDividesProg(device.g)
    requires rcache.buffer.Length == device.g.cacheSize && pcache != rcache && pcache.buffer != rcache.buffer
    modifies device, pcache, pcache.buffer, rcache, rcache.buffer
    ensures ok && i + n <= |data| && n > 0
    ensures Programmed(device, pcache, block, off, data[..i + n], view, before)
  {
    hide View, Follows, ReadDividesProg, Overlay;
    KnowsBlock(device, pcache, block, off + i);
    ok, n := ProgRound(device, pcache, rcache, validate, block, off + i, data[i..]);
    KnowsBlock(device, pcache, block, off + i + n);
    OverlayTwice(view, off, data[..i], data[i..][..n]);
    assert data[..i] + data[i..][..n] == data[..i + n];
  }

  lemma KnowsBlock(device: Device, pcache: RamCache, block: nat, off: nat)
    requires Follows(pcache, device, block, off)
    ensures device.Valid() && block < |device.blocks| == |device.frontier| == device.g.blockCount
    ensures Pending(pcache, device) && block != INLINE && block != NULL
    ensures |View(pcache, device, block)| == device.g.blockSize
  {
    WholeView(pcache, device, block);
  }

  lemma NothingYet(device: Device, pcache: RamCache, block: nat, off: nat)
    requires Follows(pcache, device, block, off) && off <= device.g.blockSize
    ensures Programmed(device, pcache, block, off, [], View(pcache, device, block), device.blocks)
  {
    var view := View(pcache, device, block);
    WholeView(pcache, device, block);
    assert Overlay(view, off, []) == view;
  }

  /** lfs_bd_prog: bytes in a row, from an aligned place on. What a read sees is
      the block with them written over it, and the next call may go on after
      them. */
  method BdProg(device: Device, pcache: RamCache, rcache: RamCache, validate: bool, block: nat, off: nat,
                data: seq<Byte>)
    returns (ok: bool)
    requires Follows(pcache, device, block, off) && ReadDividesProg(device.g) && off + |data| <= device.g.blockSize
    requires rcache.buffer.Length == device.g.cacheSize && pcache != rcache && pcache.buffer != rcache.buffer
    modifies device, pcache, pcache.buffer, rcache, rcache.buffer
    ensures ok && off + |data| <= |old(View(pcache, device, block))|
    ensures Programmed(device, pcache, block, off, data, old(View(pcache, device, block)), old(device.blocks))
  {
    hide Programmed, View, Follows, Pending, Device.Valid, ReadDividesProg, Overlay, Checked;
    ok := true;
    var i := 0;
    KnowsBlock(device, pcache, block, off);
    ghost var view, before := View(pcache, device, block), device.blocks;
    NothingYet(device, pcache, block, off);
    assert data[..0] == [];
    while i < |data|
      invariant ok && i <= |data| && Programmed(device, pcache, block, off, data[..i], view, before)
    {
      var n;
      ok, n := ProgMore(device, pcache, rcache, validate, block, off, data, i, view, before);
      i := i + n;
    }
    assert data[..|data|] == data;
  }

  /** Where the read size does not divide the program size: one byte written to the
      second program unit of a block is enough for a read before it to get stuck. */
  method GetStuck(g: Geometry, x: Byte)
    returns (device: Device, pcache: RamCache, rcache: RamCache, off: nat, data: seq<Byte>)
    requires Checked(g) && g.blockSize > 0 && !ReadDividesProg(g)
    ensures fresh(device) && fresh(pcache) && fresh(rcache) && device.g == g
    ensures device.Valid() && Agrees(rcache, device) && Pending(pcache, device) && off + g.readSize <= g.blockSize
    ensures data == [] && Stuck(device, pcache, rcache, g.readSize, 0, off, g.readSize)
  {
    FirstStuck(g);
    QuotientIs(g.progSize, g.progSize, 1, 0);
    device := new Device(g);
    pcache := new RamCache(g.cacheSize);
    rcache := new RamCache(g.cacheSize);
    Prepare(device, pcache, 0, g.progSize);
    Fill(device, pcache, 0, g.progSize, [x]);
    off := AlignDown(g.progSize, g.readSize);
    data := ReadRound(device, pcache, rcache, g.readSize, 0, off, g.readSize);
  }

  function Concat(pieces: seq<seq<Byte>>): seq<Byte> {
    if pieces == [] then [] else Concat(pieces[..|pieces| - 1]) + pieces[|pieces| - 1]
  }

  lemma {:induction false} ConcatPrefix(pieces: seq<seq<Byte>>, i: nat)
    requires i <= |pieces|
    ensures |Concat(pieces[..i])| <= |Concat(pieces)|
  {
    if i < |pieces| {
      ConcatPrefix(pieces[..|pieces| - 1], i);
      assert pieces[..|pieces| - 1][..i] == pieces[..i];
    } else {
      assert pieces[..i] == pieces;
    }
  }

  /** Any pieces in a row from an aligned place, and a flush: the device has what
      they are together, filled up with 0xff to the program size, and is as it
      was elsewhere. */
  method ProgramAll(device: Device, pcache: RamCache, rcache: RamCache, validate: bool, block: nat, off: nat,
                    pieces: seq<seq<Byte>>)
    returns (ok: bool, ghost pad: seq<Byte>)
    requires Follows(pcache, device, block, off) && ReadDividesProg(device.g) && pcache.block == NULL
    requires off + |Concat(pieces)| <= device.g.blockSize
    requires rcache.buffer.Length == device.g.cacheSize && pcache != rcache && pcache.buffer != rcache.buffer
    modifies device, pcache, pcache.buffer, rcache, rcache.buffer
    ensures ok && device.Valid() && pcache.block == NULL
    ensures |pad| < device.g.progSize && forall k :: 0 <= k < |pad| ==> pad[k] == 0xff
    ensures var all := Concat(pieces) + pad;
      && off + |all| <= device.g.blockSize && |all| % device.g.progSize == 0
      && device.blocks == old(device.blocks)[block := Overlay(old(device.blocks[block]), off, all)]
  {
    ok := true;
    UncachedView(pcache, device, block);
    ghost var view, before := View(pcache, device, block), device.blocks;
    assert pieces[..0] == [];
    NothingYet(device, pcache, block, off);
    StartsAligned(device, pcache, block, off);
    hide View, Follows, ReadDividesProg;
    for i := 0 to |pieces|
      invariant ok && Programmed(device, pcache, block, off, Concat(pieces[..i]), view, before)
    {
      hide Programmed;
      ConcatPrefix(pieces, i + 1);
      assert pieces[..i + 1][..i] == pieces[..i];
      var sofar := Concat(pieces[..i]);
      ok := ProgramPiece(device, pcache, rcache, validate, block, off + |sofar|, pieces[i], off, sofar, view, before);
    }
    assert pieces[..|pieces|] == pieces;
    hide Programmed;
    ok, pad := FlushLast(device, pcache, rcache, validate, block, off, Concat(pieces), view, before);
  }

  /** One piece, after those that are done. */
  method ProgramPiece(device: Device, pcache: RamCache, rcache: RamCache, validate: bool, block: nat, at: nat,
                      piece: seq<Byte>, ghost off: nat, ghost done: seq<Byte>, ghost view: seq<Byte>,
                      ghost before: seq<seq<Byte>>)
    returns (ok: bool)
    requires Programmed(device, pcache, block, off, done, view, before) && at == off + |done|
    requires at + |piece| <= device.g.blockSize && ReadDividesProg(device.g)
    requires rcache.buffer.Length == device.g.cacheSize && pcache != rcache && pcache.buffer != rcache.buffer
    modifies device, pcache, pcache.buffer, rcache, rcache.buffer
    ensures ok && Programmed(device, pcache, block, off, done + piece, view, before)
  {
    hide View, Follows, ReadDividesProg, Overlay;
    KnowsBlock(device, pcache, block, at);
    ok := BdProg(device, pcache, rcache, validate, block, at, piece);
    OverlayTwice(view, off, done, piece);
  }

  lemma StartsAligned(device: Device, pcache: RamCache, block: nat, off: nat)
    requires Follows(pcache, device, block, off) && pcache.block == NULL
    ensures device.g.progSize > 0 && off % device.g.progSize == 0
  {}

  lemma UncachedView(pcache: RamCache, device: Device, b: nat)
    requires device.Valid() && Pending(pcache, device) && b < |device.blocks| && pcache.block == NULL
    ensures View(pcache, device, b) == device.blocks[b]
  {}

  /** The flush after the last piece. */
  method FlushLast(device: Device, pcache: RamCache, rcache: RamCache, validate: bool, block: nat, off: nat,
                   ghost all: seq<Byte>, ghost view: seq<Byte>, ghost before: seq<seq<Byte>>)
    returns (ok: bool, ghost pad: seq<Byte>)
    requires Programmed(device, pcache, block, off, all, view, before) && ReadDividesProg(device.g)
    requires off % device.g.progSize == 0
    requires rcache.buffer.Length == device.g.cacheSize && pcache != rcache && pcache.buffer != rcache.buffer
    modifies device, pcache`block, pcache.buffer, rcache, rcache.buffer
    ensures ok && device.Valid() && pcache.block == NULL
    ensures |pad| < device.g.progSize && forall k :: 0 <= k < |pad| ==> pad[k] == 0xff
    ensures off + |all + pad| <= |view| == device.g.blockSize && |all + pad| % device.g.progSize == 0
    ensures block < |before| && device.blocks == before[block := Overlay(view, off, all + pad)]
  {
    var g := device.g;
    pad := [];
    if pcache.block != NULL {
      var size, from := pcache.size, pcache.off;
      PadFits(g, from, size);
      ghost var bytes, blk := pcache.buffer[..], device.blocks[block];
      var diff := AlignUp(size, g.progSize);
      pad := bytes[size..diff];
      assert bytes[..diff] == bytes[..size] + pad;
      OverlayTwice(blk, from, bytes[..size], pad);
      OverlayTwice(view, off, all, pad);
      AlignedRest(off, |all|, from, diff, |pad|, g.progSize);
    } else {
      AlignedRest(off, |all|, off + |all|, 0, 0, g.progSize);
      assert all + pad == all;
    }
    ok := BdFlush(device, pcache, rcache, validate);
  }

  /** The end of the padding is aligned, and so is all that is programmed. */
  lemma AlignedRest(off: nat, all: nat, from: nat, diff: nat, pad: nat, m: nat)
    requires m > 0 && off % m == 0 && from % m == 0 && diff % m == 0 && off + all + pad == from + diff
    ensures (all + pad) % m == 0
  {
    AlignedSum(from, diff, m);
    if off < from + diff { AlignedApart(off, from + diff, m); }
  }
}
