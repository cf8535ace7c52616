/** What the driver remembers of a metadata block beside its tags: how many
    entries it counts, and how an outgrown block is split into a chain. */
module Directory {
  import opened Arith
  import opened Wrappers
  import opened Tags
  import opened EntryLog
  import opened TagLog

  const NAME_KEY := Key(NAME, 0)

  // ----- Counting entries, as lfs_dir_fetchmatch does -----

  /** The running count after one more tag. */
  function CountStep(count: int, op: Op<Key, Payload>): int {
    match op
    case Create(_) => count + 1
    case Remove(_) => count - 1
    case Set(id, key, _) => if key == NAME_KEY && id >= count then id + 1 else count
    case _ => count
  }

  function Count(ops: seq<Op<Key, Payload>>): int {
    if ops == [] then 0 else CountStep(Count(ops[..|ops| - 1]), ops[|ops| - 1])
  }

  /** Only names open entries, and splices and other attributes stay in range. */
  predicate Orderly(ops: seq<Op<Key, Payload>>) {
    ops == [] ||
    (var init, n := ops[..|ops| - 1], |Replay(ops[..|ops| - 1])|;
     Orderly(init) &&
     match ops[|ops| - 1]
     case Create(id) => id <= n
     case Remove(id) => id < n
     case Set(id, key, _) => key == NAME_KEY || id < n
     case _ => true)
  }

  /** The count a fetch arrives at is the length of the directory. */
  lemma {:induction false} CountIsLength(ops: seq<Op<Key, Payload>>)
    requires Orderly(ops)
    ensures Count(ops) == |Replay(ops)|
  {
    if ops != [] {
      CountIsLength(ops[..|ops| - 1]);
    }
  }

  method FetchCount(log: seq<Rec>) returns (count: int)
    requires WellFormed(log)
    requires forall i :: 0 <= i < |log| && log[i].tag.cls == NAME ==> !IsDelete(log[i].tag)
    ensures count == Count(Ops(log))
  {
    count := 0;
    for i := 0 to |log|
      invariant count == Count(Ops(log)[..i])
    {
      var tag := log[i].tag;
      assert Ops(log)[..i + 1][..i] == Ops(log)[..i];
      assert WellFormedTag(tag);
      if tag.cls == NAME {
        if tag.id >= count {
          count := tag.id + 1;
        }
      } else if tag.cls == SPLICE {
        count := count + Splice(tag);
      }
    }
    assert Ops(log)[..|log|] == Ops(log);
  }

  predicate Attributes(ops: seq<Op<Key, Payload>>, n: nat) {
    forall i :: 0 <= i < |ops| ==> (ops[i].Set? || ops[i].Drop?) && ops[i].id < n
  }

  lemma {:induction false} CountBounds(ops: seq<Op<Key, Payload>>, n: nat, last: int)
    requires Attributes(ops, n)
    ensures 0 <= Count(ops) <= n
    ensures Lookup(ops, NAME_KEY, last) != None ==> last < Count(ops)
  {
    if ops != [] {
      CountBounds(ops[..|ops| - 1], n, last);
    }
  }

  lemma {:induction false} CompactedAttributes(ops: seq<Op<Key, Payload>>, begin: nat, end: nat)
    requires begin <= end
    ensures Attributes(Compact(ops, begin, end), end - begin)
  {
    if ops != [] {
      CompactedAttributes(ops[1..], begin, end);
    }
  }

  /** After compaction the driver records end - begin entries without counting;
      a later fetch of the block counts the same, given that the last entry of
      the range has a name. */
  lemma CompactedCount(ops: seq<Op<Key, Payload>>, begin: nat, end: nat)
    requires begin < end && Lookup(ops, NAME_KEY, end - 1) != None
    ensures Count(Compact(ops, begin, end)) == end - begin
  {
    hide EntryLog.Compact, Count, Walk, Attributes;
    CompactedAttributes(ops, begin, end);
    CompactPreservesLookup(ops, begin, end, NAME_KEY, end - 1 - begin);
    CountBounds(Compact(ops, begin, end), end - begin, end - 1 - begin);
  }

  // ----- lfs_dir_splittingcompact -----

  function BytesOf(log: seq<Rec>): nat {
    if log == [] then 0 else BytesOf(log[..|log| - 1]) + DSize(log[|log| - 1].tag)
  }

  /** What a split must leave room for in each part: for what every block has of its own,
      and half a block, so that parts can grow. */
  predicate FitsPart(size: nat, begin: nat, end: nat, metadataMax: nat, progSize: nat)
    requires progSize > 0
  {
    end < begin + 0xff && size + 40 <= metadataMax && size <= AlignUp(metadataMax / 2, progSize)
  }

  /** The bytes of what is logged for entries. */
  function OpsSize(ops: seq<Op<Key, Payload>>): nat {
    if ops == [] then 0
    else OpsSize(ops[..|ops| - 1]) + match ops[|ops| - 1] case Set(_, _, val) => 4 + val.size case _ => 4
  }

  lemma {:induction false} SizeIsBytes(log: seq<Rec>, n: nat)
    requires Rebased(log, n)
    ensures BytesOf(log) == OpsSize(Ops(log))
  {
    if log != [] {
      var k := |log| - 1;
      assert Ops(log)[..k] == Ops(log[..k]) && Ops(log)[k] == OpOf(log[k]);
      SizeIsBytes(log[..k], n);
    }
  }

  /** The entries from `at` to `end` could be a part: fewer than 255, their records with 40
      bytes within the limit of a block, and within half of it, rounded up to whole
      program units. */
  predicate CouldBePart(log: seq<Rec>, at: nat, end: nat, metadataMax: nat, progSize: nat)
    requires progSize > 0
  {
    var size := OpsSize(Compact(Ops(log), at, end));
    end < at + 255 && size + 40 <= metadataMax && size <= AlignUp(metadataMax / 2, progSize)
  }

  lemma CouldBeIf(log: seq<Rec>, part: seq<Rec>, at: nat, end: nat, metadataMax: nat, progSize: nat)
    requires progSize > 0 && at <= end && Ops(part) == Compact(Ops(log), at, end) && Rebased(part, end - at)
    ensures CouldBePart(log, at, end, metadataMax, progSize) <==>
      FitsPart(BytesOf(part), at, end, metadataMax, progSize)
  {
    hide EntryLog.Compact, Ops;
    SizeIsBytes(part, end - at);
  }

  /** Where halving towards the end comes to in k steps. */
  function Halved(begin: nat, end: nat, k: nat): (at: nat)
    requires begin <= end
    ensures begin <= at <= end
  {
    if k == 0 then begin else
    var at := Halved(begin, end, k - 1); at + (end - at) / 2
  }

  /** bounds cuts [0, count) into the parts of a chain, chain[k] being the
      compaction of its range. */
  ghost predicate IsChain(log: seq<Rec>, bounds: seq<nat>, chain: seq<seq<Rec>>) {
    && |bounds| == |chain| + 1
    && forall k :: 0 <= k < |chain| ==>
         bounds[k] <= bounds[k + 1] && Ops(chain[k]) == Compact(Ops(log), bounds[k], bounds[k + 1])
  }

  /** The start of the first part, found by halving towards the end until what
      remains is guaranteed to fit, and no further. */
  method FindSplit(log: seq<Rec>, begin: nat, end: nat, metadataMax: nat, progSize: nat)
    returns (split: nat, part: seq<Rec>, ghost steps: nat)
    requires WellFormed(log) && IdsFit(log) && begin <= end && progSize > 0
    ensures begin <= split <= end && (begin < end ==> split < end)
    ensures Ops(part) == Compact(Ops(log), split, end) && Rebased(part, end - split)
    ensures end <= split + 1 || CouldBePart(log, split, end, metadataMax, progSize)
    ensures split == Halved(begin, end, steps)
    ensures forall k :: 0 <= k < steps ==> !CouldBePart(log, Halved(begin, end, k), end, metadataMax, progSize)
  {
    hide CouldBePart, FitsPart, EntryLog.Compact, Ops, OpsBy, Lookup, WellFormed, IdsFit, Rebased;
    split, steps := begin, 0;
    while end - split > 1
      invariant begin <= split <= end && (begin < end ==> split < end) && split == Halved(begin, end, steps)
      invariant forall k :: 0 <= k < steps ==> !CouldBePart(log, Halved(begin, end, k), end, metadataMax, progSize)
      decreases end - split
    {
      part := Traverse(log, split, end);
      CouldBeIf(log, part, split, end, metadataMax, progSize);
      if FitsPart(BytesOf(part), split, end, metadataMax, progSize) {
        return;
      }
      split, steps := split + (end - split) / 2, steps + 1;
    }
    part := Traverse(log, split, end);
  }

  /** The parts from the first-th on each hold one entry or leave the room a part must. */
  ghost predicate PartsFit(log: seq<Rec>, bounds: seq<nat>, chain: seq<seq<Rec>>, first: nat, metadataMax: nat,
                           progSize: nat)
    requires |bounds| == |chain| + 1 && progSize > 0
  {
    forall k :: first <= k < |chain| ==>
      bounds[k + 1] <= bounds[k] + 1 || CouldBePart(log, bounds[k], bounds[k + 1], metadataMax, progSize)
  }

  /** Each part is the attributes of its entries, as its block is to store them. */
  ghost predicate AreParts(bounds: seq<nat>, chain: seq<seq<Rec>>)
    requires |bounds| == |chain| + 1
  {
    forall k :: 0 <= k < |chain| ==> bounds[k] <= bounds[k + 1] && Rebased(chain[k], bounds[k + 1] - bounds[k])
  }

  lemma Prepend(log: seq<Rec>, bounds: seq<nat>, chain: seq<seq<Rec>>, begin: nat, part: seq<Rec>, metadataMax: nat,
                progSize: nat)
    requires IsChain(log, bounds, chain) && progSize > 0 && PartsFit(log, bounds, chain, 0, metadataMax, progSize)
    requires begin <= bounds[0] && Ops(part) == Compact(Ops(log), begin, bounds[0])
    requires AreParts(bounds, chain) && Rebased(part, bounds[0] - begin)
    ensures IsChain(log, [begin] + bounds, [part] + chain) && AreParts([begin] + bounds, [part] + chain)
    ensures PartsFit(log, [begin] + bounds, [part] + chain, 1, metadataMax, progSize)
    ensures bounds[0] <= begin + 1 || CouldBePart(log, begin, bounds[0], metadataMax, progSize) ==>
              PartsFit(log, [begin] + bounds, [part] + chain, 0, metadataMax, progSize)
  {
    hide CouldBePart, EntryLog.Compact, Ops, Rebased;
  }

  /** Rewrites the log of a block as a chain of at most 1 + room blocks, the
      original first: splitting takes a new pair of blocks from the allocator,
      and when there is none the rest is compacted as it is. Nothing is cut off
      where the whole rest could be a part. */
  method SplittingCompact(log: seq<Rec>, count: nat, room: nat, metadataMax: nat, progSize: nat)
    returns (ghost bounds: seq<nat>, chain: seq<seq<Rec>>)
    requires WellFormed(log) && IdsFit(log) && progSize > 0
    ensures IsChain(log, bounds, chain) && bounds[0] == 0 && bounds[|chain|] == count
    ensures 1 <= |chain| <= 1 + room && AreParts(bounds, chain)
    ensures PartsFit(log, bounds, chain, 1, metadataMax, progSize)
    ensures |chain| <= room ==> PartsFit(log, bounds, chain, 0, metadataMax, progSize)
    ensures forall k :: 2 <= k < |bounds| ==> !CouldBePart(log, 0, bounds[k], metadataMax, progSize)
  {
    var end, left := count, room;
    chain, bounds := [], [count];
    while true
      invariant end <= count && |chain| + left == room
      invariant IsChain(log, bounds, chain) && bounds[0] == end && bounds[|chain|] == count && AreParts(bounds, chain)
      invariant PartsFit(log, bounds, chain, 0, metadataMax, progSize)
      invariant forall k :: 1 <= k < |bounds| ==> !CouldBePart(log, 0, bounds[k], metadataMax, progSize)
      decreases left
    {
      hide CouldBePart;
      var split, part;
      ghost var steps;
      split, part, steps := FindSplit(log, 0, end, metadataMax, progSize);
      assert split > 0 ==> steps > 0 && !CouldBePart(log, Halved(0, end, 0), end, metadataMax, progSize);
      if split == 0 || left == 0 {
        // no split needed, or no blocks left to split into
        var head := Traverse(log, 0, end);
        Prepend(log, bounds, chain, 0, head, metadataMax, progSize);
        chain, bounds := [head] + chain, [0] + bounds;
        return;
      }
      Prepend(log, bounds, chain, split, part, metadataMax, progSize);
      chain, bounds := [part] + chain, [split] + bounds;
      end, left := split, left - 1;
    }
  }

  /** Looking an entry up along a chain: each part answers for its own entries. */
  ghost function ChainLookup(bounds: seq<nat>, chain: seq<seq<Rec>>, key: Key, id: nat): Option<Payload>
    requires |bounds| == |chain| + 1
    decreases |chain|
  {
    if chain == [] then None
    else if bounds[0] <= id < bounds[1] then Lookup(Ops(chain[0]), key, id - bounds[0])
    else ChainLookup(bounds[1..], chain[1..], key, id)
  }

  /** However a directory is split, every entry answers as it did before. */
  lemma {:induction false} ChainPreservesLookup(log: seq<Rec>, bounds: seq<nat>, chain: seq<seq<Rec>>, key: Key,
                                                id: nat)
    requires IsChain(log, bounds, chain) && bounds[0] <= id < bounds[|chain|]
    ensures ChainLookup(bounds, chain, key, id) == Lookup(Ops(log), key, id)
    decreases |chain|
  {
    if bounds[0] <= id < bounds[1] {
      CompactPreservesLookup(Ops(log), bounds[0], bounds[1], key, id - bounds[0]);
    } else {
      ChainPreservesLookup(log, bounds[1..], chain[1..], key, id);
    }
  }
}
