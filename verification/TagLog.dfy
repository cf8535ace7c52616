/** Metadata logs as tags with their data, and the driver's loops over them:
    the backward lookup, the traversal that compaction writes out, the count of
    entries a fetch arrives at, and the splitting of a directory that outgrew
    its block. */
module TagLog {
  import opened Bytes
  import opened Wrappers
  import opened Tags
  import opened EntryLog

  datatype Rec = Rec(tag: Tag, data: seq<Octet>)

  /** A record without its id: its type, its size field, and its data. */
  datatype Payload = Payload(cls: nat, chunk: nat, size: nat, data: seq<Octet>)

  /** What the driver writes: the only splices are creations of size 0 and
      deletions, and no attribute has the no-op type. */
  predicate WellFormedTag(t: Tag) {
    && (t.cls == SPLICE ==> (IsCreate(t) && t.size == 0) || IsRemove(t))
    && !(t.cls == NAME && t.chunk == 0)
  }

  predicate WellFormed(log: seq<Rec>) {
    forall i :: 0 <= i < |log| ==> WellFormedTag(log[i].tag)
  }

  function OpOf(r: Rec): Op<Key, Payload> {
    var t := r.tag;
    if IsCreate(t) then Create(t.id)
    else if IsRemove(t) then Remove(t.id)
    else if !IsEntryAttr(t) then Other
    else if IsDelete(t) then Drop(t.id, KeyOf(t))
    else Set(t.id, KeyOf(t), Payload(t.cls, t.chunk, t.size, r.data))
  }

  /** The same to a lookup by some other mask than that of the class. */
  function OpBy(mask: Mask, r: Rec): Op<Key, Payload> {
    match OpOf(r)
    case Set(id, _, val) => Set(id, KeyBy(mask, r.tag), val)
    case Drop(id, _) => Drop(id, KeyBy(mask, r.tag))
    case op => op
  }

  function OpsBy(mask: Mask, log: seq<Rec>): (ops: seq<Op<Key, Payload>>) {
    seq(|log|, i requires 0 <= i < |log| => OpBy(mask, log[i]))
  }

  function Ops(log: seq<Rec>): (ops: seq<Op<Key, Payload>>) {
    seq(|log|, i requires 0 <= i < |log| => OpOf(log[i]))
  }

  /** How many splices a log holds: a bound on how far it can move an id. */
  function Splices(log: seq<Rec>): nat {
    if log == [] then 0 else Splices(log[..|log| - 1]) + if log[|log| - 1].tag.cls == SPLICE then 1 else 0
  }

  lemma {:induction false} SplicesAdd(a: seq<Rec>, b: seq<Rec>)
    ensures Splices(a + b) == Splices(a) + Splices(b)
  {
    if b == [] {
      assert a + b == a;
    } else {
      assert (a + b)[..|a + b| - 1] == a + b[..|b| - 1];
      SplicesAdd(a, b[..|b| - 1]);
    }
  }

  // ----- lfs_dir_getslice -----

  /** The lookup while a move out of this block is pending: the entry at index
      move is hidden and later indices are taken to have closed up over it. */
  function LookupPending<K(==), V>(log: seq<Op<K, V>>, move: Option<nat>, key: K, id: nat): Option<V> {
    match move
    case None => Lookup(log, key, id)
    case Some(m) => if m == id then None else Lookup(log, key, if m < id then id + 1 else id)
  }

  /** What a lookup hands back: nothing, or a tag that carries the id asked for with the
      type and size found. */
  predicate Answers(found: Option<Payload>, id: nat, tag: Option<Tag>) {
    match found
    case None => tag == None
    case Some(val) =>
      && tag.Some?
      && tag.value.cls == val.cls && tag.value.chunk == val.chunk && tag.value.id == id && tag.value.size == val.size
  }

  /** And from a place in the value, as far as it goes, its bytes. */
  predicate Holds(found: Option<Payload>, goff: nat, gsize: nat, buffer: seq<Octet>) {
    found.Some? ==>
      && |buffer| == gsize
      && forall k :: 0 <= k < gsize ==>
        if k >= found.value.size then buffer[k] == 0
        else goff + k < |found.value.data| ==> buffer[k] == found.value.data[goff + k]
  }

  /** One iteration: r answers the lookup, ends it, or moves the id. */
  method StepOver(r: Rec, mask: Mask, key: Key, id: nat, gdiff: int)
    returns (done: bool, tag: Option<Tag>, moved: int)
    requires WellFormedTag(r.tag) && key.cls < SPLICE && id < 1024 && gdiff <= id
    ensures match StepBack(OpBy(mask, r), key, id - gdiff)
            case Hit(val) => done && Answers(Some(val), id, tag)
            case Gone => done && tag == None
            case Open(before) =>
              && !done && tag == None && 0 <= before == id - moved
              && before <= id - gdiff + if r.tag.cls == SPLICE then 1 else 0
  {
    done, tag, moved := false, None, gdiff;
    if r.tag.cls == SPLICE && r.tag.id <= id - gdiff {
      if IsCreate(r.tag) && r.tag.size == 0 && r.tag.id == id - gdiff {
        // found where we were created
        done := true;
        return;
      }
      moved := gdiff + Splice(r.tag);
    }
    if KeyBy(mask, r.tag) == key && r.tag.id == id - moved {
      done := true;
      if !IsDelete(r.tag) {
        tag := Some(Shift(r.tag, moved));
      }
    }
  }

  lemma PeelBy(init: seq<Rec>, r: Rec, mask: Mask, key: Key, id: int, o: Outcome<Payload>)
    requires o == StepBack(OpBy(mask, r), key, id)
    ensures Lookup(OpsBy(mask, init + [r]), key, id) ==
      if o.Open? then Lookup(OpsBy(mask, init), key, o.id) else Found(o)
    ensures Splices(init + [r]) == Splices(init) + if r.tag.cls == SPLICE then 1 else 0
    ensures WellFormed(init + [r]) ==> WellFormed(init) && WellFormedTag(r.tag)
  {
    var log := init + [r];
    assert log[..|log| - 1] == init && OpsBy(mask, log)[..|log| - 1] == OpsBy(mask, init);
    assert log[|log| - 1] == r;
    assert WellFormed(log) ==> forall i :: 0 <= i < |init| ==> init[i] == log[i];
  }

  lemma LookupPeel(init: seq<Rec>, r: Rec, key: Key, id: int, o: Outcome<Payload>)
    requires o == StepBack(OpOf(r), key, id)
    ensures Lookup(Ops(init + [r]), key, id) == if o.Open? then Lookup(Ops(init), key, o.id) else Found(o)
    ensures Splices(init + [r]) == Splices(init) + if r.tag.cls == SPLICE then 1 else 0
    ensures WellFormed(init + [r]) ==> WellFormed(init) && WellFormedTag(r.tag)
  {
    var log := init + [r];
    assert log[..|log| - 1] == init && Ops(log)[..|log| - 1] == Ops(init);
    assert log[|log| - 1] == r;
    assert WellFormed(log) ==> forall i :: 0 <= i < |init| ==> init[i] == log[i];
  }

  // ----- Masks -----

  /** A name, structure or attribute answers lookups of its entry by its kind, and changes
      no other; kinds are told apart by the first bits of the word. A size of 0x3ff removes. */
  lemma WriteThenRead(log: seq<Rec>, r: Rec, mask: Mask, t: Tag)
    requires r.tag.cls < 4
    ensures Lookup(OpsBy(mask, log + [r]), KeyBy(mask, t), t.id) ==
      if r.tag.id != t.id || Pack(r.tag) / MaskUnit(mask) != Pack(t) / MaskUnit(mask)
      then Lookup(OpsBy(mask, log), KeyBy(mask, t), t.id)
      else if r.tag.size == 0x3ff then None else Some(Payload(r.tag.cls, r.tag.chunk, r.tag.size, r.data))
  {
    hide Walk;
    KindIs(mask, r.tag, t);
    PeelBy(log, r, mask, KeyBy(mask, t), t.id, StepBack(OpBy(mask, r), KeyBy(mask, t), t.id));
  }

  /** A creation (class 4, chunk 1) opens an entry that knows nothing and moves those from
      there on up, a removal (chunk 0xff) moves those behind down; tags of other classes
      change no entry. */
  lemma SpliceThenRead(log: seq<Rec>, r: Rec, mask: Mask, key: Key, id: nat)
    requires r.tag.cls >= 4 && (r.tag.cls == 4 ==> r.tag.chunk == 1 || r.tag.chunk == 0xff)
    ensures Lookup(OpsBy(mask, log + [r]), key, id) ==
      if r.tag.cls > 4 || id < r.tag.id then Lookup(OpsBy(mask, log), key, id)
      else if r.tag.chunk == 0xff then Lookup(OpsBy(mask, log), key, id + 1)
      else if id == r.tag.id then None else Lookup(OpsBy(mask, log), key, id - 1)
  {
    hide Walk;
    PeelBy(log, r, mask, key, id, StepBack(OpBy(mask, r), key, id));
  }

  /** User attributes are kept by their whole type, names and structures by class: asked
      for so, the log answers what it stands for. */
  lemma {:induction false} OwnMask(log: seq<Rec>, mask: Mask, key: Key, id: int)
    requires if key.cls == USERATTR then mask == ByType
      else (key.cls == NAME || key.cls == STRUCT) && mask == ByClass
    ensures Walk(OpsBy(mask, log), key, id) == Walk(Ops(log), key, id)
  {
    if log != [] {
      var n := |log| - 1;
      assert OpsBy(mask, log)[..n] == OpsBy(mask, log[..n]) && Ops(log)[..n] == Ops(log[..n]);
      var o := StepBack(OpOf(log[n]), key, id);
      assert StepBack(OpBy(mask, log[n]), key, id) == o;
      if o.Open? { OwnMask(log[..n], mask, key, o.id); }
    }
  }

  /** A lookup by another mask finds it too exactly if it is of the kind asked for, as
      the name of the superblock is not for mask 0x780. */
  lemma {:induction false} FinerMask(log: seq<Rec>, mask: Mask, t: Tag, id: int)
    requires t.cls == NAME || t.cls == STRUCT
    ensures var o := Walk(OpsBy(ByClass, log), Key(t.cls, 0), id);
      && (o.Hit? ==>
        (Walk(OpsBy(mask, log), KeyBy(mask, t), id) == o <==> Masked(mask, o.val.chunk) == Masked(mask, t.chunk)))
      && (o.Open? ==> Walk(OpsBy(mask, log), KeyBy(mask, t), id) == o)
  {
    if log != [] {
      var n := |log| - 1;
      assert OpsBy(mask, log)[..n] == OpsBy(mask, log[..n]) && OpsBy(ByClass, log)[..n] == OpsBy(ByClass, log[..n]);
      var o, p := StepBack(OpBy(ByClass, log[n]), Key(t.cls, 0), id), StepBack(OpBy(mask, log[n]), KeyBy(mask, t), id);
      assert p == o || (p == Open(id) && !o.Open?);
      if o.Open? { FinerMask(log[..n], mask, t, o.id); }
      HitsKind(log, mask, KeyBy(mask, t), id);
    }
  }

  /** What a lookup finds is of the kind asked for. */
  lemma {:induction false} HitsKind(log: seq<Rec>, mask: Mask, key: Key, id: int)
    ensures var o := Walk(OpsBy(mask, log), key, id);
      o.Hit? ==> key == Key(o.val.cls, Masked(mask, o.val.chunk))
  {
    if log != [] {
      var n := |log| - 1;
      assert OpsBy(mask, log)[..n] == OpsBy(mask, log[..n]);
      var o := StepBack(OpBy(mask, log[n]), key, id);
      if o.Open? { HitsKind(log[..n], mask, key, o.id); }
    }
  }

  /** Hiding the moved entry is not the same as deleting it: the index of the
      move itself answers nothing, where after the deletion it names the entry
      that follows. The two agree exactly when that entry has nothing to answer. */
  lemma PendingMoveHidesNext<K, V>(log: seq<Op<K, V>>, move: nat, key: K, id: nat)
    ensures LookupPending(log, Some(move), key, id) == Lookup(log + [Remove(move)], key, id) <==>
            id != move || Lookup(log, key, move + 1) == None
  {
    assert (log + [Remove(move)])[..|log|] == log;
  }

  /** An entry that a pending move makes unreachable at every index. */
  lemma PendingMoveLosesEntry(key: Key, val: Payload, id: nat)
    ensures var log := [Set(0, key, val), Set(1, key, val)];
            LookupPending(log, Some(0), key, id) == None && Get(Replay(log), 1, key) == Some(val)
  {
    var log := [Set(0, key, val), Set(1, key, val)];
    LookupIsReplay(log, key, 1);
    assert log[..1] == [Set(0, key, val)] && log[..1][..0] == [];
    assert Walk([Set(0, key, val)], key, id + 1) == Open(id + 1);
  }

  // ----- lfs_dir_traverse, as compaction runs it -----

  /** Ids that a log can shift by all its splices and still hold in ten bits. */
  predicate IdsFit(log: seq<Rec>) {
    forall i :: 0 <= i < |log| && IsEntryAttr(log[i].tag) ==> log[i].tag.id + Splices(log) < 1024
  }

  /** lfs_dir_traverse_filter: whether a later tag makes filtertag redundant,
      and otherwise where a later splice leaves it. */
  method Filtered(filtertag: Tag, tag: Tag) returns (redundant: bool, moved: Tag)
    requires IsEntryAttr(filtertag) && WellFormedTag(filtertag) && WellFormedTag(tag)
    requires tag.cls == SPLICE ==> filtertag.id < 1023
    ensures redundant <==>
      IsDelete(filtertag) || Filter(KeyOf(filtertag), filtertag.id, OpOf(Rec(tag, []))) == None
    ensures !redundant ==>
      && Filter(KeyOf(filtertag), filtertag.id, OpOf(Rec(tag, []))) == Some(moved.id)
      && moved == filtertag.(id := moved.id)
      && moved.id <= filtertag.id + if tag.cls == SPLICE then 1 else 0
  {
    moved := filtertag;
    // which mask depends on the unique bit of the later tag
    var same := filtertag.cls == tag.cls && (tag.cls % 2 == 0 || filtertag.chunk == tag.chunk);
    if (same && filtertag.id == tag.id) || IsDelete(filtertag) || (IsRemove(tag) && tag.id == filtertag.id) {
      return true, moved;
    }
    if tag.cls == SPLICE && tag.id <= filtertag.id {
      moved := Shift(filtertag, Splice(tag));
    }
    redundant := false;
  }

  predicate Rebased(out: seq<Rec>, n: nat) {
    forall k :: 0 <= k < |out| ==> WellFormedTag(out[k].tag) && IsEntryAttr(out[k].tag) && out[k].tag.id < n
  }

  /** The data of an entry's attribute is as long as its tag says. */
  predicate Sized(log: seq<Rec>) {
    forall k :: 0 <= k < |log| && IsEntryAttr(log[k].tag) ==> |log[k].data| == DSize(log[k].tag) - 4
  }

  /** Every tag that is not made redundant by a later one, with its final id,
      as far as that id is in [begin, end), rebased to begin. */
  method Traverse(log: seq<Rec>, begin: nat, end: nat) returns (out: seq<Rec>)
    requires WellFormed(log) && IdsFit(log) && begin <= end
    ensures Ops(out) == Compact(Ops(log), begin, end)
    ensures Rebased(out, end - begin) && (Sized(log) ==> Sized(out))
    ensures forall chunk: nat, id: nat :: id < end - begin ==>
      Lookup(OpsBy(ByType, out), Key(USERATTR, chunk), id) ==
      Lookup(OpsBy(ByType, log), Key(USERATTR, chunk), id + begin)
    ensures forall cls: nat, id: nat :: (cls == NAME || cls == STRUCT) && id < end - begin ==>
      Lookup(OpsBy(ByClass, out), Key(cls, 0), id) == Lookup(OpsBy(ByClass, log), Key(cls, 0), id + begin)
  {
    hide OpsBy, Lookup;
    out := [];
    var i := 0;
    while i < |log|
      invariant 0 <= i <= |log|
      invariant Compact(Ops(log), begin, end) == Ops(out) + Compact(Ops(log)[i..], begin, end)
      invariant Rebased(out, end - begin) && (Sized(log) ==> Sized(out))
    {
      var e := WrittenFor(log, i, begin, end);
      CompactStep(log, i, begin, end, out, e);
      out := out + e;
      i := i + 1;
    }
    AllAnswer(log, out, begin, end);
  }

  lemma AllAnswer(log: seq<Rec>, out: seq<Rec>, begin: nat, end: nat)
    requires begin <= end && Ops(out) == Compact(Ops(log), begin, end)
    ensures forall chunk: nat, id: nat :: id < end - begin ==>
      Lookup(OpsBy(ByType, out), Key(USERATTR, chunk), id) ==
      Lookup(OpsBy(ByType, log), Key(USERATTR, chunk), id + begin)
    ensures forall cls: nat, id: nat :: (cls == NAME || cls == STRUCT) && id < end - begin ==>
      Lookup(OpsBy(ByClass, out), Key(cls, 0), id) == Lookup(OpsBy(ByClass, log), Key(cls, 0), id + begin)
  {
    hide Ops, OpsBy, Lookup, Compact;
    forall chunk: nat, id: nat | id < end - begin
      ensures Lookup(OpsBy(ByType, out), Key(USERATTR, chunk), id) ==
        Lookup(OpsBy(ByType, log), Key(USERATTR, chunk), id + begin)
    {
      StillAnswers(log, out, begin, end, ByType, Key(USERATTR, chunk), id);
    }
    forall cls: nat, id: nat | (cls == NAME || cls == STRUCT) && id < end - begin
      ensures Lookup(OpsBy(ByClass, out), Key(cls, 0), id) == Lookup(OpsBy(ByClass, log), Key(cls, 0), id + begin)
    {
      StillAnswers(log, out, begin, end, ByClass, Key(cls, 0), id);
    }
  }

  /** Asked as the driver asks, a compacted log answers as the original. */
  lemma StillAnswers(log: seq<Rec>, out: seq<Rec>, begin: nat, end: nat, mask: Mask, key: Key, id: nat)
    requires begin <= end && Ops(out) == Compact(Ops(log), begin, end) && id < end - begin
    requires if key.cls == USERATTR then mask == ByType
      else (key.cls == NAME || key.cls == STRUCT) && mask == ByClass
    ensures Lookup(OpsBy(mask, out), key, id) == Lookup(OpsBy(mask, log), key, id + begin)
  {
    hide Ops, OpsBy, Compact, Walk;
    CompactPreservesLookup(Ops(log), begin, end, key, id);
    OwnMask(out, mask, key, id);
    OwnMask(log, mask, key, id + begin);
  }

  /** What the traversal hands on for the tag at i: nothing, or one record. */
  method WrittenFor(log: seq<Rec>, i: nat, begin: nat, end: nat) returns (e: seq<Rec>)
    requires WellFormed(log) && IdsFit(log) && i < |log| && begin <= end
    ensures Ops(e) == Emit(OpOf(log[i]), Ops(log)[i + 1..], begin, end)
    ensures Rebased(e, end - begin) && (Sized(log) ==> Sized(e))
  {
    e := [];
    if log[i].tag.cls < SPLICE {
      var kept, last := SurvivesIn(log[i].tag, log, i + 1);
      if kept && begin <= last.id < end {
        e := [Rec(Shift(last, -(begin as int)), log[i].data)];
      }
    }
  }

  lemma CompactStep(log: seq<Rec>, i: nat, begin: nat, end: nat, out: seq<Rec>, e: seq<Rec>)
    requires i < |log| && Ops(e) == Emit(Ops(log)[i], Ops(log)[i + 1..], begin, end)
    requires Compact(Ops(log), begin, end) == Ops(out) + Compact(Ops(log)[i..], begin, end)
    ensures Compact(Ops(log), begin, end) == Ops(out + e) + Compact(Ops(log)[i + 1..], begin, end)
  {
    assert Ops(log)[i..][0] == Ops(log)[i] && Ops(log)[i..][1..] == Ops(log)[i + 1..];
    assert Ops(out + e) == Ops(out) + Ops(e);
  }

  /** The inner scan: does a tag stay, given everything logged from start on,
      and under which id? */
  method SurvivesIn(t: Tag, log: seq<Rec>, start: nat) returns (kept: bool, last: Tag)
    requires WellFormed(log) && start <= |log|
    requires IsEntryAttr(t) && WellFormedTag(t) && t.id + Splices(log) < 1024
    ensures IsDelete(t) ==> kept == (start == |log|) && last == t
    ensures !IsDelete(t) ==>
      && kept == Survive(KeyOf(t), t.id, Ops(log)[start..]).Some?
      && (kept ==> Survive(KeyOf(t), t.id, Ops(log)[start..]) == Some(last.id) && last == t.(id := last.id))
  {
    hide Filter, OpOf;
    last := t;
    var j := start;
    while j < |log|
      invariant start <= j <= |log|
      invariant last == t.(id := last.id)
      invariant last.id <= t.id + Splices(log[..j])
      invariant IsDelete(t) ==> j == start && last == t
      invariant Survive(KeyOf(t), t.id, Ops(log)[start..]) == Survive(KeyOf(t), last.id, Ops(log)[j..])
    {
      SurviveStep(log, j, KeyOf(t), last.id);
      var redundant, moved := Filtered(last, log[j].tag);
      if redundant {
        return false, t;
      }
      last := moved;
      j := j + 1;
    }
    kept := true;
  }

  lemma SurviveStep(log: seq<Rec>, j: nat, key: Key, id: int)
    requires WellFormed(log) && j < |log|
    ensures WellFormedTag(log[j].tag)
    ensures Survive(key, id, Ops(log)[j..]) ==
            match Filter(key, id, OpOf(Rec(log[j].tag, [])))
            case Some(moved) => Survive(key, moved, Ops(log)[j + 1..])
            case None => None
    ensures Splices(log[..j + 1]) == Splices(log[..j]) + if log[j].tag.cls == SPLICE then 1 else 0
    ensures Splices(log[..j + 1]) <= Splices(log)
  {
    assert Ops(log)[j..][0] == OpOf(log[j]) && Ops(log)[j..][1..] == Ops(log)[j + 1..];
    assert log[..j + 1][..j] == log[..j];
    SplicesPrefix(log, j + 1);
    FilterIgnoresData(key, id, log[j]);
  }

  lemma FilterIgnoresData(key: Key, id: int, r: Rec)
    ensures Filter(key, id, OpOf(r)) == Filter(key, id, OpOf(Rec(r.tag, [])))
  {}

  lemma {:induction false} SplicesPrefix(log: seq<Rec>, n: nat)
    requires n <= |log|
    ensures Splices(log[..n]) <= Splices(log)
  {
    assert log == log[..n] + log[n..];
    SplicesAdd(log[..n], log[n..]);
  }
}
