/** Global state, kept as differences spread over the metadata pairs: the XOR of
    what all linked pairs record is what is on the medium, through commits,
    compactions, splits and drops, so a mount rebuilds the pending move. */
module Gstate {
  import opened Bytes

  // ----- Words -----

  function XorWord(a: Word, b: Word): Word {
    a ^ b
  }

  /** Without the size field: the orphan count and the superblock bit are kept in
      memory only. */
  function MaskWord(a: Word): Word {
    a & 0xffff_fc00
  }

  lemma XorWordSwap(a: Word, b: Word)
    ensures XorWord(a, b) == XorWord(b, a)
  {}

  lemma XorWordRegroup(a: Word, b: Word, c: Word)
    ensures XorWord(XorWord(a, b), c) == XorWord(a, XorWord(b, c))
  {}

  lemma XorWordSelf(a: Word)
    ensures XorWord(a, a) == 0 && XorWord(a, 0) == a
  {}

  // Masking is a shift down and up again, which goes through an XOR bit by bit.

  function Down(a: Word): Word {
    a >> 10
  }

  function Up(a: Word): Word {
    a << 10
  }

  lemma DownXor(a: Word, b: Word)
    ensures Down(XorWord(a, b)) == XorWord(Down(a), Down(b))
  {}

  lemma UpXor(a: Word, b: Word)
    ensures Up(XorWord(a, b)) == XorWord(Up(a), Up(b))
  {}

  lemma MaskIsShift(a: Word)
    ensures MaskWord(a) == Up(Down(a))
  {}

  lemma MaskWordXor(a: Word, b: Word)
    ensures MaskWord(XorWord(a, b)) == XorWord(MaskWord(a), MaskWord(b))
  {
    hide XorWord, MaskWord, Down, Up;
    MaskIsShift(a);
    MaskIsShift(b);
    MaskIsShift(XorWord(a, b));
    DownXor(a, b);
    UpXor(Down(a), Down(b));
  }

  lemma MaskWordTwice(a: Word)
    ensures MaskWord(MaskWord(a)) == MaskWord(a) && MaskWord(0) == 0
  {}

  // ----- Global states -----

  datatype State = State(tag: Word, first: Word, second: Word)

  const ZERO: State := State(0, 0, 0)

  /** lfs_gstate_xor. */
  function Xor(a: State, b: State): State {
    State(XorWord(a.tag, b.tag), XorWord(a.first, b.first), XorWord(a.second, b.second))
  }

  function Masked(a: State): State {
    a.(tag := MaskWord(a.tag))
  }

  lemma XorLaws(a: State, b: State, c: State)
    ensures Xor(a, b) == Xor(b, a)
    ensures Xor(Xor(a, b), c) == Xor(a, Xor(b, c))
    ensures Xor(a, a) == ZERO && Xor(a, ZERO) == a
  {
    hide XorWord;
    XorWordSwap(a.tag, b.tag);
    XorWordSwap(a.first, b.first);
    XorWordSwap(a.second, b.second);
    XorWordRegroup(a.tag, b.tag, c.tag);
    XorWordRegroup(a.first, b.first, c.first);
    XorWordRegroup(a.second, b.second, c.second);
    XorWordSelf(a.tag);
    XorWordSelf(a.first);
    XorWordSelf(a.second);
  }

  lemma MaskLaws(a: State, b: State)
    ensures Masked(Xor(a, b)) == Xor(Masked(a), Masked(b))
    ensures Masked(Masked(a)) == Masked(a) && Masked(ZERO) == ZERO
  {
    hide XorWord, MaskWord;
    MaskWordXor(a.tag, b.tag);
    MaskWordTwice(a.tag);
  }

  /** What all these pairs record together. */
  function Sum(pairs: seq<State>): State {
    if pairs == [] then ZERO else Xor(pairs[0], Sum(pairs[1..]))
  }

  lemma {:induction false} SumUpdate(pairs: seq<State>, i: nat, d: State)
    requires i < |pairs|
    ensures Sum(pairs[i := Xor(d, pairs[i])]) == Xor(d, Sum(pairs))
  {
    hide Xor;
    var after := pairs[i := Xor(d, pairs[i])];
    var p, rest := pairs[0], Sum(pairs[1..]);
    if i == 0 {
      assert after[1..] == pairs[1..];
      XorLaws(d, p, rest);
    } else {
      SumUpdate(pairs[1..], i - 1, d);
      assert after[1..] == pairs[1..][i - 1 := Xor(d, pairs[1..][i - 1])];
      XorLaws(p, d, rest);
      XorLaws(d, p, rest);
    }
  }

  lemma {:induction false} SumInsert(pairs: seq<State>, i: nat, p: State)
    requires i <= |pairs|
    ensures Sum(pairs[..i] + [p] + pairs[i..]) == Xor(p, Sum(pairs))
  {
    hide Xor;
    var after := pairs[..i] + [p] + pairs[i..];
    if i == 0 {
      assert after[1..] == pairs;
    } else {
      SumInsert(pairs[1..], i - 1, p);
      assert after[1..] == pairs[1..][..i - 1] + [p] + pairs[1..][i - 1..];
      XorLaws(pairs[0], p, Sum(pairs[1..]));
      XorLaws(p, pairs[0], Sum(pairs[1..]));
    }
  }

  // ----- The file system's part of it -----

  /** Global state in memory, what is thought to be on the medium, what was taken
      from a dropped pair, and what the linked pairs record, in tail order. */
  datatype Fs = Fs(gstate: State, gdisk: State, gdelta: State, pairs: seq<State>)

  /** What is on the medium, with what is on its way, is gdisk. */
  ghost predicate Conserved(fs: Fs) {
    Xor(Sum(fs.pairs), Masked(fs.gdelta)) == Masked(fs.gdisk)
  }

  /** lfs_dir_relocatingcommit, the global diffs of a commit to pair i. */
  function Commit(fs: Fs, i: nat): Fs
    requires i < |fs.pairs|
  {
    var delta := Masked(Xor(Xor(fs.gstate, fs.gdisk), fs.gdelta));
    Fs(fs.gstate, fs.gstate, ZERO,
       if delta == ZERO then fs.pairs else fs.pairs[i := Xor(delta, fs.pairs[i])])
  }

  /** lfs_dir_compact, what is brought over into the new copy of pair i. */
  function Compact(fs: Fs, i: nat, relocated: bool): Fs
    requires i < |fs.pairs|
  {
    var own := if relocated then ZERO else Xor(fs.gdisk, fs.gstate);
    var delta := Masked(Xor(own, fs.gdelta));
    Fs(fs.gstate, if relocated then fs.gdisk else fs.gstate, ZERO, fs.pairs[i := Xor(delta, fs.pairs[i])])
  }

  function Inserted(fs: Fs, i: nat): Fs
    requires i <= |fs.pairs|
  {
    fs.(pairs := fs.pairs[..i] + [ZERO] + fs.pairs[i..])
  }

  /** lfs_dir_split: a new pair behind pair i is compacted first, then pair i. */
  function Split(fs: Fs, i: nat, tailRelocated: bool, relocated: bool): Fs
    requires i < |fs.pairs|
  {
    Compact(Compact(Inserted(fs, i + 1), i + 1, tailRelocated), i, relocated)
  }

  /** A new directory is written, then linked by a commit to pair i. */
  function Create(fs: Fs, i: nat, relocated: bool): Fs
    requires i < |fs.pairs|
  {
    Commit(Compact(Inserted(fs, i + 1), i + 1, relocated), i)
  }

  /** lfs_dir_drop: pair i steals the state and the tail of the pair behind it. */
  function Drop(fs: Fs, i: nat): Fs
    requires i + 1 < |fs.pairs|
  {
    Commit(fs.(gdelta := Xor(fs.gdelta, fs.pairs[i + 1]), pairs := fs.pairs[..i + 1] + fs.pairs[i + 2..]), i)
  }

  datatype Event =
    | DoPrepare(gstate: State)
    | DoCommit(i: nat)
    | DoCompact(i: nat, relocated: bool)
    | DoSplit(i: nat, tailRelocated: bool, relocated: bool)
    | DoCreate(i: nat, relocated: bool)
    | DoDrop(i: nat)

  predicate Possible(fs: Fs, e: Event) {
    match e
    case DoPrepare(_) => true
    case DoDrop(i) => i + 1 < |fs.pairs|
    case DoCommit(i) => i < |fs.pairs|
    case DoCompact(i, _) => i < |fs.pairs|
    case DoSplit(i, _, _) => i < |fs.pairs|
    case DoCreate(i, _) => i < |fs.pairs|
  }

  /** One event; one that names a pair there is not does nothing. */
  function Apply(fs: Fs, e: Event): Fs {
    if !Possible(fs, e) then fs else
    match e
    case DoPrepare(g) => fs.(gstate := g)
    case DoCommit(i) => Commit(fs, i)
    case DoCompact(i, relocated) => Compact(fs, i, relocated)
    case DoSplit(i, tailRelocated, relocated) => Split(fs, i, tailRelocated, relocated)
    case DoCreate(i, relocated) => Create(fs, i, relocated)
    case DoDrop(i) => Drop(fs, i)
  }

  function Run(fs: Fs, events: seq<Event>): Fs {
    if events == [] then fs else Apply(Run(fs, events[..|events| - 1]), events[|events| - 1])
  }

  // ----- Conservation -----

  lemma CommitConserves(fs: Fs, i: nat)
    requires Conserved(fs) && i < |fs.pairs|
    ensures Conserved(Commit(fs, i))
  {
    hide Xor, Masked;
    var delta := Masked(Xor(Xor(fs.gstate, fs.gdisk), fs.gdelta));
    SumUpdate(fs.pairs, i, delta);
    DeltaCarries(Sum(fs.pairs), Xor(fs.gstate, fs.gdisk), fs.gdelta, fs.gdisk);
    XorLaws(fs.gstate, fs.gdisk, fs.gdisk);
    XorLaws(fs.gstate, ZERO, ZERO);
    XorLaws(fs.gdisk, ZERO, ZERO);
    XorLaws(Sum(fs.pairs), ZERO, ZERO);
    XorLaws(delta, Sum(fs.pairs), ZERO);
    XorLaws(Masked(fs.gstate), ZERO, ZERO);
    MaskLaws(ZERO, ZERO);
  }

  /** A recorded sum that stands for gdisk once gdelta is added stands, with the
      difference to another state, for that state. */
  lemma DeltaCarries(sum: State, diff: State, gdelta: State, gdisk: State)
    requires Xor(sum, Masked(gdelta)) == Masked(gdisk)
    ensures Xor(Masked(Xor(diff, gdelta)), sum) == Masked(Xor(diff, gdisk))
  {
    hide Xor, Masked;
    MaskLaws(diff, gdelta);
    MaskLaws(diff, gdisk);
    XorLaws(Masked(diff), Masked(gdelta), sum);
    XorLaws(Masked(gdelta), sum, ZERO);
  }

  lemma CompactConserves(fs: Fs, i: nat, relocated: bool)
    requires Conserved(fs) && i < |fs.pairs|
    ensures Conserved(Compact(fs, i, relocated))
  {
    hide Xor, Masked;
    var own := if relocated then ZERO else Xor(fs.gdisk, fs.gstate);
    var delta := Masked(Xor(own, fs.gdelta));
    SumUpdate(fs.pairs, i, delta);
    DeltaCarries(Sum(fs.pairs), own, fs.gdelta, fs.gdisk);
    XorLaws(fs.gdisk, fs.gstate, fs.gdisk);
    XorLaws(fs.gstate, fs.gdisk, fs.gdisk);
    XorLaws(fs.gstate, ZERO, ZERO);
    XorLaws(ZERO, fs.gdisk, ZERO);
    XorLaws(fs.gdisk, ZERO, ZERO);
    XorLaws(Xor(delta, Sum(fs.pairs)), ZERO, ZERO);
    MaskLaws(ZERO, ZERO);
  }

  lemma InsertedConserves(fs: Fs, i: nat)
    requires Conserved(fs) && i <= |fs.pairs|
    ensures Conserved(Inserted(fs, i))
  {
    hide Xor, Masked;
    SumInsert(fs.pairs, i, ZERO);
    XorLaws(ZERO, Sum(fs.pairs), ZERO);
    XorLaws(Sum(fs.pairs), ZERO, ZERO);
  }

  /** Every pair records masked states only. */
  predicate AllMasked(pairs: seq<State>) {
    forall i :: 0 <= i < |pairs| ==> Masked(pairs[i]) == pairs[i]
  }

  lemma DropConserves(fs: Fs, i: nat)
    requires Conserved(fs) && AllMasked(fs.pairs) && i + 1 < |fs.pairs|
    ensures Conserved(Drop(fs, i))
  {
    hide Xor, Masked;
    var p := fs.pairs[i + 1];
    var rest := fs.pairs[..i + 1] + fs.pairs[i + 2..];
    assert fs.pairs == rest[..i + 1] + [p] + rest[i + 1..];
    SumInsert(rest, i + 1, p);
    MaskLaws(fs.gdelta, p);
    var stolen := fs.(gdelta := Xor(fs.gdelta, p), pairs := rest);
    XorLaws(Sum(rest), Masked(fs.gdelta), p);
    XorLaws(Masked(fs.gdelta), p, ZERO);
    XorLaws(p, Sum(rest), Masked(fs.gdelta));
    XorLaws(Sum(rest), p, Masked(fs.gdelta));
    CommitConserves(stolen, i);
  }

  lemma StaysMasked(d: State, p: State)
    requires Masked(p) == p
    ensures Masked(Xor(Masked(d), p)) == Xor(Masked(d), p) && Masked(ZERO) == ZERO
  {
    hide Xor, Masked;
    MaskLaws(Masked(d), p);
    MaskLaws(d, p);
  }

  lemma CompactMasked(fs: Fs, i: nat, relocated: bool)
    requires AllMasked(fs.pairs) && i < |fs.pairs|
    ensures AllMasked(Compact(fs, i, relocated).pairs) && AllMasked(Commit(fs, i).pairs)
  {
    hide Xor, Masked;
    var own := if relocated then ZERO else Xor(fs.gdisk, fs.gstate);
    StaysMasked(Xor(own, fs.gdelta), fs.pairs[i]);
    StaysMasked(Xor(Xor(fs.gstate, fs.gdisk), fs.gdelta), fs.pairs[i]);
  }

  lemma InsertedMasked(fs: Fs, i: nat)
    requires AllMasked(fs.pairs) && i <= |fs.pairs|
    ensures AllMasked(Inserted(fs, i).pairs)
  {
    hide Xor, Masked;
    StaysMasked(ZERO, ZERO) by { MaskLaws(ZERO, ZERO); }
  }

  lemma ApplyConserves(fs: Fs, e: Event)
    requires Conserved(fs) && AllMasked(fs.pairs)
    ensures Conserved(Apply(fs, e)) && AllMasked(Apply(fs, e).pairs)
  {
    hide Commit, Compact, Inserted, Conserved, AllMasked;
    if Possible(fs, e) {
      match e
      case DoPrepare(g) => PrepareConserves(fs, g);
      case DoCommit(i) => CommitConserves(fs, i); CompactMasked(fs, i, false);
      case DoCompact(i, relocated) => CompactConserves(fs, i, relocated); CompactMasked(fs, i, relocated);
      case DoSplit(i, tailRelocated, relocated) =>
        NewPairConserves(fs, i + 1, tailRelocated);
        var g := Compact(Inserted(fs, i + 1), i + 1, tailRelocated);
        CompactConserves(g, i, relocated);
        CompactMasked(g, i, relocated);
      case DoCreate(i, relocated) =>
        NewPairConserves(fs, i + 1, relocated);
        var g := Compact(Inserted(fs, i + 1), i + 1, relocated);
        CommitConserves(g, i);
        CompactMasked(g, i, false);
      case DoDrop(i) => DropConserves(fs, i); DropMasked(fs, i);
    }
  }

  lemma PrepareConserves(fs: Fs, g: State)
    requires Conserved(fs) && AllMasked(fs.pairs)
    ensures Conserved(fs.(gstate := g)) && AllMasked(fs.(gstate := g).pairs)
  {}

  lemma NewPairConserves(fs: Fs, i: nat, relocated: bool)
    requires Conserved(fs) && AllMasked(fs.pairs) && i <= |fs.pairs|
    ensures |Inserted(fs, i).pairs| == |fs.pairs| + 1
    ensures var g := Compact(Inserted(fs, i), i, relocated);
      Conserved(g) && AllMasked(g.pairs) && |g.pairs| == |fs.pairs| + 1
  {
    hide Xor, Masked, Conserved, AllMasked;
    InsertedConserves(fs, i);
    InsertedMasked(fs, i);
    CompactConserves(Inserted(fs, i), i, relocated);
    CompactMasked(Inserted(fs, i), i, relocated);
  }

  lemma DropMasked(fs: Fs, i: nat)
    requires AllMasked(fs.pairs) && i + 1 < |fs.pairs|
    ensures AllMasked(Drop(fs, i).pairs)
  {
    hide Xor, Masked;
    var stolen := fs.(gdelta := Xor(fs.gdelta, fs.pairs[i + 1]), pairs := fs.pairs[..i + 1] + fs.pairs[i + 2..]);
    CompactMasked(stolen, i, false);
  }

  /** Conservation over whole runs. */
  lemma {:induction false} RunConserves(fs: Fs, events: seq<Event>)
    requires Conserved(fs) && AllMasked(fs.pairs)
    ensures Conserved(Run(fs, events)) && AllMasked(Run(fs, events).pairs)
  {
    hide Apply, Conserved, AllMasked;
    if events != [] {
      RunConserves(fs, events[..|events| - 1]);
      ApplyConserves(Run(fs, events[..|events| - 1]), events[|events| - 1]);
    }
  }

  // ----- Mounting -----

  /** lfs_tag_isvalid. */
  predicate IsValid(tag: Word) {
    tag & 0x8000_0000 == 0
  }

  /** lfs_gstate_hasmove, and the id of the entry that moves. */
  predicate HasMove(g: State) {
    TypeWord(g.tag) != 0
  }

  function TypeWord(a: Word): Word {
    a & 0x7000_0000
  }

  function MoveBits(g: State): Word {
    MoveWord(g.tag)
  }

  function MoveWord(a: Word): Word {
    a & 0x7fff_fc00
  }

  lemma TypeInMask(a: Word)
    ensures TypeWord(MaskWord(a)) == TypeWord(a)
  {}

  lemma MoveWordInMask(a: Word)
    ensures MoveWord(MaskWord(a)) == MoveWord(a)
  {}

  lemma ValidInMask(a: Word)
    ensures IsValid(MaskWord(a)) <==> IsValid(a)
  {}

  /** lfs_mount_, the global state: the sum over the pairs, with one orphan if
      there were some. */
  function Mounted(pairs: seq<State>): Fs {
    var sum := Sum(pairs);
    var g := if IsValid(sum.tag) then sum else sum.(tag := Increment(sum.tag));
    Fs(g, g, ZERO, pairs)
  }

  lemma OneOrphan(pairs: seq<State>)
    requires Masked(Sum(pairs)) == Sum(pairs)
    ensures var g := Mounted(pairs).gstate;
      && Masked(g) == Sum(pairs) && g.first == Sum(pairs).first && g.second == Sum(pairs).second
      && Orphans(g) == if IsValid(Sum(pairs).tag) then 0 else 1
  {
    hide MaskWord, OrphanWord, IsValid, Increment;
    CountIsMasked(Sum(pairs).tag);
  }

  function Increment(a: Word): Word {
    a + 1
  }

  lemma CountIsMasked(tag: Word)
    requires MaskWord(tag) == tag
    ensures MaskWord(Increment(tag)) == tag && OrphanWord(tag) == 0 && OrphanWord(Increment(tag)) == 1
  {}

  /** lfs_gstate_getorphans. */
  function Orphans(g: State): Word {
    OrphanWord(g.tag)
  }

  function OrphanWord(a: Word): Word {
    a & 0x3ff
  }

  lemma MoveSurvivesMask(a: State, b: State)
    requires Masked(a) == Masked(b)
    ensures MoveBits(a) == MoveBits(b) && (HasMove(a) <==> HasMove(b)) && (IsValid(a.tag) <==> IsValid(b.tag))
    ensures a.first == b.first && a.second == b.second
  {
    hide MaskWord, MoveBits, HasMove, IsValid;
    MoveInMask(a);
    MoveInMask(b);
  }

  lemma MoveInMask(a: State)
    ensures MoveBits(a) == MoveBits(Masked(a)) && (HasMove(a) <==> HasMove(Masked(a)))
    ensures IsValid(a.tag) <==> IsValid(Masked(a).tag)
  {
    hide MaskWord, TypeWord, MoveWord, IsValid;
    TypeInMask(a.tag);
    MoveWordInMask(a.tag);
    ValidInMask(a.tag);
  }

  lemma {:induction false} SumMasked(pairs: seq<State>)
    requires AllMasked(pairs)
    ensures Masked(Sum(pairs)) == Sum(pairs)
  {
    hide Xor, Masked;
    MaskLaws(ZERO, ZERO);
    if pairs != [] {
      SumMasked(pairs[1..]);
      MaskLaws(pairs[0], Sum(pairs[1..]));
    }
  }

  /** A mount after any run that left nothing on its way finds the pending move
      as it was last written, at the same pair, and again conserves. */
  lemma MountRebuilds(fs: Fs)
    requires Conserved(fs) && AllMasked(fs.pairs) && fs.gdelta == ZERO
    ensures var m := Mounted(fs.pairs);
      && Conserved(m) && Masked(m.gstate) == Masked(fs.gdisk)
      && MoveBits(m.gstate) == MoveBits(fs.gdisk) && (HasMove(m.gstate) <==> HasMove(fs.gdisk))
      && m.gstate.first == fs.gdisk.first && m.gstate.second == fs.gdisk.second
      && Orphans(m.gstate) == if IsValid(fs.gdisk.tag) then 0 else 1
  {
    hide Xor, MaskWord, MoveBits, HasMove, IsValid, OrphanWord;
    hide Mounted, Orphans, Masked;
    var sum, m := Sum(fs.pairs), Mounted(fs.pairs);
    MountedIs(fs.pairs);
    SumMasked(fs.pairs);
    OneOrphan(fs.pairs);
    MaskLaws(ZERO, ZERO);
    XorLaws(sum, ZERO, ZERO);
    MoveSurvivesMask(m.gstate, fs.gdisk);
    MoveSurvivesMask(sum, fs.gdisk);
  }

  lemma MountedIs(pairs: seq<State>)
    ensures var m := Mounted(pairs); m.pairs == pairs && m.gdisk == m.gstate && m.gdelta == ZERO
  {}

  /** Any run that ends with a commit: a mount then finds the pending move that
      is in memory. */
  lemma MountAfterCommit(fs: Fs, events: seq<Event>, i: nat)
    requires Conserved(fs) && AllMasked(fs.pairs) && i < |Run(fs, events).pairs|
    ensures var after := Run(fs, events + [DoCommit(i)]);
      && after.gstate == Run(fs, events).gstate
      && Masked(Mounted(after.pairs).gstate) == Masked(after.gstate)
      && MoveBits(Mounted(after.pairs).gstate) == MoveBits(after.gstate)
      && Orphans(Mounted(after.pairs).gstate) == if IsValid(after.gstate.tag) then 0 else 1
  {
    hide Xor, MaskWord, MoveBits, HasMove, IsValid, Conserved, AllMasked, Orphans;
    assert (events + [DoCommit(i)])[..|events|] == events;
    RunConserves(fs, events + [DoCommit(i)]);
    MountRebuilds(Run(fs, events + [DoCommit(i)]));
  }

  // ----- In place -----

  /** The fields of lfs_t that hold global state, over what the pairs record. */
  class Lfs {
    var gstate: State
    var gdisk: State
    var gdelta: State
    var pairs: seq<State>

    function Now(): Fs
      reads this
    {
      Fs(gstate, gdisk, gdelta, pairs)
    }

    /** lfs_mount_: go through the pairs in tail order. */
    constructor (pairs: seq<State>)
      ensures Now() == Mounted(pairs)
    {
      hide Xor, IsValid, Increment;
      this.pairs, this.gdelta := pairs, ZERO;
      var sum := ZERO;
      XorLaws(ZERO, Sum(pairs), ZERO);
      XorLaws(Sum(pairs), ZERO, ZERO);
      assert pairs[0..] == pairs;
      for k := 0 to |pairs|
        invariant Xor(sum, Sum(pairs[k..])) == Sum(pairs)
      {
        XorLaws(sum, pairs[k], Sum(pairs[k + 1..]));
        assert pairs[k..][1..] == pairs[k + 1..];
        sum := Xor(sum, pairs[k]);
      }
      XorLaws(sum, ZERO, ZERO);
      var g := if IsValid(sum.tag) then sum else sum.(tag := Increment(sum.tag));
      this.gstate, this.gdisk := g, g;
    }

    /** lfs_dir_getgstate. */
    method GetGstate(i: nat, g: State) returns (r: State)
      requires i < |pairs|
      ensures r == Xor(g, pairs[i])
    {
      r := Xor(g, pairs[i]);
    }

    /** lfs_dir_relocatingcommit. */
    method CommitTo(i: nat)
      requires i < |pairs|
      modifies this
      ensures Now() == Commit(old(Now()), i)
    {
      hide Xor, Masked;
      var delta := Masked(Xor(Xor(Xor(ZERO, gstate), gdisk), gdelta));
      XorLaws(ZERO, gstate, ZERO);
      XorLaws(gstate, ZERO, ZERO);
      if delta != ZERO {
        var record := GetGstate(i, delta);
        pairs := pairs[i := record];
      }
      gdisk := gstate;
      gdelta := ZERO;
    }

    /** lfs_dir_compact: a state that comes out as zero is not written, and what
        is not there reads as zero. */
    method CompactTo(i: nat, relocated: bool)
      requires i < |pairs|
      modifies this
      ensures Now() == Compact(old(Now()), i, relocated)
    {
      hide Xor, Masked;
      var delta := ZERO;
      XorLaws(gdisk, ZERO, ZERO);
      XorLaws(ZERO, gdisk, ZERO);
      if !relocated {
        delta := Xor(delta, gdisk);
        delta := Xor(delta, gstate);
      }
      delta := Masked(Xor(delta, gdelta));
      delta := GetGstate(i, delta);
      pairs := pairs[i := if delta != ZERO then delta else ZERO];
      gdelta := ZERO;
      if !relocated {
        gdisk := gstate;
      }
    }

    /** lfs_dir_drop. */
    method DropAfter(i: nat)
      requires i + 1 < |pairs|
      modifies this
      ensures Now() == Drop(old(Now()), i)
    {
      hide Xor, Masked;
      gdelta := GetGstate(i + 1, gdelta);
      pairs := pairs[..i + 1] + pairs[i + 2..];
      CommitTo(i);
    }
  }
}
