/** Reading a metadata block backward from its end: the tags met are those the
    forward scan decoded, and so a lookup can stop at the first that answers. */
module MetaRead {
  import opened Arith
  import opened Bytes
  import opened Wrappers
  import opened Crc
  import opened Tags
  import opened EntryLog
  import opened TagLog
  import opened Words
  import opened MetaBlock

  /** The tag that ends at off, whose word is ntag. */
  function RecBefore(b: Block, off: nat, ntag: Word): Rec
    requires DSize(TagOf(ntag)) <= off <= |b|
  {
    var t := TagOf(ntag);
    Rec(t, if IsCrcTag(t) then [] else b[off - DSize(t) + 4..off])
  }

  function WordBefore(b: Block, off: nat, ntag: Word): Word
    requires DSize(TagOf(ntag)) <= off <= |b|
  {
    var at := off - DSize(TagOf(ntag));
    Unsigned(Xor(BeWord(b[at..at + 4]), ntag))
  }

  /** All tags before off, oldest first, unchained from the newest back. */
  function BackLog(b: Block, off: nat, ntag: Word): seq<Rec>
    requires off <= |b|
    decreases off
  {
    var d := DSize(TagOf(ntag));
    if off < 4 + d then []
    else BackLog(b, off - d, WordBefore(b, off, ntag)) + [RecBefore(b, off, ntag)]
  }

  lemma SameTag(a: Word, b: Word)
    requires Unsigned(a) == Unsigned(b)
    ensures TagOf(a) == TagOf(b)
  {
    hide Unsigned, FlipValid, NextPtag, IsValid, ClassOf, ChunkOf, IdOf, SizeOf;
    SignIsNoField(a);
    SignIsNoField(b);
  }

  /** Only the fields of the word matter, not its valid bit. */
  lemma BackSign(b: Block, off: nat, ntag: Word, other: Word)
    requires off <= |b| && Unsigned(ntag) == Unsigned(other)
    ensures BackLog(b, off, ntag) == BackLog(b, off, other)
  {
    hide Xor, Unsigned, BeWord, TagOf;
    SameTag(ntag, other);
    var d := DSize(TagOf(ntag));
    if off >= 4 + d {
      UnsignedXor(BeWord(b[off - d..off - d + 4]), ntag, other);
      assert WordBefore(b, off, ntag) == WordBefore(b, off, other);
    }
  }

  /** One tag decoded forward is the tag decoded backward from its end. */
  lemma OneTag(b: Block, off: nat, ptag: Word)
    requires 4 <= off && off + 4 <= |b| && off + DSize(TagOf(WordAt(b, off, ptag))) <= |b|
    ensures var w := WordAt(b, off, ptag);
            BackLog(b, off + DSize(TagOf(w)), w) ==
            BackLog(b, off, ptag) + [RecBefore(b, off + DSize(TagOf(w)), w)]
  {
    hide Xor, Unsigned, LeWord, ClassOf, ChunkOf, IdOf, SizeOf, BeWord, RecBefore;
    var stored := BeWord(b[off..off + 4]);
    var w := WordAt(b, off, ptag);
    Unchain(stored, ptag, w);
    SignIsNoField(ptag);
    BackSign(b, off, Unsigned(ptag), ptag);
  }

  lemma {:induction false} NextBack(b: Block, off: nat, ptag: Word, crc: Word, pend: seq<Rec>, log: seq<Rec>)
    requires 4 <= off <= |b| && BackLog(b, off, ptag) == log + pend
    requires NextCommit(b, off, ptag, crc, pend).Commit?
    ensures var c := NextCommit(b, off, ptag, crc, pend);
            && c.at + Span(c.word) <= |b|
            && BackLog(b, c.at + Span(c.word), c.word) == log + c.recs + [Rec(TagOf(c.word), [])]
    decreases |b| - off
  {
    hide Xor, LeWord, ClassOf, ChunkOf, IdOf, SizeOf, BeWord, IsValid, Crc32, BackLog, WordAt;
    CommitAhead(b, off, ptag, crc, pend);
    var w := WordAt(b, off, ptag);
    var t, mid := TagOf(w), Crc32(crc, b[off..off + 4]);
    OneTag(b, off, ptag);
    if !IsCrcTag(t) {
      var data := b[off + 4..off + DSize(t)];
      assert log + pend + [Rec(t, data)] == log + (pend + [Rec(t, data)]);
      NextBack(b, off + DSize(t), w, Crc32(mid, data), pend + [Rec(t, data)], log);
    }
  }

  lemma {:induction false} CommitsBack(b: Block, off: nat, ptag: Word, crc: Word, acc: Scan)
    requires 4 <= off <= |b| && BackLog(b, off, ptag) == acc.log
    requires NextCommit(b, off, ptag, crc, []).Commit?
    ensures var s := Commits(b, off, ptag, crc, acc);
            s.off <= |b| && BackLog(b, s.off, s.etag) == s.log
    decreases |b| - off
  {
    hide Xor, LeWord, ClassOf, ChunkOf, IdOf, SizeOf, BeWord, IsValid, Crc32, BackLog, NextCommit, NextPtag;
    CommitAhead(b, off, ptag, crc, []);
    var c := NextCommit(b, off, ptag, crc, []);
    assert acc.log + [] == acc.log;
    NextBack(b, off, ptag, crc, [], acc.log);
    var next := Extend(acc, c);
    SignIsNoField(c.word);
    BackSign(b, next.off, next.etag, c.word);
    if NextCommit(b, next.off, next.etag, ONES, []).Commit? {
      CommitsBack(b, next.off, next.etag, ONES, next);
    }
  }

  /** Across any number of commits, the tags unchained backward from where the
      last commit ended are exactly those the fetch decoded forward. */
  lemma BackwardIsForward(b: Block)
    requires |b| >= 4 && ScanBlock(b).off != 0
    ensures var s := ScanBlock(b);
            s.off <= |b| && BackLog(b, s.off, s.etag) == s.log
  {
    hide Xor, LeWord, ClassOf, ChunkOf, IdOf, SizeOf, BeWord, IsValid, Crc32, NextCommit, NextPtag;
    AllOnes();
    assert BackLog(b, 4, ONES) == [];
    CommitsBack(b, 4, ONES, Crc32(ONES, b[..4]), Scan([], 0, 0));
  }

  lemma AllOnes()
    ensures DSize(TagOf(ONES)) == 4
  {}

  // ----- lfs_dir_getslice -----

  /** The latest value under key, by a mask, of the entry that now has index id, read
      from the bytes of the block, with a pending move out of the block hidden. As far
      as the value goes, the buffer has its bytes from goff on; what is asked for beyond
      it is whatever follows, and an error where that is beyond the block. */
  method GetSlice(b: Block, off0: nat, etag: Word, move: Option<nat>, mask: Mask, key: Key, id: nat, goff: nat,
                  gsize: nat)
    returns (ok: bool, tag: Option<Tag>, buffer: seq<Octet>)
    requires off0 <= |b| && WellFormed(BackLog(b, off0, etag)) && key.cls < SPLICE
    requires id + 1 + Splices(BackLog(b, off0, etag)) < 1024
    ensures var found := LookupPending(OpsBy(mask, BackLog(b, off0, etag)), move, key, id);
      && (ok ==> Answers(found, id, tag) && Holds(found, goff, gsize, buffer))
      && (found.None? || goff + Min(found.value.size, gsize) <= |found.value.data| ==> ok)
  {
    hide Xor, LeWord, ClassOf, ChunkOf, IdOf, SizeOf, BeWord, Unsigned, WellFormed, BackLog, Splices, Lookup, OpsBy,
      Answers, Holds;
    NothingAnswers(id, goff, gsize);
    ok, tag, buffer := true, None, [];
    if move == None {
      ok, tag, buffer := WalkBack(b, off0, etag, mask, key, id, 0, goff, gsize);
    } else if move.value != id {
      ok, tag, buffer := WalkBack(b, off0, etag, mask, key, id, if move.value < id then -1 else 0, goff, gsize);
    }
  }

  lemma NothingAnswers(id: nat, goff: nat, gsize: nat)
    ensures Answers(None, id, None) && Holds(None, goff, gsize, [])
  {}

  /** The bytes of the value that ends at off, from goff on. */
  method ReadValue(b: Block, off: nat, ntag: Word, goff: nat, gsize: nat) returns (ok: bool, buffer: seq<Octet>)
    requires DSize(TagOf(ntag)) <= off <= |b| && IsEntryAttr(TagOf(ntag)) && !IsDelete(TagOf(ntag))
    ensures var val := OpOf(RecBefore(b, off, ntag)).val;
      && |val.data| == val.size && (ok ==> Holds(Some(val), goff, gsize, buffer))
      && (goff + Min(val.size, gsize) <= val.size ==> ok)
  {
    hide Xor, LeWord, ClassOf, ChunkOf, IdOf, SizeOf, BeWord;
    var t := TagOf(ntag);
    var at, diff := off - DSize(t) + 4 + goff, Min(t.size, gsize);
    if at + diff > |b| {
      return false, [];
    }
    return true, b[at..at + diff] + seq(gsize - diff, _ => 0 as Octet);
  }

  /** The loop of the lookup, from an id already moved by gdiff0. */
  method WalkBack(b: Block, off0: nat, etag: Word, mask: Mask, key: Key, id: nat, gdiff0: int, goff: nat, gsize: nat)
    returns (ok: bool, tag: Option<Tag>, buffer: seq<Octet>)
    requires off0 <= |b| && WellFormed(BackLog(b, off0, etag)) && key.cls < SPLICE && gdiff0 <= id < 1024
    requires id - gdiff0 + Splices(BackLog(b, off0, etag)) < 1024
    ensures var found := Lookup(OpsBy(mask, BackLog(b, off0, etag)), key, id - gdiff0);
      && (ok ==> Answers(found, id, tag) && Holds(found, goff, gsize, buffer))
      && (found.None? || goff + Min(found.value.size, gsize) <= |found.value.data| ==> ok)
  {
    hide Xor, LeWord, ClassOf, ChunkOf, IdOf, SizeOf, BeWord, Unsigned, WellFormedTag, WellFormed, BackLog, Splices,
      OpsBy, RecBefore, WordBefore, Holds;
    NothingAnswers(id, goff, gsize);
    ok, tag, buffer := true, None, [];
    var off, ntag, gdiff := off0, etag, gdiff0;
    ghost var found := Lookup(OpsBy(mask, BackLog(b, off0, etag)), key, id - gdiff0);
    while off >= 4 + DSize(TagOf(ntag))
      invariant 0 <= off <= |b| && WellFormed(BackLog(b, off, ntag))
      invariant gdiff <= id && id - gdiff + Splices(BackLog(b, off, ntag)) < 1024
      invariant ok && tag == None && buffer == []
      invariant found == Lookup(OpsBy(mask, BackLog(b, off, ntag)), key, id - gdiff)
      decreases off
    {
      var r := RecBefore(b, off, ntag);
      ghost var o := StepBack(OpBy(mask, r), key, id - gdiff);
      BackPeel(b, off, ntag, mask, key, id - gdiff, o);
      var end, last := off, ntag;
      off, ntag := off - DSize(TagOf(ntag)), WordBefore(b, off, ntag);
      var done: bool;
      done, tag, gdiff := StepOver(r, mask, key, id, gdiff);
      if done {
        if tag.Some? {
          RecIs(b, end, last, mask, key, id - gdiff, o);
          ok, buffer := ReadValue(b, end, last, goff, gsize);
        }
        return;
      }
    }
    BackStart(b, off, ntag, mask, key, id - gdiff);
  }

  lemma BackStart(b: Block, off: nat, ntag: Word, mask: Mask, key: Key, id: int)
    requires off <= |b| && off < 4 + DSize(TagOf(ntag))
    ensures Lookup(OpsBy(mask, BackLog(b, off, ntag)), key, id) == None
  {}

  lemma BackPeel(b: Block, off: nat, ntag: Word, mask: Mask, key: Key, id: int, o: Outcome<Payload>)
    requires 4 + DSize(TagOf(ntag)) <= off <= |b| && WellFormed(BackLog(b, off, ntag))
    requires o == StepBack(OpBy(mask, RecBefore(b, off, ntag)), key, id)
    ensures var init := BackLog(b, off - DSize(TagOf(ntag)), WordBefore(b, off, ntag));
            && Lookup(OpsBy(mask, BackLog(b, off, ntag)), key, id) ==
              (if o.Open? then Lookup(OpsBy(mask, init), key, o.id) else Found(o))
            && Splices(BackLog(b, off, ntag)) ==
                 Splices(init) + (if RecBefore(b, off, ntag).tag.cls == SPLICE then 1 else 0)
            && WellFormed(init) && WellFormedTag(RecBefore(b, off, ntag).tag)
  {
    hide Xor, LeWord, ClassOf, ChunkOf, IdOf, SizeOf, BeWord, Unsigned, WellFormedTag, Lookup, OpsBy, Splices,
      WellFormed, StepBack;
    PeelBy(BackLog(b, off - DSize(TagOf(ntag)), WordBefore(b, off, ntag)), RecBefore(b, off, ntag), mask, key, id, o);
  }

  /** The record that answered. */
  lemma RecIs(b: Block, off: nat, ntag: Word, mask: Mask, key: Key, id: int, o: Outcome<Payload>)
    requires DSize(TagOf(ntag)) <= off <= |b| && o.Hit?
    requires exists at :: o == StepBack(OpBy(mask, RecBefore(b, off, ntag)), key, at)
    ensures IsEntryAttr(TagOf(ntag)) && !IsDelete(TagOf(ntag)) && OpOf(RecBefore(b, off, ntag)).Set?
    ensures o.val == OpOf(RecBefore(b, off, ntag)).val
  {
    hide TagOf;
  }
}
