/** A metadata pair over its whole life: commits, compactions and power cuts in
    any order, and what every lookup answers in between. */
module MetaRun {
  import opened Bytes
  import opened Arith
  import opened Wrappers
  import opened Crc
  import opened Tags
  import opened EntryLog
  import opened TagLog
  import opened Words
  import opened Revisions
  import opened MetaBlock
  import opened MetaCommit
  import opened MetaPair

  // ----- What a commit means -----

  /** Records that say nothing about entries: checksums, tails, global state. */
  predicate Silent(r: Rec) { OpOf(r) == Other }

  lemma {:induction false} SilentTail(log: seq<Rec>, more: seq<Rec>, key: Key, id: int)
    requires forall i :: 0 <= i < |more| ==> Silent(more[i])
    ensures Lookup(Ops(log + more), key, id) == Lookup(Ops(log), key, id)
  {
    if more == [] {
      assert log + more == log;
    } else {
      var init, r := more[..|more| - 1], more[|more| - 1];
      assert log + more == (log + init) + [r];
      LookupPeel(log + init, r, key, id, Open(id));
      SilentTail(log, init, key, id);
    }
  }

  /** After a commit is appended, every lookup answers from the old log followed
      by what was committed, whatever checksums the driver added. */
  lemma AppendMeans(b: Block, attrs: seq<Attr>, key: Key, id: int)
    requires Appendable(b, attrs)
    ensures Lookup(Ops(Appended(b, attrs).log), key, id) == Lookup(Ops(ScanBlock(b).log + Recs(attrs)), key, id)
  {
    hide Appended, ScanBlock, Recs, Ops, WithFcrc, Silent, Lookup, TagOf;
    var end, word := AppendedLog(b, attrs);
    var more := AddedRecs(b, attrs, end, word);
    assert ScanBlock(b).log + (Recs(attrs) + more) == (ScanBlock(b).log + Recs(attrs)) + more;
    SilentTail(ScanBlock(b).log + Recs(attrs), more, key, id);
  }

  lemma AppendedLog(b: Block, attrs: seq<Attr>) returns (end: nat, word: Word)
    requires Appendable(b, attrs)
    ensures Appended(b, attrs).log ==
            ScanBlock(b).log + (Recs(WithFcrc(b, attrs, end)) + [Rec(TagOf(word), [])])
    ensures IsCrcTag(TagOf(word))
  {
    hide Xor, Crc32, LeWord, BeWord, ClassOf, ChunkOf, IdOf, SizeOf, IsValid, NextPtag, CommitEnd, Encode, ScanBlock,
      Recs, WithFcrc;
    AppendInside(b, attrs);
    var p := PlanCommit(b, ScanBlock(b).off, attrs, ScanBlock(b).etag);
    end, word := p.end, p.word;
  }

  lemma CompactedLog(other: Block, attrs: seq<Attr>) returns (end: nat, word: Word)
    requires Compactable(other, attrs)
    ensures Compacted(other, attrs).log == Recs(WithFcrc(other, attrs, end)) + [Rec(TagOf(word), [])]
    ensures IsCrcTag(TagOf(word))
  {
    hide Xor, Crc32, LeWord, BeWord, ClassOf, ChunkOf, IdOf, SizeOf, IsValid, NextPtag, CommitEnd, Encode, Recs,
      WithFcrc;
    CompactInside(other, 0, attrs);
    var p := PlanCommit(other, 4, attrs, ONES);
    end, word := p.end, p.word;
  }

  /** What the driver adds of its own at the end of a commit. */
  lemma AddedRecs(b: Block, attrs: seq<Attr>, end: nat, word: Word) returns (more: seq<Rec>)
    requires IsCrcTag(TagOf(word))
    ensures Recs(WithFcrc(b, attrs, end)) + [Rec(TagOf(word), [])] == Recs(attrs) + more
    ensures forall i :: 0 <= i < |more| ==> Silent(more[i])
  {
    hide Crc32, ClassOf, ChunkOf, IdOf, SizeOf, Le32Bytes;
    var crcRec := Rec(TagOf(word), []);
    if HasNext(end, |b|) {
      var a := FcrcAttr(b, end);
      RecsAdd(attrs, a);
      FcrcFields();
      more := [RecOf(a), crcRec];
    } else {
      more := [crcRec];
    }
  }

  /** After a compaction whose first attributes are what the traversal handed on,
      every lookup in the kept range answers as before, at its new index. */
  lemma CompactMeans(other: Block, attrs: seq<Attr>, log: seq<Rec>, kept: nat, begin: nat, end: nat, key: Key, id: int)
    requires Compactable(other, attrs) && kept <= |attrs| && begin <= end
    requires Ops(Recs(attrs[..kept])) == EntryLog.Compact(Ops(log), begin, end)
    requires forall a :: a in attrs[kept..] ==> Silent(RecOf(a))
    ensures Lookup(Ops(Compacted(other, attrs).log), key, id) ==
            if 0 <= id < end - begin then Lookup(Ops(log), key, id + begin) else None
  {
    hide Xor, Crc32, LeWord, BeWord, ClassOf, ChunkOf, IdOf, SizeOf, IsValid, NextPtag, Lookup, EntryLog.Compact,
      Compacted, Compactable, Recs, Ops, TagOf, WithFcrc;
    var end', word := CompactedLog(other, attrs);
    var added := AddedRecs(other, attrs, end', word);
    RecsSplit(attrs, kept);
    SilentRecs(attrs[kept..]);
    var first, rest := Recs(attrs[..kept]), Recs(attrs[kept..]);
    assert first + rest + added == first + (rest + added);
    SilentTail(first, rest + added, key, id);
    CompactPreservesLookup(Ops(log), begin, end, key, id);
  }

  lemma {:induction false} RecsSplit(attrs: seq<Attr>, n: nat)
    requires n <= |attrs|
    ensures Recs(attrs) == Recs(attrs[..n]) + Recs(attrs[n..])
  {
    if n == 0 {
      assert attrs[0..] == attrs && attrs[..0] == [];
    } else {
      assert attrs[..n][1..] == attrs[1..][..n - 1] && attrs[n..] == attrs[1..][n - 1..];
      RecsSplit(attrs[1..], n - 1);
    }
  }

  lemma {:induction false} SilentRecs(attrs: seq<Attr>)
    requires forall a :: a in attrs ==> Silent(RecOf(a))
    ensures forall i :: 0 <= i < |Recs(attrs)| ==> Silent(Recs(attrs)[i])
  {
    if attrs != [] {
      SilentRecs(attrs[1..]);
    }
  }

  // ----- Runs -----

  datatype BlockPair = Pair(cur: Block, other: Block)

  /** A commit written up to its cut-th byte, where power may have failed. */
  datatype Event = Append(attrs: seq<Attr>, cut: nat) | Compact(attrs: seq<Attr>, cut: nat)

  ghost predicate PairOk(p: BlockPair) { PairInv(p.cur, p.other) }

  function EventBytes(p: BlockPair, e: Event): seq<Octet>
    requires |p.cur| >= 4
  {
    match e
    case Append(attrs, _) => AppendBytes(p.cur, attrs)
    case Compact(attrs, _) => CompactBytes(p.other, Rev(p.cur) + 1, attrs)
  }

  function Committed(p: BlockPair, e: Event): Scan
    requires |p.cur| >= 4
  {
    match e
    case Append(attrs, _) => Appended(p.cur, attrs)
    case Compact(attrs, _) => Compacted(p.other, attrs)
  }

  /** The driver may do e, and the checksums met on the way are not met by accident. */
  ghost predicate Enabled(p: BlockPair, e: Event)
    requires |p.cur| >= 4
  {
    var w := EventBytes(p, e);
    e.cut <= |w| &&
    match e
    case Append(attrs, cut) =>
      var s := ScanBlock(p.cur);
      Appendable(p.cur, attrs) && s.off + |w| <= |p.cur| &&
      Certified(Torn(p.cur, s.off, w, cut), Torn(p.cur, s.off, w, |w|), s.off, s.etag, ONES)
    case Compact(attrs, cut) =>
      Compactable(p.other, attrs) && |w| <= |p.other| &&
      CertifiedEither(Torn(p.other, 0, w, cut), Torn(p.other, 0, w, |w|), p.other)
  }

  function InOrder(a: Block, b: Block): BlockPair
    requires |a| >= 4 && |b| >= 4
  {
    if Fetched(a, b) == 0 then Pair(a, b) else Pair(b, a)
  }

  /** The pair after e, as the next fetch orders it. */
  ghost predicate Step(p: BlockPair, e: Event, q: BlockPair) {
    |p.cur| >= 4 && Enabled(p, e) &&
    match e
    case Append(_, cut) => q == Pair(Torn(p.cur, ScanBlock(p.cur).off, EventBytes(p, e), cut), p.other)
    case Compact(_, cut) => q == InOrder(p.cur, Torn(p.other, 0, EventBytes(p, e), cut))
  }

  /** The pair still fetches, and e took effect entirely or not at all; if all its
      bytes were written, it did. */
  ghost predicate TookEffectOrNot(p: BlockPair, e: Event, q: BlockPair) {
    && PairOk(p) && PairOk(q)
    && (ScanBlock(q.cur) == Committed(p, e) || (ScanBlock(q.cur) == ScanBlock(p.cur) && e.cut < |EventBytes(p, e)|))
  }

  lemma StepAtomic(p: BlockPair, e: Event, q: BlockPair)
    requires PairOk(p) && Step(p, e, q)
    ensures TookEffectOrNot(p, e, q)
  {
    hide ScanBlock, Torn, AppendBytes, CompactBytes, Appended, Compacted, Certified, CertifiedEither, Newer,
      Appendable, Compactable, SolidBlock, Rev, Fetched;
    match e
    case Append(attrs, cut) =>
      AppendAtomic(p.cur, attrs, cut);
      AppendKeepsRev(p.cur, attrs, cut);
    case Compact(attrs, cut) =>
      CompactAtomic(p.cur, p.other, attrs, cut);
      var t := Torn(p.other, 0, EventBytes(p, e), cut);
      if PairInv(p.cur, t) { FetchesCurrent(p.cur, t); } else { FetchesCurrent(t, p.cur); }
      if cut == |EventBytes(p, e)| { FetchesCurrent(t, p.cur); }
  }

  lemma AppendKeepsRev(b: Block, attrs: seq<Attr>, k: nat)
    requires Appendable(b, attrs) && k <= |AppendBytes(b, attrs)|
    ensures var s, w := ScanBlock(b), AppendBytes(b, attrs);
            && s.off + |w| <= |b| && Rev(Torn(b, s.off, w, k)) == Rev(b)
            && Appended(b, attrs).off != 0
  {
    hide Xor, Crc32, LeWord, BeWord, ClassOf, ChunkOf, IdOf, SizeOf, IsValid, NextPtag, NextCommit, Commits,
      AppendBytes, AlignUp;
    var s, w := ScanBlock(b), AppendBytes(b, attrs);
    AppendInside(b, attrs);
    CommitsForward(b, 4, ONES, Crc32(ONES, b[..4]), Scan([], 0, 0));
    assert Torn(b, s.off, w, k)[..4] == b[..4];
  }

  /** Over any run of commits, compactions and power cuts, the pair always
      fetches, and each event takes effect entirely or not at all. */
  lemma {:induction false} RunAtomic(pairs: seq<BlockPair>, events: seq<Event>)
    requires |pairs| == |events| + 1 && PairOk(pairs[0])
    requires forall i {:trigger events[i]} :: 0 <= i < |events| ==> Step(pairs[i], events[i], pairs[i + 1])
    ensures forall i {:trigger events[i]} :: 0 <= i < |events| ==> TookEffectOrNot(pairs[i], events[i], pairs[i + 1])
  {
    hide Step, EventBytes, ScanBlock, Committed, PairInv;
    if events != [] {
      StepAtomic(pairs[0], events[0], pairs[1]);
      forall i {:trigger events[1..][i]} | 0 <= i < |events| - 1
        ensures Step(pairs[1..][i], events[1..][i], pairs[1..][i + 1])
      {
        assert events[1..][i] == events[i + 1];
      }
      RunAtomic(pairs[1..], events[1..]);
      forall i {:trigger events[i]} | 0 <= i < |events|
        ensures TookEffectOrNot(pairs[i], events[i], pairs[i + 1])
      {
        if i > 0 {
          assert events[1..][i - 1] == events[i];
        }
      }
    }
  }

  // ----- Erased space -----

  /** The checksum of erased space that was logged last. */
  function LastFcrc(log: seq<Rec>): Option<seq<Octet>> {
    if log == [] then None
    else
      var r := log[|log| - 1];
      if r.tag.cls == CRC && r.tag.chunk == FCRC_CHUNK then Some(r.data) else LastFcrc(log[..|log| - 1])
  }

  /** Whether a fetch lets the next commit be programmed behind the last one: the
      scan ended on a tag not yet there, and the space is as it was logged. */
  predicate Erased(b: Block, s: Scan) {
    && s.off % PROG == 0 && s.off + PROG <= |b|
    && !IsValid(WordAt(b, s.off, s.etag))
    && LastFcrc(s.log) == Some(FcrcAttr(b, s.off).data)
  }

  /** A complete commit leaves the space behind it usable, if there is any. */
  lemma CompleteIsErased(b: Block, attrs: seq<Attr>)
    requires Appendable(b, attrs)
    ensures var s, w := ScanBlock(b), AppendBytes(b, attrs);
            && s.off + |w| <= |b|
            && (Appended(b, attrs).off + PROG <= |b| ==> Erased(Torn(b, s.off, w, |w|), Appended(b, attrs)))
  {
    hide Xor, Crc32, LeWord, BeWord, ClassOf, ChunkOf, IdOf, SizeOf, IsValid, NextCommit, Commits, Encode, NextPtag,
      CommitBytes, FlipValid, Le32Bytes, ScanBlock;
    var s, w := ScanBlock(b), AppendBytes(b, attrs);
    AppendInside(b, attrs);
    var p := PlanCommit(b, s.off, attrs, s.etag);
    var full := Torn(b, s.off, w, |w|);
    KeepsPrefix(b, s.off, w, |w|);
    if p.end + PROG <= |b| {
      assert full[p.end..p.end + PROG] == b[p.end..p.end + PROG];
      RecsAdd(attrs, FcrcAttr(b, p.end));
      FcrcFields();
      var log := Appended(b, attrs).log;
      assert log == (s.log + Recs(attrs) + [RecOf(FcrcAttr(b, p.end))]) + [Rec(TagOf(p.word), [])];
      LoggedLast(s.log + Recs(attrs), RecOf(FcrcAttr(b, p.end)), Rec(TagOf(p.word), []));
      StaleSign(full, b, s.off, attrs, s.etag);
    }
  }

  lemma LoggedLast(log: seq<Rec>, fcrc: Rec, crc: Rec)
    requires fcrc.tag.cls == CRC && fcrc.tag.chunk == FCRC_CHUNK && IsCrcTag(crc.tag)
    ensures LastFcrc(log + [fcrc] + [crc]) == Some(fcrc.data)
  {
    var all := log + [fcrc] + [crc];
    assert all[..|all| - 1] == log + [fcrc];
  }

  /** The first byte of the next commit always changes what is on the medium, so a
      commit torn anywhere after it is never taken for erased space, whatever
      the checksums say. */
  lemma TornIsNotErased(b: Block, attrs: seq<Attr>, k: nat)
    requires Appendable(b, attrs) && 0 < k <= |AppendBytes(b, attrs)|
    ensures var s, w := ScanBlock(b), AppendBytes(b, attrs);
            && s.off + |w| <= |b|
            && !Erased(Torn(b, s.off, w, k), s)
            && (Erased(b, s) ==> Torn(b, s.off, w, k)[s.off] != b[s.off])
  {
    hide Xor, Crc32, LeWord, BeWord, ClassOf, ChunkOf, IdOf, SizeOf, IsValid, NextCommit, Commits, NextPtag,
      FlipValid, Le32Bytes, ScanBlock, BeBytes, CommitBytes, PlanCommit, AlignUp;
    var s, w := ScanBlock(b), AppendBytes(b, attrs);
    AppendInside(b, attrs);
    FirstByteIsValid(PlanCommit(b, s.off, attrs, s.etag), s.off, |b|, s.etag, ONES);
    FirstOfFilled(CommitBytes(PlanCommit(b, s.off, attrs, s.etag), s.etag, ONES));
    var t := Torn(b, s.off, w, k);
    assert t[s.off] == w[0];
    if s.off + 4 <= |b| {
      ValidByte(t[s.off..s.off + 4], s.etag);
      ValidByte(b[s.off..s.off + 4], s.etag);
    }
  }

  /** Space that has changed within four consecutive bytes since it was logged is not
      taken for erased. */
  lemma AlteredIsNotErased(b: Block, t: Block, s: Scan, before: seq<Octet>, was: seq<Octet>, now: seq<Octet>,
                           after: seq<Octet>)
    requires Erased(b, s) && |was| == |now| <= 4 && was != now && |t| == |b|
    requires b[s.off..s.off + PROG] == before + was + after && t[s.off..s.off + PROG] == before + now + after
    ensures !Erased(t, s)
  {
    hide LeWord, Crc32, Le32Bytes, IsValid, WordAt;
    CrcSeesWindow(ONES, before, was, now, after);
    var x, y := Crc32(ONES, before + was + after), Crc32(ONES, before + now + after);
    BytesOfWord(x);
    BytesOfWord(y);
    BeLength(16);
    assert (Le32Bytes(16) + Le32Bytes(x))[4..] == Le32Bytes(x);
    assert (Le32Bytes(16) + Le32Bytes(y))[4..] == Le32Bytes(y);
  }

  lemma FirstOfFilled(bytes: seq<Octet>)
    requires |bytes| > 0
    ensures Filled(bytes)[0] == bytes[0]
  {}
}
