/** The bytes of one metadata block: commits of xor-chained tags, each closed by
    a checksum, and what a fetch recovers from any bytes whatever. */
module MetaBlock {
  import opened Bytes
  import opened Crc
  import opened Tags
  import opened TagLog
  import opened Words

  type Block = seq<Octet>

  const ONES: Word := 0xffff_ffff

  /** The tag stored at off, unchained from the one before it. */
  function WordAt(b: Block, off: nat, ptag: Word): Word
    requires off + 4 <= |b|
  {
    Xor(BeWord(b[off..off + 4]), ptag)
  }

  /** Bytes from the start of a tag to the start of the next. */
  function Span(w: Word): nat { DSize(TagOf(w)) }

  /** Tails and the checksums of erased space are read back, eight bytes each. */
  predicate NeedsEight(t: Tag) { t.cls == TAIL || (t.cls == CRC && t.chunk == FCRC_CHUNK) }

  predicate IsCrcTag(t: Tag) { t.cls == CRC && t.chunk < 128 }

  // ----- lfs_dir_fetchmatch over one block -----

  datatype Commit = Nothing | Commit(recs: seq<Rec>, at: nat, word: Word)

  /** The first commit from off on that is closed by a matching checksum. */
  function NextCommit(b: Block, off: nat, ptag: Word, crc: Word, pend: seq<Rec>): Commit
    decreases |b| - off
  {
    if off + 4 > |b| then Nothing
    else
      var w := WordAt(b, off, ptag);
      var t, crc := TagOf(w), Crc32(crc, b[off..off + 4]);
      if !IsValid(w) || off + DSize(t) > |b| then Nothing
      else if IsCrcTag(t) then
        if off + 8 <= |b| && crc == LeWord(b[off + 4..off + 8]) then Commit(pend, off, w) else Nothing
      else if NeedsEight(t) && off + 12 > |b| then Nothing
      else
        var data := b[off + 4..off + DSize(t)];
        NextCommit(b, off + DSize(t), w, Crc32(crc, data), pend + [Rec(t, data)])
  }

  /** What a fetch knows of a block: the tags of its commits in order, where the
      last of them ends, and the word the next tag is chained to. */
  datatype Scan = Scan(log: seq<Rec>, off: nat, etag: Word)

  function Extend(acc: Scan, c: Commit): Scan
    requires c.Commit?
  {
    Scan(acc.log + c.recs + [Rec(TagOf(c.word), [])], c.at + Span(c.word), NextPtag(c.word))
  }

  function Commits(b: Block, off: nat, ptag: Word, crc: Word, acc: Scan): Scan
    decreases |b| - off
  {
    match NextCommit(b, off, ptag, crc, [])
    case Nothing => acc
    case Commit(recs, at, w) =>
      CommitAhead(b, off, ptag, crc, []);
      var next := Extend(acc, Commit(recs, at, w));
      Commits(b, next.off, next.etag, ONES, next)
  }

  lemma {:induction false} CommitAhead(b: Block, off: nat, ptag: Word, crc: Word, pend: seq<Rec>)
    ensures var c := NextCommit(b, off, ptag, crc, pend);
            c.Commit? ==> off <= c.at && c.at + Span(c.word) <= |b| && c.at + 8 <= |b|
    decreases |b| - off
  {
    hide IsValid, Xor, LeWord, Crc32, ClassOf, ChunkOf, IdOf, SizeOf;
    if off + 4 <= |b| {
      var w := WordAt(b, off, ptag);
      var t, crc := TagOf(w), Crc32(crc, b[off..off + 4]);
      if IsValid(w) && off + DSize(t) <= |b| && !IsCrcTag(t) {
        var data := b[off + 4..off + DSize(t)];
        CommitAhead(b, off + DSize(t), w, Crc32(crc, data), pend + [Rec(t, data)]);
      }
    }
  }

  lemma SumsJoin(b: Block, crc: Word, i: nat, j: nat, k: nat, l: nat)
    requires i <= j <= k <= l <= |b|
    ensures Crc32(Crc32(Crc32(crc, b[i..j]), b[j..k]), b[k..l]) == Crc32(crc, b[i..l])
  {
    hide Crc32;
    CrcOfChunks(crc, b[i..j], b[j..k]);
    CrcOfChunks(crc, b[i..j] + b[j..k], b[k..l]);
    assert b[i..l] == b[i..j] + b[j..k] + b[k..l];
  }

  /** What is found ends in a checksum of all its bytes, from where it begins. */
  lemma {:induction false} CommitIsChecked(b: Block, off: nat, ptag: Word, crc: Word, pend: seq<Rec>)
    ensures var c := NextCommit(b, off, ptag, crc, pend);
            c.Commit? ==>
              off <= c.at && c.at + 8 <= |b| && LeWord(b[c.at + 4..c.at + 8]) == Crc32(crc, b[off..c.at + 4])
    decreases |b| - off
  {
    hide IsValid, Xor, LeWord, Crc32, ClassOf, ChunkOf, IdOf, SizeOf;
    CommitAhead(b, off, ptag, crc, pend);
    if off + 4 <= |b| {
      var w := WordAt(b, off, ptag);
      var t, tagCrc := TagOf(w), Crc32(crc, b[off..off + 4]);
      if IsValid(w) && off + DSize(t) <= |b| && !IsCrcTag(t) {
        var next := off + DSize(t);
        var data := b[off + 4..next];
        CommitIsChecked(b, next, w, Crc32(tagCrc, data), pend + [Rec(t, data)]);
        var c := NextCommit(b, next, w, Crc32(tagCrc, data), pend + [Rec(t, data)]);
        if c.Commit? { SumsJoin(b, crc, off, off + 4, next, c.at + 4); }
      }
    }
  }

  /** So a block that differs from it within four consecutive bytes of what the checksum
      covers has no commit that ends at the same place. */
  lemma DamageIsRefused(b: Block, t: Block, off: nat, ptag: Word, crc: Word, from: nat, upto: nat)
    requires NextCommit(b, off, ptag, crc, []).Commit? && |t| == |b|
    requires off <= from <= upto <= NextCommit(b, off, ptag, crc, []).at + 4 && upto <= from + 4
    requires forall i :: off <= i < |b| && !(from <= i < upto) ==> t[i] == b[i]
    requires exists i :: from <= i < upto && i < |b| && t[i] != b[i]
    ensures var c := NextCommit(t, off, ptag, crc, []);
            c == Nothing || c.at != NextCommit(b, off, ptag, crc, []).at
  {
    hide NextCommit, LeWord, Crc32;
    CommitIsChecked(b, off, ptag, crc, []);
    CommitIsChecked(t, off, ptag, crc, []);
    var c := NextCommit(t, off, ptag, crc, []);
    if c.Commit? && c.at == NextCommit(b, off, ptag, crc, []).at {
      assert b[c.at + 4..c.at + 8] == t[c.at + 4..c.at + 8];
      WindowSeen(b, t, off, c.at + 4, crc, from, upto);
    }
  }

  lemma WindowSeen(b: Block, t: Block, off: nat, end: nat, crc: Word, from: nat, upto: nat)
    requires off <= from <= upto <= end <= |b| == |t| && upto <= from + 4
    requires forall i :: off <= i < |b| && !(from <= i < upto) ==> t[i] == b[i]
    requires exists i :: from <= i < upto && t[i] != b[i]
    ensures Crc32(crc, b[off..end]) != Crc32(crc, t[off..end])
  {
    hide Crc32;
    assert b[off..end] == b[off..from] + b[from..upto] + b[upto..end];
    assert t[off..end] == b[off..from] + t[from..upto] + b[upto..end];
    var i :| from <= i < upto && t[i] != b[i];
    assert b[from..upto][i - from] != t[from..upto][i - from];
    CrcSeesWindow(crc, b[off..from], b[from..upto], t[from..upto], b[upto..end]);
  }

  function Rev(b: Block): Word
    requires |b| >= 4
  {
    LeWord(b[..4])
  }

  /** Scanning starts after the revision count, whose bytes the first checksum covers. */
  function ScanBlock(b: Block): Scan
    requires |b| >= 4
  {
    Commits(b, 4, ONES, Crc32(ONES, b[..4]), Scan([], 0, 0))
  }

  /** The outcome of a scan that has pend read of the commit it is in. */
  function Resume(b: Block, off: nat, ptag: Word, crc: Word, pend: seq<Rec>, acc: Scan): Scan {
    match NextCommit(b, off, ptag, crc, pend)
    case Nothing => acc
    case Commit(recs, at, w) =>
      var next := Extend(acc, Commit(recs, at, w));
      Commits(b, next.off, next.etag, ONES, next)
  }

  /** One tag of a scan: it ends it, closes a commit, or joins the pending ones. */
  lemma ResumeStep(b: Block, off: nat, ptag: Word, crc: Word, pend: seq<Rec>, acc: Scan)
    requires off + 4 <= |b|
    ensures var w := WordAt(b, off, ptag);
            var t, mid := TagOf(w), Crc32(crc, b[off..off + 4]);
            if !IsValid(w) || off + DSize(t) > |b| then Resume(b, off, ptag, crc, pend, acc) == acc
            else if IsCrcTag(t) then
              if off + 8 > |b| || mid != LeWord(b[off + 4..off + 8]) then Resume(b, off, ptag, crc, pend, acc) == acc
              else
                var next := Extend(acc, Commit(pend, off, w));
                Resume(b, off, ptag, crc, pend, acc) == Resume(b, next.off, next.etag, ONES, [], next)
            else if NeedsEight(t) && off + 12 > |b| then Resume(b, off, ptag, crc, pend, acc) == acc
            else
              var data := b[off + 4..off + DSize(t)];
              Resume(b, off, ptag, crc, pend, acc) ==
              Resume(b, off + DSize(t), w, Crc32(mid, data), pend + [Rec(t, data)], acc)
  {
    hide IsValid, Xor, LeWord, BeWord, Crc32, ClassOf, ChunkOf, IdOf, SizeOf, NextPtag;
    CommitAhead(b, off, ptag, crc, pend);
  }

  method FetchBlock(b: Block) returns (s: Scan)
    requires |b| >= 4
    ensures s == ScanBlock(b)
  {
    hide IsValid, Xor, LeWord, BeWord, Crc32, ClassOf, ChunkOf, IdOf, SizeOf, NextPtag, NextCommit, Commits, WordAt,
      Resume;
    s := Scan([], 0, 0);
    var off, ptag, pend := 4, ONES, [];
    var crc := LfsCrc(ONES, b[..4]);
    ScanIsResume(b);
    while off + 4 <= |b|
      invariant Resume(b, off, ptag, crc, pend, s) == ScanBlock(b)
      decreases |b| - off
    {
      ResumeStep(b, off, ptag, crc, pend, s);
      var w := WordAt(b, off, ptag);
      var t := TagOf(w);
      crc := LfsCrc(crc, b[off..off + 4]);
      // next commit not yet programmed, or out of range?
      if !IsValid(w) || off + DSize(t) > |b| {
        return;
      }
      if IsCrcTag(t) {
        if off + 8 > |b| || crc != LeWord(b[off + 4..off + 8]) {
          return;
        }
        s := Extend(s, Commit(pend, off, w));
        off, ptag, crc, pend := s.off, s.etag, ONES, [];
      } else {
        if NeedsEight(t) && off + 12 > |b| {
          return;
        }
        var data := b[off + 4..off + DSize(t)];
        crc := LfsCrc(crc, data);
        off, ptag, pend := off + DSize(t), w, pend + [Rec(t, data)];
      }
    }
    NoRoom(b, off, ptag, crc, pend, s);
  }

  lemma ScanIsResume(b: Block)
    requires |b| >= 4
    ensures Resume(b, 4, ONES, Crc32(ONES, b[..4]), [], Scan([], 0, 0)) == ScanBlock(b)
  {
    hide NextCommit, Crc32;
  }

  lemma NoRoom(b: Block, off: nat, ptag: Word, crc: Word, pend: seq<Rec>, acc: Scan)
    requires off + 4 > |b|
    ensures Resume(b, off, ptag, crc, pend, acc) == acc
  {}
}
