/** A metadata pair: two blocks of which the newer valid one is the directory.
    Appending a commit and compacting into the other block are atomic under a
    power cut after any byte, given that a checksum is not met by accident. */
module MetaPair {
  import opened Bytes
  import opened Arith
  import opened Crc
  import opened Tags
  import opened TagLog
  import opened Words
  import opened Revisions
  import opened MetaBlock
  import opened MetaCommit

  ghost predicate Agree(t: Block, f: Block, lo: nat, hi: nat) {
    |t| == |f| && forall i :: lo <= i < hi && i < |t| ==> t[i] == f[i]
  }

  lemma AgreeSlice(t: Block, f: Block, lo: nat, hi: nat, a: nat, b: nat)
    requires Agree(t, f, lo, hi) && lo <= a <= b <= hi && b <= |t|
    ensures t[a..b] == f[a..b]
  {}

  lemma AgreeWithin(t: Block, f: Block, lo: nat, hi: nat, a: nat, b: nat)
    requires Agree(t, f, lo, hi) && lo <= a && b <= hi
    ensures Agree(t, f, a, b) && Agree(f, t, a, b) && |t| == |f|
  {}

  /** What the tag at off contributes to the commit that is found. */
  lemma TagOfCommit(b: Block, off: nat, ptag: Word, crc: Word, pend: seq<Rec>)
    requires NextCommit(b, off, ptag, crc, pend).Commit?
    ensures off + 4 <= |b|
    ensures var c, w := NextCommit(b, off, ptag, crc, pend), WordAt(b, off, ptag);
            var t, mid := TagOf(w), Crc32(crc, b[off..off + 4]);
            && IsValid(w) && off + DSize(t) <= |b| && off <= c.at
            && if IsCrcTag(t) then
                 c == Commit(pend, off, w) && off + 8 <= |b| && mid == LeWord(b[off + 4..off + 8])
               else
                 var data := b[off + 4..off + DSize(t)];
                 && !(NeedsEight(t) && off + 12 > |b|) && off + DSize(t) <= c.at && c.at + 8 <= |b|
                 && NextCommit(b, off + DSize(t), w, Crc32(mid, data), pend + [Rec(t, data)]) == c
  {
    hide Xor, Crc32, LeWord, BeWord, ClassOf, ChunkOf, IdOf, SizeOf, IsValid, WordAt;
    CommitAhead(b, off, ptag, crc, pend);
    var w := WordAt(b, off, ptag);
    var t := TagOf(w);
    if !IsCrcTag(t) {
      var data := b[off + 4..off + DSize(t)];
      CommitAhead(b, off + DSize(t), w, Crc32(Crc32(crc, b[off..off + 4]), data), pend + [Rec(t, data)]);
    }
  }

  lemma SameTag(t: Block, f: Block, off: nat, ptag: Word, crc: Word, pend: seq<Rec>)
    requires off + 4 <= |t| == |f| && t[off..off + 4] == f[off..off + 4]
    requires var tag := TagOf(WordAt(t, off, ptag));
             && IsValid(WordAt(t, off, ptag)) && off + DSize(tag) <= |t|
             && if IsCrcTag(tag) then
                  && off + 8 <= |t| && t[off + 4..off + 8] == f[off + 4..off + 8]
                  && Crc32(crc, t[off..off + 4]) == LeWord(t[off + 4..off + 8])
                else
                  && !(NeedsEight(tag) && off + 12 > |t|)
                  && t[off + 4..off + DSize(tag)] == f[off + 4..off + DSize(tag)]
    ensures var w := WordAt(t, off, ptag);
            var tag, mid := TagOf(w), Crc32(crc, t[off..off + 4]);
            NextCommit(f, off, ptag, crc, pend) ==
            if IsCrcTag(tag) then Commit(pend, off, w)
            else
              var data := t[off + 4..off + DSize(tag)];
              NextCommit(f, off + DSize(tag), w, Crc32(mid, data), pend + [Rec(tag, data)])
  {
    hide Xor, Crc32, LeWord, BeWord, ClassOf, ChunkOf, IdOf, SizeOf, IsValid;
  }

  /** Finding a commit depends on its own bytes only. */
  lemma {:induction false} NextLocal(t: Block, f: Block, off: nat, ptag: Word, crc: Word, pend: seq<Rec>)
    requires NextCommit(t, off, ptag, crc, pend).Commit?
    requires Agree(t, f, off, NextCommit(t, off, ptag, crc, pend).at + 8)
    ensures NextCommit(f, off, ptag, crc, pend) == NextCommit(t, off, ptag, crc, pend)
    decreases |t| - off
  {
    hide Xor, Crc32, LeWord, BeWord, ClassOf, ChunkOf, IdOf, SizeOf, IsValid, Agree, NextCommit, WordAt;
    TagOfCommit(t, off, ptag, crc, pend);
    var c := NextCommit(t, off, ptag, crc, pend);
    AgreeWithin(t, f, off, c.at + 8, off, c.at + 8);
    AgreeSlice(t, f, off, c.at + 8, off, off + 4);
    var w := WordAt(t, off, ptag);
    var tag, mid := TagOf(w), Crc32(crc, t[off..off + 4]);
    if IsCrcTag(tag) {
      AgreeSlice(t, f, off, c.at + 8, off + 4, off + 8);
      SameTag(t, f, off, ptag, crc, pend);
    } else {
      var data := t[off + 4..off + DSize(tag)];
      AgreeSlice(t, f, off, c.at + 8, off + 4, off + DSize(tag));
      SameTag(t, f, off, ptag, crc, pend);
      AgreeWithin(t, f, off, c.at + 8, off + DSize(tag), c.at + 8);
      NextLocal(t, f, off + DSize(tag), w, Crc32(mid, data), pend + [Rec(tag, data)]);
    }
  }

  /** Every commit found spans its checksum, as those the driver writes do. */
  ghost predicate Solid(b: Block, off: nat, ptag: Word, crc: Word)
    decreases |b| - off
  {
    match NextCommit(b, off, ptag, crc, [])
    case Nothing => true
    case Commit(_, at, w) =>
      CommitAhead(b, off, ptag, crc, []);
      Span(w) >= 8 && Solid(b, at + Span(w), NextPtag(w), ONES)
  }

  ghost predicate SolidBlock(b: Block)
    requires |b| >= 4
  {
    Solid(b, 4, ONES, Crc32(ONES, b[..4]))
  }

  lemma {:induction false} CommitsForward(b: Block, off: nat, ptag: Word, crc: Word, acc: Scan)
    ensures var s := Commits(b, off, ptag, crc, acc); s == acc || off < s.off <= |b|
    ensures var c := NextCommit(b, off, ptag, crc, []);
            c.Commit? ==> off <= c.at && c.at + Span(c.word) <= Commits(b, off, ptag, crc, acc).off <= |b|
    decreases |b| - off
  {
    hide Xor, Crc32, LeWord, BeWord, ClassOf, ChunkOf, IdOf, SizeOf, IsValid, NextPtag;
    var c := NextCommit(b, off, ptag, crc, []);
    if c.Commit? {
      CommitAhead(b, off, ptag, crc, []);
      var next := Extend(acc, c);
      CommitsForward(b, next.off, next.etag, ONES, next);
    }
  }

  lemma AfterFirst(b: Block, off: nat, ptag: Word, crc: Word, acc: Scan)
    requires NextCommit(b, off, ptag, crc, []).Commit?
    ensures var c := NextCommit(b, off, ptag, crc, []);
            var next := Extend(acc, c);
            && Commits(b, off, ptag, crc, acc) == Commits(b, next.off, next.etag, ONES, next)
            && (Solid(b, off, ptag, crc) <==> Span(c.word) >= 8 && Solid(b, next.off, next.etag, ONES))
            && c.at >= off && next.off <= |b|
  {
    hide Xor, Crc32, LeWord, BeWord, ClassOf, ChunkOf, IdOf, SizeOf, IsValid, NextPtag, NextCommit, TagOf;
    CommitAhead(b, off, ptag, crc, []);
  }

  /** A block that has the first commit of f goes on after it as f does. */
  lemma FirstCommit(t: Block, f: Block, off: nat, ptag: Word, crc: Word, acc: Scan)
    requires Solid(f, off, ptag, crc) && NextCommit(f, off, ptag, crc, []).Commit?
    requires Agree(t, f, off, NextCommit(f, off, ptag, crc, []).at + 8)
    ensures var next := Extend(acc, NextCommit(f, off, ptag, crc, []));
            && Commits(f, off, ptag, crc, acc) == Commits(f, next.off, next.etag, ONES, next)
            && Commits(t, off, ptag, crc, acc) == Commits(t, next.off, next.etag, ONES, next)
            && NextCommit(f, off, ptag, crc, []).at + 8 <= next.off <= |f| == |t| && off < next.off
            && Solid(f, next.off, next.etag, ONES)
            && (Solid(t, next.off, next.etag, ONES) ==> Solid(t, off, ptag, crc))
  {
    hide Xor, Crc32, ClassOf, ChunkOf, IdOf, SizeOf, NextPtag, NextCommit, TagOf, Agree, Solid, Commits;
    var c := NextCommit(f, off, ptag, crc, []);
    AgreeWithin(t, f, off, c.at + 8, off, c.at + 8);
    NextLocal(f, t, off, ptag, crc, []);
    AfterFirst(f, off, ptag, crc, acc);
    AfterFirst(t, off, ptag, crc, acc);
  }

  /** A block that agrees with f up to the end of f's commits has those commits,
      and whatever follows them. */
  lemma {:induction false} CommitsPrefix(t: Block, f: Block, off: nat, ptag: Word, crc: Word, acc: Scan)
    requires Solid(f, off, ptag, crc) && NextCommit(f, off, ptag, crc, []).Commit?
    requires Agree(t, f, off, Commits(f, off, ptag, crc, acc).off)
    ensures var s := Commits(f, off, ptag, crc, acc);
            && Commits(t, off, ptag, crc, acc) == Commits(t, s.off, s.etag, ONES, s)
            && NextCommit(f, s.off, s.etag, ONES, []) == Nothing
            && (Solid(t, s.off, s.etag, ONES) ==> Solid(t, off, ptag, crc))
    decreases |f| - off
  {
    hide Xor, Crc32, LeWord, BeWord, ClassOf, ChunkOf, IdOf, SizeOf, IsValid, NextPtag, NextCommit, TagOf, Agree, Solid;
    var c, last := NextCommit(f, off, ptag, crc, []), Commits(f, off, ptag, crc, acc).off;
    CommitsForward(f, off, ptag, crc, acc);
    SpansChecksum(f, off, ptag, crc);
    AgreeWithin(t, f, off, last, off, c.at + 8);
    FirstCommit(t, f, off, ptag, crc, acc);
    var next := Extend(acc, c);
    if NextCommit(f, next.off, next.etag, ONES, []).Commit? {
      AgreeWithin(t, f, off, last, next.off, last);
      CommitsPrefix(t, f, next.off, next.etag, ONES, next);
    }
  }

  lemma SpansChecksum(f: Block, off: nat, ptag: Word, crc: Word)
    requires Solid(f, off, ptag, crc) && NextCommit(f, off, ptag, crc, []).Commit?
    ensures Span(NextCommit(f, off, ptag, crc, []).word) >= 8
  {}

  // ----- Programming -----

  /** The medium when power fails after k bytes. */
  function Torn(b: Block, off: nat, w: seq<Octet>, k: nat): (r: Block)
    requires off + |w| <= |b| && k <= |w|
    ensures |r| == |b|
  {
    Overlay(b, off, w[..k])
  }

  /** Programs come in whole units, the rest of the last one filled with ones. */
  function Filled(bytes: seq<Octet>): (r: seq<Octet>)
    ensures bytes <= r && |r| == AlignUp(|bytes|, 16)
  {
    bytes + seq(AlignUp(|bytes|, 16) - |bytes|, _ => 0xff as Octet)
  }

  /** What is assumed of the checksum: if the commit a scan accepts is not the
      one that was being written, it is because its bytes were. */
  ghost predicate Certified(t: Block, full: Block, off: nat, ptag: Word, crc: Word) {
    var c := NextCommit(t, off, ptag, crc, []);
    c.Commit? ==> Agree(t, full, off, c.at + 8)
  }

  // ----- Appending a commit -----

  ghost predicate Appendable(b: Block, attrs: seq<Attr>) {
    |b| >= 4 && SolidBlock(b) &&
    var s := ScanBlock(b);
    && s.off != 0 && s.off % PROG == 0
    && Fits(|b|, s.off, attrs, s.etag)
    && forall i :: 0 <= i < |attrs| ==> Writable(attrs[i])
  }

  function AppendBytes(b: Block, attrs: seq<Attr>): seq<Octet>
    requires |b| >= 4
  {
    var s := ScanBlock(b);
    Filled(CommitBytes(PlanCommit(b, s.off, attrs, s.etag), s.etag, ONES))
  }

  /** The directory after the commit. */
  function Appended(b: Block, attrs: seq<Attr>): Scan
    requires |b| >= 4
  {
    var s := ScanBlock(b);
    var p := PlanCommit(b, s.off, attrs, s.etag);
    Extend(s, Commit(Recs(p.all), p.at, p.word))
  }

  lemma AppendInside(b: Block, attrs: seq<Attr>)
    requires Appendable(b, attrs)
    ensures var s := ScanBlock(b);
            var p := PlanCommit(b, s.off, attrs, s.etag);
            && GoodPlan(p, s.off, |b|, s.etag)
            && |CommitBytes(p, s.etag, ONES)| == p.at + 8 - s.off
            && s.off + |AppendBytes(b, attrs)| <= p.end <= |b|
            && p.at + Span(p.word) == p.end && Span(p.word) >= 8
  {
    hide Xor, Crc32, LeWord, BeWord, ClassOf, ChunkOf, IdOf, SizeOf, IsValid, NextPtag, ByteOf, Encode, CommitEnd,
      Commits, PlanCommit, CommitBytes, AlignUp;
    var s := ScanBlock(b);
    var p := PlanCommit(b, s.off, attrs, s.etag);
    PlanIsGood(b, s.off, attrs, s.etag);
    BytesLength(p, s.off, |b|, s.etag, ONES);
    RoundedUp(p.at + 8 - s.off, p.end - s.off);
  }

  lemma BytesLength(p: Plan, off: nat, size: nat, ptag: Word, crc: Word)
    requires GoodPlan(p, off, size, ptag)
    ensures |CommitBytes(p, ptag, crc)| == p.at + 8 - off
  {
    hide Xor, Crc32, LeWord, BeWord, ClassOf, ChunkOf, IdOf, SizeOf, IsValid, Encode, BeBytes, Le32Bytes;
    BeLength(Xor(p.word, LastWord(p.all, ptag)));
    BeLength(Crc32(crc, SignedBytes(p, ptag)));
  }

  /** Cutting the power while a commit is appended, after any number of bytes,
      leaves exactly the old directory or exactly the new one, and a complete
      commit is always there. */
  lemma AppendAtomic(b: Block, attrs: seq<Attr>, k: nat)
    requires Appendable(b, attrs) && k <= |AppendBytes(b, attrs)|
    requires var s, w := ScanBlock(b), AppendBytes(b, attrs);
             s.off + |w| <= |b| ==> Certified(Torn(b, s.off, w, k), Torn(b, s.off, w, |w|), s.off, s.etag, ONES)
    ensures var s, w := ScanBlock(b), AppendBytes(b, attrs);
            && s.off + |w| <= |b|
            && SolidBlock(Torn(b, s.off, w, k))
            && ScanBlock(Torn(b, s.off, w, k)) in {s, Appended(b, attrs)}
            && (k == |w| ==> ScanBlock(Torn(b, s.off, w, k)) == Appended(b, attrs))
  {
    hide Xor, Crc32, LeWord, BeWord, ClassOf, ChunkOf, IdOf, SizeOf, IsValid, NextPtag, NextCommit, TagOf, Agree,
      Solid, Commits, PlanCommit, CommitBytes, GoodPlan, AlignUp, Filled, Torn, Overlay;
    var s, w := ScanBlock(b), AppendBytes(b, attrs);
    AppendInside(b, attrs);
    var p := PlanCommit(b, s.off, attrs, s.etag);
    var full, t := Torn(b, s.off, w, |w|), Torn(b, s.off, w, k);
    KeepsPrefix(b, s.off, w, k);
    KeepsPrefix(b, s.off, w, |w|);
    ScanResumes(b, t);
    FullHolds(b, s.off, CommitBytes(p, s.etag, ONES));
    CommitParses(full, s.off, p, s.etag, ONES);
    var c := NextCommit(t, s.off, s.etag, ONES, []);
    if k == |w| {
      assert t == full;
    }
    if c.Commit? {
      if k < |w| { NextLocal(t, full, s.off, s.etag, ONES, []); }
      AfterFirst(t, s.off, s.etag, ONES, s);
      StaleIsInvalid(t, b, s.off, attrs, s.etag, ONES, []);
      NothingMore(t, p.end, NextPtag(p.word), Appended(b, attrs));
    } else {
      NothingMore(t, s.off, s.etag, s);
    }
  }

  lemma NothingMore(b: Block, off: nat, ptag: Word, acc: Scan)
    requires NextCommit(b, off, ptag, ONES, []) == Nothing
    ensures Commits(b, off, ptag, ONES, acc) == acc && Solid(b, off, ptag, ONES)
  {}

  lemma KeepsPrefix(b: Block, off: nat, w: seq<Octet>, k: nat)
    requires off + |w| <= |b| && k <= |w|
    ensures Agree(Torn(b, off, w, k), b, 0, off)
    ensures forall i :: off + |w| <= i < |b| ==> Torn(b, off, w, k)[i] == b[i]
  {}

  lemma FullHolds(b: Block, off: nat, bytes: seq<Octet>)
    requires off + |Filled(bytes)| <= |b|
    ensures HoldsAt(Torn(b, off, Filled(bytes), |Filled(bytes)|), off, bytes)
  {}

  /** A block unchanged up to the end of its last commit is scanned up to there. */
  lemma ScanResumes(b: Block, t: Block)
    requires 4 <= |b| && SolidBlock(b) && ScanBlock(b).off != 0 && Agree(t, b, 0, ScanBlock(b).off)
    ensures |t| == |b|
    ensures var s := ScanBlock(b);
            && ScanBlock(t) == Commits(t, s.off, s.etag, ONES, s)
            && NextCommit(b, s.off, s.etag, ONES, []) == Nothing
            && (Solid(t, s.off, s.etag, ONES) ==> SolidBlock(t))
            && t[..4] == b[..4]
  {
    hide Xor, Crc32, LeWord, BeWord, ClassOf, ChunkOf, IdOf, SizeOf, IsValid, NextPtag, NextCommit, TagOf, Agree, Solid;
    var s, crc := ScanBlock(b), Crc32(ONES, b[..4]);
    CommitsForward(b, 4, ONES, crc, Scan([], 0, 0));
    AgreeWithin(t, b, 0, s.off, 4, s.off);
    AgreeSlice(t, b, 0, s.off, 0, 4);
    assert t[..4] == t[0..4] && b[..4] == b[0..4];
    CommitsPrefix(t, b, 4, ONES, crc, Scan([], 0, 0));
  }

  // ----- Compacting into the other block -----

  ghost predicate Compactable(other: Block, attrs: seq<Attr>) {
    |other| >= 16 && Fits(|other|, 4, attrs, ONES) && forall i :: 0 <= i < |attrs| ==> Writable(attrs[i])
  }

  /** A revision count, then one commit with everything. */
  function CompactBytes(other: Block, rev: Word, attrs: seq<Attr>): seq<Octet> {
    Filled(Le32Bytes(rev) + CommitBytes(PlanCommit(other, 4, attrs, ONES), ONES, Crc32(ONES, Le32Bytes(rev))))
  }

  function Compacted(other: Block, attrs: seq<Attr>): Scan {
    var p := PlanCommit(other, 4, attrs, ONES);
    Extend(Scan([], 0, 0), Commit(Recs(p.all), p.at, p.word))
  }

  lemma CompactInside(other: Block, rev: Word, attrs: seq<Attr>)
    requires Compactable(other, attrs)
    ensures var p := PlanCommit(other, 4, attrs, ONES);
            && GoodPlan(p, 4, |other|, ONES)
            && |CompactBytes(other, rev, attrs)| <= p.end <= |other|
            && p.at + Span(p.word) == p.end && Span(p.word) >= 8
  {
    hide Xor, Crc32, LeWord, BeWord, ClassOf, ChunkOf, IdOf, SizeOf, IsValid, NextPtag, ByteOf, Encode, CommitEnd,
      PlanCommit, Le32Bytes, CommitBytes, AlignUp;
    var p := PlanCommit(other, 4, attrs, ONES);
    PlanIsGood(other, 4, attrs, ONES);
    BytesLength(p, 4, |other|, ONES, Crc32(ONES, Le32Bytes(rev)));
    BeLength(rev);
    RoundedUp(p.at + 8, p.end);
  }

  /** The completely written block is the compacted directory under its revision. */
  lemma CompactComplete(other: Block, rev: Word, attrs: seq<Attr>)
    requires Compactable(other, attrs) && |CompactBytes(other, rev, attrs)| <= |other|
    ensures var w := CompactBytes(other, rev, attrs);
            var full := Torn(other, 0, w, |w|);
            && Rev(full) == rev
            && FirstOf(full).Commit? && Extend(Scan([], 0, 0), FirstOf(full)) == Compacted(other, attrs)
            && FirstOf(full).at + 8 <= Compacted(other, attrs).off && Span(FirstOf(full).word) >= 8
  {
    hide Xor, Crc32, LeWord, BeWord, ClassOf, ChunkOf, IdOf, SizeOf, IsValid, NextPtag, NextCommit, TagOf, PlanCommit,
      CommitBytes, GoodPlan, AlignUp, ByteOf, Le32Bytes;
    var w, p := CompactBytes(other, rev, attrs), PlanCommit(other, 4, attrs, ONES);
    var full, revBytes := Torn(other, 0, w, |w|), Le32Bytes(rev);
    CompactInside(other, rev, attrs);
    BeLength(rev);
    BytesOfWord(rev);
    var commit := CommitBytes(p, ONES, Crc32(ONES, revBytes));
    FullHolds(other, 0, revBytes + commit);
    HoldsParts(full, 0, revBytes, commit);
    assert full[..4] == full[0..4];
    CommitParses(full, 4, p, ONES, Crc32(ONES, revBytes));
  }

  /** The first commit of a block. */
  function FirstOf(b: Block): Commit
    requires |b| >= 4
  {
    NextCommit(b, 4, ONES, Crc32(ONES, b[..4]), [])
  }

  // ----- The pair -----

  /** The current block has commits; the other one has none or is older. */
  ghost predicate PairInv(cur: Block, stale: Block) {
    && |cur| == |stale| && |cur| >= 16
    && ScanBlock(cur).off != 0 && SolidBlock(cur)
    && (ScanBlock(stale).off == 0 || Newer(Rev(cur), Rev(stale)))
  }

  /** lfs_dir_fetch: the block with the newer revision, or else the other one. */
  function Fetched(b0: Block, b1: Block): nat
    requires |b0| >= 4 && |b1| >= 4
  {
    if Newer(Rev(b1), Rev(b0)) then if ScanBlock(b1).off != 0 then 1 else 0
    else if ScanBlock(b0).off != 0 then 0 else 1
  }

  method FetchPair(b0: Block, b1: Block) returns (which: nat, s: Scan)
    requires |b0| >= 4 && |b1| >= 4
    ensures which == Fetched(b0, b1) && s == ScanBlock(if which == 0 then b0 else b1)
    ensures s.off == 0 <==> ScanBlock(b0).off == 0 && ScanBlock(b1).off == 0
    ensures ScanBlock(b0).off != 0 && ScanBlock(b1).off != 0 ==>
      which == if 0 < Ahead(Rev(b1), Rev(b0)) < 0x8000_0000 then 1 else 0
  {
    hide ScanBlock, SolidBlock, Newer, LeWord, Ahead;
    NewerIff(Rev(b1), Rev(b0));
    which := if Newer(Rev(b1), Rev(b0)) then 1 else 0;
    s := FetchBlock(if which == 0 then b0 else b1);
    if s.off == 0 {
      // no valid commits, try the other block
      which := 1 - which;
      s := FetchBlock(if which == 0 then b0 else b1);
    }
  }

  /** Of two blocks with commits the one that is some revisions ahead is fetched,
      whichever comes first. */
  lemma FetchesAhead(cur: Block, stale: Block, n: nat)
    requires |cur| >= 4 && |stale| >= 4 && ScanBlock(cur).off != 0 && ScanBlock(stale).off != 0
    requires 0 < n < 0x8000_0000 && Rev(cur) == Plus(Rev(stale), Revision(n))
    ensures Fetched(cur, stale) == 0 && Fetched(stale, cur) == 1
  {
    hide ScanBlock, SolidBlock, Newer, LeWord, Revision, Plus;
    RevisionAhead(Rev(stale), n);
    NewerIsOneWay(Rev(cur), Rev(stale));
  }

  /** Of a pair in order the current block is fetched, whichever comes first. */
  lemma FetchesCurrent(cur: Block, stale: Block)
    requires PairInv(cur, stale)
    ensures Fetched(cur, stale) == 0 && Fetched(stale, cur) == 1
  {
    hide ScanBlock, SolidBlock, Newer, LeWord;
    if Newer(Rev(cur), Rev(stale)) { NewerIsOneWay(Rev(cur), Rev(stale)); }
  }

  /** Whatever half of the compaction's bytes reach the medium, an accepted commit
      is the new block's or the one the old bytes already held. */
  ghost predicate CertifiedEither(t: Block, full: Block, other: Block)
    requires |t| >= 4
  {
    FirstOf(t).Commit? ==> Agree(t, full, 0, FirstOf(t).at + 8) || Agree(t, other, 0, FirstOf(t).at + 8)
  }

  /** Cutting the power while the other block is compacted into leaves a pair
      that fetches as the old directory or as the compacted one; revisions may
      wrap around. */
  lemma CompactAtomic(cur: Block, other: Block, attrs: seq<Attr>, k: nat)
    requires PairInv(cur, other) && Compactable(other, attrs)
    requires var w := CompactBytes(other, Rev(cur) + 1, attrs);
             k <= |w| && (|w| <= |other| ==> CertifiedEither(Torn(other, 0, w, k), Torn(other, 0, w, |w|), other))
    ensures var w := CompactBytes(other, Rev(cur) + 1, attrs);
            && |w| <= |other|
            && (PairInv(cur, Torn(other, 0, w, k)) ||
                (PairInv(Torn(other, 0, w, k), cur) && ScanBlock(Torn(other, 0, w, k)) == Compacted(other, attrs)))
            && (k == |w| ==>
              PairInv(Torn(other, 0, w, k), cur) && ScanBlock(Torn(other, 0, w, k)) == Compacted(other, attrs))
  {
    hide Xor, Crc32, LeWord, BeWord, ClassOf, ChunkOf, IdOf, SizeOf, IsValid, NextPtag, NextCommit, TagOf, Agree,
      Solid, Commits, PlanCommit, CommitBytes, CompactBytes, GoodPlan, AlignUp, Newer, Compacted, Torn;
    var w := CompactBytes(other, Rev(cur) + 1, attrs);
    CompactInside(other, Rev(cur) + 1, attrs);
    var full, t := Torn(other, 0, w, |w|), Torn(other, 0, w, k);
    var c := FirstOf(t);
    if c == Nothing && k < |w| {
      NothingInBlock(t);
    } else if k == |w| || Agree(t, full, 0, c.at + 8) {
      CompactComplete(other, Rev(cur) + 1, attrs);
      KeepsPrefix(other, 0, w, k);
      TakesOver(cur, other, attrs, full, t);
    } else {
      StaysOld(cur, other, t);
    }
  }

  lemma NothingInBlock(b: Block)
    requires |b| >= 4 && FirstOf(b) == Nothing
    ensures ScanBlock(b).off == 0
  {}

  /** Nothing but the old bytes passes: the block is as old as it was. */
  lemma StaysOld(cur: Block, other: Block, t: Block)
    requires PairInv(cur, other) && |t| == |other| && FirstOf(t).Commit? && Agree(t, other, 0, FirstOf(t).at + 8)
    ensures PairInv(cur, t)
  {
    hide Xor, Crc32, LeWord, BeWord, ClassOf, ChunkOf, IdOf, SizeOf, IsValid, NextPtag, NextCommit, TagOf, Agree,
      Solid, Commits, Newer;
    var c, crc := FirstOf(t), Crc32(ONES, t[..4]);
    CommitAhead(t, 4, ONES, crc, []);
    SameStart(t, other, c.at + 8);
    AfterFirst(other, 4, ONES, crc, Scan([], 0, 0));
    var next := Extend(Scan([], 0, 0), c);
    CommitsForward(other, next.off, next.etag, ONES, next);
  }

  lemma SameStart(t: Block, f: Block, hi: nat)
    requires |t| >= 4 && |f| == |t| && FirstOf(t).Commit? && FirstOf(t).at + 8 <= hi && Agree(t, f, 0, hi)
    ensures Rev(t) == Rev(f) && t[..4] == f[..4] && FirstOf(f) == FirstOf(t)
  {
    hide Xor, Crc32, LeWord, BeWord, ClassOf, ChunkOf, IdOf, SizeOf, IsValid, NextPtag, NextCommit, TagOf, Agree;
    CommitAhead(t, 4, ONES, Crc32(ONES, t[..4]), []);
    AgreeSlice(t, f, 0, hi, 0, 4);
    assert t[..4] == t[0..4] && f[..4] == f[0..4];
    AgreeWithin(t, f, 0, hi, 4, FirstOf(t).at + 8);
    NextLocal(t, f, 4, ONES, Crc32(ONES, t[..4]), []);
  }

  /** After the compacted commit nothing older is read. */
  lemma FinishesThere(t: Block, other: Block, attrs: seq<Attr>)
    requires Compactable(other, attrs) && |t| == |other|
    requires FirstOf(t).Commit? && Span(FirstOf(t).word) >= 8
    requires Extend(Scan([], 0, 0), FirstOf(t)) == Compacted(other, attrs)
    requires var end := PlanCommit(other, 4, attrs, ONES).end; end < |t| ==> t[end] == other[end]
    requires var p := PlanCommit(other, 4, attrs, ONES); p.at + Span(p.word) == p.end
    ensures ScanBlock(t) == Compacted(other, attrs) && SolidBlock(t)
  {
    hide Xor, Crc32, LeWord, BeWord, ClassOf, ChunkOf, IdOf, SizeOf, IsValid, NextPtag, NextCommit, TagOf, Agree,
      Solid, Commits, PlanCommit;
    var s := Compacted(other, attrs);
    AfterFirst(t, 4, ONES, Crc32(ONES, t[..4]), Scan([], 0, 0));
    StaleIsInvalid(t, other, 4, attrs, ONES, ONES, []);
    NothingMore(t, s.off, s.etag, s);
  }

  lemma TakesOver(cur: Block, other: Block, attrs: seq<Attr>, full: Block, t: Block)
    requires PairInv(cur, other) && Compactable(other, attrs) && |t| == |full| == |other|
    requires FirstOf(full).Commit? && Span(FirstOf(full).word) >= 8 && Rev(full) == Rev(cur) + 1
    requires Extend(Scan([], 0, 0), FirstOf(full)) == Compacted(other, attrs)
    requires t == full || (FirstOf(t).Commit? && Agree(t, full, 0, FirstOf(t).at + 8))
    requires var end := PlanCommit(other, 4, attrs, ONES).end; end < |t| ==> t[end] == other[end]
    requires var p := PlanCommit(other, 4, attrs, ONES); p.at + Span(p.word) == p.end
    ensures PairInv(t, cur) && ScanBlock(t) == Compacted(other, attrs)
  {
    hide Xor, Crc32, LeWord, BeWord, ClassOf, ChunkOf, IdOf, SizeOf, IsValid, NextPtag, NextCommit, TagOf, Agree,
      Solid, Commits, PlanCommit, Newer, FirstOf;
    if t != full { SameStart(t, full, FirstOf(t).at + 8); }
    NextIsNewer(Rev(cur));
    FinishesThere(t, other, attrs);
    SomethingFound(other, attrs);
  }

  lemma SomethingFound(other: Block, attrs: seq<Attr>)
    requires Compactable(other, attrs)
    ensures Compacted(other, attrs).off != 0
  {
    hide Xor, Crc32, LeWord, BeWord, ClassOf, ChunkOf, IdOf, SizeOf, IsValid, NextPtag, PlanCommit;
    CompactInside(other, 0, attrs);
  }
}
