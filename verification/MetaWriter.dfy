/** The commit writer, step by step: the driver's commit structure with the
    block it programs. What it leaves on the medium is what MetaPair reasons about. */
module MetaWriter {
  import opened Bytes
  import opened Arith
  import opened Crc
  import opened Tags
  import opened Words
  import opened MetaBlock
  import opened MetaCommit
  import opened MetaPair

  class CommitWriter {
    /** The medium, with the program cache laid over it. */
    var block: Block
    var off: nat
    var ptag: Word
    var crc: Word

    constructor (block: Block, off: nat, ptag: Word)
      ensures this.block == block && this.off == off && this.ptag == ptag && this.crc == ONES
    {
      this.block, this.off, this.ptag, this.crc := block, off, ptag, ONES;
    }

    /** Since base exactly bytes were programmed over orig, and checksummed. */
    ghost predicate Wrote(orig: Block, base: nat, bytes: seq<Octet>)
      reads this
    {
      && base + |bytes| <= |orig| && block == Overlay(orig, base, bytes)
      && off == base + |bytes| && crc == Crc32(ONES, bytes)
    }

    /** lfs_dir_commitprog: program bytes and take them into the checksum. */
    method Prog(bytes: seq<Octet>, ghost orig: Block, ghost base: nat, ghost before: seq<Octet>)
      requires Wrote(orig, base, before) && off + |bytes| <= |block|
      modifies this
      ensures Wrote(orig, base, before + bytes) && ptag == old(ptag)
    {
      hide Crc32;
      OverlayTwice(orig, base, before, bytes);
      CrcOfChunks(ONES, before, bytes);
      block := Overlay(block, off, bytes);
      crc := LfsCrc(crc, bytes);
      off := off + |bytes|;
    }

    /** lfs_dir_commitattr: chain the tag to the one before and program it with
        its data, unless that leaves no room for a checksum. */
    method CommitAttr(a: Attr, ghost orig: Block, ghost base: nat, ghost before: seq<Octet>) returns (fits: bool)
      requires Writable(a) && Wrote(orig, base, before)
      modifies this
      ensures fits <==> old(off) + DSize(TagOf(a.word)) + 8 <= |old(block)|
      ensures !fits ==> Wrote(orig, base, before) && ptag == old(ptag)
      ensures fits ==> Wrote(orig, base, before + (BeBytes(Xor(a.word, old(ptag))) + a.data)) && ptag == a.word
    {
      hide Xor, BeBytes, Crc32, TagOf, IsValid;
      if off + DSize(TagOf(a.word)) + 8 > |block| {
        return false;
      }
      var head := BeBytes(Xor(a.word, ptag));
      BeLength(Xor(a.word, ptag));
      Prog(head, orig, base, before);
      Prog(a.data, orig, base, before + head);
      assert before + head + a.data == before + (head + a.data);
      ptag := a.word;
      fits := true;
    }

    /** The traversal of the attributes of a commit, as far as they fit. */
    method CommitAttrs(attrs: seq<Attr>, ghost orig: Block, ghost base: nat, ghost lead: seq<Octet>)
      returns (fits: bool)
      requires forall i :: 0 <= i < |attrs| ==> Writable(attrs[i])
      requires Wrote(orig, base, lead) && off + 8 <= |orig|
      modifies this
      ensures fits <==> base + |lead| + |Encode(attrs, old(ptag))| + 8 <= |orig|
      ensures fits ==> Wrote(orig, base, lead + Encode(attrs, old(ptag))) && ptag == LastWord(attrs, old(ptag))
    {
      hide Xor, BeBytes, Crc32, TagOf, IsValid, Encode, Overlay;
      ghost var ptag0 := ptag;
      EncodeNothing(ptag0);
      assert attrs[..0] == [] && lead + [] == lead;
      for i := 0 to |attrs|
        invariant Wrote(orig, base, lead + Encode(attrs[..i], ptag0)) && ptag == LastWord(attrs[..i], ptag0)
        invariant base + |lead| + |Encode(attrs[..i], ptag0)| + 8 <= |orig|
      {
        assert attrs[..i + 1] == attrs[..i] + [attrs[i]];
        EncodeAdd(attrs[..i], attrs[i], ptag0);
        BeLength(Xor(attrs[i].word, ptag));
        EncodeGrows(attrs, i + 1, ptag0);
        ghost var done, more := lead + Encode(attrs[..i], ptag0), BeBytes(Xor(attrs[i].word, ptag)) + attrs[i].data;
        assert done + more == lead + (Encode(attrs[..i], ptag0) + more);
        fits := CommitAttr(attrs[i], orig, base, done);
        if !fits {
          return;
        }
      }
      assert attrs[..|attrs|] == attrs;
      fits := true;
    }

    /** lfs_dir_commitcrc, first half: log the checksum of the space that follows
        the commit, if there is any. */
    method CommitFcrc(end: nat, ghost orig: Block, ghost base: nat, ghost lead: seq<Octet>, ghost attrs: seq<Attr>,
                      ghost ptag0: Word)
      requires Wrote(orig, base, lead + Encode(attrs, ptag0)) && ptag == LastWord(attrs, ptag0)
      requires off + 8 <= |orig| && |orig| % PROG == 0 && end == CommitEnd(off, |orig|)
      modifies this
      ensures Wrote(orig, base, lead + Encode(WithFcrc(orig, attrs, end), ptag0))
      ensures ptag == LastWord(WithFcrc(orig, attrs, end), ptag0) && off + 8 <= end <= |orig|
      ensures Untouched(orig, block, end)
    {
      hide Xor, BeBytes, Crc32, TagOf, IsValid, Encode, FcrcAttr;
      RoomForCrc(|orig|, off);
      StillThere(orig, base, lead + Encode(attrs, ptag0), end);
      if HasNext(end, |block|) {
        FcrcWritable(block, end);
        SameFcrc(orig, block, end);
        EncodeAdd(attrs, FcrcAttr(orig, end), ptag0);
        BeLength(Xor(FcrcAttr(orig, end).word, ptag));
        ghost var before, more := Encode(attrs, ptag0),
          BeBytes(Xor(FcrcAttr(orig, end).word, ptag)) + FcrcAttr(orig, end).data;
        assert lead + before + more == lead + (before + more);
        var fits := CommitAttr(FcrcAttr(block, end), orig, base, lead + before);
        StillThere(orig, base, lead + (before + more), end);
      }
    }

    /** Second half: the commit's own checksum, flushed with the rest of the last
        program unit, and read back. What was programmed always checks. */
    method CommitCrc(base: nat, ghost orig: Block, ghost lead: seq<Octet>, ghost attrs: seq<Attr>, ghost ptag0: Word)
      returns (verified: bool)
      requires Wrote(orig, base, lead + Encode(attrs, ptag0)) && ptag == LastWord(attrs, ptag0)
      requires Fits(|orig|, base + |lead|, attrs, ptag0) && base % PROG == 0
      modifies this
      ensures var p := PlanCommit(orig, base + |lead|, attrs, ptag0);
              var bytes := Filled(lead + CommitBytes(p, ptag0, Crc32(ONES, lead)));
              && base + |bytes| <= |orig| && block == Overlay(orig, base, bytes)
              && off == p.end && ptag == NextPtag(p.word) && verified
    {
      hide Xor, BeBytes, Crc32, TagOf, IsValid, Encode, Le32Bytes, CrcWord, NextPtag, LeWord, WithFcrc, CommitEnd,
        SignedBytes, CommitBytes, Overlay, AlignUp;
      ghost var p := PlanCommit(orig, base + |lead|, attrs, ptag0);
      var end := CommitEnd(off, |block|);
      RoomForCrc(|orig|, off);
      CommitFcrc(end, orig, base, lead, attrs, ptag0);
      assert off == p.at && end == p.end && ptag == LastWord(p.all, ptag0);
      var word := CrcWord(Perturbed(block, end), MetaCommit.Pad(end, off));
      assert word == p.word;
      var sum, at := Close(word, end, orig, base, lead, p, ptag0);
      verified := Verify(base, at, sum, orig, lead + SignedBytes(p, ptag0));
      JoinSum(lead, p, ptag0, sum);
      Fill(end, orig, base, lead + CommitBytes(p, ptag0, Crc32(ONES, lead)));
      off, ptag, crc := end, NextPtag(word), ONES;
    }

    /** The checksum tag, then the checksum over everything up to it. */
    method Close(word: Word, end: nat, ghost orig: Block, ghost base: nat, ghost lead: seq<Octet>, ghost p: Plan,
                 ghost ptag0: Word)
      returns (sum: Word, at: nat)
      requires Wrote(orig, base, lead + Encode(p.all, ptag0)) && ptag == LastWord(p.all, ptag0)
      requires word == p.word && off + 8 <= end <= |orig|
      modifies this
      ensures at == base + |lead + SignedBytes(p, ptag0)| && sum == Crc32(ONES, lead + SignedBytes(p, ptag0))
      ensures Wrote(orig, base, lead + SignedBytes(p, ptag0) + Le32Bytes(sum)) && off == old(off) + 8
    {
      hide Xor, BeBytes, Crc32, Encode, Le32Bytes, Overlay;
      var head := BeBytes(Xor(word, ptag));
      BeLength(Xor(word, ptag));
      Prog(head, orig, base, lead + Encode(p.all, ptag0));
      assert lead + Encode(p.all, ptag0) + head == lead + SignedBytes(p, ptag0);
      sum, at := crc, off;
      BeLength(sum);
      Prog(Le32Bytes(sum), orig, base, lead + SignedBytes(p, ptag0));
    }

    /** The flush of the cache programs whole units, padded with ones. */
    method Fill(end: nat, ghost orig: Block, ghost base: nat, ghost bytes: seq<Octet>)
      requires Wrote(orig, base, bytes) && base % PROG == 0 && off <= end <= |orig| && end % PROG == 0
      modifies this
      ensures base + |Filled(bytes)| <= |orig| && block == Overlay(orig, base, Filled(bytes))
      ensures off == old(off) && ptag == old(ptag)
    {
      Padding(base, |bytes|, end);
      hide Crc32, AlignUp, Overlay;
      var ones := seq(AlignUp(off, 16) - off, _ => 0xff as Octet);
      assert Filled(bytes) == bytes + ones;
      OverlayTwice(orig, base, bytes, ones);
      block := Overlay(block, off, ones);
    }

    /** The commit read back: its bytes against the running checksum, then the
        stored checksum, over which the register must come to zero. */
    method Verify(base: nat, at: nat, sum: Word, ghost orig: Block, ghost signed: seq<Octet>) returns (verified: bool)
      requires Wrote(orig, base, signed + Le32Bytes(sum)) && at == base + |signed| && sum == Crc32(ONES, signed)
      ensures verified
    {
      hide Crc32, Le32Bytes;
      BeLength(sum);
      assert block[base..at] == signed;
      assert block[at..at + 4] == Le32Bytes(sum);
      var crc1 := LfsCrc(ONES, block[base..at]);
      var crc2 := LfsCrc(crc1, block[at..at + 4]);
      CrcOfItself(sum);
      verified := crc1 == sum && crc2 == 0;
    }
  }

  lemma Padding(base: nat, n: nat, end: nat)
    requires base % 16 == 0 && base + n <= end && end % 16 == 0
    ensures base + n <= AlignUp(base + n, 16) == base + AlignUp(n, 16) <= end
  {
    hide AlignUp;
    RoundedUp(base + n, end);
    Sixteens(n);
    Sixteens(base + n);
    var k, q, r := base / 16, (n + 15) / 16, (n + 15) % 16;
    assert base == 16 * k && n + 15 == 16 * q + r;
    QuotientIs(base + n + 15, 16, k + q, r);
  }

  lemma Sixteens(n: nat)
    ensures AlignUp(n, 16) == 16 * ((n + 15) / 16)
  {
    var q, r := (n + 15) / 16, (n + 15) % 16;
    assert n + 15 == 16 * q + r;
  }

  predicate Untouched(a: Block, b: Block, from: nat) { |a| == |b| && forall i :: from <= i < |a| ==> a[i] == b[i] }

  lemma StillThere(b: Block, off: nat, bytes: seq<Octet>, end: nat)
    requires off + |bytes| <= end && off + |bytes| <= |b|
    ensures Untouched(b, Overlay(b, off, bytes), end)
  {}

  lemma SameFcrc(a: Block, b: Block, end: nat)
    requires Untouched(a, b, end) && end + PROG <= |a|
    ensures FcrcAttr(b, end) == FcrcAttr(a, end)
  {
    assert a[end..end + PROG] == b[end..end + PROG];
  }

  lemma EncodeNothing(ptag: Word)
    ensures Encode([], ptag) == []
  {}

  lemma {:induction false} EncodeGrows(attrs: seq<Attr>, n: nat, ptag: Word)
    requires n <= |attrs|
    ensures |Encode(attrs[..n], ptag)| <= |Encode(attrs, ptag)|
  {
    hide Xor, BeBytes;
    if n == 0 {
      assert attrs[..0] == [];
    } else {
      assert attrs[..n][1..] == attrs[1..][..n - 1];
      EncodeGrows(attrs[1..], n - 1, attrs[0].word);
    }
  }

  lemma JoinSum(lead: seq<Octet>, p: Plan, ptag: Word, sum: Word)
    requires sum == Crc32(ONES, lead + SignedBytes(p, ptag))
    ensures lead + SignedBytes(p, ptag) + Le32Bytes(sum) == lead + CommitBytes(p, ptag, Crc32(ONES, lead))
  {
    hide Crc32, Le32Bytes, SignedBytes;
    CrcOfChunks(ONES, lead, SignedBytes(p, ptag));
    assert lead + SignedBytes(p, ptag) + Le32Bytes(sum) == lead + (SignedBytes(p, ptag) + Le32Bytes(sum));
  }

  /** An append: the block after it is the one MetaPair.AppendAtomic speaks of,
      and the driver knows where the next commit goes without scanning. */
  method AppendCommit(b: Block, s: Scan, attrs: seq<Attr>) returns (fits: bool, after: Block, next: Scan)
    requires |b| >= 4 && |b| % PROG == 0 && s == ScanBlock(b) && SolidBlock(b)
    requires s.off != 0 && s.off % PROG == 0 && s.off < |b|
    requires forall i :: 0 <= i < |attrs| ==> Writable(attrs[i])
    ensures fits <==> Appendable(b, attrs)
    ensures fits ==>
      && s.off + |AppendBytes(b, attrs)| <= |b|
      && after == Overlay(b, s.off, AppendBytes(b, attrs))
      && next.off == Appended(b, attrs).off && next.etag == Appended(b, attrs).etag
  {
    hide Xor, BeBytes, Crc32, TagOf, IsValid, Encode, CommitBytes, PlanCommit, ScanBlock, SolidBlock, NextPtag;
    after, next := b, s;
    var w := new CommitWriter(b, s.off, s.etag);
    NothingYet(b, s.off);
    fits := w.CommitAttrs(attrs, b, s.off, []);
    if fits {
      assert [] + Encode(attrs, s.etag) == Encode(attrs, s.etag);
      ghost var p := PlanCommit(b, s.off, attrs, s.etag);
      var verified := w.CommitCrc(s.off, b, [], attrs, s.etag);
      NoLead(p, s.etag);
      AppendedEnd(b, attrs);
      after := w.block;
      next := s.(off := w.off, etag := w.ptag);
    }
  }

  lemma AppendedEnd(b: Block, attrs: seq<Attr>)
    requires Appendable(b, attrs)
    ensures var p := PlanCommit(b, ScanBlock(b).off, attrs, ScanBlock(b).etag);
            Appended(b, attrs).off == p.end && Appended(b, attrs).etag == NextPtag(p.word)
  {
    hide PlanCommit, ScanBlock, SolidBlock, GoodPlan, Recs, NextPtag;
    AppendInside(b, attrs);
  }

  lemma NothingYet(b: Block, off: nat)
    requires off <= |b|
    ensures Overlay(b, off, []) == b && Crc32(ONES, []) == ONES
  {}

  lemma NoLead(p: Plan, ptag: Word)
    ensures [] + CommitBytes(p, ptag, Crc32(ONES, [])) == CommitBytes(p, ptag, ONES)
  {}

  /** A compaction into the other block of a pair. */
  method CompactInto(other: Block, rev: Word, attrs: seq<Attr>) returns (fits: bool, after: Block, off: nat, etag: Word)
    requires |other| >= 16 && |other| % PROG == 0
    requires forall i :: 0 <= i < |attrs| ==> Writable(attrs[i])
    ensures fits <==> Compactable(other, attrs)
    ensures fits ==>
      && |CompactBytes(other, rev, attrs)| <= |other|
      && after == Overlay(other, 0, CompactBytes(other, rev, attrs))
      && off == Compacted(other, attrs).off && etag == Compacted(other, attrs).etag
  {
    hide Xor, BeBytes, Crc32, TagOf, IsValid, Encode, CommitBytes, PlanCommit, NextPtag, Le32Bytes;
    after, off, etag := other, 0, 0;
    var w := new CommitWriter(other, 0, ONES);
    NothingYet(other, 0);
    BeLength(rev);
    w.Prog(Le32Bytes(rev), other, 0, []);
    ghost var lead := Le32Bytes(rev);
    assert [] + lead == lead;
    fits := w.CommitAttrs(attrs, other, 0, lead);
    if fits {
      CompactInside(other, rev, attrs);
      var verified := w.CommitCrc(0, other, lead, attrs, ONES);
      after, off, etag := w.block, w.off, w.ptag;
    }
  }
}
