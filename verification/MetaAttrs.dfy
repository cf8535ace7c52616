/** From the records of a log to the attributes of a commit: what the traversal
    hands on is written as words that read back as the same records, in as many
    bytes as it counted, and with what else a compaction writes it fits the block. */
module MetaAttrs {
  import opened Bytes
  import opened Crc
  import opened Tags
  import opened EntryLog
  import opened TagLog
  import opened Directory
  import opened Words
  import opened MetaBlock
  import opened MetaCommit

  // ----- The word of a tag -----

  function Joined(cls: Word, chunk: Word, id: Word, size: Word): Word {
    (cls << 28) | (chunk << 20) | (id << 10) | size
  }

  /** The tag as a word, with the valid bit clear. */
  function WordOf(t: Tag): Word {
    Joined(SizeWord(t.cls), SizeWord(t.chunk), SizeWord(t.id), SizeWord(t.size))
  }

  lemma JoinedParts(cls: Word, chunk: Word, id: Word, size: Word)
    requires cls < 8 && chunk < 0x100 && id < 0x400 && size < 0x400
    ensures var w := Joined(cls, chunk, id, size);
      && (w >> 28) & 7 == cls && (w >> 20) & 0xff == chunk && (w >> 10) & 0x3ff == id && w & 0x3ff == size
      && w & 0x8000_0000 == 0
  {}

  lemma SmallWord(w: Word, n: nat)
    requires w < 0x400 && SizeOf(w) == n
    ensures w as nat == n && (n < 8 ==> w < 8) && (n < 0x100 ==> w < 0x100)
  {}

  /** A word made of the fields of a tag has these fields. */
  lemma WordFields(t: Tag)
    ensures TagOf(WordOf(t)) == t && IsValid(WordOf(t))
  {
    hide SizeWord, SizeOf, Joined;
    var c, h, i, s := SizeWord(t.cls), SizeWord(t.chunk), SizeWord(t.id), SizeWord(t.size);
    SizeWordIs(t.cls);
    SizeWordIs(t.chunk);
    SizeWordIs(t.id);
    SizeWordIs(t.size);
    SmallWord(c, t.cls);
    SmallWord(h, t.chunk);
    SmallWord(i, t.id);
    SmallWord(s, t.size);
    JoinedParts(c, h, i, s);
    SizeIs(WordOf(t));
  }

  lemma SizeIs(w: Word)
    ensures SizeOf(w) == (w & 0x3ff) as nat
  {}

  // ----- The attributes of a compaction -----

  function AttrsOf(recs: seq<Rec>): seq<Attr> {
    if recs == [] then [] else [Attr(WordOf(recs[0].tag), recs[0].data)] + AttrsOf(recs[1..])
  }

  /** What is written reads back as what was handed on. */
  lemma {:induction false} AttrsMean(recs: seq<Rec>, n: nat)
    requires Rebased(recs, n) && Sized(recs)
    ensures Recs(AttrsOf(recs)) == recs
    ensures forall i :: 0 <= i < |AttrsOf(recs)| ==> Writable(AttrsOf(recs)[i])
  {
    hide TagOf, IsValid, WordOf, Writable;
    if recs != [] {
      var rest := recs[1..];
      assert Rebased(rest, n) && Sized(rest) by {
        assert forall i :: 0 <= i < |rest| ==> rest[i] == recs[i + 1];
      }
      OneMeans(recs, n);
      AttrsMean(rest, n);
      assert AttrsOf(recs) == [AttrsOf(recs)[0]] + AttrsOf(rest);
      assert AttrsOf(recs)[1..] == AttrsOf(rest);
      assert recs == [recs[0]] + rest;
    }
  }

  lemma OneMeans(recs: seq<Rec>, n: nat)
    requires Rebased(recs, n) && Sized(recs) && recs != []
    ensures var a := AttrsOf(recs)[0]; Writable(a) && Recs([a]) == [recs[0]]
  {
    hide IsValid, WordOf;
    WordFields(recs[0].tag);
  }

  /** The driver's attributes of a compaction, as far as the traversal gives them. */
  method CompactAttrs(log: seq<Rec>, begin: nat, end: nat) returns (attrs: seq<Attr>)
    requires WellFormed(log) && IdsFit(log) && Sized(log) && begin <= end
    ensures Ops(Recs(attrs)) == EntryLog.Compact(Ops(log), begin, end)
    ensures forall i :: 0 <= i < |attrs| ==> Writable(attrs[i])
  {
    var recs := Traverse(log, begin, end);
    attrs := AttrsOf(recs);
    AttrsMean(recs, end - begin);
  }

  // ----- How long they are -----

  lemma {:induction false} BytesOfCons(r: Rec, rest: seq<Rec>)
    ensures BytesOf([r] + rest) == DSize(r.tag) + BytesOf(rest)
  {
    var log := [r] + rest;
    if rest == [] {
      assert log[..0] == [];
    } else {
      assert log[..|log| - 1] == [r] + rest[..|rest| - 1];
      BytesOfCons(r, rest[..|rest| - 1]);
    }
  }

  /** A commit takes the bytes the traversal counts. */
  lemma {:induction false} EncodeLength(attrs: seq<Attr>, ptag: Word)
    requires forall i :: 0 <= i < |attrs| ==> Writable(attrs[i])
    ensures |Encode(attrs, ptag)| == BytesOf(Recs(attrs))
  {
    hide TagOf, IsValid, Xor, BeBytes;
    if attrs != [] {
      EncodeLength(attrs[1..], attrs[0].word);
      BeLength(Xor(attrs[0].word, ptag));
      BytesOfCons(RecOf(attrs[0]), Recs(attrs[1..]));
    }
  }

  lemma {:induction false} EncodeConcat(a: seq<Attr>, b: seq<Attr>, ptag: Word)
    ensures Encode(a + b, ptag) == Encode(a, ptag) + Encode(b, LastWord(a, ptag))
  {
    hide Xor, BeBytes;
    if a == [] {
      assert a + b == b;
    } else {
      assert (a + b)[1..] == a[1..] + b;
      EncodeConcat(a[1..], b, a[0].word);
    }
  }

  /** The tail and the global state: all that a compaction writes of its own. */
  const OWN_SIZE := 12 + 16

  /** A part of a split that is within its limits fits its block: with the revision
      count before it, the tail and the global state behind, and the checksum. */
  lemma PartFits(part: seq<Rec>, own: seq<Attr>, size: nat, begin: nat, end: nat, metadataMax: nat, progSize: nat)
    requires begin <= end && Rebased(part, end - begin) && Sized(part) && progSize > 0
    requires FitsPart(BytesOf(part), begin, end, metadataMax, progSize) && metadataMax <= size && size % PROG == 0
    requires (forall i :: 0 <= i < |own| ==> Writable(own[i])) && BytesOf(Recs(own)) <= OWN_SIZE
    ensures Fits(size, 4, AttrsOf(part) + own, ONES)
    ensures forall i :: 0 <= i < |AttrsOf(part) + own| ==> Writable((AttrsOf(part) + own)[i])
  {
    hide Encode, AttrsOf, Writable;
    AttrsMean(part, end - begin);
    EncodeLength(AttrsOf(part), ONES);
    EncodeLength(own, LastWord(AttrsOf(part), ONES));
    EncodeConcat(AttrsOf(part), own, ONES);
  }

  // ----- What a fetch reads is sized -----

  lemma {:induction false} CommitSized(b: Block, off: nat, ptag: Word, crc: Word, pend: seq<Rec>)
    requires Sized(pend)
    ensures var c := NextCommit(b, off, ptag, crc, pend); c.Commit? ==> Sized(c.recs)
    decreases |b| - off
  {
    hide IsValid, Xor, LeWord, Crc32, ClassOf, ChunkOf, IdOf, SizeOf;
    if off + 4 <= |b| {
      var w := WordAt(b, off, ptag);
      var t, mid := TagOf(w), Crc32(crc, b[off..off + 4]);
      if IsValid(w) && off + DSize(t) <= |b| && !IsCrcTag(t) {
        var data := b[off + 4..off + DSize(t)];
        CommitSized(b, off + DSize(t), w, Crc32(mid, data), pend + [Rec(t, data)]);
      }
    }
  }

  lemma {:induction false} CommitsSized(b: Block, off: nat, ptag: Word, crc: Word, acc: Scan)
    requires Sized(acc.log)
    ensures Sized(Commits(b, off, ptag, crc, acc).log)
    decreases |b| - off
  {
    hide IsValid, Xor, LeWord, Crc32, ClassOf, ChunkOf, IdOf, SizeOf, NextCommit, NextPtag;
    var c := NextCommit(b, off, ptag, crc, []);
    CommitAhead(b, off, ptag, crc, []);
    CommitSized(b, off, ptag, crc, []);
    if c.Commit? {
      CommitIsCrc(b, off, ptag, crc, []);
      var next := Extend(acc, c);
      CommitsSized(b, next.off, next.etag, ONES, next);
    }
  }

  lemma {:induction false} CommitIsCrc(b: Block, off: nat, ptag: Word, crc: Word, pend: seq<Rec>)
    ensures var c := NextCommit(b, off, ptag, crc, pend); c.Commit? ==> IsCrcTag(TagOf(c.word))
    decreases |b| - off
  {
    hide IsValid, Xor, LeWord, Crc32, ClassOf, ChunkOf, IdOf, SizeOf;
    if off + 4 <= |b| {
      var w := WordAt(b, off, ptag);
      var t, mid := TagOf(w), Crc32(crc, b[off..off + 4]);
      if IsValid(w) && off + DSize(t) <= |b| && !IsCrcTag(t) {
        var data := b[off + 4..off + DSize(t)];
        CommitIsCrc(b, off + DSize(t), w, Crc32(mid, data), pend + [Rec(t, data)]);
      }
    }
  }

  /** Whatever bytes a block holds, the attributes a fetch reads have the data their
      tags announce. */
  lemma ScanSized(b: Block)
    requires |b| >= 4
    ensures Sized(ScanBlock(b).log)
  {
    hide Commits, Crc32;
    CommitsSized(b, 4, ONES, Crc32(ONES, b[..4]), Scan([], 0, 0));
  }
}
