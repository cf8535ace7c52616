/** Writing a commit into a metadata block, and what a fetch then makes of the
    block: all of the commit, or, when power fails in between, nothing of it. */
module MetaCommit {
  import opened Bytes
  import opened Arith
  import opened Crc
  import opened Tags
  import opened TagLog
  import opened Words
  import opened MetaBlock

  /** One attribute to be written: its tag as a word, and its data. */
  datatype Attr = Attr(word: Word, data: seq<Octet>)

  /** What a commit may contain beside its checksum. */
  predicate Writable(a: Attr) {
    var t := TagOf(a.word);
    IsValid(a.word) && !IsCrcTag(t) && |a.data| == DSize(t) - 4 && (NeedsEight(t) ==> |a.data| >= 8)
  }

  function RecOf(a: Attr): Rec { Rec(TagOf(a.word), a.data) }

  function Recs(attrs: seq<Attr>): seq<Rec> {
    if attrs == [] then [] else [RecOf(attrs[0])] + Recs(attrs[1..])
  }

  /** lfs_dir_commitattr for each attribute in turn. */
  function Encode(attrs: seq<Attr>, ptag: Word): seq<Octet> {
    if attrs == [] then []
    else BeBytes(Xor(attrs[0].word, ptag)) + attrs[0].data + Encode(attrs[1..], attrs[0].word)
  }

  function LastWord(attrs: seq<Attr>, ptag: Word): Word {
    if attrs == [] then ptag else attrs[|attrs| - 1].word
  }

  ghost predicate HoldsAt(b: Block, off: nat, bytes: seq<Octet>) {
    off + |bytes| <= |b| && b[off..off + |bytes|] == bytes
  }

  lemma HoldsParts(b: Block, off: nat, x: seq<Octet>, y: seq<Octet>)
    requires HoldsAt(b, off, x + y)
    ensures HoldsAt(b, off, x) && HoldsAt(b, off + |x|, y)
  {
    assert b[off..off + |x|] == b[off..off + |x + y|][..|x|];
    assert b[off + |x|..off + |x| + |y|] == b[off..off + |x + y|][|x|..];
  }

  lemma ReadsBack(b: Block, off: nat, w: Word, ptag: Word)
    requires HoldsAt(b, off, BeBytes(Xor(w, ptag)))
    ensures off + 4 <= |b| && WordAt(b, off, ptag) == w && b[off..off + 4] == BeBytes(Xor(w, ptag))
  {
    hide Xor, LeWord, ByteOf;
    BeRoundTrip(Xor(w, ptag));
    XorLaws(w, ptag, ptag);
    XorLaws(w, 0, 0);
    XorLaws(ptag, 0, 0);
  }

  /** Scanning over written attributes collects exactly their records. */
  lemma {:induction false} ParseAttrs(b: Block, off: nat, ptag: Word, crc: Word, pend: seq<Rec>, attrs: seq<Attr>)
    requires forall i :: 0 <= i < |attrs| ==> Writable(attrs[i])
    requires HoldsAt(b, off, Encode(attrs, ptag))
    ensures var body := Encode(attrs, ptag);
            NextCommit(b, off, ptag, crc, pend) ==
            NextCommit(b, off + |body|, LastWord(attrs, ptag), Crc32(crc, body), pend + Recs(attrs))
    decreases |attrs|
  {
    if attrs == [] {
      hide NextCommit, Crc32;
      assert pend + [] == pend;
      CrcOfNothing(crc);
    } else {
      hide Xor, LeWord, Crc32, TagOf, BeBytes, NextCommit, Writable, Encode, LastWord;
      var a, rest := attrs[0], attrs[1..];
      var head, tail := BeBytes(Xor(a.word, ptag)) + a.data, Encode(rest, a.word);
      HoldsParts(b, off, head, tail);
      var next, mid := ParseAttr(b, off, ptag, crc, pend, a);
      ParseAttrs(b, next, a.word, mid, pend + [RecOf(a)], rest);
      CrcOfChunks(crc, head, tail);
      FirstAttr(attrs, ptag, pend);
    }
  }

  lemma FirstAttr(attrs: seq<Attr>, ptag: Word, pend: seq<Rec>)
    requires attrs != []
    ensures var a, rest := attrs[0], attrs[1..];
      && Encode(attrs, ptag) == (BeBytes(Xor(a.word, ptag)) + a.data) + Encode(rest, a.word)
      && pend + Recs(attrs) == pend + [RecOf(a)] + Recs(rest) && LastWord(attrs, ptag) == LastWord(rest, a.word)
  {
    hide Xor, BeBytes, TagOf;
  }

  lemma CrcOfNothing(crc: Word)
    ensures Crc32(crc, []) == crc
  {}

  lemma ParseAttr(b: Block, off: nat, ptag: Word, crc: Word, pend: seq<Rec>, a: Attr) returns (next: nat, mid: Word)
    requires Writable(a) && HoldsAt(b, off, BeBytes(Xor(a.word, ptag)) + a.data)
    ensures next == off + |BeBytes(Xor(a.word, ptag)) + a.data| <= |b|
    ensures mid == Crc32(crc, BeBytes(Xor(a.word, ptag)) + a.data)
    ensures NextCommit(b, off, ptag, crc, pend) == NextCommit(b, next, a.word, mid, pend + [RecOf(a)])
  {
    hide IsValid, Xor, LeWord, Crc32, ClassOf, ChunkOf, IdOf, SizeOf, BeBytes;
    var tagBytes := BeBytes(Xor(a.word, ptag));
    HoldsParts(b, off, tagBytes, a.data);
    ReadsBack(b, off, a.word, ptag);
    CrcOfChunks(crc, tagBytes, a.data);
    next, mid := off + |tagBytes| + |a.data|, Crc32(crc, tagBytes + a.data);
  }

  // ----- lfs_dir_commitcrc -----

  const PROG: nat := 16

  /** Where a commit whose attributes end at off will end: room for five more
      words, or the end of the block, rounded up to what is programmed at once. */
  function CommitEnd(off: nat, size: nat): nat { AlignUp(Min(off + 20, size), 16) }

  /** What is rounded up stays before an end that is aligned. */
  lemma RoundedUp(n: nat, end: nat)
    requires n <= end && end % 16 == 0
    ensures n <= AlignUp(n, 16) <= end && AlignUp(n, 16) % 16 == 0
  {
    var q, r := (n + 15) / 16, (n + 15) % 16;
    assert n + 15 == 16 * q + r && AlignUp(n, 16) == 16 * q;
  }

  /** Whether something can be programmed after a commit that ends at end. */
  predicate HasNext(end: nat, size: nat) { end + PROG <= size }

  /** The checksum of the space after the commit as it is before the next program. */
  function FcrcAttr(b: Block, end: nat): Attr
    requires end + PROG <= |b|
  {
    Attr(0x5fff_fc08, Le32Bytes(16) + Le32Bytes(Crc32(ONES, b[end..end + PROG])))
  }

  /** The attributes of a commit with what the driver adds before the checksum. */
  function WithFcrc(b: Block, attrs: seq<Attr>, end: nat): seq<Attr> {
    if HasNext(end, |b|) then attrs + [FcrcAttr(b, end)] else attrs
  }

  /** The next tag must not read as valid before it is programmed: turn the
      valid bit around if the byte that is there now has its top bit clear. */
  predicate Perturbed(b: Block, end: nat) { HasNext(end, |b|) && b[end] < 0x80 }

  /** A commit as it will lie in the block: its attributes, where its checksum
      tag goes and where it ends, and that tag. */
  datatype Plan = Plan(all: seq<Attr>, at: nat, end: nat, word: Word)

  function PlanCommit(b: Block, off: nat, attrs: seq<Attr>, ptag: Word): Plan {
    var end := CommitEnd(off + |Encode(attrs, ptag)|, |b|);
    var all := WithFcrc(b, attrs, end);
    var at := off + |Encode(all, ptag)|;
    Plan(all, at, end, CrcWord(Perturbed(b, end), Pad(end, at)))
  }

  function SignedBytes(p: Plan, ptag: Word): seq<Octet> {
    Encode(p.all, ptag) + BeBytes(Xor(p.word, LastWord(p.all, ptag)))
  }

  /** The attributes, the checksum tag, and the checksum over both. */
  function CommitBytes(p: Plan, ptag: Word, crc: Word): seq<Octet> {
    SignedBytes(p, ptag) + Le32Bytes(Crc32(crc, SignedBytes(p, ptag)))
  }

  function Pad(end: nat, at: nat): nat { if at + 4 <= end then end - at - 4 else 0 }

  /** A commit fits if its checksum does. */
  predicate Fits(size: nat, off: nat, attrs: seq<Attr>, ptag: Word) {
    off + |Encode(attrs, ptag)| + 8 <= size && size % PROG == 0
  }

  lemma {:induction false} EncodeAdd(attrs: seq<Attr>, a: Attr, ptag: Word)
    ensures Encode(attrs + [a], ptag) == Encode(attrs, ptag) + (BeBytes(Xor(a.word, LastWord(attrs, ptag))) + a.data)
    decreases |attrs|
  {
    hide Xor, BeBytes;
    if attrs == [] {
      assert [a][1..] == [];
      assert attrs + [a] == [a];
    } else {
      assert (attrs + [a])[1..] == attrs[1..] + [a];
      EncodeAdd(attrs[1..], a, attrs[0].word);
    }
  }

  lemma {:induction false} RecsAdd(attrs: seq<Attr>, a: Attr)
    ensures Recs(attrs + [a]) == Recs(attrs) + [RecOf(a)]
  {
    if attrs == [] {
      assert [a][1..] == [];
      assert attrs + [a] == [a];
    } else {
      assert (attrs + [a])[1..] == attrs[1..] + [a];
      RecsAdd(attrs[1..], a);
    }
  }

  lemma RoomForCrc(size: nat, off: nat)
    requires off + 8 <= size && size % PROG == 0
    ensures var end := CommitEnd(off, size);
            && off + 8 <= end <= size && end % PROG == 0 && end < off + 36
            && (HasNext(end, size) ==> off + 20 <= end)
  {}

  lemma FcrcWritable(b: Block, end: nat)
    requires end + PROG <= |b|
    ensures Writable(FcrcAttr(b, end)) && |FcrcAttr(b, end).data| == 8
    ensures TagOf(0x5fff_fc08) == Tag(CRC, FCRC_CHUNK, NO_ID, 8)
  {
    hide Crc32, ByteOf, Down8;
    FcrcFields();
  }

  lemma FcrcFields()
    ensures TagOf(0x5fff_fc08) == Tag(CRC, FCRC_CHUNK, NO_ID, 8) && IsValid(0x5fff_fc08)
  {}

  /** What makes a plan one that a scan will follow. */
  ghost predicate GoodPlan(p: Plan, off: nat, size: nat, ptag: Word) {
    && (forall i :: 0 <= i < |p.all| ==> Writable(p.all[i]))
    && p.at == off + |Encode(p.all, ptag)| && p.at + 8 <= p.end <= size && p.end % PROG == 0
    && IsValid(p.word) && IsCrcTag(TagOf(p.word)) && p.at + Span(p.word) == p.end
  }

  lemma PlanIsGood(b: Block, off: nat, attrs: seq<Attr>, ptag: Word)
    requires Fits(|b|, off, attrs, ptag)
    requires forall i :: 0 <= i < |attrs| ==> Writable(attrs[i])
    ensures GoodPlan(PlanCommit(b, off, attrs, ptag), off, |b|, ptag)
  {
    hide Xor, Crc32, LeWord, ByteOf, Down8, ClassOf, ChunkOf, IdOf, SizeOf, IsValid, CrcWord, FcrcAttr, Encode,
      CommitEnd, BeBytes;
    var offb := off + |Encode(attrs, ptag)|;
    var end := CommitEnd(offb, |b|);
    RoomForCrc(|b|, offb);
    if HasNext(end, |b|) {
      FcrcWritable(b, end);
      EncodeAdd(attrs, FcrcAttr(b, end), ptag);
      BeLength(Xor(FcrcAttr(b, end).word, LastWord(attrs, ptag)));
    }
    var at := off + |Encode(WithFcrc(b, attrs, end), ptag)|;
    CrcWordFields(Perturbed(b, end), Pad(end, at));
  }

  /** It ends at the first program unit that leaves room for both checksums, or with the
      block, and writes no more than the attributes and, where a unit follows, its checksum. */
  lemma PlanIsTight(b: Block, off: nat, attrs: seq<Attr>, ptag: Word)
    ensures var p, least := PlanCommit(b, off, attrs, ptag), Min(off + |Encode(attrs, ptag)| + 20, |b|);
            && p.end % 16 == 0 && least <= p.end < least + 16
            && attrs <= p.all && |p.all| == |attrs| + if p.end + 16 <= |b| then 1 else 0
  {
    hide Encode, FcrcAttr, CrcWord, Perturbed;
  }

  lemma BeLength(w: Word)
    ensures |BeBytes(w)| == 4 && |Le32Bytes(w)| == 4
  {}

  /** A block that holds the bytes of a commit is scanned to the end of it. */
  lemma CommitParses(b: Block, off: nat, p: Plan, ptag: Word, crc: Word)
    requires GoodPlan(p, off, |b|, ptag) && HoldsAt(b, off, CommitBytes(p, ptag, crc))
    ensures NextCommit(b, off, ptag, crc, []) == Commit(Recs(p.all), p.at, p.word)
    ensures off + |CommitBytes(p, ptag, crc)| == p.at + 8
  {
    hide Xor, Crc32, LeWord, ByteOf, ClassOf, ChunkOf, IdOf, SizeOf, IsValid, BeBytes, Encode, Recs, Le32Bytes,
      Writable;
    var body, last := Encode(p.all, ptag), LastWord(p.all, ptag);
    var tagBytes := BeBytes(Xor(p.word, last));
    var sum := Crc32(crc, body + tagBytes);
    BeLength(Xor(p.word, last));
    BeLength(sum);
    HoldsParts(b, off, body + tagBytes, Le32Bytes(sum));
    HoldsParts(b, off, body, tagBytes);
    ParseAttrs(b, off, ptag, crc, [], p.all);
    assert [] + Recs(p.all) == Recs(p.all);
    ReadsBack(b, p.at, p.word, last);
    CrcOfChunks(crc, body, tagBytes);
    BytesOfWord(sum);
  }

  /** After a commit the bytes already on the medium never read as a tag: an
      erase that does nothing cannot bring an older commit back. */
  lemma StaleSign(b: Block, orig: Block, off: nat, attrs: seq<Attr>, ptag: Word)
    requires Fits(|orig|, off, attrs, ptag) && |b| == |orig|
    requires var end := PlanCommit(orig, off, attrs, ptag).end; end + 4 <= |b| && b[end] == orig[end]
    ensures var p := PlanCommit(orig, off, attrs, ptag);
            !IsValid(WordAt(b, p.end, NextPtag(p.word)))
  {
    hide Xor, Crc32, LeWord, ByteOf, ClassOf, ChunkOf, IdOf, SizeOf, IsValid, BeBytes, Encode, BeWord, CommitEnd,
      CrcWord, FlipValid;
    var p := PlanCommit(orig, off, attrs, ptag);
    RoomForCrc(|b|, off + |Encode(attrs, ptag)|);
    assert HasNext(p.end, |b|);
    var n := Pad(p.end, p.at);
    PlanPad(orig, off, attrs, ptag);
    CrcWordFields(orig[p.end] < 0x80, n);
    FlipSign(CrcWord(orig[p.end] < 0x80, n));
    ValidByte(b[p.end..p.end + 4], NextPtag(p.word));
  }

  lemma StaleIsInvalid(b: Block, orig: Block, off: nat, attrs: seq<Attr>, ptag: Word, crc: Word, pend: seq<Rec>)
    requires Fits(|orig|, off, attrs, ptag) && |b| == |orig|
    requires var end := PlanCommit(orig, off, attrs, ptag).end; end < |b| ==> b[end] == orig[end]
    ensures var p := PlanCommit(orig, off, attrs, ptag);
            NextCommit(b, p.end, NextPtag(p.word), crc, pend) == Nothing
  {
    hide Xor, Crc32, IsValid, WordAt, PlanCommit, NextPtag, TagOf;
    var p := PlanCommit(orig, off, attrs, ptag);
    if p.end + 4 <= |b| {
      StaleSign(b, orig, off, attrs, ptag);
    }
  }

  lemma FlipSign(w: Word)
    ensures IsValid(FlipValid(w)) == !IsValid(w)
  {}

  lemma PlanPad(b: Block, off: nat, attrs: seq<Attr>, ptag: Word)
    requires Fits(|b|, off, attrs, ptag)
    ensures var p := PlanCommit(b, off, attrs, ptag); Pad(p.end, p.at) < 0x400
  {
    hide Xor, Crc32, LeWord, ByteOf, BeBytes, CrcWord, FcrcAttr;
    var offb := off + |Encode(attrs, ptag)|;
    RoomForCrc(|b|, offb);
    var end := CommitEnd(offb, |b|);
    if HasNext(end, |b|) {
      EncodeAdd(attrs, FcrcAttr(b, end), ptag);
    }
  }

  /** The first tag of a commit reads as valid, and its first byte alone says so. */
  lemma FirstByteIsValid(p: Plan, off: nat, size: nat, ptag: Word, crc: Word)
    requires GoodPlan(p, off, size, ptag)
    ensures var w := CommitBytes(p, ptag, crc); |w| > 0 && (w[0] < 0x80 <==> IsValid(ptag))
  {
    hide Xor, Crc32, LeWord, ByteOf, ClassOf, ChunkOf, IdOf, SizeOf, IsValid, BeBytes, BeWord, Le32Bytes;
    var word := if p.all == [] then p.word else p.all[0].word;
    var x := Xor(word, ptag);
    BeLength(x);
    BeRoundTrip(x);
    XorLaws(word, ptag, ptag);
    XorLaws(word, 0, 0);
    XorLaws(ptag, 0, 0);
    ValidByte(BeBytes(x), ptag);
    assert IsValid(word);
    assert CommitBytes(p, ptag, crc)[0] == BeBytes(x)[0];
  }
}
