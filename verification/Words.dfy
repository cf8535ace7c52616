/** Tags as the 32-bit big-endian words of a metadata block: each is stored
    xored with the one before it, and its top bit says whether it is there. */
module Words {
  import opened Bytes
  import opened Crc
  import opened Tags

  function ClassOf(w: Word): nat { ((w >> 28) & 7) as nat }

  function ChunkOf(w: Word): nat { ((w >> 20) & 0xff) as nat }

  function IdOf(w: Word): nat { ((w >> 10) & 0x3ff) as nat }

  function SizeOf(w: Word): nat { (w & 0x3ff) as nat }

  /** The fields of a word, its valid bit aside. */
  function TagOf(w: Word): Tag { Tag(ClassOf(w), ChunkOf(w), IdOf(w), SizeOf(w)) }

  predicate IsValid(w: Word) { w & 0x8000_0000 == 0 }

  /** The type of a commit checksum: class 5, with the low half of the chunks. */
  predicate IsCommitCrc(w: Word) { ClassOf(w) == CRC && ChunkOf(w) < 128 }

  function Unsigned(w: Word): Word { w & 0x7fff_ffff }

  function FlipValid(w: Word): Word { w ^ 0x8000_0000 }

  /** The word that the next tag is xored with: a commit checksum with an odd
      chunk turns the valid bit around. */
  function NextPtag(w: Word): Word { if ChunkOf(w) % 2 == 1 then FlipValid(w) else w }

  function BeBytes(w: Word): seq<Octet> { Reversed(Le32Bytes(w)) }

  function BeWord(b: seq<Octet>): Word { LeWord(Reversed(b)) }

  function Reversed<T>(s: seq<T>): (r: seq<T>)
    ensures |r| == |s| && forall i :: 0 <= i < |s| ==> r[i] == s[|s| - 1 - i]
  {
    if s == [] then [] else Reversed(s[1..]) + [s[0]]
  }

  lemma {:induction false} ReversedTwice<T>(s: seq<T>)
    ensures Reversed(Reversed(s)) == s
  {}

  lemma BeRoundTrip(w: Word)
    ensures |BeBytes(w)| == 4 && BeWord(BeBytes(w)) == w
  {
    hide LeWord, ByteOf;
    ReversedTwice(Le32Bytes(w));
    BytesOfWord(w);
  }

  /** Every word has the size of its fields, whichever way its valid bit points. */
  lemma SignIsNoField(w: Word)
    ensures TagOf(Unsigned(w)) == TagOf(w) && TagOf(FlipValid(w)) == TagOf(w) && TagOf(NextPtag(w)) == TagOf(w)
    ensures Unsigned(FlipValid(w)) == Unsigned(w) && Unsigned(NextPtag(w)) == Unsigned(w)
    ensures Unsigned(Unsigned(w)) == Unsigned(w)
    ensures IsValid(w) ==> Unsigned(w) == w
  {
    UnsignedFields(w);
    FlippedFields(w);
  }

  lemma UnsignedFields(w: Word)
    ensures TagOf(Unsigned(w)) == TagOf(w) && Unsigned(Unsigned(w)) == Unsigned(w)
    ensures IsValid(w) ==> Unsigned(w) == w
  {}

  lemma FlippedFields(w: Word)
    ensures TagOf(FlipValid(w)) == TagOf(w) && Unsigned(FlipValid(w)) == Unsigned(w)
  {}

  /** Xoring twice with the same word is no change, and signs can be taken off
      before or after. */
  lemma Unchain(stored: Word, ptag: Word, w: Word)
    requires w == Xor(stored, ptag)
    ensures Xor(stored, w) == ptag
    ensures Xor(w, ptag) == stored
  {}

  lemma UnsignedXor(a: Word, b: Word, c: Word)
    requires Unsigned(b) == Unsigned(c)
    ensures Unsigned(Xor(a, b)) == Unsigned(Xor(a, c))
  {
    hide Unsigned, Xor;
    UnsignedParts(a, b);
    UnsignedParts(a, c);
  }

  lemma UnsignedParts(a: Word, b: Word)
    ensures Unsigned(Xor(a, b)) == Xor(Unsigned(a), Unsigned(b))
  {}

  // ----- Building a checksum tag -----

  function SizeWord(n: nat): Word { if n == 0 then 0 else SizeWord(n - 1) + 1 }

  lemma {:induction false} SizeWordIs(n: nat)
    requires n < 0x400
    ensures SizeWord(n) < 0x400 && SizeOf(SizeWord(n)) == n
  {
    if n > 0 {
      SizeWordIs(n - 1);
      CountUp(SizeWord(n - 1), n - 1);
    }
  }

  lemma CountUp(w: Word, n: nat)
    requires w < 0x400 && SizeOf(w) == n < 0x3ff
    ensures w + 1 < 0x400 && SizeOf(w + 1) == n + 1
  {}

  /** The tag of a commit checksum that spans n more bytes. */
  function CrcWord(perturb: bool, n: nat): Word { (if perturb then 0x501f_fc00 else 0x500f_fc00) | SizeWord(n) }

  lemma CrcWordFields(perturb: bool, n: nat)
    requires n < 0x400
    ensures IsValid(CrcWord(perturb, n)) && IsCommitCrc(CrcWord(perturb, n))
    ensures TagOf(CrcWord(perturb, n)) == Tag(CRC, if perturb then 1 else 0, NO_ID, n)
    ensures NextPtag(CrcWord(perturb, n)) == if perturb then FlipValid(CrcWord(perturb, n)) else CrcWord(perturb, n)
  {
    hide SizeWord, SizeOf, IsValid, ClassOf, ChunkOf, IdOf, FlipValid;
    SizeWordIs(n);
    CrcFields(SizeWord(n), n);
  }

  lemma CrcFields(w: Word, n: nat)
    requires w < 0x400 && SizeOf(w) == n
    ensures TagOf(0x501f_fc00 | w) == Tag(CRC, 1, NO_ID, n) && IsValid(0x501f_fc00 | w)
    ensures TagOf(0x500f_fc00 | w) == Tag(CRC, 0, NO_ID, n) && IsValid(0x500f_fc00 | w)
  {}

  /** The valid bit of a word is the top bit of its first byte on disk. */
  lemma ValidByte(b: seq<Octet>, ptag: Word)
    requires |b| == 4
    ensures IsValid(Xor(BeWord(b), ptag)) <==> (b[0] < 0x80 <==> IsValid(ptag))
  {
    hide Xor, IsValid, LeWord;
    LeWordLast(Reversed(b));
    XorValid(BeWord(b), ptag);
  }

  lemma XorValid(a: Word, b: Word)
    ensures IsValid(Xor(a, b)) <==> (IsValid(a) <==> IsValid(b))
  {}

  lemma LeWordLast(r: seq<Octet>)
    requires |r| == 4
    ensures IsValid(LeWord(r)) <==> r[3] < 0x80
  {
    hide Xor, Up8, LeWord, IsValid;
    var w1, w2, w3 := LeWord(r[1..]), LeWord(r[2..]), LeWord(r[3..]);
    assert r[0..] == r;
    LeWordStep(r, 0);
    LeWordStep(r, 1);
    LeWordStep(r, 2);
    LeWordStep(r, 3);
    LeWordEnd(r);
    FourUp(r[0], r[1], r[2], r[3], LeWord(r), w1, w2, w3);
  }

  lemma LeWordStep(r: seq<Octet>, k: nat)
    requires k < |r|
    ensures LeWord(r[k..]) == Xor(r[k] as Word, Up8(LeWord(r[k + 1..])))
  {
    hide Xor, Up8;
    assert r[k..][1..] == r[k + 1..];
  }

  lemma LeWordEnd(r: seq<Octet>)
    ensures LeWord(r[|r|..]) == 0
  {}

  lemma FourUp(r0: Octet, r1: Octet, r2: Octet, r3: Octet, w0: Word, w1: Word, w2: Word, w3: Word)
    requires w0 == Xor(r0 as Word, Up8(w1)) && w1 == Xor(r1 as Word, Up8(w2))
    requires w2 == Xor(r2 as Word, Up8(w3)) && w3 == Xor(r3 as Word, Up8(0))
    ensures IsValid(w0) <==> r3 < 0x80
  {}
}
