/** The 32-bit entry tag of a littlefs metadata block, as its fields: an 11-bit
    type (3 bits of class, 8 bits of chunk), a 10-bit id and a 10-bit size. */
module Tags {
  datatype RawTag = Tag(cls: nat, chunk: nat, id: nat, size: nat)

  type Tag = t: RawTag | t.cls < 8 && t.chunk < 256 && t.id < 1024 && t.size < 1024
    witness Tag(0, 0, 0, 0)

  const NAME := 0
  const STRUCT := 2
  const USERATTR := 3
  const SPLICE := 4
  const CRC := 5
  const TAIL := 6
  const GLOBALS := 7

  const CREATE_CHUNK := 0x01
  const DELETE_CHUNK := 0xff
  const FCRC_CHUNK := 0xff

  /** The id of tags that belong to the metadata block rather than to an entry,
      and the size that marks a removed attribute. */
  const NO_ID := 0x3ff
  const DELETED_SIZE := 0x3ff

  predicate IsDelete(t: Tag) { t.size == DELETED_SIZE }

  /** Bytes the tag takes on disk, itself included. */
  function DSize(t: Tag): nat { 4 + if IsDelete(t) then 0 else t.size }

  predicate IsCreate(t: Tag) { t.cls == SPLICE && t.chunk == CREATE_CHUNK }

  predicate IsRemove(t: Tag) { t.cls == SPLICE && t.chunk == DELETE_CHUNK }

  /** Names, structs and user attributes belong to a directory entry. */
  predicate IsEntryAttr(t: Tag) { t.cls < SPLICE }

  /** The chunk as the signed byte by which a splice moves later ids. */
  function Splice(t: Tag): int { if t.chunk < 128 then t.chunk else t.chunk - 256 }

  /** Tags of an odd class are unique by their whole type, the others by class. */
  datatype Key = Key(cls: nat, chunk: nat)

  function KeyOf(t: Tag): Key { KeyBy(MaskOf(t.cls), t) }

  /** The bits of the type a lookup asks for: the class (mask 0x700), with the first bit
      of the chunk (0x780), or all (0x7ff). */
  datatype Mask = ByClass | ByHalf | ByType

  function MaskOf(cls: nat): Mask { if cls % 2 == 1 then ByType else ByClass }

  function Masked(mask: Mask, chunk: nat): nat {
    match mask
    case ByClass => 0
    case ByHalf => chunk / 128
    case ByType => chunk
  }

  function KeyBy(mask: Mask, t: Tag): Key { Key(t.cls, Masked(mask, t.chunk)) }

  /** The tag as the driver holds it, a 32-bit word with the valid bit clear. */
  function Pack(t: Tag): nat { ((t.cls * 256 + t.chunk) * 1024 + t.id) * 1024 + t.size }

  /** The lowest bit of the word that a mask looks at. */
  function MaskUnit(mask: Mask): (u: nat)
    ensures u > 0
  {
    match mask
    case ByClass => 0x1000_0000
    case ByHalf => 0x800_0000
    case ByType => 0x10_0000
  }

  /** Two tags are of a kind exactly if their words agree from that bit up. */
  lemma KindIs(mask: Mask, t: Tag, u: Tag)
    ensures KeyBy(mask, t) == KeyBy(mask, u) <==> Pack(t) / MaskUnit(mask) == Pack(u) / MaskUnit(mask)
  {
    hide Pack;
    TopBits(t);
    TopBits(u);
  }

  lemma TopBits(t: Tag)
    ensures Pack(t) / 0x10_0000 == t.cls * 256 + t.chunk
    ensures Pack(t) / 0x800_0000 == t.cls * 2 + t.chunk / 128
    ensures Pack(t) / 0x1000_0000 == t.cls
  {
    var type11, rest := t.cls * 256 + t.chunk, t.id * 1024 + t.size;
    var p := type11 * 0x10_0000 + rest;
    assert p == Pack(t) && rest < 0x10_0000;
    var half, low := t.cls * 2 + t.chunk / 128, t.chunk % 128;
    assert type11 == half * 128 + low;
    assert p == half * 0x800_0000 + (low * 0x10_0000 + rest);
    assert p == t.cls * 0x1000_0000 + (t.chunk * 0x10_0000 + rest);
  }

  /** Adding k to the id field of the word; the range condition is what keeps
      the addition from carrying into the type. */
  function Shift(t: Tag, k: int): (r: Tag)
    requires 0 <= t.id + k < 1024
    ensures Pack(r) == Pack(t) + 1024 * k
  {
    t.(id := t.id + k)
  }

  /** The word determines the fields. */
  lemma PackInjective(t: Tag, u: Tag)
    requires Pack(t) == Pack(u)
    ensures t == u
  {
    var a, b := (t.cls * 256 + t.chunk) * 1024 + t.id, (u.cls * 256 + u.chunk) * 1024 + u.id;
    LowDigit(a, t.size, b, u.size);
    LowDigit(t.cls * 256 + t.chunk, t.id, u.cls * 256 + u.chunk, u.id);
  }

  lemma LowDigit(a: nat, x: nat, b: nat, y: nat)
    requires a * 1024 + x == b * 1024 + y && x < 1024 && y < 1024
    ensures a == b && x == y
  {}
}
