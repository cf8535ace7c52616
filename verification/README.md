# Proofs about the SAMWISE flight file system, image downlink and file transfer

This project models the parts of the repository that keep data across power
cuts and lossy links, and proves what they keep:

- **littlefs**, the file system on the satellite's MRAM: the metadata log and its
  compaction, crash atomicity of a metadata pair, the block allocator, the CTZ
  skip lists that hold file data, reading and writing files, global state spread
  over the metadata, the walk along the tail list, and the two caches;
- **the Reed-Solomon codec** of the image packets, a (255, 223) code with the
  conventional-basis parameters of CCSDS 131.0-B, section 4: the encoder, and the
  decoder up to the correction of sixteen symbols;
- **the SSDV transcoder**: Huffman codes both ways (ITU-T T.81, sections C.2,
  F.2.2.1 and B.1.1.5), bit packing with byte stuffing, DC prediction across lost
  packets;
- **the file transfer** over the serial link, and the packets under it.

Code that changes state in place is modelled by classes, arrays and loops with
contracts; each such method is tied to a function of its inputs or of the old
state, and what the code is for is proved about that function. Pure code is
modelled by functions.

## Main results

| area | result |
|---|---|
| log compaction | `EntryLog.CompactPreservesLookup`, `TagLog.Traverse`, `Directory.SplittingCompact`, `Directory.ChainPreservesLookup`, `MetaAttrs.PartFits` |
| crash atomicity | `MetaPair.FetchPair`, `MetaPair.AppendAtomic`, `MetaPair.CompactAtomic`, `MetaHistory.RunMeans`, `MetaRun.TornIsNotErased`, `MetaBlock.DamageIsRefused` |
| revisions | `Revisions.NewerIff`, `Revisions.RevisionAhead`, `Revisions.OneIsNewer` |
| both directions of the log | `MetaRead.BackwardIsForward`, `EntryLog.SurviveIsWalk` |
| allocator | `Alloc.Lookahead.Alloc`, `Alloc.Lookahead.Run` |
| skip lists | `Ctz.CtzIndex`, `CtzList.Disk.CtzFind`, `CtzList.Disk.CtzExtend`, `CtzList.Disk.CtzTraverse` |
| files as byte arrays | `FileWrite.File.Write`, `FileWrite.File.Flush`, `FileWrite.File.Read`, `FileWrite.File.Sync` |
| tail list | `TailWalk.Walk` |
| global state | `Gstate.RunConserves`, `Gstate.MountAfterCommit` |
| caches | `Cache.BdRead`, `Cache.ProgramAll`, `Cache.StuckIff` |
| Reed-Solomon | `RsEncode.EncodedIsCodeword`, `BerlekampMassey.RunKeeps`, `RsCorrect.Decode`, `RsCorrect.EncodeThenDecode` |
| checksums | `Crc.LfsCrc`, `Crc.CrcSeesWindow`, `Crc.CrcOfItself` |
| entropy coding | `Huffman.PrefixFree`, `BitStream.BitWriter.OutBits`, `Entropy.OutJpegInt`, `Entropy.RoundTrip`, `StdTables.AcHasCode` |
| image values | `SsdvRun.EncodeAll`, `SsdvDc.EncIsOfImage`, `SsdvImage.AfterToken` |
| DC prediction | `SsdvFollow.DecodeFrom`, `SsdvPackets.TimelyIff`, `SsdvPackets.EncodePackets`, `SsdvPackets.Downlink` |
| file transfer | `Transfer.Session.Run`, `Transfer.CompleteIsWhole`, `PacketHandler.Port.ReadPacket` |

## Where the code does not do what one might expect

Each of these is a lemma or a method with a concrete case, and where a condition
decides it, that condition:

- `TagLog.PendingMoveHidesNext`, `TagLog.PendingMoveLosesEntry`: while a move out
  of a directory is pending, the entry behind the moved one is reached by no id
  (`lib/littlefs-SSI/lfs.c:724-735`).
- `Cache.StuckIff`, `Cache.ReadRound`, `Cache.GetStuck`: a round of a read can return
  nothing and change nothing, so that the loop never ends, if and only if the read
  size does not divide the program size, which the configuration check does not ask
  for (`lib/littlefs-SSI/lfs.c:85-97`). With the sizes of this repository it does.
- `Transfer.Session.Run`: a file reported complete is whole if and only if both the
  number of packets and packet 0 arrived the one time they were sent, over all
  fates of all packets. The two cases where it is not:
- `Transfer.FirstPacketIsForgotten`: the request for an answer carries number 0 and
  clears packet 0 from the list of missing packets, so it is never sent again
  (`payload/helpers/serial_file_transfer.py:94`).
- `Transfer.ChunkAsCount`, `Transfer.MisledLacksFirst`: if the number of packets is
  lost and the receiver does not notice, it takes the next packet for it, and can
  report success without most of the file
  (`payload/helpers/serial_file_transfer.py:62-65`).
- `Transfer.OnlyPacketIsForgotten`: in a file of one packet that is lost the receiver
  stops with an index error instead (`payload/helpers/serial_file_transfer.py:120`).
- `Transfer.WrittenUnlessCommand`, `Transfer.OnlyTheLast`, `Transfer.Session.Run`: a
  chunk that reads as a command is not written. It can only be the last of the file,
  and a receiver that knows the number of packets of such a file never reports
  success.
- `Transfer.Session.Run`, `Transfer.FullGroupGivesUp`: over a link that loses nothing, or
  little enough, the receiver has the file and is done; the sender is done too if and
  only if the size of the file is no multiple of 32 KiB. If it is, the sender asks once
  more behind the last group, where nobody answers, and gives up
  (`payload/helpers/serial_file_transfer.py:183-211`).
- `BitStream.ShiftInIff`, `BitStream.LoseABit`, `Entropy.OutJpegInt`: bits put into a
  full output buffer are lost exactly when what is owed to the reader is no number of
  32 bits (`payload/ssdv/ssdv.c:464-469`). `PacketEnd.LoseCoefficient`: six tokens and
  a packet of two bytes are enough for that, three codes of sixteen zeros before a
  coefficient being put out at once.
- `SsdvPackets.TimelyIff`, `SsdvFollow.EarlyHeader`, `SsdvEarly.Decode`: a decoder
  that reads the header of the next packet before the code of the first value of an
  MCU is complete takes an absolute value for a difference
  (`payload/ssdv/ssdv.c:527-531`, `payload/ssdv/ssdv.c:1484-1489`). That happens if
  and only if the MCU begins in the last byte of its packet, with a DC value of
  eleven bits, and the next packet names an MCU.

## Assumptions

- A commit torn by a power cut, or a mixture of old and new bytes, does not match
  its checksum unless the bytes it covers are those that were written. This is the
  hypothesis `Certified` of `AppendAtomic` and `CertifiedEither` of
  `CompactAtomic`; nothing else is assumed of the medium. Programs reach the medium
  in order, byte by byte, and an erase does nothing.
- Metadata blocks are programmed in units of 16 bytes, as this repository
  configures. The allocator, the lists and the caches are for every geometry the
  configuration check allows (the caches: with the read size dividing the program
  size).
- Integers that the source keeps in 32 bits are unbounded where a bound is proved
  or given (file positions below 2^31, ids below 1024, sizes below 1024) and
  wrapped or bit vectors where it matters (revisions, tags, checksums, seeks, the
  output buffer of the transcoder).

## Files

| files | subject |
|---|---|
| `Wrappers`, `Arith`, `Bytes` | options, powers of two and alignment, bytes and their overlay |
| `EntryLog`, `Tags`, `TagLog`, `Directory` | the log as a list of entries, its compaction and splitting |
| `Crc`, `Words`, `Revisions`, `MetaBlock`, `MetaRead`, `MetaCommit`, `MetaPair`, `MetaRun`, `MetaWriter` | the log as bytes, and power cuts |
| `MetaAttrs`, `MetaHistory` | what compaction writes, and what a pair says after any run |
| `Alloc` | the block allocator |
| `Ctz`, `CtzList`, `FileWrite` | file data |
| `TailWalk`, `Gstate`, `Cache` | tail list, global state, caches |
| `GfTables`, `Gf`, `Rs`, `RsEncode`, `BerlekampMassey`, `RsDecode` | the field, the encoder, the first half of the decoder |
| `RsErrors`, `RsRoots`, `RsForney`, `RsPlaces`, `RsFix`, `RsCorrect` | why the decoder corrects, and its second half |
| `Huffman`, `BitStream`, `Entropy`, `StdTables`, `PacketEnd` | the transcoder's codes and bits |
| `SsdvDc`, `SsdvMachine`, `SsdvImage`, `SsdvRun`, `SsdvFollow` | the transcoder's values, and DC prediction at both ends |
| `SsdvLayout`, `SsdvPackets`, `SsdvEarly` | its values in packets |
| `Transfer`, `PacketHandler` | the file transfer |

## Model

| member | source | states |
|---|---|---|
| EntryLog.LookupIsReplay | lib/littlefs-SSI/lfs.c:719-784 | looking backward for the latest record of an entry, shifting its id around every splice, finds what a plain list replay of the whole log leaves there |
| EntryLog.WalkFront | lib/littlefs-SSI/lfs.c:736-781 | the first record decides a lookup only if everything logged after it left it open |
| EntryLog.SurviveIsWalk | lib/littlefs-SSI/lfs.c:852-879 | the forward id shifting of the compaction filter and the backward shifting of the lookup are inverse: a record survives at an id if and only if the walk from that id reaches it |
| EntryLog.CompactWalk | lib/littlefs-SSI/lfs.c:852-1104 | a walk over the compacted log ends where the walk over the original ended |
| EntryLog.CompactPreservesLookup | lib/littlefs-SSI/lfs.c:2015-2023 | for every log, range, key and id: the compacted log answers as the original at the shifted id inside the range, and not at all outside |
| EntryLog.CompactIsSlice | lib/littlefs-SSI/lfs.c:2015-2023 | the directory a compacted log stands for is the kept slice of the old one |
| EntryLog.CompactIdempotent | lib/littlefs-SSI/lfs.c:912-1104 | a compacted log holds nothing redundant: compacting it again changes nothing |
| Tags.Shift | lib/littlefs-SSI/lfs.c:340-349 | adding to the id of a tag in range leaves type and size of its 32-bit word alone |
| Tags.PackInjective | lib/littlefs-SSI/lfs.c:340-349 | the word of a tag determines its fields |
| Tags.KindIs | lib/littlefs-SSI/lfs.c:355-365 | two tags are of a kind, by the class, the first half of the chunk or the whole type, exactly if their 32-bit words agree from the lowest bit of the mask up |
| TagLog.StepOver | lib/littlefs-SSI/lfs.c:736-781 | one record of the backward lookup, by any of the masks: it answers with the tag under the id asked for, ends the lookup, or moves the id |
| TagLog.WriteThenRead | lib/littlefs-SSI/lfs.c:736-781 | a name, structure or attribute logged answers lookups of its id whose word agrees with it in the bits of the mask, or nothing if its size says it is removed, and changes no other lookup |
| TagLog.SpliceThenRead | lib/littlefs-SSI/lfs.c:736-757 | a creation opens an entry that knows nothing and moves those from its id on up, a removal moves those behind its id down, tags of other classes change no lookup |
| TagLog.OwnMask | lib/littlefs-SSI/lfs.c:736-781 | user attributes looked up by their whole type, and names and structures by class, are found as the log stands for them |
| TagLog.FinerMask | lib/littlefs-SSI/lfs.c:736-781 | a name or structure looked up by another mask, such as that of names, is found as by class if and only if what that finds is of the kind asked for |
| TagLog.Filtered | lib/littlefs-SSI/lfs.c:852-879 | a later tag makes an earlier one redundant, or moves it, exactly as the list filter says |
| TagLog.SurvivesIn | lib/littlefs-SSI/lfs.c:1043-1077 | the inner scan of the traversal keeps a tag if and only if no later one makes it redundant, with the id all later splices leave it |
| TagLog.Traverse | lib/littlefs-SSI/lfs.c:912-1104 | what the filtered traversal hands to compaction is the compacted log, with ids rebased to the range, and with each tag the data it announces: every user attribute, by its whole type, and every name and structure, by class, answers from it as from the log |
| TagLog.PendingMoveHidesNext | lib/littlefs-SSI/lfs.c:724-735 | a lookup during a pending move answers as after the deletion of the moved entry if and only if the id is not that of the move, or the entry behind it has nothing to answer |
| TagLog.PendingMoveLosesEntry | lib/littlefs-SSI/lfs.c:724-735 | an entry that exists and that no id reaches while the move is pending |
| Directory.CountIsLength | lib/littlefs-SSI/lfs.c:1240-1263 | the running count of a fetch is the length of the directory, for logs in which only names open entries |
| Directory.FetchCount | lib/littlefs-SSI/lfs.c:1240-1263 | the counting loop of a fetch, against the count by records |
| Directory.CompactedCount | lib/littlefs-SSI/lfs.c:2080-2090 | the count recorded by compaction without counting is the one a fetch of the new block finds |
| Directory.FindSplit | lib/littlefs-SSI/lfs.c:2130-2199 | the split found leaves a non-empty part that holds one entry, or fewer than 255 in no more bytes than half a block and a block less forty; it is where halving first comes to such a part |
| Directory.SplittingCompact | lib/littlefs-SSI/lfs.c:2125-2231 | the chain cuts the ids into consecutive ranges, each block being the compaction of its range; all parts are within the limits, except the first when no blocks were left; and nothing is cut off where the whole rest could have been a part |
| Directory.ChainPreservesLookup | lib/littlefs-SSI/lfs.c:2125-2231 | however a directory is split, every entry answers along the chain as it did before |
| Crc.LfsCrc | lib/littlefs-SSI/lfs_util.c:17-33 | the nibble-table loop computes the bitwise reflected CRC-32 (polynomial 0xEDB88320) of any bytes |
| Crc.TableStepIsFour | lib/littlefs-SSI/lfs_util.c:17-33 | a table step is four bit steps |
| Crc.SsdvCrc32 | payload/ssdv/ssdv.c:292-311 | the eight-steps-a-byte loop computes the same CRC, with all ones before and inverted after |
| Crc.CrcOfChunks | lib/littlefs-SSI/lfs.c:155-174 | a checksum may be taken chunk by chunk |
| Crc.CrcInjective | lib/littlefs-SSI/lfs_util.c:17-33 | equal checksums over the same bytes come from equal starting values |
| Crc.CrcOfItself | lib/littlefs-SSI/lfs.c:1783-1808 | a checksum followed by its own little-endian bytes checks to zero |
| Crc.CrcSeesWindow | lib/littlefs-SSI/lfs_util.c:17-33 | any change confined to four consecutive bytes changes the checksum |
| Words.BeRoundTrip | lib/littlefs-SSI/lfs_util.h:210-232 | a word stored big-endian is read back |
| Words.CrcWordFields | lib/littlefs-SSI/lfs.c:1742-1766 | the checksum tag has the size and the perturb bit it was built with, and turns the valid bit of the next tag around if and only if perturbed |
| Words.ValidByte | lib/littlefs-SSI/lfs.c:351-353 | whether a stored tag reads as valid is decided by the top bit of its first byte on disk |
| Revisions.NewerIff | lib/littlefs-SSI/lfs_util.h:182-184 | a revision is newer than another if and only if it is at least one step ahead of it and less than half the circle of 2^32 |
| Revisions.AheadIs | lib/littlefs-SSI/lfs_util.h:182-184 | so many steps of one from the second revision lead to the first |
| Revisions.RevisionAhead | lib/littlefs-SSI/lfs.c:1134-1137 | the revision any number of steps below 2^31 after another is newer |
| Revisions.OneIsNewer | lib/littlefs-SSI/lfs_util.h:182-184 | of two revisions neither the same nor half the circle apart exactly one is newer |
| Revisions.NextIsNewer | lib/littlefs-SSI/lfs_util.h:182-184 | the next revision is newer, also where it wraps around |
| Revisions.NewerIsOneWay | lib/littlefs-SSI/lfs_util.h:182-184 | of two revisions at most one is newer |
| MetaBlock.FetchBlock | lib/littlefs-SSI/lfs.c:1162-1273 | the fetch loop finds, in any bytes whatever, the commits up to the first that is not closed by its checksum |
| MetaBlock.ResumeStep | lib/littlefs-SSI/lfs.c:1166-1273 | what one tag does to a scan: it ends it, closes a commit, or joins the pending ones |
| MetaBlock.CommitIsChecked | lib/littlefs-SSI/lfs.c:1192-1214 | a commit that is found ends in the checksum of all its bytes |
| MetaBlock.DamageIsRefused | lib/littlefs-SSI/lfs.c:1192-1214 | in a block that differs from another within four consecutive bytes of what the checksum of a commit covers, no commit ends where that one does |
| MetaRead.BackwardIsForward | lib/littlefs-SSI/lfs.c:736-748 | the tags unchained backward from where the last commit ended are exactly those decoded forward, across any number of commits, delete-sized tags and perturbed checksums included |
| MetaRead.GetSlice | lib/littlefs-SSI/lfs.c:719-784 | reading the bytes of a block backward, by any mask and from any offset in the value: the latest value of the entry, a pending move hidden, with its bytes as far as it goes; an error only where more is asked for than it has |
| MetaRead.ReadValue | lib/littlefs-SSI/lfs.c:768-778 | the bytes of a value from an offset on, zeros behind its size |
| MetaRead.WalkBack | lib/littlefs-SSI/lfs.c:736-781 | the loop of that read, from an id already moved |
| MetaCommit.ParseAttrs | lib/littlefs-SSI/lfs.c:1621-1664 | scanning over written attributes collects exactly their records and checksums exactly their bytes |
| MetaCommit.CommitParses | lib/littlefs-SSI/lfs.c:1669-1811 | a block that holds the bytes of a commit is scanned to the end of it |
| MetaCommit.PlanIsGood | lib/littlefs-SSI/lfs.c:1669-1766 | a commit whose attributes leave eight bytes ends aligned and inside the block, with room for its checksums |
| MetaCommit.PlanIsTight | lib/littlefs-SSI/lfs.c:1669-1730 | it ends at the first program unit that leaves room for both checksums, or with the block, and adds nothing to the attributes but the checksum of the unit behind it |
| MetaCommit.StaleIsInvalid | lib/littlefs-SSI/lfs.c:1694-1766 | after a complete commit the bytes already on the medium decode as no tag: an erase that does nothing revives nothing |
| MetaCommit.FirstByteIsValid | lib/littlefs-SSI/lfs.c:1694-1766 | the first byte of a commit alone makes its first tag read as valid |
| MetaPair.NextLocal | lib/littlefs-SSI/lfs.c:1162-1273 | finding a commit depends on its own bytes only |
| MetaPair.CommitsPrefix | lib/littlefs-SSI/lfs.c:1162-1273 | a block that agrees with another up to the end of its commits has those commits |
| MetaPair.AppendAtomic | lib/littlefs-SSI/lfs.c:2270-2330 | power failing after any number of bytes of an appended commit leaves exactly the old directory or exactly the new one, and a complete commit is always there |
| MetaPair.FetchPair | lib/littlefs-SSI/lfs.c:1122-1160 | of two valid blocks the one fetched is that whose revision is ahead by less than half the circle; of one valid block and one not the valid one; none only if neither is |
| MetaPair.FetchesAhead | lib/littlefs-SSI/lfs.c:1134-1160 | of two valid blocks whose revisions are any number of steps below 2^31 apart, the one ahead is fetched, in either order |
| MetaPair.FetchesCurrent | lib/littlefs-SSI/lfs.c:1122-1160 | of a pair in order the current block is fetched, whichever comes first |
| MetaPair.CompactAtomic | lib/littlefs-SSI/lfs.c:1979-2091 | power failing after any number of bytes of a compaction into the other block leaves a pair that fetches as the old directory or as the compacted one, revision wrap-around included |
| MetaRun.AppendMeans | lib/littlefs-SSI/lfs.c:2270-2330 | after an append every lookup answers from the old log followed by what was committed |
| MetaRun.CompactMeans | lib/littlefs-SSI/lfs.c:1979-2091 | after a compaction every lookup in the kept range answers as before at its new index |
| MetaRun.StepAtomic | lib/littlefs-SSI/lfs.c:2234-2405 | one append or compaction, cut anywhere, takes effect entirely or not at all and keeps the pair fetchable |
| MetaRun.RunAtomic | lib/littlefs-SSI/lfs.c:2234-2405 | the same over any run of commits, compactions and power cuts |
| MetaRun.CompleteIsErased | lib/littlefs-SSI/lfs.c:1183-1350 | a complete commit leaves the space behind it accepted as erased by the next fetch |
| MetaRun.TornIsNotErased | lib/littlefs-SSI/lfs.c:1319-1350 | a commit torn after its first byte is never taken for erased space, whatever the checksums say |
| MetaRun.AlteredIsNotErased | lib/littlefs-SSI/lfs.c:1341-1355 | space changed within four consecutive bytes since its checksum was logged is not taken for erased |
| MetaAttrs.WordFields | lib/littlefs-SSI/lfs.c:342-343 | the 32-bit word made of the fields of a tag has these fields and a clear valid bit |
| MetaAttrs.CompactAttrs | lib/littlefs-SSI/lfs.c:2015-2023 | the attributes a compaction writes from the traversal: as records they are the compacted log, and all may be written |
| MetaAttrs.EncodeLength | lib/littlefs-SSI/lfs.c:1914-1921 | a commit takes exactly the bytes its tags announce, which is what the traversal sums up for a split |
| MetaAttrs.PartFits | lib/littlefs-SSI/lfs.c:2147-2176 | a part within the limits of a split fits its block: behind the revision count and before the checksum there is room for it, for a tail and for a global state |
| MetaAttrs.ScanSized | lib/littlefs-SSI/lfs.c:1162-1273 | whatever bytes a block holds, the attributes read from it have the data their tags announce |
| MetaHistory.SameAfter | lib/littlefs-SSI/lfs.c:719-784 | two logs that answer every lookup alike still do after the same records are appended to both |
| MetaHistory.CommittedMeans | lib/littlefs-SSI/lfs.c:2234-2405 | an event that takes effect, be it an append or a compaction, makes every lookup answer from the old log followed by what was to be committed |
| MetaHistory.BuildCompaction | lib/littlefs-SSI/lfs.c:1952-2091 | the attributes the driver builds to compact, from the traversal of the log with the commit, are of that kind |
| MetaHistory.RunMeans | lib/littlefs-SSI/lfs.c:2234-2405 | after any run of commits, compactions and power cuts the pair fetches, and every lookup answers as the log of the commits that took effect |
| MetaWriter.CommitWriter.Prog | lib/littlefs-SSI/lfs.c:1604-1618 | bytes programmed since the start of the commit, and their checksum, go on by exactly these bytes |
| MetaWriter.CommitWriter.CommitAttr | lib/littlefs-SSI/lfs.c:1621-1664 | an attribute is chained and programmed if and only if a checksum still fits behind it |
| MetaWriter.CommitWriter.CommitCrc | lib/littlefs-SSI/lfs.c:1669-1811 | the block is the original with the planned commit over it, filled to program units; the read-back verifies |
| MetaWriter.CommitWriter.Verify | lib/littlefs-SSI/lfs.c:1783-1808 | what was programmed always checks |
| MetaWriter.AppendCommit | lib/littlefs-SSI/lfs.c:2270-2330 | the writer leaves the block AppendAtomic speaks of, and knows the next position without scanning |
| MetaWriter.CompactInto | lib/littlefs-SSI/lfs.c:1979-2091 | the writer leaves the block CompactAtomic speaks of |
| Alloc.PlacesAround | lib/littlefs-SSI/lfs.c:627-637 | places around the device and blocks determine each other (one way) |
| Alloc.AroundPlaces | lib/littlefs-SSI/lfs.c:627-637 | and the other way |
| Alloc.ModOnce | lib/littlefs-SSI/lfs.c:645-646 | the modulo of the source turns around the device once at most |
| Alloc.LedgerStep | lib/littlefs-SSI/lfs.c:666-700 | the next block was neither handed out nor passed over since the checkpoint |
| Alloc.LedgerFull | lib/littlefs-SSI/lfs.c:703-710 | once as many blocks were inspected as there are, every block is accounted for |
| Alloc.Lookahead.constructor | lib/littlefs-SSI/lfs.c:614-624 | an empty window and a full checkpoint |
| Alloc.Lookahead.Ckpoint | lib/littlefs-SSI/lfs.c:614-616 | all blocks may be inspected again |
| Alloc.Lookahead.Drop | lib/littlefs-SSI/lfs.c:620-624 | the window is empty |
| Alloc.Lookahead.Mark | lib/littlefs-SSI/lfs.c:627-637 | the bitmap marks exactly one block more of the window |
| Alloc.Lookahead.Scan | lib/littlefs-SSI/lfs.c:641-664 | the window moves on to the blocks not inspected and marks exactly those the traversal reports; a traversal that fails drops it |
| Alloc.Lookahead.Search | lib/littlefs-SSI/lfs.c:668-700 | the block found is free in the window, and the cursor stands on the next free one |
| Alloc.Lookahead.Alloc | lib/littlefs-SSI/lfs.c:666-716 | no block twice between checkpoints, none the window marks in use; no space only when every block was inspected since the checkpoint; the checkpoint counter never underflows and the loop ends |
| Alloc.Lookahead.Run | lib/littlefs-SSI/lfs.c:614-716 | over any run of allocations, each with its own traversal, the blocks are pairwise different |
| Ctz.Npw2Bounds | lib/littlefs-SSI/lfs_util.h:142-158 | the exponent of the smallest power of two that is no smaller |
| Ctz.PopcBefore | lib/littlefs-SSI/lfs_util.h:161-178 | how the ones of n - 1 follow from the ones and trailing zeros of n |
| Ctz.StartIsPopc | lib/littlefs-SSI/lfs.c:2873-2884 | the sum of the capacities of the blocks before, by ones counted |
| Ctz.IndexIsSmall | lib/littlefs-SSI/lfs.c:4239 | a block size of 128 has room for the pointers of every block of a file |
| Ctz.CtzIndex | lib/littlefs-SSI/lfs.c:2873-2884 | for every offset the formula gives the block and the place in it that the summed capacities give, behind the pointers, without underflow |
| Ctz.FallsInOnce | lib/littlefs-SSI/lfs.c:2873-2884 | there is only one such answer |
| Ctz.NextByte | lib/littlefs-SSI/lfs.c:2873-2884 | the byte after is the next of the block, or the first behind the pointers of the next block |
| CtzList.LinkedAt | lib/littlefs-SSI/lfs.c:2921-3008 | pointer i of block n is block n - 2^i |
| CtzList.NextPointer | lib/littlefs-SSI/lfs.c:2979-3008 | from the block pointer i leads to, pointer i leads as far again |
| CtzList.SearchStep | lib/littlefs-SSI/lfs.c:2901-2913 | a hop never overshoots and brings the search nearer its bound |
| CtzList.LeftBound | lib/littlefs-SSI/lfs.c:2886-2918 | the bound is twice the bit length of the index |
| CtzList.HoldsKept | lib/littlefs-SSI/lfs.c:2921-3017 | a list holds its bytes as long as its blocks are not written, and its first blocks hold its first bytes |
| CtzList.CopyHolds | lib/littlefs-SSI/lfs.c:2948-2976 | copying the last block keeps the bytes of the list |
| CtzList.AppendHolds | lib/littlefs-SSI/lfs.c:2979-3008 | a new block with its pointers keeps the list linked and its bytes |
| CtzList.ProgHolds | lib/littlefs-SSI/lfs.c:3610-3648 | bytes programmed at the end of a list extend what it holds by exactly those |
| CtzList.Disk.CtzFind | lib/littlefs-SSI/lfs.c:2886-2918 | the block and offset of any byte of the list, in at most twice bit-length hops |
| CtzList.Disk.CtzExtend | lib/littlefs-SSI/lfs.c:2921-3017 | only the new block is written; the list with it at its end holds the same bytes and has room for the next |
| CtzList.Disk.WritePointers | lib/littlefs-SSI/lfs.c:2979-3008 | the pointers written are those of the skip list |
| CtzList.Disk.CtzTraverse | lib/littlefs-SSI/lfs.c:3020-3061 | every block is reported exactly once, last first |
| FileWrite.SplicedInParts | lib/littlefs-SSI/lfs.c:3572-3654 | writing in two parts is writing at once |
| FileWrite.ReadSome | lib/littlefs-SSI/lfs.c:3504-3545 | one round of a read: bytes of one block, as they are stored |
| FileWrite.FlushedRead | lib/littlefs-SSI/lfs.c:3492-3550 | exactly the bytes from the position on, up to the size asked for or the end |
| FileWrite.File.constructor | lib/littlefs-SSI/lfs.c:3065-3235 | a file opened shows what is stored |
| FileWrite.File.Traverse | lib/littlefs-SSI/lfs.c:4756-4776 | the traversal reports exactly the blocks of the list in the metadata, of the unsynced list, of the list being written, and the others |
| FileWrite.File.Take | lib/littlefs-SSI/lfs.c:2921-2940 | the block taken is none of the blocks in use; there is none only if every block of the device is in use or was handed out or marked when asked |
| FileWrite.File.Grow | lib/littlefs-SSI/lfs.c:3583-3606 | a new block, without a change to what the file shows or to any block in use; it fails only on a full device |
| FileWrite.File.ProgSome | lib/littlefs-SSI/lfs.c:3610-3648 | the bytes programmed overwrite what the file shows at its position |
| FileWrite.File.FlushedWrite | lib/littlefs-SSI/lfs.c:3572-3654 | what the file shows is the old bytes with the first n written over at the position, all of them unless every block of the device is in use or marked; no block of any committed list is touched |
| FileWrite.File.CopyRest | lib/littlefs-SSI/lfs.c:3376-3401 | copying the rest changes nothing the file shows |
| FileWrite.File.Publish | lib/littlefs-SSI/lfs.c:3402-3420 | the file refers to the list written |
| FileWrite.File.Flush | lib/littlefs-SSI/lfs.c:3350-3428 | the list the file refers to holds what the file shows, the position is kept, and the synced list is untouched; it fails only on a full device, and then the file shows the same |
| FileWrite.File.Read | lib/littlefs-SSI/lfs.c:3553-3569 | the bytes the file shows from its position on; an error only where pending writes meet a full device |
| FileWrite.File.FillTo | lib/littlefs-SSI/lfs.c:3673-3684 | zeros up to the position |
| FileWrite.File.Write | lib/littlefs-SSI/lfs.c:3656-3697 | byte by byte what the file shows afterwards: what was there, zeros in a gap, and the bytes written, at the end when appending; all of them unless every block of the device is in use or marked; too big if and only if they would end beyond the maximum size; the last committed list and its blocks are untouched |
| FileWrite.File.Seek | lib/littlefs-SSI/lfs.c:3700-3745 | the position asked for from the start, the position or the length, in 32-bit arithmetic, or an error that leaves it, on a full device or beyond the maximum; contents unchanged |
| FileWrite.File.Sync | lib/littlefs-SSI/lfs.c:3431-3490 | a successful sync makes the committed bytes the ones the file shows; a failed one leaves the committed list; it fails only if the commit does or the device is full |
| FileWrite.File.SizeIsLength | lib/littlefs-SSI/lfs.c:3849-3862 | the size reported is the length of what the file shows |
| TailWalk.Tortoise.DetectCycles | lib/littlefs-SSI/lfs.c:4464-4480 | one step of the cycle detection |
| TailWalk.ComesBack | lib/littlefs-SSI/lfs.c:4464-4480 | a list that comes back to a pair never ends |
| TailWalk.Cycle | lib/littlefs-SSI/lfs.c:4712-4765 | a list longer than the number of pairs comes back to one within that number |
| TailWalk.RoundPasses | lib/littlefs-SSI/lfs.c:4464-4480 | a round that notices nothing keeps the bound on where the walk can be |
| TailWalk.Walk | lib/littlefs-SSI/lfs.c:4712-4765 | for any successor function on finitely many pairs the loop ends within three times their number of rounds, reports corruption if and only if the list does not end, and otherwise has met pairwise different pairs |
| Gstate.XorLaws | lib/littlefs-SSI/lfs.c:407-411 | global states form a group under exclusive or |
| Gstate.CommitConserves | lib/littlefs-SSI/lfs.c:2299-2338 | a commit with its difference keeps the sum over the pairs, with what is on its way, equal to what is thought on the medium |
| Gstate.CompactConserves | lib/littlefs-SSI/lfs.c:2045-2091 | so does a compaction, relocated or not |
| Gstate.DropConserves | lib/littlefs-SSI/lfs.c:1859-1878 | so does dropping a pair, whose state is stolen |
| Gstate.ApplyConserves | lib/littlefs-SSI/lfs.c:2234-2470 | so does every event, splits and new directories included |
| Gstate.RunConserves | lib/littlefs-SSI/lfs.c:2234-2470 | conservation over any run |
| Gstate.MountRebuilds | lib/littlefs-SSI/lfs.c:4618-4633 | a mount after a run that left nothing on its way finds the pending move as last written, and one orphan if and only if that state says a repair is due |
| Gstate.MountAfterCommit | lib/littlefs-SSI/lfs.c:4618-4633 | a mount after any run that ends with a commit finds the pending move that was in memory, and one orphan if and only if the top bit there was set |
| Gstate.Lfs.constructor | lib/littlefs-SSI/lfs.c:4528-4633 | the mount loop sums up the states of the pairs |
| Gstate.Lfs.CommitTo | lib/littlefs-SSI/lfs.c:2299-2338 | the fields after a commit |
| Gstate.Lfs.CompactTo | lib/littlefs-SSI/lfs.c:2045-2091 | the fields after a compaction; a state of zero is not written |
| Gstate.Lfs.DropAfter | lib/littlefs-SSI/lfs.c:1859-1878 | the fields after a drop |
| Cache.Device.Program | lib/littlefs-SSI/lfs.c:183-195 | programs are aligned and reach no place twice |
| Cache.Load | lib/littlefs-SSI/lfs.c:98-122 | what is loaded into the read cache is the device, aligned, with the byte wanted in it |
| Cache.BypassReads | lib/littlefs-SSI/lfs.c:85-97 | a read past the caches takes nothing exactly where less than a read unit was wanted |
| Cache.StuckIff | lib/littlefs-SSI/lfs.c:44-126 | a place inside a block where a read gets stuck before a program cache exists if and only if the read size does not divide the program size |
| Cache.GetStuck | lib/littlefs-SSI/lfs.c:44-126 | where it does not, one byte written behind the first program unit leaves a state in which the next round of a read returns nothing and changes nothing |
| Cache.ReadRound | lib/littlefs-SSI/lfs.c:55-123 | one round returns bytes as a read must see them, or loads the cache with the byte wanted, which it did not have; it returns nothing and changes nothing exactly in a stuck state |
| Cache.BdRead | lib/littlefs-SSI/lfs.c:44-126 | for every offset, size and hint: the device with the program cache laid over it; an error exactly outside the device |
| Cache.BdCmp | lib/littlefs-SSI/lfs.c:128-153 | the bytes of the block compared with those given, at any place: equal, less or greater at the first that differ, and an error exactly if the pieces within the device are the same and there are more |
| Cache.BdFlush | lib/littlefs-SSI/lfs.c:177-208 | what was pending is programmed at its place, filled up with 0xff; the cache is empty |
| Cache.BdProg | lib/littlefs-SSI/lfs.c:228-273 | a read sees the block with the bytes written over it, the other blocks are the same, and the next program may go on behind |
| Cache.ProgramAll | lib/littlefs-SSI/lfs.c:177-273 | pieces in a row and a flush leave exactly their concatenation, 0xff-padded, on the device, everything else as it was |
| GfTables.AlphaSteps | payload/ssdv/rs8.c:11-34 | each entry of the power table is twice the one before in the field of polynomial 0x187 |
| GfTables.IndexRight | payload/ssdv/rs8.c:36-59 | the index table is the inverse of the power table |
| Gf.LogsAdd | payload/ssdv/rs8.c:108 | adding logarithms modulo 255 multiplies |
| Gf.MulDistributes | payload/ssdv/rs8.c:197 | products distribute over sums |
| Gf.MulAssociates | payload/ssdv/rs8.c:197 | products associate |
| Gf.DivUndoes | payload/ssdv/rs8.c:226-229 | the quotient by index forms is the quotient |
| Rs.Mod255 | payload/ssdv/rs8.c:67-75 | the shift-and-add loop reduces modulo 255 |
| Rs.GeneratorVanishes | payload/ssdv/rs8.c:61-65 | the generator polynomial of the table is zero at its 32 roots |
| RsEncode.NextAtRoot | payload/ssdv/rs8.c:96-111 | a step of the shift register keeps its remainder at every root |
| RsEncode.EncodedIsCodeword | payload/ssdv/rs8.c:89-112 | data followed by its parity is zero at every root, for any length of data |
| RsEncode.EncodeRs | payload/ssdv/rs8.c:89-112 | the loops compute the parity |
| BerlekampMassey.StepKeeps | payload/ssdv/rs8.c:189-240 | a step keeps: constant term one, degree at most el, el at most r, and the syndromes from el on generated |
| BerlekampMassey.LongerRegister | payload/ssdv/rs8.c:219-221 | a register that fails at a syndrome forces a longer one |
| BerlekampMassey.RunKeeps | payload/ssdv/rs8.c:161-240 | the invariant after every number of syndromes, and that no shorter register generates them |
| RsDecode.FormSyndromes | payload/ssdv/rs8.c:128-142 | the loops evaluate the block at the 32 roots |
| RsDecode.Discrepancy | payload/ssdv/rs8.c:192-200 | the loop computes the discrepancy of the register |
| RsDecode.MasseyStep | payload/ssdv/rs8.c:189-239 | a round on arrays of index forms is a step of the algorithm |
| RsDecode.Massey | payload/ssdv/rs8.c:161-240 | the loop computes the shortest register |
| RsDecode.Turn | payload/ssdv/rs8.c:254-264 | a round of the search evaluates the register at the next power |
| RsDecode.Chien | payload/ssdv/rs8.c:251-277 | the exponents found are roots, each once, in order, with their locations; and all there are if fewer than the degree |
| RsErrors.Vandermonde | payload/ssdv/rs8.c:128-142 | as many zero power sums as there are different places: all values are zero |
| RsErrors.ConvIsSum | payload/ssdv/rs8.c:191-199 | terms of the register against the syndromes are power sums of the errors |
| RsErrors.LocatorIsRegister | payload/ssdv/rs8.c:183-240 | the polynomial of the error places is a register for the syndromes |
| RsErrors.RegisterVanishes | payload/ssdv/rs8.c:183-240 | a register is zero at the inverse of every error place, where there are syndromes enough |
| RsRoots.TooManyRoots | payload/ssdv/rs8.c:251-287 | a polynomial has no more different roots than its degree |
| RsRoots.SimpleRoots | payload/ssdv/rs8.c:320-326 | with as many roots as the degree the derivative is zero at none |
| RsForney.OmegaAtError | payload/ssdv/rs8.c:289-326 | omega at the root of an error is the value of that error times the derivative of the register |
| RsPlaces.BlockSyndromes | payload/ssdv/rs8.c:128-142 | the syndromes of a block are the power sums of its differences from a codeword |
| RsPlaces.LocationOfPlace | payload/ssdv/rs8.c:254-271 | the search reports a symbol in error at its index in the padded block |
| RsFix.DegreeIsErrors | payload/ssdv/rs8.c:242-249 | with up to sixteen errors the degree of the register is their number |
| RsFix.FindsEach | payload/ssdv/rs8.c:251-287 | the search then finds exactly the errors, so the decoder never gives up |
| RsFix.ValueOfError | payload/ssdv/rs8.c:309-333 | the value found at the root of an error is the value of that error |
| RsFix.FixesAll | payload/ssdv/rs8.c:309-333 | what the decoder adds at each symbol is the difference from the codeword |
| RsFix.NoSyndromesNoErrors | payload/ssdv/rs8.c:152-159 | a block within sixteen symbols of a codeword that has no syndromes is that codeword |
| RsCorrect.Omega | payload/ssdv/rs8.c:293-303 | the coefficients of the product of syndromes and register |
| RsCorrect.Numerator | payload/ssdv/rs8.c:311-316 | omega at the root |
| RsCorrect.Denominator | payload/ssdv/rs8.c:318-326 | the derivative of the register at the root, whatever its degree |
| RsCorrect.ErrorAt | payload/ssdv/rs8.c:311-333 | the value of one correction |
| RsCorrect.Apply | payload/ssdv/rs8.c:309-334 | every symbol changes by exactly what the roots at its location say |
| RsCorrect.CorrectErrors | payload/ssdv/rs8.c:161-334 | for any syndromes: as many corrections as roots if that is the degree, or nothing changed and -1 |
| RsCorrect.Decode | payload/ssdv/rs8.c:114-344 | for any block what changes is what the roots say; and any block that differs from any codeword in up to sixteen symbols is that codeword afterwards, with their number returned |
| RsCorrect.EncodeThenDecode | payload/ssdv/rs8.c:89-344 | encode, change up to sixteen symbols anywhere, decode: the encoded block, for every data block and padding |
| Huffman.PrefixFree | payload/ssdv/ssdv.c:366-401 | no code of a canonical table begins with another |
| Huffman.BeginsOnce | payload/ssdv/ssdv.c:366-401 | at most one code begins a buffer |
| Huffman.JpegDhtLookup | payload/ssdv/ssdv.c:366-401 | the symbol whose code begins the bits, as soon as it is complete; otherwise no code begins them, and an error only from sixteen bits on |
| Huffman.JpegDhtLookupSymbol | payload/ssdv/ssdv.c:403-433 | the code of a symbol, if and only if the table has one |
| BitStream.BitWriter.Insert | payload/ssdv/ssdv.c:464-469 | bits put in are owed to the reader behind those before; none is lost exactly when all that is owed makes a number of 32 bits |
| BitStream.ShiftInIff | payload/ssdv/ssdv.c:464-469 | of n pending bits of a 32-bit word and l more all are in it afterwards if and only if their number is below 2^32 |
| BitStream.BitWriter.Stuff | payload/ssdv/ssdv.c:476-482 | the stuffing byte, and its place in the pending bits |
| BitStream.BitWriter.OutBits | payload/ssdv/ssdv.c:460-489 | with room in the buffer no bit is ever lost: a reader that skips the byte after every 0xff finds exactly the bits put in; without room they are kept exactly when what is owed makes a number of 32 bits |
| BitStream.BitWriter.SetBuffer | payload/ssdv/ssdv.c:1126-1139 | a new buffer takes the pending bytes, and no bit is lost between buffers |
| BitStream.LoseABit | payload/ssdv/ssdv.c:460-469 | a writer without room, two words of ones and one bit more: what is pending is not what was put in |
| BitStream.BitReader.Feed | payload/ssdv/ssdv.c:1205-1222 | a byte is taken in, or skipped after 0xff |
| Entropy.XorOnes | payload/ssdv/ssdv.c:435-441 | exclusive or with all ones is the distance to all ones |
| Entropy.JpegEncodeInt | payload/ssdv/ssdv.c:443-456 | the width is that of the absolute value in bits, and the bits are the value, or 2^width - 1 more if it is negative |
| Entropy.IntRoundTrip | payload/ssdv/ssdv.c:435-456 | an integer is what its bits decode to |
| Entropy.OutJpegInt | payload/ssdv/ssdv.c:499-518 | code and integer are appended to the stream, kept whenever there was room before, and in a full buffer exactly when what is owed makes a number of 32 bits; a pair without a code is reported |
| Entropy.PutTwice | payload/ssdv/ssdv.c:513-515 | the same condition for two writes in a row |
| Entropy.CodeBegins | payload/ssdv/ssdv.c:366-401 | a buffer begins with a token's code exactly when it has all of it |
| Entropy.StepHuff | payload/ssdv/ssdv.c:520-598 | the code phase of the parser |
| Entropy.StepInt | payload/ssdv/ssdv.c:599-683 | the integer phase of the parser |
| Entropy.Recover | payload/ssdv/ssdv.c:520-683 | fed byte by byte, all tokens written are recovered in order, however the bytes divide them |
| Entropy.RoundTrip | payload/ssdv/ssdv.c:366-518 | tokens printed through stuffing and padding into buffers of any size, each replaced when it is full, and parsed back, are the same; the bytes hold the codes in order, less than a byte more, and a zero after every 0xff |
| StdTables.DcCanonical | payload/ssdv/ssdv.c:128-138 | the two DC tables are codes |
| StdTables.AcCanonical | payload/ssdv/ssdv.c:140-178 | the two AC tables are codes |
| StdTables.DcHasCode | payload/ssdv/ssdv.c:128-138 | the DC tables have codes for exactly the values of up to eleven bits |
| StdTables.AcHasCode | payload/ssdv/ssdv.c:140-178 | the AC tables have codes for exactly the runs before values of one to ten bits, the end of a block and sixteen zeros |
| PacketEnd.EncodeBlock | payload/ssdv/ssdv.c:648-672 | coefficients that requantise to zero are held back, 48 zeros in all, and go out as three codes of sixteen before the next |
| PacketEnd.LoseCoefficient | payload/ssdv/ssdv.c:648-660 | an encoder over six tokens, with a packet of two bytes that its first code of sixteen zeros fills: it loses bits, whatever the last coefficient |
| SsdvDc.IrdivIsNearest | payload/ssdv/ssdv.c:190-197 | the rounded quotient is the nearest, and of two as near the one further from zero |
| SsdvDc.EncodeKeeps | payload/ssdv/ssdv.c:539-647 | the encoder's output value stays the requantised DC value, never off by more than half a step; the DC value grows by the difference in source steps; and what it emits is that value or its change |
| SsdvDc.EncIsOfImage | payload/ssdv/ssdv.c:186-187 | with S the sum of the DC differences of a component so far, its DC value is S source steps, and its output value the nearest number of output steps; S itself where the tables agree |
| SsdvDc.ValueIs | payload/ssdv/ssdv.c:539-647 | what is emitted for a block is the new output value of its component, if its MCU resets and it is the first of it, or its change |
| SsdvDc.BadjNearest | payload/ssdv/ssdv.c:187 | a coefficient becomes the nearest number of output steps, and of two as near the one further from zero |
| SsdvDc.DecodeSums | payload/ssdv/ssdv.c:539-647 | the decoder emits the change of its value |
| SsdvDc.Lockstep | payload/ssdv/ssdv.c:539-647 | an absolute value brings the decoder to the encoder's, wherever it was; a difference keeps it there |
| SsdvMachine.Ssdv.DcValue | payload/ssdv/ssdv.c:539-647 | the branches of a DC value, with what is emitted |
| SsdvMachine.Ssdv.ProcessDc | payload/ssdv/ssdv.c:520-569 | the DC state and the output after a DC value, with the reset taken over at the start of an MCU |
| SsdvMachine.Ssdv.Latch | payload/ssdv/ssdv.c:527-531 | looking for a code at the start of an MCU takes a later reset over |
| SsdvMachine.Ssdv.SplitDc | payload/ssdv/ssdv.c:520-569 | a header between the code and the integer of a DC value does what it would after the value, and nothing to the value |
| SsdvMachine.Ssdv.AcValue | payload/ssdv/ssdv.c:648-672 | a coefficient goes out requantised, behind the zeros held back in codes of sixteen and the rest, or is held back as a zero |
| SsdvMachine.Ssdv.EndBlock | payload/ssdv/ssdv.c:685-744 | the next part or MCU, with empty colour blocks for greyscale; the end exactly after the last MCU |
| SsdvMachine.Ssdv.Process | payload/ssdv/ssdv.c:520-744 | the next place in the image; only DC values change the DC state; what DC values and coefficients put out; emitted differences sum to the DC values; completed blocks up to the end number the MCUs times their parts |
| SsdvMachine.Ssdv.FillGap | payload/ssdv/ssdv.c:1384-1427 | the gap is filled to the MCU asked for with empty blocks, and the sums of the differences stay those of the decoder |
| SsdvMachine.Ssdv.NextMcu | payload/ssdv/ssdv.c:703-735 | the next MCU; at the first of a packet the encoder makes it the next to reset; the end of the image |
| SsdvMachine.Ssdv.EndPacket | payload/ssdv/ssdv.c:1224-1245 | a packet complete: the next MCU begun will be its first |
| SsdvMachine.Ssdv.EnterPacket | payload/ssdv/ssdv.c:1474-1587 | a packet read: its MCU is the next to reset, and if packets were lost the gap before it is filled |
| SsdvImage.AcCoefs | payload/ssdv/ssdv.c:648-672 | a value put out behind zeros held back is at the place behind all of these, and no other coefficient changes |
| SsdvImage.AfterToken | payload/ssdv/ssdv.c:520-744 | a token read: the coefficients put out are those of the tokens so far, requantised, and the transcoder is where they are read to |
| SsdvRun.EncodeToken | payload/ssdv/ssdv.c:520-744 | one token of an encoder: the values emitted go on as those of a run in which each resetting MCU is sent absolutely |
| SsdvRun.EncodeAll | payload/ssdv/ssdv.c:520-744 | an encoder over any tokens, with packets complete after any of them: what it emits is such a run of the DC differences it was given, and its DC values are their sums, requantised to the nearest; and each coefficient of the tokens comes out at its block and place as the nearest number of output steps, or not at all where that is zero, and no other |
| SsdvFollow.NextOfRun | payload/ssdv/ssdv.c:539-647 | each value of a run is the one the encoder emits at its place, absolute or a change as the MCU resets or not |
| SsdvFollow.SameResets | payload/ssdv/ssdv.c:527-531 | at each DC value a decoder that reads the headers in time takes for resetting exactly the MCUs the encoder made so |
| SsdvFollow.DecodeFrom | payload/ssdv/ssdv.c:1474-1630 | a decoder given the values of a run from the first MCU of any packet on, after a gap or not and whatever its state was, and each later header in time: of each component it has met a block of, it has the encoder's DC value, to the last value |
| SsdvFollow.FollowsEncoder | payload/ssdv/ssdv.c:520-744 | no drift: with all values of an encoder, the decoder's DC value of each component it has met is the encoder's own |
| SsdvFollow.EarlyHeader | payload/ssdv/ssdv.c:1479-1489 | a header read before the code of the first value of an MCU is complete: the value is taken for a difference, and the decoder is where the encoder is only if it was at zero |
| SsdvFollow.HeaderInTime | payload/ssdv/ssdv.c:1479-1489 | the same header after that code: the decoder has the value |
| SsdvLayout.LenIsBits | payload/ssdv/ssdv.c:499-518 | the length given to a value is the number of bits put out for it |
| SsdvLayout.LumaDcWidths | payload/ssdv/ssdv.c:128-132 | the code of a luminance DC value has at most nine bits, and nine exactly for a value of eleven bits |
| SsdvPackets.EarlyIff | payload/ssdv/ssdv.c:1474-1489 | the code of the first value of an MCU ends after the packet it begins in if and only if it begins in the last byte with a value of eleven bits |
| SsdvPackets.TimelyIff | payload/ssdv/ssdv.c:1474-1630 | from one MCU on a decoder reads every header in time if and only if no MCU that resets begins in the last byte of a packet with a DC value of eleven bits while the next packet names an MCU |
| SsdvPackets.DecodePackets | payload/ssdv/ssdv.c:1474-1630 | a decoder given the packets of an encoder from one on, under that condition: no drift |
| SsdvPackets.EncodePackets | payload/ssdv/ssdv.c:1141-1299 | an encoder over any tokens, with packets of any size: the MCUs sent absolutely begin in packets of their own, and the header of each packet names the one that begins in it, or none; DC values and coefficients are those of the tokens, requantised |
| SsdvPackets.PackedComplete | payload/ssdv/ssdv.c:1225-1245 | a complete packet names its MCU, unless that begins in a later packet, for which it is kept |
| SsdvPackets.Downlink | payload/ssdv/ssdv.c:1141-1630 | the encoder over the tokens up to the first that does not fit its place or the end of the image, and a decoder that joins at any packet that names an MCU: the coefficients and DC sums are those of the tokens, requantised, and under the condition of TimelyIff the decoder has the encoder's DC value of each component it has met |
| SsdvEarly.Encode | payload/ssdv/ssdv.c:520-744 | an encoder whose second MCU begins in the last byte of its packet, with a DC value of eleven bits, and whose third is the first of the next packet |
| SsdvEarly.EarlyCase | payload/ssdv/ssdv.c:1225-1245 | its values in packets of four bytes: the header of the third packet is read before the code of that value is complete |
| SsdvEarly.Decode | payload/ssdv/ssdv.c:1474-1630 | a decoder from its start that reads the values and the headers in that order ends with another DC value than the encoder |
| Transfer.NextSafe | payload/helpers/serial_file_transfer.py:58-136 | whatever the link does, a receiver that knows the number of packets stays safe: every byte written is the file's at its place, and packets not missing were written |
| Transfer.NextMisled | payload/helpers/serial_file_transfer.py:58-136 | a receiver that took something else for the number of packets still writes only the file's bytes at their place, and never packet 0 |
| Transfer.MisledLacksFirst | payload/helpers/serial_file_transfer.py:109-114 | if it reports success, the file has a first byte and that is missing |
| Transfer.CompleteHasAllButFirst | payload/helpers/serial_file_transfer.py:109-114 | a receiver that reports success has every byte behind packet 0 and none that is not the file's, and the file does not end in a command |
| Transfer.CompleteIsWhole | payload/helpers/serial_file_transfer.py:109-114 | it has the whole file if and only if packet 0 arrived |
| Transfer.FirstPacketIsForgotten | payload/helpers/serial_file_transfer.py:94-107 | a run that loses packet 0 and reports success |
| Transfer.OnlyPacketIsForgotten | payload/helpers/serial_file_transfer.py:94-124 | the only packet of a file is lost: the receiver stops with an index error |
| Transfer.ChunkAsCount | payload/helpers/serial_file_transfer.py:58-75 | the first chunk read as the number of packets: a receiver that reports success with two packets of three missing |
| Transfer.OnlyTheLast | payload/helpers/serial_file_transfer.py:97-104 | only the last packet of a file can read as a command |
| Transfer.WrittenUnlessCommand | payload/helpers/serial_file_transfer.py:94-136 | a packet that arrives is written exactly when its chunk is no command, and cleared from the list in any case |
| Transfer.Receiver.Begin | payload/helpers/serial_file_transfer.py:58-75 | the state after the number of packets, or without it |
| Transfer.Receiver.Handle | payload/helpers/serial_file_transfer.py:77-136 | the state after one response, and the answer |
| Transfer.Session.RequestMissing | payload/helpers/serial_file_transfer.py:250-267 | an answer says what the receiver misses, or that it has the whole group, unless the number of packets was lost unnoticed; packet 0 it never names; and if one of three requests and its answer arrive, that answer is what the receiver misses |
| Transfer.Session.SendMissing | payload/helpers/serial_file_transfer.py:214-247 | success only when the receiver has the group and has left it, unless the number of packets was lost unnoticed; a packet asked for beyond the end of the file ends in an error; and if in the first two rounds all that is missing arrives when sent again, and one request of three in each round, there is success |
| Transfer.Session.ResendAll | payload/helpers/serial_file_transfer.py:233-242 | all packets asked for are sent again in order, and the receiver then misses those of them that were lost again |
| Transfer.LosslessIsMild | payload/helpers/serial_file_transfer.py:140-267 | a link that loses nothing is mild |
| Transfer.LostTwiceIsMild | payload/helpers/serial_file_transfer.py:140-267 | so is one that loses a packet, the first request for it, and the packet once more |
| Transfer.Session.SendFile | payload/helpers/serial_file_transfer.py:140-210 | for any fate of every packet: unless the number of packets is lost unnoticed, the sender is never in a group ahead of the receiver's, and where it reports success every packet behind packet 0 was written, but for one that reads as a command; over a mild link the receiver succeeds, and the sender too unless the file ends with a full group |
| Transfer.Session.Run | payload/helpers/serial_file_transfer.py:58-267 | a whole run for any fate of every packet: every byte written is right; if the receiver reports success, it has the whole file if and only if both the number of packets and packet 0 arrived the one time they were sent; and unless the number was lost unnoticed, every byte behind packet 0 is there then, the file does not end in a command, and the receiver stops with an index error only for no packet, a lost only one, or a command; and over a mild link the receiver succeeds for every file of up to 65536 packets that does not end in a command, and the sender too if and only if the size of the file is no multiple of 32 KiB |
| Transfer.FullGroupGivesUp | payload/helpers/serial_file_transfer.py:183-211 | a file of exactly a group of packets over a link that loses nothing: the receiver has it, and the sender asks once more, is not answered, and gives up |
| PacketHandler.DecodesHeader | payload/helpers/serial_packet_handler.py:32-52 | a header decodes to the length, number and checksum it was made from |
| PacketHandler.HeaderIs | payload/helpers/serial_packet_handler.py:32-52 | a header that decodes to a packet's length and checksum is that packet's header |
| PacketHandler.DamageIsSeen | payload/helpers/serial_packet_handler.py:165-170 | a packet damaged within four consecutive bytes does not fit its header |
| PacketHandler.Port.WaitForSync | payload/helpers/serial_packet_handler.py:55-69 | three sync bytes in a row, found at once where they are next |
| PacketHandler.Port.ReadPacket | payload/helpers/serial_packet_handler.py:120-176 | for anything that arrives, a packet is accepted only directly behind the start byte and its own header, exactly then three acknowledgements are sent; and what the writer sends is accepted |

## Left out

### Contracts weaker than one might wish

- MetaPair.AppendAtomic: for bytes that a power cut leaves in the order they were programmed, and under the checksum assumption above; a medium that reorders programs is not modelled.
- MetaPair.CompactAtomic: the same; and the tag of the erased space covers one program unit.
- MetaRead.GetSlice: for ids that the splices of the log cannot move beyond ten bits, and for the masks 0x700, 0x780 and 0x7ff with the whole id; the mask of inline data has nine bits of the id.
- TagLog.FinerMask: by a mask finer than the class a lookup can find, behind a newer tag of another kind, an older one that compaction drops; the only such names and structures are the superblock's.
- TagLog.Traverse: the stack of frames with which the source avoids recursion is a pair of nested loops; moved entries, no-op tags and user-attribute lists among the attributes are not modelled.
- MetaAttrs.PartFits: beside the part there is a tail and a global state; the deletion that a pending move adds is none of what a compaction writes, and the revision count takes its four bytes.
- MetaRun.CompactMeans: for attributes that are the compacted log; MetaAttrs.CompactAttrs and MetaHistory.BuildCompaction build them.
- MetaRun.RunAtomic: says nothing about lookups; MetaHistory.RunMeans does, for compactions of all entries of a pair (a compaction of a range is MetaRun.CompactMeans, a chain of them Directory.ChainPreservesLookup).
- Alloc.Lookahead.Alloc: the traversal is a parameter, and reports blocks of the device only.
- FileWrite.File.Sync: whether the metadata commit succeeds is a parameter; its atomicity is what MetaPair proves.
- FileWrite.File.Seek: whether the file's cache holds the byte sought is a parameter.
- Cache.BdRead: for a read size that divides the program size; for others Cache.ReadRound says when a round gets stuck.
- Gstate.MountRebuilds: between the write of a new pair and the commit that links it nothing is stated.
- Transfer.Session.Run: where the number of packets is lost unnoticed nothing is said of a success of the sender, nor of what the receiver has beside the first byte. That a transfer succeeds is stated for links as Transfer.Mild describes; where an answer that names no packet is lost, the receiver has moved on, and whether the sender still succeeds is not stated.
- SsdvMachine.Ssdv.Process: for blocks of at most 64 coefficients; a block that runs on beyond is not modelled.
- SsdvFollow.DecodeFrom: for headers that come in time; SsdvPackets.TimelyIff says when they do.
- SsdvPackets.DecodePackets: for values that have a code. A header between the code and the integer of a coefficient counts as after it, as coefficients read nothing a header sets; for DC values SsdvMachine.Ssdv.SplitDc shows it. How values become bits is the subject of Entropy.RoundTrip, and no bit is lost at the end of a packet (Entropy.OutJpegInt says when). MCU numbers do not wrap at 16 bits.
- BitStream.BitWriter.SetBuffer: with fewer than 40 bits pending, as the shift of the source has no meaning beyond; the eight bits in which the source counts pending bits are not modelled.
- Entropy.Recover: for tables that are canonical codes, with a token's table known when it is parsed.

### Not modelled

- littlefs: bad blocks and relocation, half-orphan repair, expansion of the superblock and of the file system, inline files, truncation, migration from version 1, other disk versions, file names and paths, directories as seen by a user, attributes of open files, locking.
- littlefs: errors of the block device, and what the driver does after them; the device of the file model is the one the caches present.
- littlefs: metadata commits for program units other than 16 bytes, with the padding commits that very large units need.
- Reed-Solomon: erasures, which the only caller does not pass; more than sixteen errors are decoded as the contract of RsCorrect.Decode says, without a claim which codeword comes out.
- SSDV: the fields of the packet header other than its first MCU and where that begins, marker parsing, quantisation and Huffman table headers, restart markers, what follows the end of the image, and the pixels.
- File transfer: times, the retries of the handshake at the writer's end, stale bytes between packets, and the number of the last acknowledged packet; `send_file` returns nothing when it succeeds, where the model says so.
- Everything else in the repository: radio, camera, sessions, replay counter, ground station, over-the-air update.
