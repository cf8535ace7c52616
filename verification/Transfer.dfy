/** The file transfer over the serial link: a sender that goes through the file
    in groups of packets and asks after each group which are missing, and a
    receiver that keeps the list of missing packets of its own group. Every
    packet, either way, is delivered or lost. */
module Transfer {
  import opened Arith
  import opened Wrappers
  import opened Bytes

  const PACKET_SIZE: nat := 1024
  const GROUP_SIZE: nat := 32
  const MAX_ACK_RETRIES: nat := 3
  const MAX_RESEND_CYCLES: nat := 3
  const MAX_BAD_PACKETS: nat := 3

  /** The commands, as the bytes of their strings. */
  const SEND_ACK: seq<Byte> := [33, 83, 69, 78, 68, 95, 65, 67, 75, 33]
  const ABORT: seq<Byte> := [33, 65, 66, 79, 82, 84, 33]

  datatype Packet = Packet(chunk: seq<Byte>, seqNum: nat)

  // ----- The file in packets -----

  function NumFull(file: seq<Byte>): nat {
    |file| / PACKET_SIZE
  }

  function NumPackets(file: seq<Byte>): nat {
    (|file| + PACKET_SIZE - 1) / PACKET_SIZE
  }

  lemma MultipleOfBoth(size: nat)
    ensures size % (GROUP_SIZE * PACKET_SIZE) == 0 <==>
      size % PACKET_SIZE == 0 && (size / PACKET_SIZE) % GROUP_SIZE == 0
  {
    var groups, packets := size / (GROUP_SIZE * PACKET_SIZE), size / PACKET_SIZE;
    if size % (GROUP_SIZE * PACKET_SIZE) == 0 {
      assert size == PACKET_SIZE * (GROUP_SIZE * groups);
      assert packets == GROUP_SIZE * groups;
    }
  }

  lemma PacketCounts(file: seq<Byte>)
    ensures NumPackets(file) == NumFull(file) + if |file| % PACKET_SIZE == 0 then 0 else 1
    ensures NumFull(file) * PACKET_SIZE <= |file| <= NumPackets(file) * PACKET_SIZE
  {}

  /** Packet q of the file; only the last may be short. */
  function Chunk(file: seq<Byte>, q: nat): seq<Byte>
    requires q < NumPackets(file)
  {
    var from := q * PACKET_SIZE;
    if from + PACKET_SIZE <= |file| then file[from..from + PACKET_SIZE] else file[from..]
  }

  /** Python's int.from_bytes and to_bytes, big end first. */
  function FromBytes(s: seq<Byte>): nat {
    if s == [] then 0 else 0x100 * FromBytes(s[..|s| - 1]) + s[|s| - 1] as int
  }

  function ToBytes4(n: nat): (s: seq<Byte>)
    requires n < 0x1_0000_0000
    ensures FromBytes(s) == n && |s| == 4
  {
    var n1 := n / 0x100;
    var n2 := n1 / 0x100;
    var s: seq<Byte> := [n2 / 0x100, n2 % 0x100, n1 % 0x100, n % 0x100];
    assert s[..3][..2][..1][..0] == [];
    assert FromBytes(s[..3][..2][..1]) == n2 / 0x100;
    assert FromBytes(s[..3][..2]) == n2;
    assert FromBytes(s[..3]) == n1;
    s
  }

  // ----- The receiver -----

  datatype Status = Waiting | Receiving | Finished(complete: bool) | Crashed

  /** The variables of receive_file; `out` is what was written to the file, byte
      by byte, and `written` the packets that were. */
  datatype State = State(status: Status, num: nat, missing: seq<nat>, groupStart: nat, bad: nat, gotLast: bool,
                         out: map<nat, Byte>, written: set<nat>)

  const START: State := State(Waiting, 0, [], 0, 0, false, map[], {})

  function Range(lo: nat, hi: nat): (s: seq<nat>)
    ensures |s| == if lo < hi then hi - lo else 0
    ensures forall i :: 0 <= i < |s| ==> s[i] == lo + i
    decreases hi
  {
    if lo >= hi then [] else Range(lo, hi - 1) + [hi - 1]
  }

  /** Python's list.remove, for an element that may be absent. */
  function Without(s: seq<nat>, x: nat): seq<nat> {
    if s == [] then [] else if s[0] == x then s[1..] else [s[0]] + Without(s[1..], x)
  }

  function Put(out: map<nat, Byte>, at: nat, chunk: seq<Byte>): (r: map<nat, Byte>)
    ensures forall p :: p in r <==> p in out || at <= p < at + |chunk|
    ensures forall p :: p in r ==> r[p] == if at <= p < at + |chunk| then chunk[p - at] else out[p]
  {
    if chunk == [] then out
    else
      var n := |chunk| - 1;
      Put(out, at, chunk[..n])[at + n := chunk[n]]
  }

  /** One packet, or the lack of one, in receive_file. */
  function Next(s: State, response: Option<Packet>): State {
    match s.status
    case Waiting =>
      if response.None? then s.(status := Finished(false))
      else
        var num := FromBytes(response.value.chunk);
        var missing := Range(0, Min(GROUP_SIZE, num));
        if missing == [] then s.(status := Crashed)
        else State(Receiving, num, missing, 0, 0, false, map[], {})
    case Receiving =>
      if response.None? then
        var bad := s.bad + 1;
        s.(bad := bad, status := if bad < MAX_BAD_PACKETS then Receiving else Finished(false))
      else
        var Packet(chunk, q) := response.value;
        var t := s.(bad := 0, missing := Without(s.missing, q));
        if chunk == ABORT then t.(status := Finished(false))
        else if chunk == SEND_ACK then
          if t.missing != [] then t
          else if t.gotLast then t.(status := Finished(true))
          else
            var start := s.groupStart + GROUP_SIZE;
            var missing := Range(start, Min(start + GROUP_SIZE, s.num));
            t.(groupStart := start, missing := missing, status := if missing == [] then Crashed else Receiving)
        else
          t.(out := Put(s.out, q * PACKET_SIZE, chunk), written := s.written + {q},
             gotLast := s.gotLast || q + 1 == s.num)
    case _ => s
  }

  /** What the receiver answers: the packets it misses. */
  function Answer(s: State, response: Option<Packet>): Option<seq<nat>> {
    if s.status.Receiving? && response.Some? && response.value.chunk == SEND_ACK
    then Some(Without(s.missing, response.value.seqNum)) else None
  }

  // ----- What the receiver knows -----

  predicate IsCommand(chunk: seq<Byte>) {
    chunk == SEND_ACK || chunk == ABORT
  }

  /** The last packet of the file reads as a command. No other can: commands are
      shorter than a packet. */
  predicate EndsInCommand(file: seq<Byte>) {
    NumPackets(file) > 0 && IsCommand(Chunk(file, NumPackets(file) - 1))
  }

  lemma OnlyTheLast(file: seq<Byte>, q: nat)
    requires q < NumPackets(file)
    ensures IsCommand(Chunk(file, q)) <==> q == NumPackets(file) - 1 && EndsInCommand(file)
  {
    ChunkBytes(file, q);
  }

  predicate LastCommand(file: seq<Byte>, q: nat) {
    q == NumPackets(file) - 1 && EndsInCommand(file)
  }

  predicate Increasing(s: seq<nat>) {
    forall i, j :: 0 <= i < j < |s| ==> s[i] < s[j]
  }

  ghost predicate BytesRight(out: map<nat, Byte>, written: set<nat>, file: seq<Byte>) {
    forall p :: p in out ==> p < |file| && out[p] == file[p] && p / PACKET_SIZE in written
  }

  ghost predicate PacketsIn(out: map<nat, Byte>, written: set<nat>, file: seq<Byte>) {
    forall q :: q in written ==> q < NumPackets(file) && InOut(out, file, q)
  }

  /** What is written is the file's, it comes from packets written, and a packet
      written is there in full. */
  ghost predicate OutRight(out: map<nat, Byte>, written: set<nat>, file: seq<Byte>) {
    && BytesRight(out, written, file) && PacketsIn(out, written, file)
    && (EndsInCommand(file) ==> NumPackets(file) - 1 !in written)
  }

  ghost predicate InOut(out: map<nat, Byte>, file: seq<Byte>, q: nat) {
    forall p :: q * PACKET_SIZE <= p < q * PACKET_SIZE + PACKET_SIZE && p < |file| ==> p in out
  }

  /** Every packet up to the end of the group is written, missing, or packet 0, or
      reads as a command; and the last packet is seen only in the last group. */
  ghost predicate Tracks(s: State, file: seq<Byte>) {
    var n := NumPackets(file);
    && s.num == n > s.groupStart && s.groupStart % GROUP_SIZE == 0
    && Increasing(s.missing)
    && (forall q :: q in s.missing ==> s.groupStart <= q < Min(s.groupStart + GROUP_SIZE, n))
    && (forall q :: 0 < q < Min(s.groupStart + GROUP_SIZE, n) ==>
      q in s.missing || q in s.written || LastCommand(file, q))
    && (s.gotLast <==> n - 1 in s.written)
    && (s.gotLast ==> n <= s.groupStart + GROUP_SIZE)
  }

  ghost predicate Safe(s: State, file: seq<Byte>) {
    && OutRight(s.out, s.written, file)
    && (s.status.Receiving? || s.status == Finished(true) ==> Tracks(s, file))
    && (s.status == Finished(true) ==> s.missing == [] && s.gotLast)
    && (s.status == Crashed ==>
      NumPackets(file) == 0 || (NumPackets(file) == 1 && 0 !in s.written) || EndsInCommand(file))
    && (s.status == Waiting ==> s == START)
  }

  /** What the sender sends is its own count, a command, or a packet of the file
      no later than the receiver's group. */
  predicate FromSender(p: Packet, s: State, file: seq<Byte>) {
    && (s.status.Waiting? ==>
      p.seqNum == 0 && NumPackets(file) < 0x1_0000_0000 && p.chunk == ToBytes4(NumPackets(file)))
    && (s.status.Receiving? ==>
      || (p.seqNum == 0 && (p.chunk == SEND_ACK || p.chunk == ABORT))
      || (p.seqNum < Min(NumPackets(file), s.groupStart + GROUP_SIZE) && p.chunk == Chunk(file, p.seqNum)))
  }

  /** The number of packets was lost and the receiver did not notice: it waits, or
      has taken something else for the number. What it writes is the file's, but
      packet 0 it never has. */
  ghost predicate Misled(s: State, file: seq<Byte>) {
    && OutRight(s.out, s.written, file) && 0 !in s.written && Increasing(s.missing)
    && (s.gotLast || s.status == Finished(true) ==> s.written != {})
    && (s.status == Waiting ==> s == START)
  }

  /** What the sender sends such a receiver once it is receiving: a command, or a
      packet of the file after packet 0. */
  predicate FromAhead(p: Packet, s: State, file: seq<Byte>) {
    s.status.Receiving? ==>
      || (p.seqNum == 0 && IsCommand(p.chunk))
      || (0 < p.seqNum < NumPackets(file) && p.chunk == Chunk(file, p.seqNum))
  }

  lemma {:induction false} WithoutIs(s: seq<nat>, x: nat)
    requires Increasing(s)
    ensures Increasing(Without(s, x))
    ensures forall q :: q in Without(s, x) <==> q in s && q != x
  {
    if s != [] {
      var rest := s[1..];
      WithoutIs(rest, x);
      assert s == [s[0]] + rest;
      forall q | q in rest ensures s[0] < q {
        var i :| 0 <= i < |rest| && rest[i] == q;
        assert rest[i] == s[i + 1];
      }
      if s[0] != x { IncreasingPut(s[0], Without(rest, x)); }
    }
  }

  lemma IncreasingPut(x: nat, s: seq<nat>)
    requires Increasing(s) && forall q :: q in s ==> x < q
    ensures Increasing([x] + s)
  {
    var t := [x] + s;
    forall i, j | 0 <= i < j < |t| ensures t[i] < t[j] {
      assert t[j] == s[j - 1] && s[j - 1] in s;
      if i > 0 { assert t[i] == s[i - 1]; }
    }
  }

  lemma ChunkBytes(file: seq<Byte>, q: nat)
    requires q < NumPackets(file)
    ensures q * PACKET_SIZE + |Chunk(file, q)| <= |file| && |Chunk(file, q)| <= PACKET_SIZE
    ensures forall p :: q * PACKET_SIZE <= p < q * PACKET_SIZE + |Chunk(file, q)| ==>
      Chunk(file, q)[p - q * PACKET_SIZE] == file[p]
    ensures q * PACKET_SIZE + |Chunk(file, q)| == Min(q * PACKET_SIZE + PACKET_SIZE, |file|)
  {
    PacketCounts(file);
  }

  lemma InPacket(p: nat, q: nat)
    requires q * PACKET_SIZE <= p < q * PACKET_SIZE + PACKET_SIZE
    ensures p / PACKET_SIZE == q
  {}

  /** Writing a packet of the file keeps what is written right. */
  lemma WriteKeeps(out: map<nat, Byte>, written: set<nat>, file: seq<Byte>, q: nat)
    requires q < NumPackets(file) && OutRight(out, written, file) && !IsCommand(Chunk(file, q))
    ensures OutRight(Put(out, q * PACKET_SIZE, Chunk(file, q)), written + {q}, file)
  {
    OnlyTheLast(file, q);
    hide Chunk, EndsInCommand, Put, NumPackets, BytesRight, PacketsIn;
    BytesAfter(out, written, file, q);
    PacketsAfter(out, written, file, q);
  }

  lemma BytesAfter(out: map<nat, Byte>, written: set<nat>, file: seq<Byte>, q: nat)
    requires q < NumPackets(file) && BytesRight(out, written, file)
    ensures BytesRight(Put(out, q * PACKET_SIZE, Chunk(file, q)), written + {q}, file)
  {
    ChunkBytes(file, q);
    hide Chunk, NumPackets, Put;
    var chunk, after := Chunk(file, q), Put(out, q * PACKET_SIZE, Chunk(file, q));
    forall p | p in after ensures p < |file| && after[p] == file[p] && p / PACKET_SIZE in written + {q} {
      if q * PACKET_SIZE <= p < q * PACKET_SIZE + |chunk| { InPacket(p, q); }
    }
  }

  lemma PacketsAfter(out: map<nat, Byte>, written: set<nat>, file: seq<Byte>, q: nat)
    requires q < NumPackets(file) && PacketsIn(out, written, file)
    ensures PacketsIn(Put(out, q * PACKET_SIZE, Chunk(file, q)), written + {q}, file)
  {
    ChunkBytes(file, q);
    hide Chunk, NumPackets, Put, InOut;
    var chunk, after := Chunk(file, q), Put(out, q * PACKET_SIZE, Chunk(file, q));
    forall r | r in written + {q} ensures InOut(after, file, r) { InAfter(out, after, file, q, chunk, r); }
  }

  lemma InAfter(out: map<nat, Byte>, after: map<nat, Byte>, file: seq<Byte>, q: nat, chunk: seq<Byte>, r: nat)
    requires r == q || InOut(out, file, r)
    requires q * PACKET_SIZE + |chunk| == Min(q * PACKET_SIZE + PACKET_SIZE, |file|)
    requires forall p :: p in after <==> p in out || q * PACKET_SIZE <= p < q * PACKET_SIZE + |chunk|
    ensures InOut(after, file, r)
  {}

  lemma RangeIncreasing(lo: nat, hi: nat)
    ensures Increasing(Range(lo, hi))
    ensures forall q :: q in Range(lo, hi) <==> lo <= q < hi
  {
    forall q | lo <= q < hi ensures q in Range(lo, hi) {
      assert Range(lo, hi)[q - lo] == q;
    }
  }

  /** Whatever the link does, the receiver stays safe. */
  lemma NextSafe(s: State, file: seq<Byte>, response: Option<Packet>)
    requires Safe(s, file)
    requires response.Some? ==> FromSender(response.value, s, file)
    ensures Safe(Next(s, response), file)
  {
    hide OutRight, Chunk;
    if s.status == Waiting {
      if response.Some? { StartSafe(file); }
    } else if s.status == Receiving && response.Some? {
      if response.value.chunk == SEND_ACK {
        AckSafe(s, file, response.value);
      } else {
        PacketSafe(s, file, response.value);
      }
    }
  }

  lemma StartSafe(file: seq<Byte>)
    requires NumPackets(file) < 0x1_0000_0000
    ensures Safe(Next(START, Some(Packet(ToBytes4(NumPackets(file)), 0))), file)
  {
    RangeIncreasing(0, Min(GROUP_SIZE, NumPackets(file)));
  }

  lemma AckSafe(s: State, file: seq<Byte>, p: Packet)
    requires Safe(s, file) && s.status == Receiving && FromSender(p, s, file) && p.chunk == SEND_ACK
    ensures Safe(Next(s, Some(p)), file)
  {
    hide OutRight, Min, Increasing, Put, Chunk, FromBytes, ToBytes4, Range, Without, EndsInCommand;
    Cleared(s, file, p);
    var t := s.(bad := 0, missing := Without(s.missing, p.seqNum));
    if t.missing == [] && !t.gotLast { NextGroup(t, file); }
  }

  /** A number cleared from the list is not looked for again. */
  lemma Cleared(s: State, file: seq<Byte>, p: Packet)
    requires Tracks(s, file) && s.status == Receiving && FromSender(p, s, file) && p.chunk == SEND_ACK
    ensures Tracks(s.(bad := 0, missing := Without(s.missing, p.seqNum)), file)
  {
    hide Put, Chunk, FromBytes, ToBytes4, Range, Without, EndsInCommand;
    WithoutIs(s.missing, p.seqNum);
    if p.seqNum < NumPackets(file) { OnlyTheLast(file, p.seqNum); }
  }

  /** The list for the next group; it is empty only where that is none. */
  lemma NextGroup(t: State, file: seq<Byte>)
    requires Tracks(t, file) && t.missing == [] && !t.gotLast
    ensures var start := t.groupStart + GROUP_SIZE;
      var missing := Range(start, Min(start + GROUP_SIZE, t.num));
      if missing != [] then Tracks(t.(groupStart := start, missing := missing), file)
      else (NumPackets(file) == 1 && 0 !in t.written) || EndsInCommand(file)
  {
    hide Range, EndsInCommand;
    var start := t.groupStart + GROUP_SIZE;
    RangeIncreasing(start, Min(start + GROUP_SIZE, t.num));
    if start < t.num {
      assert start in Range(start, Min(start + GROUP_SIZE, t.num));
    } else {
      assert t.num == 1 || t.num - 1 in t.written || LastCommand(file, t.num - 1);
    }
  }

  lemma PacketSafe(s: State, file: seq<Byte>, p: Packet)
    requires Safe(s, file) && s.status == Receiving && FromSender(p, s, file) && p.chunk != SEND_ACK
    ensures Safe(Next(s, Some(p)), file)
  {
    hide OutRight, Put, Chunk, FromBytes, ToBytes4, Range, Without;
    WithoutIs(s.missing, p.seqNum);
    if p.chunk != ABORT {
      WriteKeeps(s.out, s.written, file, p.seqNum);
    }
  }

  /** A receiver that was misled stays so, whatever the link does. */
  lemma NextMisled(s: State, file: seq<Byte>, response: Option<Packet>)
    requires Misled(s, file)
    requires response.Some? ==> FromAhead(response.value, s, file)
    ensures Misled(Next(s, response), file)
  {
    hide OutRight, Put, Chunk, FromBytes, Without, EndsInCommand;
    if s.status == Waiting && response.Some? {
      RangeIncreasing(0, Min(GROUP_SIZE, FromBytes(response.value.chunk)));
    } else if s.status == Receiving && response.Some? {
      var q := response.value.seqNum;
      WithoutIs(s.missing, q);
      RangeIncreasing(s.groupStart + GROUP_SIZE, Min(s.groupStart + GROUP_SIZE + GROUP_SIZE, s.num));
      if !IsCommand(response.value.chunk) { WriteKeeps(s.out, s.written, file, q); }
    }
  }

  /** If it reports success, the file has bytes, and the first is missing. */
  lemma MisledLacksFirst(s: State, file: seq<Byte>)
    requires Misled(s, file) && s.status == Finished(true)
    ensures |file| > 0 && 0 !in s.out
  {
    var q :| q in s.written;
    assert q < NumPackets(file);
    assert 0 / PACKET_SIZE == 0;
  }

  /** A receiver that reports success has every byte after packet 0 and nothing that
      is not the file's, and the file does not end in a command. */
  lemma CompleteHasAllButFirst(s: State, file: seq<Byte>)
    requires Safe(s, file) && s.status == Finished(true)
    ensures !EndsInCommand(file)
    ensures forall p :: PACKET_SIZE <= p < |file| ==> p in s.out && s.out[p] == file[p]
    ensures forall p :: p in s.out ==> p < |file| && s.out[p] == file[p]
  {
    forall p | PACKET_SIZE <= p < |file| ensures p in s.out {
      var q := p / PACKET_SIZE;
      PacketCounts(file);
      assert 0 < q < NumPackets(file);
      assert q in s.written && InOut(s.out, file, q);
    }
  }

  /** Packet 0 is written, as far as the receiver got. */
  ghost predicate FirstIs(s: State, arrived: bool) {
    && (0 in s.written ==> arrived)
    && (arrived ==> s.status == Finished(false) || 0 in s.written)
  }

  /** So it has the whole file exactly when packet 0 arrived. */
  lemma CompleteIsWhole(s: State, file: seq<Byte>, arrived: bool)
    requires Safe(s, file) && s.status == Finished(true) && FirstIs(s, arrived)
    ensures (forall p :: 0 <= p < |file| ==> p in s.out) <==> arrived
  {
    CompleteHasAllButFirst(s, file);
    PacketCounts(file);
    assert 0 / PACKET_SIZE == 0;
    if 0 in s.written {
      assert InOut(s.out, file, 0);
    }
  }

  /** Packets written are there in full. */
  lemma AllWritten(out: map<nat, Byte>, written: set<nat>, file: seq<Byte>)
    requires OutRight(out, written, file) && HasUpTo(written, NumPackets(file), file)
    ensures forall p :: PACKET_SIZE <= p < |file| ==> p in out || IsCommand(Chunk(file, p / PACKET_SIZE))
  {
    forall p | PACKET_SIZE <= p < |file| ensures p in out || IsCommand(Chunk(file, p / PACKET_SIZE)) {
      var q := p / PACKET_SIZE;
      PacketCounts(file);
      OnlyTheLast(file, q);
      assert 0 < q < NumPackets(file);
      if q in written { assert InOut(out, file, q); }
    }
  }

  function Received(s: State, responses: seq<Option<Packet>>): State
    decreases |responses|
  {
    if responses == [] then s else Received(Next(s, responses[0]), responses[1..])
  }

  /** A file of two packets, the first of which is lost: the request for an
      answer has sequence number 0 too and clears it from the list. The receiver
      reports success without packet 0. */
  lemma FirstPacketIsForgotten(file: seq<Byte>)
    requires NumPackets(file) == 2 && !EndsInCommand(file)
    ensures var s := Received(START,
      [Some(Packet(ToBytes4(2), 0)), None, Some(Packet(Chunk(file, 1), 1)), Some(Packet(SEND_ACK, 0))]);
      s.status == Finished(true) && s.written == {1}
  {
    hide Put, Chunk, ToBytes4, FromBytes;
    var c := Chunk(file, 1);
    assert FromBytes(ToBytes4(2)) == 2;
    var s1 := Next(START, Some(Packet(ToBytes4(2), 0)));
    assert s1.missing == Range(0, 2) == [0, 1];
    var s2 := Next(s1, None);
    var s3 := Next(s2, Some(Packet(c, 1)));
    assert [0, 1][1..] == [1] && Without([1], 1) == [];
    assert s3.missing == [0] && s3.gotLast && s3.written == {1};
    var s4 := Next(s3, Some(Packet(SEND_ACK, 0)));
    assert s4.status == Finished(true);
    assert Received(s3, [Some(Packet(SEND_ACK, 0))]) == s4;
    assert Received(s2, [Some(Packet(c, 1)), Some(Packet(SEND_ACK, 0))]) == s4;
    assert Received(s1, [None, Some(Packet(c, 1)), Some(Packet(SEND_ACK, 0))]) == s4;
  }

  /** A file of one packet that is lost: nothing is left to ask for, and the receiver
      stops with an index error. */
  lemma OnlyPacketIsForgotten(file: seq<Byte>)
    requires NumPackets(file) == 1
    ensures Received(START, [Some(Packet(ToBytes4(1), 0)), None, Some(Packet(SEND_ACK, 0))]).status == Crashed
  {
    hide Put, Chunk, ToBytes4, FromBytes;
    var ack := Some(Packet(SEND_ACK, 0));
    assert FromBytes(ToBytes4(1)) == 1;
    var s1 := Next(START, Some(Packet(ToBytes4(1), 0)));
    assert s1.missing == Range(0, 1) == [0];
    var s2 := Next(s1, None);
    var s3 := Next(s2, ack);
    assert s3.status == Crashed;
    assert Received(s2, [ack]) == s3;
    assert Received(s1, [None, ack]) == s3;
  }

  /** The number of packets is lost and the receiver does not notice: it takes the
      first chunk for it. With a chunk that reads as 2 it reports success without the
      first packet and the third. */
  lemma ChunkAsCount(file: seq<Byte>)
    requires NumPackets(file) == 3 && FromBytes(Chunk(file, 0)) == 2 && !IsCommand(Chunk(file, 1))
    ensures var s := Received(START,
      [Some(Packet(Chunk(file, 0), 0)), Some(Packet(Chunk(file, 1), 1)), Some(Packet(SEND_ACK, 0))]);
      s.status == Finished(true) && s.written == {1}
  {
    hide Put, Chunk, FromBytes;
    var ack := Some(Packet(SEND_ACK, 0));
    var c := Some(Packet(Chunk(file, 1), 1));
    var s1 := Next(START, Some(Packet(Chunk(file, 0), 0)));
    assert s1.missing == Range(0, 2) == [0, 1];
    var s2 := Next(s1, c);
    assert [0, 1][1..] == [1] && Without([1], 1) == [];
    assert s2.missing == [0] && s2.gotLast && s2.written == {1};
    var s3 := Next(s2, ack);
    assert Received(s2, [ack]) == s3;
    assert Received(s1, [c, ack]) == s3;
  }

  /** A packet that arrives is written exactly when its chunk is no command; cleared
      from the list it is in any case. */
  lemma WrittenUnlessCommand(s: State, q: nat, chunk: seq<Byte>)
    requires s.status.Receiving? && Increasing(s.missing)
    ensures var t := Next(s, Some(Packet(chunk, q)));
      && t.written == s.written + (if IsCommand(chunk) then {} else {q})
      && t.out == (if IsCommand(chunk) then s.out else Put(s.out, q * PACKET_SIZE, chunk))
      && (t.groupStart == s.groupStart && t.status != Crashed ==> q !in t.missing)
  {
    WithoutIs(s.missing, q);
  }

  // ----- Both sides and the link -----

  /** Every packet before this one, but for packet 0 and a command, was written. */
  ghost predicate HasUpTo(written: set<nat>, end: nat, file: seq<Byte>) {
    forall q :: 0 < q < Min(end, NumPackets(file)) ==> q in written || LastCommand(file, q)
  }

  /** The receiver moves on through the groups, or stops, and forgets nothing. */
  ghost predicate Onward(s: State, t: State) {
    && s.written <= t.written
    && (t.status.Waiting? ==> s.status.Waiting?)
    && (s.status.Receiving? && t.status.Receiving? ==> s.groupStart <= t.groupStart)
    && (t.status.Receiving? ==> s.status.Receiving? || s.status.Waiting?)
    && (s.status.Finished? ==> t.status == s.status)
  }

  class Receiver {
    var status: Status
    var num: nat
    var missing: seq<nat>
    var groupStart: nat
    var bad: nat
    var gotLast: bool
    var out: map<nat, Byte>
    ghost var written: set<nat>

    ghost function Now(): State
      reads this
    {
      State(status, num, missing, groupStart, bad, gotLast, out, written)
    }

    constructor ()
      ensures Now() == START
    {
      status, num, missing, groupStart, bad, gotLast, out := Waiting, 0, [], 0, 0, false, map[];
      written := {};
    }

    /** The top of receive_file: the number of packets. */
    method Begin(response: Option<Packet>)
      requires status.Waiting? && Now() == START
      modifies this
      ensures Now() == Next(old(Now()), response)
    {
      if response.None? {
        status := Finished(false);
        return;
      }
      var numPackets := FromBytes(response.value.chunk);
      var first := Range(0, Min(GROUP_SIZE, numPackets));
      if first == [] {
        status := Crashed;
        return;
      }
      status, num, missing := Receiving, numPackets, first;
    }

    /** The loop of receive_file, one response; an answer is what it writes back. */
    method Handle(response: Option<Packet>) returns (answer: Option<seq<nat>>)
      requires status.Waiting? ==> Now() == START
      modifies this
      ensures Now() == Next(old(Now()), response) && answer == Answer(old(Now()), response)
    {
      answer := None;
      if status.Waiting? {
        Begin(response);
        return;
      } else if !status.Receiving? {
        return;
      }
      if response.None? {
        bad := bad + 1;
        if bad >= MAX_BAD_PACKETS { status := Finished(false); }
        return;
      }
      bad := 0;
      var Packet(chunk, seqNum) := response.value;
      missing := Without(missing, seqNum);
      if chunk == ABORT {
        status := Finished(false);
      } else if chunk == SEND_ACK {
        answer := Some(missing);
        if missing == [] {
          if gotLast {
            status := Finished(true);
            return;
          }
          groupStart := groupStart + GROUP_SIZE;
          missing := Range(groupStart, Min(groupStart + GROUP_SIZE, num));
          if missing == [] { status := Crashed; }
        }
      } else {
        out := Put(out, seqNum * PACKET_SIZE, chunk);
        written := written + {seqNum};
        if seqNum + 1 == num { gotLast := true; }
      }
    }
  }

  /** What becomes of one packet: how often the receiver times out before it, whether
      it arrives, and if not, whether the receiver notices. */
  datatype Fate = Fate(idle: nat, delivered: bool, noticed: bool)

  datatype SendResult = Sent | GaveUp | Raised

  /** Nothing happens to packet 0, and a receiver that has given up stays so. */
  ghost predicate FirstStays(s: State, t: State) {
    && (0 in t.written <==> 0 in s.written)
    && (s.status == Finished(false) ==> t.status == Finished(false))
  }

  /** Before packet 0: the receiver waits for the group, or has given up. */
  ghost predicate BeforeFirst(s: State, file: seq<Byte>) {
    0 !in s.written && (NumPackets(file) > 0 ==> s.status == Receiving || s.status == Finished(false))
  }

  lemma StartsReceiving(file: seq<Byte>)
    requires 0 < NumPackets(file) < 0x1_0000_0000
    ensures Next(START, Some(Packet(ToBytes4(NumPackets(file)), 0))).status == Receiving
  {}

  /** What one response does to packet 0. */
  lemma FirstAfter(s: State, response: Option<Packet>, file: seq<Byte>)
    requires s.status.Waiting? ==> s == START
    ensures response.None? || response.value.seqNum > 0 || IsCommand(response.value.chunk) || s.status.Waiting? ==>
      FirstStays(s, Next(s, response))
    ensures BeforeFirst(s, file) && NumPackets(file) > 0 ==>
      response.Some? && response.value.seqNum == 0 && !IsCommand(response.value.chunk) ==>
      FirstIs(Next(s, response), true)
  {
    hide Range, Without, Put, FromBytes;
  }

  /** What an answer says of the receiver that gives it. */
  lemma AnswerIs(s: State, p: Packet, file: seq<Byte>)
    requires Safe(s, file) && s.status.Receiving? && FromSender(p, s, file) && p.chunk == SEND_ACK
    ensures var m, t := Without(s.missing, p.seqNum), Next(s, Some(p));
      && t.written == s.written && (p.seqNum == 0 ==> 0 !in m)
      && (m == [] ==> HasUpTo(s.written, s.groupStart + GROUP_SIZE, file))
      && t.groupStart == s.groupStart + (if m == [] && !s.gotLast then GROUP_SIZE else 0)
      && (m == [] && s.gotLast ==> t.status == Finished(true))
      && (forall q :: q in m ==> q < Min(s.groupStart + GROUP_SIZE, NumPackets(file)))
  {
    hide OutRight, Put, Chunk, FromBytes, ToBytes4, Range, Without;
    WithoutIs(s.missing, p.seqNum);
    if p.seqNum < NumPackets(file) { OnlyTheLast(file, p.seqNum); }
  }

  // ----- A link that is good enough -----

  /** Where the sender is when it is about to send a packet for the first time: at
      what time, which packets of the group were lost before it, and how many losses
      in a row the receiver has noticed. */
  datatype Turn = Turn(at: nat, lost: seq<nat>, bad: nat)

  /** Before packet q goes out for the first time, on a link that loses nothing else. */
  function Before(fates: nat -> Fate, q: nat): Turn
    decreases q, 0
  {
    if q == 0 then Turn(1, [], 0)
    else
      var turn := After(fates, q - 1);
      if q % GROUP_SIZE != 0 then turn else Turn(turn.at + RoundTime(fates, turn.at, turn.lost, 3), [], 0)
  }

  /** Right after it went out. */
  function After(fates: nat -> Fate, q: nat): Turn
    decreases q, 1
  {
    var Turn(at, lost, bad) := Before(fates, q);
    if fates(at).delivered then Turn(at + 1, lost, 0)
    else Turn(at + 1, lost + [q], if fates(at).noticed then bad + 1 else bad)
  }

  /** One of so many requests gets there, in time, and so does its answer; that an answer
      is lost does no harm while it names packets. */
  predicate IsAnswered(fates: nat -> Fate, t: nat, names: bool, bad: nat, tries: nat)
    decreases tries
  {
    tries > 0 && fates(t).idle == 0 &&
    if fates(t).delivered then fates(t + 1).delivered || (names && IsAnswered(fates, t + 2, names, 0, tries - 1))
    else
      var more := if fates(t).noticed then bad + 1 else bad;
      more < MAX_BAD_PACKETS && IsAnswered(fates, t + 2, names, more, tries - 1)
  }

  /** How long until then. */
  function AskTime(fates: nat -> Fate, t: nat, tries: nat): nat
    decreases tries
  {
    if tries == 0 || (fates(t).delivered && fates(t + 1).delivered) then 2 else 2 + AskTime(fates, t + 2, tries - 1)
  }

  /** Which of the first k packets sent again from time t on are lost again, and how many
      losses the receiver has noticed in a row then. */
  function LostAgain(fates: nat -> Fate, t: nat, lost: seq<nat>, k: nat): seq<nat>
    requires k <= |lost|
  {
    if k == 0 then [] else LostAgain(fates, t, lost, k - 1) + if fates(t + k - 1).delivered then [] else [lost[k - 1]]
  }

  function BadAgain(fates: nat -> Fate, t: nat, k: nat): nat {
    if k == 0 || fates(t + k - 1).delivered then 0
    else BadAgain(fates, t, k - 1) + if fates(t + k - 1).noticed then 1 else 0
  }

  /** Before so many rounds of asking and sending again are over, nothing is missing. */
  ghost predicate Served(fates: nat -> Fate, t: nat, lost: seq<nat>, bad: nat, rounds: nat)
    decreases rounds
  {
    rounds > 0 && IsAnswered(fates, t, lost != [], bad, 3) &&
    (lost != [] ==>
      var u := t + AskTime(fates, t, 3);
      && (forall v :: u <= v < u + |lost| ==> fates(v).idle == 0)
      && (forall k :: 0 <= k <= |lost| ==> BadAgain(fates, u, k) < MAX_BAD_PACKETS)
      && Served(fates, u + |lost|, LostAgain(fates, u, lost, |lost|), BadAgain(fates, u, |lost|), rounds - 1))
  }

  /** How long that takes. */
  function RoundTime(fates: nat -> Fate, t: nat, lost: seq<nat>, rounds: nat): nat
    decreases rounds
  {
    var ask := AskTime(fates, t, 3);
    if lost == [] || rounds == 0 then ask
    else
      var u := t + ask;
      ask + |lost| + RoundTime(fates, u + |lost|, LostAgain(fates, u, lost, |lost|), rounds - 1)
  }

  predicate Clean(fates: nat -> Fate, t: nat) {
    fates(t).idle == 0 && fates(t).delivered
  }

  ghost predicate CleanFrom(fates: nat -> Fate, t: nat) {
    forall u :: t <= u ==> Clean(fates, u)
  }

  lemma AnsweredStep(fates: nat -> Fate, t: nat, names: bool, bad: nat, tries: nat)
    requires IsAnswered(fates, t, names, bad, tries)
    ensures tries > 0 && fates(t).idle == 0
    ensures if fates(t).delivered && fates(t + 1).delivered then AskTime(fates, t, tries) == 2
      else
        var more := if fates(t).delivered then 0 else if fates(t).noticed then bad + 1 else bad;
        && IsAnswered(fates, t + 2, names, more, tries - 1) && more < MAX_BAD_PACKETS && (fates(t).delivered ==> names)
        && AskTime(fates, t, tries) == 2 + AskTime(fates, t + 2, tries - 1)
        && (!fates(t).delivered && fates(t).noticed ==> bad + 1 < MAX_BAD_PACKETS)
  {}

  lemma ServedStep(fates: nat -> Fate, t: nat, lost: seq<nat>, bad: nat, rounds: nat)
    requires Served(fates, t, lost, bad, rounds)
    ensures rounds > 0 && IsAnswered(fates, t, lost != [], bad, 3)
    ensures lost == [] ==> RoundTime(fates, t, lost, rounds) == AskTime(fates, t, 3)
    ensures lost != [] ==>
      var u := t + AskTime(fates, t, 3);
      var again := LostAgain(fates, u, lost, |lost|);
      && RoundTime(fates, t, lost, rounds) ==
        AskTime(fates, t, 3) + |lost| + RoundTime(fates, u + |lost|, again, rounds - 1)
      && (forall v :: u <= v < u + |lost| ==> fates(v).idle == 0)
      && (forall k :: 0 <= k <= |lost| ==> BadAgain(fates, u, k) < MAX_BAD_PACKETS)
      && Served(fates, u + |lost|, again, BadAgain(fates, u, |lost|), rounds - 1)
  {}

  lemma NoneYetAgain(fates: nat -> Fate, t: nat, lost: seq<nat>)
    ensures LostAgain(fates, t, lost, 0) == [] && BadAgain(fates, t, 0) == 0 && [] + lost[0..] == lost
  {}

  lemma CleanServes(fates: nat -> Fate, t: nat, lost: seq<nat>, bad: nat, rounds: nat)
    requires CleanFrom(fates, t) && rounds >= 2
    ensures Served(fates, t, lost, bad, rounds)
  {
    hide IsAnswered, AskTime, LostAgain, BadAgain;
    CleanAnswers(fates, t, lost != [], bad);
    if lost != [] {
      var u := t + 2;
      NoneAgain(fates, u, lost, |lost|);
      forall v | u <= v < u + |lost| ensures fates(v).idle == 0 { assert Clean(fates, v); }
      CleanAnswers(fates, u + |lost|, false, 0);
      assert Served(fates, u + |lost|, [], 0, rounds - 1);
    }
  }

  lemma CleanAnswers(fates: nat -> Fate, t: nat, names: bool, bad: nat)
    requires CleanFrom(fates, t)
    ensures AskTime(fates, t, 3) == 2 && IsAnswered(fates, t, names, bad, 3)
  {
    assert Clean(fates, t) && Clean(fates, t + 1);
  }

  lemma {:induction false} NoneAgain(fates: nat -> Fate, t: nat, lost: seq<nat>, k: nat)
    requires k <= |lost| && CleanFrom(fates, t)
    ensures LostAgain(fates, t, lost, k) == [] && forall j :: 0 <= j <= k ==> BadAgain(fates, t, j) == 0
  {
    if k > 0 {
      NoneAgain(fates, t, lost, k - 1);
      assert Clean(fates, t + k - 1);
    }
  }

  predicate EndsGroup(file: seq<Byte>, q: nat) {
    (q + 1) % GROUP_SIZE == 0 || q + 1 == NumPackets(file)
  }

  /** The receiver is on time, and the number of packets, packet 0 and a short last packet
      get there. Others may be lost, but not so many in a row that the receiver gives up;
      after each group one of three requests gets there and its answer too, and what is
      then sent again is there before the third round. */
  ghost predicate Mild(fates: nat -> Fate, file: seq<Byte>) {
    && Clean(fates, 0)
    && (forall q {:trigger Before(fates, q)} :: 0 <= q < NumPackets(file) ==>
      && fates(Before(fates, q).at).idle == 0
      && (q == 0 || q >= NumFull(file) ==> fates(Before(fates, q).at).delivered))
    && (forall q {:trigger After(fates, q)} :: 0 <= q < NumPackets(file) ==>
      && After(fates, q).bad < MAX_BAD_PACKETS
      && (EndsGroup(file, q) ==> Served(fates, After(fates, q).at, After(fates, q).lost, After(fates, q).bad, 3)))
  }

  /** In the first group packet q goes out right after the number of packets and the
      packets before it. */
  lemma {:induction false} FirstGroupTimes(fates: nat -> Fate, q: nat)
    requires q < GROUP_SIZE
    ensures Before(fates, q).at == q + 1 && After(fates, q).at == q + 2
  {
    hide RoundTime;
    if q > 0 { FirstGroupTimes(fates, q - 1); }
  }

  /** A link that loses nothing is mild. */
  lemma LosslessIsMild(fates: nat -> Fate, file: seq<Byte>)
    requires forall t: nat :: Clean(fates, t)
    ensures Mild(fates, file)
  {
    assert Clean(fates, 0);
    forall q: nat ensures Clean(fates, Before(fates, q).at) && After(fates, q).bad == 0 {}
    forall q: nat ensures Served(fates, After(fates, q).at, After(fates, q).lost, After(fates, q).bad, 3) {
      CleanServes(fates, After(fates, q).at, After(fates, q).lost, After(fates, q).bad, 3);
    }
  }

  /** So is one that loses only packet q of a file of up to a group, not the first or
      a short last one, the first request for it, and packet q once more. */
  lemma LostTwiceIsMild(fates: nat -> Fate, file: seq<Byte>, q: nat)
    requires 0 < q < NumFull(file) && NumPackets(file) <= GROUP_SIZE
    requires var n := NumPackets(file);
      && (forall t: nat :: t != q + 1 && t != n + 1 && t != n + 5 ==> Clean(fates, t))
      && (forall t :: t == q + 1 || t == n + 1 || t == n + 5 ==> fates(t).idle == 0 && !fates(t).delivered)
    ensures Mild(fates, file)
  {
    var n := NumPackets(file);
    PacketCounts(file);
    hide Before, After, NumPackets, NumFull, Served;
    assert Clean(fates, 0);
    forall r: nat | r < n
      ensures Before(fates, r).at == r + 1 && After(fates, r).at == r + 2
      ensures After(fates, r).lost == (if r < q then [] else [q]) && After(fates, r).bad <= if r == q then 1 else 0
      ensures r != q ==> Clean(fates, r + 1)
    {
      OneLost(fates, q, r, n);
    }
    GetsThere(fates, n + 1, q, After(fates, n - 1).bad);
  }

  lemma {:induction false} OneLost(fates: nat -> Fate, q: nat, r: nat, n: nat)
    requires r < n <= GROUP_SIZE && q < n && !fates(q + 1).delivered
    requires forall t: nat :: t <= n && t != q + 1 ==> Clean(fates, t)
    ensures Before(fates, r).at == r + 1 && After(fates, r).at == r + 2
    ensures After(fates, r).lost == (if r < q then [] else [q]) && After(fates, r).bad <= if r == q then 1 else 0
  {
    hide Before, After;
    TurnIs(fates, r);
    if r > 0 { OneLost(fates, q, r - 1, n); }
    assert r != q ==> Clean(fates, r + 1);
  }

  lemma TurnIs(fates: nat -> Fate, q: nat)
    ensures q == 0 ==> Before(fates, q) == Turn(1, [], 0)
    ensures q > 0 && q % GROUP_SIZE != 0 ==> Before(fates, q) == After(fates, q - 1)
    ensures var Turn(at, lost, bad) := Before(fates, q);
      After(fates, q) == if fates(at).delivered then Turn(at + 1, lost, 0)
      else Turn(at + 1, lost + [q], if fates(at).noticed then bad + 1 else bad)
  {
    hide RoundTime;
  }

  /** A request lost, and then the packet. */
  lemma GetsThere(fates: nat -> Fate, t: nat, q: nat, bad: nat)
    requires bad <= 1 && fates(t).idle == fates(t + 4).idle == 0 && !fates(t).delivered && !fates(t + 4).delivered
    requires Clean(fates, t + 2) && Clean(fates, t + 3) && CleanFrom(fates, t + 5)
    ensures Served(fates, t, [q], bad, 3)
  {
    hide IsAnswered, AskTime, LostAgain, BadAgain, Served;
    AskedTwice(fates, t, bad);
    var u := t + 4;
    OneAgain(fates, u, q);
    CleanServes(fates, u + 1, [q], BadAgain(fates, u, 1), 2);
    ServedIf(fates, t, [q], bad, u);
  }

  lemma OneAgain(fates: nat -> Fate, u: nat, q: nat)
    requires !fates(u).delivered
    ensures LostAgain(fates, u, [q], 1) == [q] && BadAgain(fates, u, 0) == 0 && BadAgain(fates, u, 1) <= 1
  {}

  lemma ServedIf(fates: nat -> Fate, t: nat, lost: seq<nat>, bad: nat, u: nat)
    requires lost != [] && IsAnswered(fates, t, true, bad, 3) && u == t + AskTime(fates, t, 3)
    requires forall v :: u <= v < u + |lost| ==> fates(v).idle == 0
    requires forall k :: 0 <= k <= |lost| ==> BadAgain(fates, u, k) < MAX_BAD_PACKETS
    requires Served(fates, u + |lost|, LostAgain(fates, u, lost, |lost|), BadAgain(fates, u, |lost|), 2)
    ensures Served(fates, t, lost, bad, 3)
  {
    hide IsAnswered, AskTime, LostAgain, BadAgain;
  }

  lemma AskedTwice(fates: nat -> Fate, t: nat, bad: nat)
    requires bad <= 1 && fates(t).idle == 0 && !fates(t).delivered && Clean(fates, t + 2) && Clean(fates, t + 3)
    ensures IsAnswered(fates, t, true, bad, 3) && AskTime(fates, t, 3) == 4
  {}

  function GroupEnd(g: nat, n: nat): nat {
    Min(GROUP_SIZE * g + GROUP_SIZE, n)
  }

  /** The receiver is in group g and waits for the packets lost so far and those from
      `next` on. */
  ghost predicate Waits(s: State, file: seq<Byte>, g: nat, lost: seq<nat>, next: nat) {
    var n := NumPackets(file);
    && s.status == Receiving && s.num == n && s.groupStart == GROUP_SIZE * g < n
    && GROUP_SIZE * g <= next <= GroupEnd(g, n)
    && s.missing == lost + Range(next, GroupEnd(g, n))
    && (forall q :: q in lost ==> 0 < q < next && q < NumFull(file)) && Increasing(lost)
    && (s.gotLast ==> next == n)
    && (next == n && n - 1 !in lost ==> s.gotLast)
  }

  lemma LostAreFull(s: State, file: seq<Byte>, g: nat, lost: seq<nat>, next: nat)
    requires Waits(s, file, g, lost, next)
    ensures forall q :: q in lost ==> 0 < q < NumFull(file)
  {}

  /** What a mild link does to a packet on its first way. */
  lemma MildTurn(fates: nat -> Fate, file: seq<Byte>, q: nat)
    requires Mild(fates, file) && q < NumPackets(file)
    ensures var Turn(at, lost, bad) := Before(fates, q);
      var fate := fates(at);
      && fate.idle == 0
      && (!fate.delivered ==> 0 < q < NumFull(file) && (fate.noticed ==> bad + 1 < MAX_BAD_PACKETS))
  {
    assert After(fates, q).bad < MAX_BAD_PACKETS;
  }

  /** What is left of a response once the link is done with it. */
  function Heard(s: State, fate: Fate, p: Packet): State {
    if fate.delivered then Next(s, Some(p)) else if fate.noticed then Next(s, None) else s
  }

  function Idled(s: State, n: nat): State {
    if n == 0 then s else Next(Idled(s, n - 1), None)
  }

  /** The receiver knows the number of packets and waits for the first group. */
  lemma Begun(file: seq<Byte>)
    requires 0 < NumPackets(file) < 0x1_0000_0000
    ensures var s := Next(START, Some(Packet(ToBytes4(NumPackets(file)), 0))); Waits(s, file, 0, [], 0) && s.bad == 0
  {
    var n := NumPackets(file);
    assert [] + Range(0, GroupEnd(0, n)) == Range(0, Min(GROUP_SIZE, n));
    assert Range(0, GroupEnd(0, n)) != [];
  }

  lemma {:induction false} WithoutFront(a: seq<nat>, x: nat, b: seq<nat>)
    requires x !in a
    ensures Without(a + [x] + b, x) == a + b
  {
    if a == [] {
      assert a + [x] + b == [x] + b;
    } else {
      var s := a + [x] + b;
      assert s[0] == a[0] && s[1..] == a[1..] + [x] + b;
      WithoutFront(a[1..], x, b);
      assert [a[0]] + (a[1..] + b) == a + b;
    }
  }

  lemma {:induction false} WithoutAbsent(a: seq<nat>, x: nat)
    requires x !in a
    ensures Without(a, x) == a
  {
    if a != [] { WithoutAbsent(a[1..], x); }
  }

  lemma {:induction false} RangeFront(lo: nat, hi: nat)
    requires lo < hi
    ensures Range(lo, hi) == [lo] + Range(lo + 1, hi)
  {}

  /** A packet goes out for the first time: it is cleared from the list, or among those
      lost. */
  lemma FirstTime(s: State, file: seq<Byte>, g: nat, lost: seq<nat>, q: nat, bad: nat, fate: Fate)
    requires Waits(s, file, g, lost, q) && s.bad == bad && q < GroupEnd(g, NumPackets(file)) && !EndsInCommand(file)
    requires !fate.delivered ==> 0 < q < NumFull(file) && (fate.noticed ==> bad + 1 < MAX_BAD_PACKETS)
    ensures var after := Heard(s, fate, Packet(Chunk(file, q), q));
      && Waits(after, file, g, if fate.delivered then lost else lost + [q], q + 1)
      && after.bad == if fate.delivered then 0 else if fate.noticed then bad + 1 else bad
  {
    hide Waits, Chunk, GroupEnd, NumPackets, NumFull, EndsInCommand, Next;
    if fate.delivered {
      FirstArrived(s, file, g, lost, q);
    } else {
      FirstLost(s, file, g, lost, q);
    }
  }

  lemma FirstLost(s: State, file: seq<Byte>, g: nat, lost: seq<nat>, q: nat)
    requires Waits(s, file, g, lost, q) && q < GroupEnd(g, NumPackets(file)) && 0 < q < NumFull(file)
    ensures Waits(s, file, g, lost + [q], q + 1)
    ensures s.bad + 1 < MAX_BAD_PACKETS ==> Next(s, None) == s.(bad := s.bad + 1)
    ensures s.bad + 1 < MAX_BAD_PACKETS ==> Waits(Next(s, None), file, g, lost + [q], q + 1)
  {
    hide Range, Increasing;
    RangeFront(q, GroupEnd(g, NumPackets(file)));
    assert s.missing == (lost + [q]) + Range(q + 1, GroupEnd(g, NumPackets(file)));
    IncreasingMore(lost, q);
  }

  lemma FirstArrived(s: State, file: seq<Byte>, g: nat, lost: seq<nat>, q: nat)
    requires Waits(s, file, g, lost, q) && q < GroupEnd(g, NumPackets(file)) && !EndsInCommand(file)
    ensures var after := Next(s, Some(Packet(Chunk(file, q), q))); Waits(after, file, g, lost, q + 1) && after.bad == 0
  {
    OnlyTheLast(file, q);
    hide Chunk, Put, EndsInCommand, Range, Without, FromBytes, Increasing;
    var rest := Range(q + 1, GroupEnd(g, NumPackets(file)));
    RangeFront(q, GroupEnd(g, NumPackets(file)));
    assert s.missing == lost + [q] + rest;
    WithoutFront(lost, q, rest);
  }

  lemma IncreasingMore(lost: seq<nat>, q: nat)
    requires Increasing(lost) && forall r :: r in lost ==> r < q
    ensures Increasing(lost + [q])
  {
    forall i, j | 0 <= i < j < |lost| + 1 ensures (lost + [q])[i] < (lost + [q])[j] {
      assert lost[i] in lost;
    }
  }

  lemma WithoutOne(kept: seq<nat>, q: nat, rest: seq<nat>)
    requires Increasing(kept + [q] + rest)
    ensures q !in kept && q !in rest && Increasing(kept + rest)
    ensures Without(kept + [q] + rest, q) == kept + rest
    ensures forall r :: r in kept + [q] + rest <==> r == q || r in kept + rest
  {
    var s := kept + [q] + rest;
    forall i | 0 <= i < |kept| ensures kept[i] < q { assert s[i] < s[|kept|]; }
    forall i | 0 <= i < |rest| ensures q < rest[i] { assert s[|kept|] < s[|kept| + 1 + i]; }
    WithoutFront(kept, q, rest);
    WithoutIs(s, q);
  }

  /** A packet that was missing goes out again. */
  lemma Again(s: State, file: seq<Byte>, g: nat, kept: seq<nat>, q: nat, rest: seq<nat>, fate: Fate)
    requires Waits(s, file, g, kept + [q] + rest, GroupEnd(g, NumPackets(file))) && !EndsInCommand(file)
    requires q < NumPackets(file)
    requires !fate.delivered && fate.noticed ==> s.bad + 1 < MAX_BAD_PACKETS
    ensures var after := Heard(s, fate, Packet(Chunk(file, q), q));
      && Waits(after, file, g, (if fate.delivered then kept else kept + [q]) + rest, GroupEnd(g, NumPackets(file)))
      && after.bad == if fate.delivered then 0 else if fate.noticed then s.bad + 1 else s.bad
  {
    OnlyTheLast(file, q);
    hide Chunk, Put, EndsInCommand, Range, Without, FromBytes;
    if fate.delivered {
      var none := Range(GroupEnd(g, NumPackets(file)), GroupEnd(g, NumPackets(file)));
      assert none == [];
      WithoutOne(kept, q, rest);
      var t := Next(s, Some(Packet(Chunk(file, q), q)));
      assert s.missing == kept + [q] + rest && q in kept + [q] + rest;
      assert t.missing == kept + rest + none;
    }
  }

  /** Asked once: how many bad packets there were before makes no difference, and while
      packets are missing nothing else changes. */
  lemma AskOnce(s: State, fate: Fate)
    requires s.status == Receiving && 0 !in s.missing
    ensures var request := Packet(SEND_ACK, 0);
      && Answer(s, Some(request)) == Some(s.missing) && Next(s, Some(request)) == Next(s.(bad := 0), Some(request))
      && (s.missing != [] ==> Next(s, Some(request)) == s.(bad := 0))
      && (!fate.delivered && s.bad + 1 < MAX_BAD_PACKETS ==>
        Heard(s, fate, request) == s.(bad := if fate.noticed then s.bad + 1 else s.bad))
  {
    WithoutAbsent(s.missing, 0);
  }

  /** The receiver is asked: it answers what was lost, and if that is nothing, moves on
      to the next group or is done. */
  lemma Asked(s: State, file: seq<Byte>, g: nat, lost: seq<nat>)
    requires Waits(s, file, g, lost, GroupEnd(g, NumPackets(file)))
    ensures var n, request := NumPackets(file), Some(Packet(SEND_ACK, 0));
      && Answer(s, request) == Some(lost) && s.missing == lost && 0 !in lost && s.status == Receiving
      && (lost != [] ==> Next(s, request).bad == 0)
      && if lost != [] then Waits(Next(s, request), file, g, lost, GroupEnd(g, n))
         else if GroupEnd(g, n) == n then Next(s, request).status == Finished(true)
         else Waits(Next(s, request), file, g + 1, [], GROUP_SIZE * (g + 1)) && Next(s, request).bad == 0
  {
    hide Chunk, Put, EndsInCommand, Range, FromBytes, Without, Increasing, NumFull, NumPackets;
    var n := NumPackets(file);
    var none := Range(GroupEnd(g, n), GroupEnd(g, n));
    assert none == [];
    assert s.missing == lost == lost + none;
    assert 0 !in lost;
    WithoutAbsent(lost, 0);
    if lost == [] && GroupEnd(g, n) != n {
      var others := Range(GROUP_SIZE * (g + 1), GroupEnd(g + 1, n));
      assert others == [] + others && |others| > 0;
    }
  }

  class Session {
    const file: seq<Byte>
    const fates: nat -> Fate
    const receiver: Receiver
    var time: nat
    var pending: Option<seq<nat>>

    constructor (file: seq<Byte>, fates: nat -> Fate)
      ensures this.file == file && this.fates == fates && time == 0 && fresh(receiver) && receiver.Now() == START
    {
      this.file, this.fates, this.time, this.pending := file, fates, 0, None;
      this.receiver := new Receiver();
    }

    /** The number of packets arrives, or the receiver notices that it did not. */
    ghost predicate CountSeen() {
      fates(0).delivered || fates(0).noticed
    }

    ghost predicate Good(s: State) {
      if CountSeen() then Safe(s, file) else Misled(s, file)
    }

    ghost predicate Ok()
      reads receiver
    {
      Good(receiver.Now())
    }

    /** A packet the sender may send while the receiver is in this state. */
    ghost predicate Fitting(p: Packet, s: State) {
      if CountSeen() then FromSender(p, s, file) else FromAhead(p, s, file)
    }

    lemma NextGood(s: State, response: Option<Packet>)
      requires Good(s) && (response.Some? ==> Fitting(response.value, s))
      ensures Good(Next(s, response))
    {
      hide Safe, Misled, FromSender, FromAhead, Next;
      if CountSeen() {
        NextSafe(s, file, response);
      } else {
        NextMisled(s, file, response);
      }
    }

    /** Packet 0 goes out once only, as the second packet of all. */
    ghost predicate FirstArrives() {
      NumPackets(file) > 0 && !IsCommand(Chunk(file, 0)) && fates(1).delivered
    }

    /** What is known of packet 0, and that a receiver without the number of packets
        has given up. */
    ghost predicate FirstOk()
      reads receiver
    {
      CountSeen() ==>
        && FirstIs(receiver.Now(), FirstArrives())
        && (!fates(0).delivered ==> receiver.status == Finished(false))
    }

    /** Before packet 0 is sent: a receiver that knows the number waits for the group,
        one that does not has not begun. */
    ghost predicate NoneYet()
      reads receiver
    {
      if CountSeen() then
        && BeforeFirst(receiver.Now(), file)
        && (!fates(0).delivered ==> receiver.status == Finished(false))
      else !receiver.status.Receiving?
    }

    /** The sender is in group g, and the receiver is there too, or further on, unless
        it was misled. */
    ghost predicate NotAhead(g: nat)
      reads receiver
    {
      CountSeen() ==>
        && !receiver.status.Waiting? && (receiver.status.Receiving? ==> GROUP_SIZE * g <= receiver.groupStart)
        && HasUpTo(receiver.written, GROUP_SIZE * g, file)
    }

    /** An answer says what the receiver misses, or that it has the whole group and
        has moved on. */
    ghost predicate AnswerMeans(m: seq<nat>, groupStart: nat)
      reads receiver
    {
      CountSeen() ==>
        && (m == [] ==>
          && (receiver.status.Receiving? ==> groupStart + GROUP_SIZE <= receiver.groupStart)
          && HasUpTo(receiver.written, groupStart + GROUP_SIZE, file))
        && (forall q :: q in m ==>
          q < NumPackets(file) && (receiver.status.Receiving? ==> q < receiver.groupStart + GROUP_SIZE))
    }

    method Idle(n: nat)
      requires Ok()
      modifies receiver
      ensures Ok() && Onward(old(receiver.Now()), receiver.Now()) && receiver.groupStart == old(receiver.groupStart)
      ensures receiver.Now() == Idled(old(receiver.Now()), n)
      ensures FirstStays(old(receiver.Now()), receiver.Now())
      ensures old(BeforeFirst(receiver.Now(), file)) ==> BeforeFirst(receiver.Now(), file)
      ensures receiver.status.Receiving? ==> old(receiver.status.Receiving?) && receiver.bad == old(receiver.bad) + n
      ensures receiver.status.Waiting? ==> receiver.Now() == START && n == 0
      ensures old(receiver.status.Waiting?) && !receiver.status.Waiting? ==> receiver.status == Finished(false)
      ensures n >= MAX_BAD_PACKETS ==> !receiver.status.Receiving? && !receiver.status.Waiting?
    {
      hide OutRight, Tracks, Increasing;
      for i := 0 to n
        invariant Ok() && Onward(old(receiver.Now()), receiver.Now()) && receiver.groupStart == old(receiver.groupStart)
        invariant receiver.Now() == Idled(old(receiver.Now()), i)
        invariant FirstStays(old(receiver.Now()), receiver.Now())
        invariant old(BeforeFirst(receiver.Now(), file)) ==> BeforeFirst(receiver.Now(), file)
        invariant receiver.status.Receiving? ==>
          old(receiver.status.Receiving?) && receiver.bad == old(receiver.bad) + i
        invariant receiver.status.Waiting? ==> i == 0
        invariant old(receiver.status.Waiting?) && !receiver.status.Waiting? ==> receiver.status == Finished(false)
        invariant i >= MAX_BAD_PACKETS ==> !receiver.status.Receiving?
      {
        NextGood(receiver.Now(), None);
        FirstAfter(receiver.Now(), None, file);
        var answer := receiver.Handle(None);
      }
    }

    /** write_packet, with what it makes the receiver do. */
    method WritePacket(p: Packet)
      requires Ok() && Fitting(p, receiver.Now())
      modifies receiver, this`time, this`pending
      ensures Ok() && Onward(old(receiver.Now()), receiver.Now()) && time == old(time) + 1
      ensures var fate, before := fates(old(time)), Idled(old(receiver.Now()), fates(old(time)).idle);
        receiver.Now() == Heard(before, fate, p) && pending == if fate.delivered then Answer(before, Some(p)) else None
      ensures fates(old(time)).delivered || fates(old(time)).noticed ==> !receiver.status.Waiting?
      ensures old(receiver.status.Waiting?) && !fates(old(time)).delivered ==>
        receiver.status == Waiting || receiver.status == Finished(false)
      ensures pending.Some? ==> old(receiver.status.Receiving?) && AnswerMeans(pending.value, old(receiver.groupStart))
      ensures pending.Some? && p.seqNum == 0 ==> 0 !in pending.value
      ensures CountSeen() && old(receiver.status.Waiting?) && !receiver.status.Waiting? ==>
        BeforeFirst(receiver.Now(), file)
      ensures p.seqNum > 0 || IsCommand(p.chunk) ==> FirstStays(old(receiver.Now()), receiver.Now())
      ensures p.seqNum == 0 && !IsCommand(p.chunk) && old(BeforeFirst(receiver.Now(), file)) && NumPackets(file) > 0 ==>
        FirstIs(receiver.Now(), fates(old(time)).delivered)
    {
      hide OutRight, Tracks, Chunk, FromBytes, ToBytes4, Range, Without, Put, Increasing;
      var fate := fates(time);
      time := time + 1;
      Idle(fate.idle);
      ghost var before := receiver.Now();
      if !fate.delivered && !fate.noticed {
        pending := None;
        return;
      }
      var response := if fate.delivered then Some(p) else None;
      NextGood(before, response);
      FirstAfter(before, response, file);
      if before.status.Waiting? && fate.delivered && NumPackets(file) > 0 && CountSeen() { StartsReceiving(file); }
      pending := receiver.Handle(response);
      if pending.Some? { Answered(before, p); }
    }

    /** What an answer says, and that it does not name the number of the request. */
    lemma Answered(before: State, p: Packet)
      requires Good(before) && before.status.Receiving? && Fitting(p, before) && p.chunk == SEND_ACK
      requires receiver.Now() == Next(before, Some(p))
      ensures AnswerMeans(Without(before.missing, p.seqNum), before.groupStart)
      ensures p.seqNum == 0 ==> 0 !in Without(before.missing, p.seqNum)
    {
      hide OutRight, Chunk, FromBytes, ToBytes4, Range, Without, Put;
      if CountSeen() {
        AnswerIs(before, p, file);
      } else {
        WithoutIs(before.missing, p.seqNum);
      }
    }

    /** read_packet, at the sender: the answer, if it arrives. */
    method ReadPacket() returns (answer: Option<seq<nat>>)
      modifies this`time, this`pending
      ensures answer == if fates(old(time)).delivered then old(pending) else None
      ensures time == old(time) + 1
    {
      var fate := fates(time);
      time := time + 1;
      answer := if fate.delivered then pending else None;
      pending := None;
    }

    /** A receiver that has stopped stays as it is, and does not answer. */
    ghost predicate Gone()
      reads receiver
    {
      receiver.status.Finished?
    }

    /** The receiver is in group g, waits for packets sent before, and is going to be
        served. */
    ghost predicate Ready(g: nat)
      reads this, receiver
    {
      && Waits(receiver.Now(), file, g, receiver.missing, GroupEnd(g, NumPackets(file)))
      && Served(fates, time, receiver.missing, receiver.bad, 3)
      && !EndsInCommand(file) && NumPackets(file) <= 0x1_0000
    }

    /** It has everything up to the end of group g: it waits for the next group, or is
        done. */
    ghost predicate Through(g: nat)
      reads receiver
    {
      if GroupEnd(g, NumPackets(file)) == NumPackets(file) then receiver.status == Finished(true)
      else Waits(receiver.Now(), file, g + 1, [], GROUP_SIZE * (g + 1)) && receiver.bad == 0
    }

    /** A request. */
    method AskForMissing(ghost g: nat)
      requires Ok() && NotAhead(g) && FirstOk()
      modifies receiver, this`time, this`pending
      ensures Ok() && NotAhead(g) && FirstOk() && time == old(time) + 1
      ensures pending.Some? ==> AnswerMeans(pending.value, GROUP_SIZE * g) && 0 !in pending.value
      ensures old(Gone()) ==> pending == None && receiver.status == old(receiver.status)
      ensures fates(old(time)).idle == 0 ==>
        var request, before := Packet(SEND_ACK, 0), old(receiver.Now());
        && receiver.Now() == Heard(before, fates(old(time)), request)
        && pending == if fates(old(time)).delivered then Answer(before, Some(request)) else None
    {
      hide Safe, Misled, Chunk, FirstArrives, Next, Answer;
      WritePacket(Packet(SEND_ACK, 0));
    }

    /** _request_missing_packets. */
    method RequestMissing(ghost g: nat) returns (missing: Option<seq<nat>>)
      requires Ok() && NotAhead(g) && FirstOk()
      modifies receiver, this`time, this`pending
      ensures Ok() && NotAhead(g) && FirstOk()
      ensures missing.Some? ==> AnswerMeans(missing.value, GROUP_SIZE * g) && 0 !in missing.value
      ensures old(Gone()) ==> missing == None && receiver.status == old(receiver.status)
      ensures old(receiver.status.Receiving? && 0 !in receiver.missing
        && IsAnswered(fates, time, receiver.missing != [], receiver.bad, 3)) ==>
        && time == old(time) + AskTime(fates, old(time), 3)
        && receiver.Now() == Next(old(receiver.Now()), Some(Packet(SEND_ACK, 0)))
        && missing == Answer(old(receiver.Now()), Some(Packet(SEND_ACK, 0)))
    {
      hide Safe, Misled, Chunk, FirstArrives, Next, IsAnswered, AskTime, Answer, NotAhead, FirstOk, Ok;
      ghost var names := receiver.missing != [];
      ghost var asked := receiver.status.Receiving? && 0 !in receiver.missing
        && IsAnswered(fates, time, names, receiver.bad, 3);
      for i := 0 to MAX_ACK_RETRIES
        invariant Ok() && NotAhead(g) && FirstOk()
        invariant old(Gone()) ==> receiver.status == old(receiver.status)
        invariant asked ==> receiver.Now().(bad := 0) == old(receiver.Now()).(bad := 0)
        invariant asked ==> IsAnswered(fates, time, names, receiver.bad, 3 - i)
        invariant asked ==> time + AskTime(fates, time, 3 - i) == old(time) + AskTime(fates, old(time), 3)
      {
        if asked {
          AnsweredStep(fates, time, names, receiver.bad, 3 - i);
          AskOnce(receiver.Now(), fates(time));
          AskOnce(old(receiver.Now()), fates(time));
        }
        AskForMissing(g);
        missing := ReadPacket();
        if missing.Some? {
          return;
        }
      }
      if asked { AnsweredStep(fates, time, names, receiver.bad, 0); }
      missing := None;
    }

    /** The sender gives up. */
    method Abort(ghost g: nat)
      requires Ok() && NotAhead(g) && FirstOk()
      modifies receiver, this`time, this`pending
      ensures Ok() && NotAhead(g) && FirstOk()
      ensures old(Gone()) ==> receiver.status == old(receiver.status)
    {
      hide Safe, Misled, Chunk, FirstArrives, Next;
      WritePacket(Packet(ABORT, 0));
    }

    /** A packet the receiver asked for, read again and sent; the buffer takes full ones
        only. */
    method Resend(q: nat, ghost g: nat, ghost missing: seq<nat>) returns (sent: bool)
      requires Ok() && NotAhead(g) && FirstOk() && AnswerMeans(missing, GROUP_SIZE * g) && 0 !in missing && q in missing
      modifies receiver, this`time, this`pending
      ensures Ok() && NotAhead(g) && FirstOk() && AnswerMeans(missing, GROUP_SIZE * g)
      ensures old(Gone()) ==> receiver.status == old(receiver.status)
      ensures q < NumFull(file) && NumPackets(file) <= 0x1_0000 ==> sent && time == old(time) + 1
      ensures sent ==> q < NumPackets(file)
      ensures sent && fates(old(time)).idle == 0 ==>
        receiver.Now() == Heard(old(receiver.Now()), fates(old(time)), Packet(Chunk(file, q), q))
    {
      hide Safe, Misled, FirstArrives, Next;
      if q >= NumPackets(file) {
        return false;
      }
      var chunk := Chunk(file, q);
      if |chunk| != PACKET_SIZE || q >= 0x1_0000 {
        return false;
      }
      WritePacket(Packet(chunk, q));
      sent := true;
    }

    lemma SentAgain(g: nat, lost: seq<nat>, from: nat, k: nat)
      requires k < |lost| && time == from + k && receiver.bad == BadAgain(fates, from, k) && !EndsInCommand(file)
      requires BadAgain(fates, from, k + 1) < MAX_BAD_PACKETS && lost[k] < NumPackets(file)
      requires var end := GroupEnd(g, NumPackets(file));
        Waits(receiver.Now(), file, g, LostAgain(fates, from, lost, k) + lost[k..], end)
      ensures var end, after := GroupEnd(g, NumPackets(file)),
          Heard(receiver.Now(), fates(time), Packet(Chunk(file, lost[k]), lost[k]));
        && Waits(after, file, g, LostAgain(fates, from, lost, k + 1) + lost[k + 1..], end)
        && after.bad == BadAgain(fates, from, k + 1)
    {
      hide Waits, EndsInCommand, Chunk, NumPackets, Heard;
      var kept, q, rest := LostAgain(fates, from, lost, k), lost[k], lost[k + 1..];
      assert kept + lost[k..] == kept + [q] + rest && kept + [] == kept;
      assert LostAgain(fates, from, lost, k + 1) == if fates(time).delivered then kept else kept + [q];
      Again(receiver.Now(), file, g, kept, q, rest, fates(time));
    }

    /** All that the receiver asked for, in the order it named them. */
    method ResendAll(missing: seq<nat>, ghost g: nat) returns (sent: bool)
      requires Ok() && NotAhead(g) && FirstOk() && AnswerMeans(missing, GROUP_SIZE * g) && 0 !in missing
      modifies receiver, this`time, this`pending
      ensures Ok() && NotAhead(g) && FirstOk()
      ensures old(Gone()) ==> receiver.status == old(receiver.status)
      ensures old(AsksFor(g, missing)) ==>
        var again, end := LostAgain(fates, old(time), missing, |missing|), GroupEnd(g, NumPackets(file));
        && sent && time == old(time) + |missing| && receiver.bad == BadAgain(fates, old(time), |missing|)
        && Waits(receiver.Now(), file, g, again, end)
    {
      hide Safe, Misled, Chunk, FirstArrives, Next, EndsInCommand, Waits, NumFull, NumPackets, Ok, NotAhead, FirstOk,
        AnswerMeans, Heard, LostAgain, BadAgain;
      PacketCounts(file);
      ghost var ready, end := AsksFor(g, missing), GroupEnd(g, NumPackets(file));
      NoneYetAgain(fates, time, missing);
      if ready { LostAreFull(receiver.Now(), file, g, missing, end); }
      for k := 0 to |missing|
        invariant Ok() && NotAhead(g) && FirstOk() && AnswerMeans(missing, GROUP_SIZE * g)
        invariant old(Gone()) ==> receiver.status == old(receiver.status)
        invariant ready ==> time == old(time) + k && receiver.bad == BadAgain(fates, old(time), k)
        invariant ready ==> Waits(receiver.Now(), file, g, LostAgain(fates, old(time), missing, k) + missing[k..], end)
      {
        assert missing[k] in missing;
        if ready { SentAgain(g, missing, old(time), k); }
        sent := Resend(missing[k], g, missing);
        if !sent { return; }
      }
      sent := true;
      ghost var again := LostAgain(fates, old(time), missing, |missing|);
      assert again + missing[|missing|..] == again;
    }

    /** The receiver waits for these, asked for, and hears in time what is sent again. */
    ghost predicate AsksFor(g: nat, lost: seq<nat>)
      reads this, receiver
    {
      && Waits(receiver.Now(), file, g, lost, GroupEnd(g, NumPackets(file))) && receiver.bad == 0
      && (forall v :: time <= v < time + |lost| ==> fates(v).idle == 0)
      && (forall k :: 0 <= k <= |lost| ==> BadAgain(fates, time, k) < MAX_BAD_PACKETS)
      && !EndsInCommand(file) && NumPackets(file) <= 0x1_0000
    }

    lemma GroupThrough(g: nat, missing: seq<nat>)
      requires NotAhead(g) && AnswerMeans(missing, GROUP_SIZE * g) && missing == []
      ensures NotAhead(g + 1)
    {}

    /** _send_missing_packets: true once the receiver has the whole group. */
    method SendMissing(ghost g: nat) returns (r: SendResult)
      requires Ok() && NotAhead(g) && FirstOk()
      modifies receiver, this`time, this`pending
      ensures Ok() && NotAhead(g) && FirstOk()
      ensures r.Sent? ==> NotAhead(g + 1)
      ensures old(Gone()) ==> r == GaveUp && receiver.status == old(receiver.status)
      ensures old(Ready(g)) ==>
        r == Sent && Through(g) && time == old(time) + RoundTime(fates, old(time), old(receiver.missing), 3)
    {
      hide Safe, Misled, Chunk, FirstArrives, Next, EndsInCommand, Waits, NumFull, NumPackets, Ok, NotAhead, FirstOk,
        AnswerMeans, Heard, IsAnswered, AskTime, Served, RoundTime, LostAgain, BadAgain;
      PacketCounts(file);
      ghost var ready, all := Ready(g), RoundTime(fates, time, receiver.missing, 3);
      ghost var lost: seq<nat> := receiver.missing;
      ghost var end := GroupEnd(g, NumPackets(file));
      for cycle := 0 to MAX_RESEND_CYCLES
        invariant Ok() && NotAhead(g) && FirstOk()
        invariant old(Gone()) ==> receiver.status == old(receiver.status)
        invariant ready ==> Waits(receiver.Now(), file, g, lost, end)
        invariant ready ==> Served(fates, time, lost, receiver.bad, 3 - cycle)
        invariant ready ==> time + RoundTime(fates, time, lost, 3 - cycle) == old(time) + all
      {
        if ready {
          ServedStep(fates, time, lost, receiver.bad, 3 - cycle);
          LostAreFull(receiver.Now(), file, g, lost, end);
          Asked(receiver.Now(), file, g, lost);
        }
        var missing := RequestMissing(g);
        if missing.None? {
          Abort(g);
          return GaveUp;
        }
        if missing.value == [] {
          GroupThrough(g, missing.value);
          return Sent;
        }
        ghost var from := time;
        var sent := ResendAll(missing.value, g);
        if !sent { return Raised; }
        if ready { lost := LostAgain(fates, from, lost, |lost|); }
      }
      if ready { ServedStep(fates, time, lost, receiver.bad, 0); }
      Abort(g);
      return GaveUp;
    }

    /** A file the sender can number, which does not end in a command, over a mild link. */
    ghost predicate Fine() {
      0 < NumPackets(file) <= 0x1_0000 && !EndsInCommand(file) && Mild(fates, file)
    }

    ghost predicate At(turn: Turn, g: nat, next: nat)
      reads this, receiver
    {
      time == turn.at && Waits(receiver.Now(), file, g, turn.lost, next) && receiver.bad == turn.bad
    }

    /** The sender is about to send packet q for the first time; or it has sent them all,
        and the receiver is done where that was the end of a group. */
    ghost predicate Reached(q: nat)
      reads this, receiver
    {
      Fine() ==>
        if q < NumPackets(file) then At(Before(fates, q), q / GROUP_SIZE, q)
        else if q % GROUP_SIZE == 0 then receiver.status == Finished(true)
        else q > 0 && At(After(fates, q - 1), (q - 1) / GROUP_SIZE, q)
    }

    /** It has just sent packet q. */
    ghost predicate HasSent(q: nat)
      reads this, receiver
    {
      Fine() ==> At(After(fates, q), q / GROUP_SIZE, q + 1)
    }

    lemma GroupEnds(q: nat)
      requires q < NumPackets(file) && EndsGroup(file, q)
      ensures q + 1 == GroupEnd(q / GROUP_SIZE, NumPackets(file))
    {
      hide NumPackets;
    }

    lemma BeforeRound(q: nat)
      requires HasSent(q) && Fine() && q < NumPackets(file) && EndsGroup(file, q)
      ensures Ready(q / GROUP_SIZE) && receiver.missing == After(fates, q).lost
      ensures q + 1 == GroupEnd(q / GROUP_SIZE, NumPackets(file))
    {
      hide After, Chunk, EndsInCommand, NumFull, NumPackets, Served, EndsGroup;
      assert After(fates, q).bad < MAX_BAD_PACKETS;
      GroupEnds(q);
      var lost := After(fates, q).lost;
      assert Range(q + 1, q + 1) == [] && lost + [] == lost == receiver.missing;
    }

    lemma AfterRound(q: nat)
      requires Fine() && q < NumPackets(file) && EndsGroup(file, q) && Through(q / GROUP_SIZE)
      requires var turn := After(fates, q); time == turn.at + RoundTime(fates, turn.at, turn.lost, 3)
      requires q + 1 == GroupEnd(q / GROUP_SIZE, NumPackets(file))
      ensures q + 1 < NumPackets(file) || (q + 1) % GROUP_SIZE == 0 ==> Reached(q + 1)
      ensures q + 1 == NumPackets(file) ==> receiver.status == Finished(true)
    {
      hide After, Chunk, EndsInCommand, NumFull, NumPackets, Waits, RoundTime, Mild, Served;
    }

    /** Packet q of the file, for the first time. */
    method SendChunk(q: nat)
      requires Ok() && q < NumPackets(file) && NotAhead(q / GROUP_SIZE) && Reached(q)
      requires if q == 0 then time == 1 && NoneYet() else FirstOk()
      modifies receiver, this`time, this`pending
      ensures Ok() && NotAhead(q / GROUP_SIZE) && FirstOk() && HasSent(q)
    {
      hide Safe, Misled, Chunk, Waits, Before, NumFull, NumPackets, EndsInCommand;
      if Fine() {
        var turn := Before(fates, q);
        MildTurn(fates, file, q);
        FirstTime(receiver.Now(), file, q / GROUP_SIZE, turn.lost, q, turn.bad, fates(turn.at));
      }
      WritePacket(Packet(Chunk(file, q), q));
    }

    /** The file ends where a group of full packets does. */
    predicate EndsFull() {
      |file| % (GROUP_SIZE * PACKET_SIZE) == 0
    }

    lemma EndsFullIs()
      ensures EndsFull() <==> NumPackets(file) == NumFull(file) && NumFull(file) % GROUP_SIZE == 0
    {
      PacketCounts(file);
      MultipleOfBoth(|file|);
    }

    /** The number of packets, by which the receiver starts. */
    method SendCount()
      requires receiver.Now() == START && time == 0 && NumPackets(file) < 0x1_0000_0000
      modifies receiver, this`time, this`pending
      ensures Ok() && NotAhead(0) && Reached(0) && time == 1 && NoneYet()
      ensures CountSeen() ==> !receiver.status.Waiting?
    {
      hide Safe, Misled, ToBytes4, Waits, EndsInCommand, Next, NumPackets;
      StartOk();
      if Fine() { Begun(file); }
      WritePacket(Packet(ToBytes4(NumPackets(file)), 0));
      AtGroup0();
    }

    /** A full packet, and after the last of a group what the receiver misses of it. */
    method SendNext(q: nat) returns (r: SendResult)
      requires Ok() && q < NumFull(file) && NotAhead(q / GROUP_SIZE) && Reached(q)
      requires if q == 0 then time == 1 && NoneYet() else FirstOk()
      modifies receiver, this`time, this`pending
      ensures Ok() && FirstOk() && NotAhead(q / GROUP_SIZE)
      ensures r.Sent? ==> NotAhead((q + 1) / GROUP_SIZE) && Reached(q + 1)
      ensures Fine() ==> r.Sent?
    {
      hide Safe, Misled, Waits, Mild, EndsInCommand, Before, After, NumFull, NumPackets, RoundTime, Served;
      PacketCounts(file);
      if q >= 0x1_0000 {
        return Raised;
      }
      SendChunk(q);
      if q % GROUP_SIZE == GROUP_SIZE - 1 {
        if Fine() { BeforeRound(q); }
        r := SendMissing(q / GROUP_SIZE);
        if Fine() { AfterRound(q); }
      } else {
        NextOfGroup(q);
        r := Sent;
      }
    }

    lemma NextOfGroup(q: nat)
      requires HasSent(q) && q % GROUP_SIZE != GROUP_SIZE - 1
      ensures Reached(q + 1) && (q + 1) / GROUP_SIZE == q / GROUP_SIZE
    {
      hide Waits, EndsInCommand, NumPackets, After;
      assert (q + 1) % GROUP_SIZE != 0;
    }

    /** send_file, for any fate of every packet. Unless the number of packets is lost
        unnoticed, the packets of a group are sent only while the receiver is in that
        group or a later one; and where it succeeds, every packet after packet 0 was
        written, but for one that reads as a command. Over a mild link the receiver
        succeeds; the sender too, unless the file ends with a full group: then it asks
        once more, for what is missing of the group after that, and nobody answers. */
    method SendFile() returns (r: SendResult)
      requires receiver.Now() == START && time == 0
      modifies receiver, this`time, this`pending
      ensures Ok()
      ensures if NumPackets(file) < 0x1_0000_0000 then FirstOk() && (CountSeen() ==> !receiver.status.Waiting?)
        else receiver.status.Waiting?
      ensures r.Sent? && CountSeen() ==> HasUpTo(receiver.written, NumPackets(file), file)
      ensures Fine() ==> receiver.status == Finished(true) && r == if EndsFull() then GaveUp else Sent
    {
      hide Safe, Misled, HasUpTo, Waits, Mild, EndsInCommand, Before, After, NumFull, NumPackets, EndsFull, RoundTime,
        Served;
      PacketCounts(file);
      EndsFullIs();
      var full, n := NumFull(file), NumPackets(file);
      if n >= 0x1_0000_0000 {
        StartOk();
        return Raised;
      }
      SendCount();
      for q := 0 to full
        invariant Ok() && NotAhead(q / GROUP_SIZE) && Reached(q)
        invariant if q == 0 then time == 1 && NoneYet() else FirstOk()
      {
        r := SendNext(q);
        if !r.Sent? { return; }
      }
      if n != full {
        if full >= 0x1_0000 {
          return Raised;
        }
        SendChunk(full);
      }
      if Fine() && !EndsFull() { BeforeRound(n - 1); }
      r := SendMissing(full / GROUP_SIZE);
      if Fine() && !EndsFull() { AfterRound(n - 1); }
      if r.Sent? && CountSeen() { LastGroup(full, n); }
    }

    lemma LastGroup(full: nat, n: nat)
      requires n == NumPackets(file) && n <= full + 1 && NotAhead(full / GROUP_SIZE + 1) && CountSeen()
      ensures HasUpTo(receiver.written, n, file)
    {
      assert n <= GROUP_SIZE * (full / GROUP_SIZE + 1);
    }

    lemma AtGroup0()
      requires CountSeen() ==> !receiver.status.Waiting?
      ensures NotAhead(0)
    {}

    lemma StartOk()
      requires receiver.Now() == START
      ensures Ok()
    {}

    /** A whole run, for any fate of every packet: the sender's part, and then the
        receiver alone until it stops. Whatever is written is the file's, at its place.
        If the receiver reports success, the whole file is there exactly if both the
        number of packets and packet 0 arrived the one time they were sent. Unless the
        number is lost unnoticed, every byte after packet 0 is there then, and the file
        does not end in a command; and if the sender reports success, every byte after
        packet 0 is there, but for those of a command. */
    method Run() returns (r: SendResult)
      requires receiver.Now() == START && time == 0
      modifies receiver, this`time, this`pending
      ensures !receiver.status.Receiving? && !receiver.status.Waiting? && Ok()
      ensures forall p :: p in receiver.out ==> p < |file| && receiver.out[p] == file[p]
      ensures receiver.status == Finished(true) ==>
        ((forall p :: 0 <= p < |file| ==> p in receiver.out) <==> fates(0).delivered && fates(1).delivered)
      ensures CountSeen() && receiver.status == Finished(true) ==> !EndsInCommand(file)
      ensures CountSeen() && receiver.status == Finished(true) ==>
        forall p :: PACKET_SIZE <= p < |file| ==> p in receiver.out
      ensures CountSeen() && r.Sent? ==> forall p :: PACKET_SIZE <= p < |file| ==>
        p in receiver.out || IsCommand(Chunk(file, p / PACKET_SIZE))
      ensures CountSeen() && receiver.status == Crashed ==>
        NumPackets(file) == 0 || (NumPackets(file) == 1 && !fates(1).delivered) || EndsInCommand(file)
      ensures 0 < NumPackets(file) <= 0x1_0000 && !EndsInCommand(file) && Mild(fates, file) ==>
        receiver.status == Finished(true) && r == if |file| % (GROUP_SIZE * PACKET_SIZE) == 0 then GaveUp else Sent
    {
      hide OutRight, Tracks, Increasing, Mild, NumPackets;
      r := SendFile();
      Idle(MAX_BAD_PACKETS);
      if CountSeen() {
        AllGood();
        if r.Sent? { AllWritten(receiver.out, receiver.written, file); }
      } else {
        NotAll();
      }
    }

    lemma NotAll()
      requires Misled(receiver.Now(), file) && !CountSeen()
      ensures forall p :: p in receiver.out ==> p < |file| && receiver.out[p] == file[p]
      ensures receiver.status == Finished(true) ==> 0 < |file| && 0 !in receiver.out
    {
      if receiver.status == Finished(true) { MisledLacksFirst(receiver.Now(), file); }
    }

    lemma AllGood()
      requires CountSeen() && Safe(receiver.Now(), file) && (NumPackets(file) < 0x1_0000_0000 ==> FirstOk())
      requires NumPackets(file) >= 0x1_0000_0000 ==> receiver.status == Finished(false)
      ensures forall p :: p in receiver.out ==> p < |file| && receiver.out[p] == file[p]
      ensures receiver.status == Finished(true) ==> !EndsInCommand(file)
      ensures receiver.status == Finished(true) ==> forall p :: PACKET_SIZE <= p < |file| ==> p in receiver.out
      ensures receiver.status == Finished(true) ==>
        ((forall p :: 0 <= p < |file| ==> p in receiver.out) <==> fates(0).delivered && fates(1).delivered)
      ensures receiver.status == Crashed ==>
        NumPackets(file) == 0 || (NumPackets(file) == 1 && !fates(1).delivered) || EndsInCommand(file)
    {
      if NumPackets(file) > 0 { OnlyTheLast(file, 0); }
      if receiver.status == Finished(true) {
        CompleteHasAllButFirst(receiver.Now(), file);
        CompleteIsWhole(receiver.Now(), file, FirstArrives());
      }
    }
  }

  /** A file of exactly a group of packets over a link that loses nothing: the receiver
      has the file and is done, and the sender gives up. */
  method FullGroupGivesUp() returns (sender: SendResult, receiver: Status)
    ensures sender == GaveUp && receiver == Finished(true)
  {
    var file: seq<Byte> := seq(GROUP_SIZE * PACKET_SIZE, i => 0);
    var session := new Session(file, t => Fate(0, true, true));
    LosslessIsMild(session.fates, file);
    assert NumPackets(file) == GROUP_SIZE && |Chunk(file, GROUP_SIZE - 1)| == PACKET_SIZE;
    sender := session.Run();
    receiver := session.receiver.status;
  }
}
