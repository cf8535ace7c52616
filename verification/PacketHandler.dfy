/** The packets under the file transfer: a header with length, number and
    checksum. What a reader accepts from the port, whatever arrives there, is a
    packet behind the header that belongs to it. */
module PacketHandler {
  import opened Bytes
  import opened Wrappers
  import opened Crc

  const HEADER_LEN: nat := 8
  const MAX_PACKET_SIZE: nat := 4096
  const ACK: Octet := 0x21
  const SYN: Octet := 0x24
  const PRIM: Octet := 0x40

  // ----- The header -----

  function Nat(b: Octet): (n: nat)
    ensures n < 256
  {
    b as nat
  }

  function ByteOfNat(n: nat): (b: Octet)
    requires n < 256
    ensures Nat(b) == n
  {
    if n == 0 then 0
    else
      PlusOne(ByteOfNat(n - 1));
      ByteOfNat(n - 1) + 1
  }

  lemma PlusOne(b: Octet)
    requires Nat(b) < 255
    ensures Nat(b + 1) == Nat(b) + 1
  {}

  /** Two bytes, little end first. */
  function Le16(n: nat): (s: seq<Octet>)
    requires n < 0x1_0000
    ensures |s| == 2 && FromLe16(s) == n
  {
    [ByteOfNat(n % 256), ByteOfNat(n / 256)]
  }

  function FromLe16(s: seq<Octet>): (n: nat)
    requires |s| == 2
    ensures n < 0x1_0000
  {
    Nat(s[0]) + 256 * Nat(s[1])
  }

  /** binascii.crc32. */
  function Checksum(packet: seq<Octet>): Word {
    Xor(Crc32(0xffff_ffff, packet), 0xffff_ffff)
  }

  /** _calculate_header: for the lengths and numbers that two bytes can hold. */
  function Header(packet: seq<Octet>, seqNum: nat): (h: seq<Octet>)
    requires |packet| < 0x1_0000 && seqNum < 0x1_0000
    ensures |h| == HEADER_LEN
  {
    Le16(|packet|) + Le16(seqNum) + Le32Bytes(Checksum(packet))
  }

  /** _decode_header. */
  function Decode(h: seq<Octet>): (nat, nat, seq<Octet>)
    requires |h| == HEADER_LEN
  {
    (FromLe16(h[0..2]), FromLe16(h[2..4]), h[4..8])
  }

  lemma DecodesHeader(packet: seq<Octet>, seqNum: nat)
    requires |packet| < 0x1_0000 && seqNum < 0x1_0000
    ensures Decode(Header(packet, seqNum)) == (|packet|, seqNum, Le32Bytes(Checksum(packet)))
  {
    hide Checksum, Le32Bytes, Le16, FromLe16;
    var h := Header(packet, seqNum);
    assert h[0..2] == Le16(|packet|) && h[2..4] == Le16(seqNum);
    assert h[4..8] == Le32Bytes(Checksum(packet));
  }

  lemma Le16OfBytes(s: seq<Octet>)
    requires |s| == 2
    ensures Le16(FromLe16(s)) == s
  {
    hide ByteOfNat, Nat;
    var n := FromLe16(s);
    Halves(Nat(s[0]), Nat(s[1]));
    SameByte(s[0], ByteOfNat(n % 256));
    SameByte(s[1], ByteOfNat(n / 256));
  }

  lemma Halves(a: nat, b: nat)
    requires a < 256
    ensures (a + 256 * b) % 256 == a && (a + 256 * b) / 256 == b
  {}

  lemma SameByte(a: Octet, b: Octet)
    requires Nat(a) == Nat(b)
    ensures a == b
  {}

  lemma NumberFits(h: seq<Octet>)
    requires |h| == HEADER_LEN
    ensures Decode(h).1 < 0x1_0000
  {}

  /** A header that decodes to a packet's length and checksum is its header. */
  lemma HeaderIs(h: seq<Octet>, packet: seq<Octet>)
    requires |h| == HEADER_LEN && Decode(h).0 == |packet| && Decode(h).2 == Le32Bytes(Checksum(packet))
    ensures |packet| < 0x1_0000 && h == Header(packet, Decode(h).1)
  {
    hide Checksum, Le32Bytes, Le16, FromLe16;
    Le16OfBytes(h[0..2]);
    Le16OfBytes(h[2..4]);
    assert h == h[0..2] + h[2..4] + h[4..8];
  }

  /** A packet damaged within four consecutive bytes does not fit its header. */
  lemma DamageIsSeen(before: seq<Octet>, a: seq<Octet>, b: seq<Octet>, after: seq<Octet>, seqNum: nat, other: nat)
    requires |a| == |b| <= 4 && a != b && |before + a + after| < 0x1_0000 && seqNum < 0x1_0000 && other < 0x1_0000
    ensures Header(before + a + after, seqNum) != Header(before + b + after, other)
  {
    hide Xor, Crc32, Le32Bytes, Le16, FromLe16;
    var p, q := before + a + after, before + b + after;
    DecodesHeader(p, seqNum);
    DecodesHeader(q, other);
    if Header(p, seqNum) == Header(q, other) {
      BytesOfWord(Checksum(p));
      BytesOfWord(Checksum(q));
      XorCancels(Crc32(0xffff_ffff, p), Crc32(0xffff_ffff, q), 0xffff_ffff);
      CrcSeesWindow(0xffff_ffff, before, a, b, after);
      assert false;
    }
  }

  /** What write_packet sends, when it is acknowledged at once. */
  function Frame(packet: seq<Octet>, seqNum: nat): seq<Octet>
    requires |packet| < 0x1_0000 && seqNum < 0x1_0000
  {
    [SYN, SYN, SYN] + [PRIM] + Header(packet, seqNum) + packet
  }

  // ----- Reading -----

  /** The port at the reader's end: bytes that arrive, and timeouts; and how many
      acknowledgements were sent. */
  class Port {
    const script: seq<Option<Octet>>
    var at: nat
    var acks: nat

    constructor (script: seq<Option<Octet>>)
      ensures this.script == script && at == 0 == acks
    {
      this.script, this.at, this.acks := script, 0, 0;
    }

    ghost predicate Arrived(start: nat, data: seq<Octet>) {
      start + |data| <= |script| && forall i :: start <= i < start + |data| ==> script[i] == Some(data[i - start])
    }

    /** Up to n bytes, fewer where the port times out. */
    method Read(n: nat) returns (data: seq<Octet>)
      requires at <= |script|
      modifies this`at
      ensures old(at) <= at <= |script| && |data| <= n && Arrived(old(at), data)
      ensures |data| == n ==> at == old(at) + n
      ensures |data| < n ==> old(at) + |data| == |script| || script[old(at) + |data|] == None
      ensures |data| < n && old(at) < |script| ==> at > old(at)
    {
      data := [];
      while |data| < n
        invariant old(at) <= at == old(at) + |data| <= |script| && |data| <= n && Arrived(old(at), data)
        decreases n - |data|
      {
        if at == |script| {
          return;
        }
        at := at + 1;
        match script[at - 1]
        case None => return;
        case Some(b) => data := data + [b];
      }
    }

    /** What arrives in one piece arrives in two, one after the other. */
    lemma Parts(start: nat, x: seq<Octet>, y: seq<Octet>)
      requires Arrived(start, x + y)
      ensures Arrived(start, x) && Arrived(start + |x|, y)
    {
    }

    /** The bytes that arrive are what is read of them. */
    lemma SameBytes(start: nat, x: seq<Octet>, y: seq<Octet>)
      requires Arrived(start, x) && Arrived(start, y) && |x| <= |y|
      ensures x == y[..|x|]
    {
      forall k | 0 <= k < |x| ensures x[k] == y[k] {
        assert script[start + k] == Some(x[(start + k) - start]);
      }
    }

    method Ack()
      modifies this`acks
      ensures acks == old(acks) + 1
    {
      acks := acks + 1;
    }

    /** _wait_for_sync: three sync bytes in a row. */
    method WaitForSync() returns (ok: bool)
      requires at <= |script|
      modifies this`at
      ensures old(at) <= at <= |script| && (ok ==> at >= old(at) + 3 && Arrived(at - 3, [SYN, SYN, SYN]))
      ensures Arrived(old(at), [SYN, SYN, SYN]) ==> ok && at == old(at) + 3
    {
      var count := 0;
      while true
        invariant old(at) <= at <= |script| && count < 3 && at >= old(at) + count
        invariant forall k :: at - count <= k < at ==> script[k] == Some(SYN)
        invariant Arrived(old(at), [SYN, SYN, SYN]) ==> at == old(at) + count
        decreases |script| - at
      {
        var data := Read(1);
        if |data| == 0 {
          return false;
        }
        assert script[at - 1] == Some(data[0]);
        count := if data[0] == SYN then count + 1 else 0;
        if count == 3 {
          assert script[at - 3] == script[at - 2] == script[at - 1] == Some(SYN);
          return true;
        }
      }
    }

    /** The wait for the start byte: eleven reads at most. */
    method WaitForStart() returns (ok: bool)
      requires at <= |script|
      modifies this`at
      ensures old(at) <= at <= |script| && (ok ==> at > old(at) && script[at - 1] == Some(PRIM))
      ensures Arrived(old(at), [PRIM]) ==> ok && at == old(at) + 1
    {
      var count := 0;
      while true
        invariant old(at) <= at <= |script| && count <= 10
        invariant Arrived(old(at), [PRIM]) ==> at == old(at)
        decreases 10 - count
      {
        ghost var was := at;
        var data := Read(1);
        assert |data| == 1 ==> script[was] == Some(data[0]);
        if data == [PRIM] {
          return true;
        }
        if count == 10 {
          return false;
        }
        count := count + 1;
      }
    }

    /** The packet behind a header, with its acknowledgements. */
    method ReadBody(header: seq<Octet>, ghost sent: Option<(seq<Octet>, nat)>) returns (r: Option<(seq<Octet>, nat)>)
      requires at <= |script| && |header| == HEADER_LEN
      requires sent.Some? ==> |sent.value.0| <= MAX_PACKET_SIZE && sent.value.1 < 0x1_0000
      requires sent.Some? ==> header == Header(sent.value.0, sent.value.1) && Arrived(at, sent.value.0)
      modifies this`at, this`acks
      ensures old(at) <= at <= |script|
      ensures r.Some? ==>
        var (packet, seqNum) := r.value;
        && |packet| <= MAX_PACKET_SIZE && seqNum < 0x1_0000 && header == Header(packet, seqNum)
        && at == old(at) + |packet| && Arrived(old(at), packet)
      ensures r.Some? <==> acks == old(acks) + 2
      ensures r.None? ==> acks <= old(acks) + 1
      ensures sent.Some? ==> r == sent
    {
      hide Le32Bytes, Le16, FromLe16, Xor, Crc32, Header;
      if sent.Some? { DecodesHeader(sent.value.0, sent.value.1); }
      var (length, seqNum, expected) := Decode(header);
      NumberFits(header);
      if length > MAX_PACKET_SIZE {
        return None;
      }
      Ack();
      ghost var start := at;
      var packet := Read(length);
      if sent.Some? { SameBytes(start, packet, sent.value.0); }
      if |packet| < length {
        return None;
      }
      assert sent.Some? ==> packet == sent.value.0;
      var received := SsdvCrc32(packet);
      if expected != Le32Bytes(received) {
        return None;
      }
      Ack();
      HeaderIs(header, packet);
      r := Some((packet, seqNum));
    }

    /** read_packet. A packet is accepted only behind the start byte and the header
        that belongs to it, with nothing in between; and then, and only then, the
        third acknowledgement is sent. What write_packet sends, if nothing is lost
        of it, is accepted. */
    method ReadPacket(ghost sent: Option<(seq<Octet>, nat)>) returns (r: Option<(seq<Octet>, nat)>)
      requires at <= |script|
      requires sent.Some? ==> |sent.value.0| <= MAX_PACKET_SIZE && sent.value.1 < 0x1_0000
      requires sent.Some? ==> Arrived(at, Frame(sent.value.0, sent.value.1))
      modifies this`at, this`acks
      ensures old(at) <= at <= |script|
      ensures r.Some? ==>
        var (packet, seqNum) := r.value;
        && |packet| <= MAX_PACKET_SIZE && seqNum < 0x1_0000
        && at >= old(at) + |packet| + HEADER_LEN + 4
        && Arrived(at - |packet| - HEADER_LEN - 1, [PRIM] + Header(packet, seqNum) + packet)
      ensures r.Some? <==> acks == old(acks) + 3
      ensures r.None? ==> acks <= old(acks) + 2
      ensures sent.Some? ==> r == sent
    {
      hide Header;
      if sent.Some? {
        var (p, q) := sent.value;
        Parts(at, [SYN, SYN, SYN] + [PRIM] + Header(p, q), p);
        Parts(at, [SYN, SYN, SYN] + [PRIM], Header(p, q));
        Parts(at, [SYN, SYN, SYN], [PRIM]);
      }
      var ok := WaitForSync();
      if !ok {
        return None;
      }
      Ack();
      ok := WaitForStart();
      if !ok {
        return None;
      }
      ghost var start := at;
      var header := Read(HEADER_LEN);
      if sent.Some? { SameBytes(start, header, Header(sent.value.0, sent.value.1)); }
      if |header| < HEADER_LEN {
        return None;
      }
      r := ReadBody(header, sent);
      if r.Some? { assert Arrived(start - 1, [PRIM] + header + r.value.0); }
    }
  }
}
