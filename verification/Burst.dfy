/** The on-air [FB] burst format: packet layout, header checks and reassembly. */
module Burst {
  import opened Bytes

  const MAGIC: u16 := 0x4642
  const MAX_TOTAL_PAYLOAD := 24576
  const PACKET_PAYLOAD := 511
  const HEADER_LEN := 16
  const CHUNK := 495
  const MAX_PACKETS := 50
  const MAX_AIR_PACKETS := 105

  datatype Header = Header(magic: u16, burstId: u16, idx: u16, total: u16, totalLen: u32, crc: u32)

  // ----- packet layout -----

  function HeaderBytes(h: Header): (s: seq<byte>)
    ensures |s| == HEADER_LEN
  {
    Le16(h.magic) + Le16(h.burstId) + Le16(h.idx) + Le16(h.total) + Le32(h.totalLen) + Le32(h.crc)
  }

  function HeaderOf(pkt: seq<byte>): Header
    requires |pkt| >= HEADER_LEN
  {
    Header(FromLe16(pkt[0..2]), FromLe16(pkt[2..4]), FromLe16(pkt[4..6]), FromLe16(pkt[6..8]),
           FromLe32(pkt[8..12]), FromLe32(pkt[12..16]))
  }

  /** What a receiver accepts as a burst header. */
  predicate Acceptable(h: Header) {
    && h.magic == MAGIC
    && 1 <= h.total <= MAX_AIR_PACKETS
    && 1 <= h.totalLen <= MAX_TOTAL_PAYLOAD
    && h.idx < h.total
  }

  predicate IsBurstPacket(pkt: seq<byte>) {
    |pkt| >= HEADER_LEN && Acceptable(HeaderOf(pkt))
  }

  /** A full air packet: header, chunk and zero padding. */
  function PacketBytes(h: Header, chunk: seq<byte>): (s: seq<byte>)
    requires |chunk| <= CHUNK
    ensures |s| == PACKET_PAYLOAD
  {
    HeaderBytes(h) + chunk + seq(CHUNK - |chunk|, _ => 0)
  }

  function PacketCount(len: nat): nat {
    (len + CHUNK - 1) / CHUNK
  }

  /** Chunk i of a payload: the bytes from offset i * 495, at most 495 of them. */
  function Chunk(payload: seq<byte>, i: nat): (c: seq<byte>)
    requires i * CHUNK <= |payload|
    ensures |c| <= CHUNK
  {
    payload[i * CHUNK..Min(|payload|, i * CHUNK + CHUNK)]
  }

  /** Packet i of the burst that carries `payload`. */
  function BurstPacket(burstId: u16, i: nat, payload: seq<byte>, crc: u32): (pkt: seq<byte>)
    requires i < PacketCount(|payload|) <= MAX_PACKETS
    ensures |pkt| == PACKET_PAYLOAD
  {
    ChunkStartsInside(|payload|, i);
    PacketBytes(Header(MAGIC, burstId, i, PacketCount(|payload|), |payload|, crc), Chunk(payload, i))
  }

  /** The unsigned subtraction `total_len - off` never underflows in a burst. */
  lemma ChunkStartsInside(len: nat, i: nat)
    requires i < PacketCount(len)
    ensures i * CHUNK < len
  {
  }

  /** Fill `out` with one packet. The caller owns the bytes that get copied. */
  method EncodePacket(out: array<byte>, burstId: u16, idx: u16, total: u16,
                      payload: seq<byte>, totalLen: u32, crc: u32) returns (outLen: nat)
    requires out.Length >= PACKET_PAYLOAD
    requires idx * CHUNK + Min(U32(totalLen - idx * CHUNK), CHUNK) <= |payload|
    modifies out
    ensures outLen == PACKET_PAYLOAD
    ensures out[..PACKET_PAYLOAD] ==
            PacketBytes(Header(MAGIC, burstId, idx, total, totalLen, crc),
                        payload[idx * CHUNK..idx * CHUNK + Min(U32(totalLen - idx * CHUNK), CHUNK)])
    ensures out[PACKET_PAYLOAD..] == old(out[PACKET_PAYLOAD..])
  {
    var h := HeaderBytes(Header(MAGIC, burstId, idx, total, totalLen, crc));
    forall i | 0 <= i < HEADER_LEN {
      out[i] := h[i];
    }
    var off: u32 := idx * CHUNK;
    var take := U32(totalLen - off);
    if take > CHUNK {
      take := CHUNK;
    }
    forall i | 0 <= i < take {
      out[HEADER_LEN + i] := payload[off + i];
    }
    if HEADER_LEN + take < PACKET_PAYLOAD {
      forall i | HEADER_LEN + take <= i < PACKET_PAYLOAD {
        out[i] := 0;
      }
    }
    outLen := PACKET_PAYLOAD;
  }

  /** Read and check the header of a received packet. */
  method DecodeHeader(pkt: seq<byte>) returns (ok: bool, h: Header)
    ensures ok <==> IsBurstPacket(pkt)
    ensures ok ==> h == HeaderOf(pkt) && h.idx < h.total
  {
    h := Header(0, 0, 0, 0, 0, 0);
    if |pkt| < HEADER_LEN {
      return false, h;
    }
    h := HeaderOf(pkt);
    if h.magic != MAGIC {
      return false, h;
    }
    if h.total == 0 || h.total > MAX_AIR_PACKETS {
      return false, h;
    }
    if h.totalLen == 0 || h.totalLen > MAX_TOTAL_PAYLOAD {
      return false, h;
    }
    if h.idx >= h.total {
      return false, h;
    }
    ok := true;
  }

  /** The scan's "consensus" rule: an SLRF frame or a burst chunk. */
  predicate IsConsensusPrefix(p: seq<byte>) {
    || (|p| >= 4 && p[0] == 0x53 && p[1] == 0x4C && p[2] == 0x52 && p[3] == 0x46)
    || (|p| >= 2 && p[0] == 0x42 && p[1] == 0x46)
  }

  lemma HeaderRoundTrip(h: Header, rest: seq<byte>)
    ensures HeaderOf(HeaderBytes(h) + rest) == h
  {
    var s := HeaderBytes(h) + rest;
    assert s[0..2] == Le16(h.magic) && s[2..4] == Le16(h.burstId);
    assert s[4..6] == Le16(h.idx) && s[6..8] == Le16(h.total);
    assert s[8..12] == Le32(h.totalLen) && s[12..16] == Le32(h.crc);
    Le16RoundTrip(h.magic);
    Le16RoundTrip(h.burstId);
    Le16RoundTrip(h.idx);
    Le16RoundTrip(h.total);
    Le32RoundTrip(h.totalLen);
    Le32RoundTrip(h.crc);
  }

  lemma PacketRoundTrip(h: Header, chunk: seq<byte>)
    requires |chunk| <= CHUNK
    ensures HeaderOf(PacketBytes(h, chunk)) == h
    ensures PacketBytes(h, chunk)[HEADER_LEN..HEADER_LEN + |chunk|] == chunk
  {
    var pad := seq(CHUNK - |chunk|, _ => 0);
    assert PacketBytes(h, chunk) == HeaderBytes(h) + (chunk + pad);
    HeaderRoundTrip(h, chunk + pad);
  }

  /** Every packet of a burst passes the receiver's checks, and a scan counts
      every packet that passes them as consensus traffic. */
  lemma BurstPacketIsAccepted(burstId: u16, i: nat, payload: seq<byte>, crc: u32)
    requires 1 <= |payload| <= MAX_TOTAL_PAYLOAD && i < PacketCount(|payload|)
    ensures PacketCount(|payload|) <= MAX_PACKETS
    ensures IsBurstPacket(BurstPacket(burstId, i, payload, crc))
    ensures HeaderOf(BurstPacket(burstId, i, payload, crc)) ==
            Header(MAGIC, burstId, i, PacketCount(|payload|), |payload|, crc)
  {
    ChunkStartsInside(|payload|, i);
    PacketRoundTrip(Header(MAGIC, burstId, i, PacketCount(|payload|), |payload|, crc), Chunk(payload, i));
  }

  lemma BurstPacketsCountAsConsensus(pkt: seq<byte>)
    requires IsBurstPacket(pkt)
    ensures IsConsensusPrefix(pkt)
  {
  }

  // ----- reassembly, as the format documents it -----

  /** A receiver's buffer after one more packet: the chunk goes to offset
      idx * 495 and is cut at the payload's end. */
  function Place(buf: seq<byte>, pkt: seq<byte>): (r: seq<byte>)
    ensures |r| == |buf|
  {
    if !IsBurstPacket(pkt) then buf else
      var off := HeaderOf(pkt).idx * CHUNK;
      seq(|buf|, k requires 0 <= k < |buf| =>
        if off <= k < off + CHUNK && HEADER_LEN + k - off < |pkt| then pkt[HEADER_LEN + k - off] else buf[k])
  }

  function Assemble(buf: seq<byte>, pkts: seq<seq<byte>>): (r: seq<byte>)
    ensures |r| == |buf|
    decreases |pkts|
  {
    if pkts == [] then buf else Assemble(Place(buf, pkts[0]), pkts[1..])
  }

  /** `pkts` are packets of the burst for `payload`, in whatever order. */
  ghost predicate FromBurst(pkts: seq<seq<byte>>, burstId: u16, payload: seq<byte>, crc: u32)
    requires PacketCount(|payload|) <= MAX_PACKETS
  {
    forall p :: p in pkts ==>
      exists i :: 0 <= i < PacketCount(|payload|) && p == BurstPacket(burstId, i, payload, crc)
  }

  ghost predicate Covers(pkts: seq<seq<byte>>, burstId: u16, payload: seq<byte>, crc: u32)
    requires PacketCount(|payload|) <= MAX_PACKETS
  {
    forall i :: 0 <= i < PacketCount(|payload|) ==> BurstPacket(burstId, i, payload, crc) in pkts
  }

  lemma PlaceFillsItsChunk(buf: seq<byte>, burstId: u16, i: nat, payload: seq<byte>, crc: u32)
    requires 1 <= |payload| <= MAX_TOTAL_PAYLOAD && i < PacketCount(|payload|) && |buf| == |payload|
    requires PacketCount(|payload|) <= MAX_PACKETS
    ensures var r := Place(buf, BurstPacket(burstId, i, payload, crc));
            forall k :: 0 <= k < |buf| ==>
              r[k] == if k / CHUNK == i then payload[k] else buf[k]
  {
    BurstPacketIsAccepted(burstId, i, payload, crc);
    ChunkStartsInside(|payload|, i);
    var pkt := BurstPacket(burstId, i, payload, crc);
    PacketRoundTrip(Header(MAGIC, burstId, i, PacketCount(|payload|), |payload|, crc), Chunk(payload, i));
    var r := Place(buf, pkt);
    forall k | 0 <= k < |buf|
      ensures r[k] == if k / CHUNK == i then payload[k] else buf[k]
    {
      var off := i * CHUNK;
      if off <= k < off + CHUNK {
        assert pkt[HEADER_LEN + (k - off)] == pkt[HEADER_LEN..HEADER_LEN + |Chunk(payload, i)|][k - off];
      }
    }
  }

  /** Packets of the burst never spoil a byte that is already right. */
  lemma {:induction false} AssembleKeeps(buf: seq<byte>, pkts: seq<seq<byte>>, burstId: u16,
                                         payload: seq<byte>, crc: u32, k: nat)
    requires 1 <= |payload| <= MAX_TOTAL_PAYLOAD && |buf| == |payload| && k < |payload|
    requires PacketCount(|payload|) <= MAX_PACKETS && FromBurst(pkts, burstId, payload, crc)
    requires buf[k] == payload[k] || BurstPacket(burstId, k / CHUNK, payload, crc) in pkts
    ensures Assemble(buf, pkts)[k] == payload[k]
    decreases |pkts|
  {
    if pkts != [] {
      assert pkts[0] in pkts && forall p :: p in pkts[1..] ==> p in pkts;
      var i :| 0 <= i < PacketCount(|payload|) && pkts[0] == BurstPacket(burstId, i, payload, crc);
      PlaceFillsItsChunk(buf, burstId, i, payload, crc);
      BurstPacketIsAccepted(burstId, i, payload, crc);
      BurstPacketIsAccepted(burstId, k / CHUNK, payload, crc);
      AssembleKeeps(Place(buf, pkts[0]), pkts[1..], burstId, payload, crc, k);
    }
  }

  /** Reassembly in any arrival order, with any duplicates and from any initial
      buffer, returns the payload once every packet has arrived. */
  lemma ReassemblyRoundTrip(buf: seq<byte>, pkts: seq<seq<byte>>, burstId: u16, payload: seq<byte>, crc: u32)
    requires 1 <= |payload| <= MAX_TOTAL_PAYLOAD && |buf| == |payload|
    requires PacketCount(|payload|) <= MAX_PACKETS
    requires FromBurst(pkts, burstId, payload, crc) && Covers(pkts, burstId, payload, crc)
    ensures Assemble(buf, pkts) == payload
  {
    forall k | 0 <= k < |payload|
      ensures Assemble(buf, pkts)[k] == payload[k]
    {
      AssembleKeeps(buf, pkts, burstId, payload, crc, k);
    }
  }
}
