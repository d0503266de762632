/** The layouts byte by byte, and the numbers, as docs/protocol.md and the source give them:
    what the byte-level round trips of the other modules do not tell. */
module Layouts {
  import opened Bytes
  import B = Burst
  import BurstTransmit
  import D = DeviceFrames
  import G = CommandGrammar
  import IpcRing
  import P = CommandParser
  import S = ServiceSpec
  import W = WorkerSpec

  /** Little-endian numbers, written out. */
  function Little2(v: int): seq<int> {
    [v % 256, v / 256 % 256]
  }

  function Little4(v: int): seq<int> {
    [v % 256, v / 256 % 256, v / 65536 % 256, v / 16777216 % 256]
  }

  lemma LittleEndian(v: u16, w: u32)
    ensures Le16(v) == Little2(v) && Le32(w) == Little4(w)
  {
    ShiftsCompose(w);
  }

  // ----- on the air -----

  /** Packet i of a burst: `B F`, burst id, index, packet count, payload length, CRC, then
      the payload's bytes from 495 i on and zeros up to 511 bytes. */
  lemma PacketLayout(burstId: u16, i: nat, payload: seq<byte>, crc: u32)
    requires i < (|payload| + 494) / 495 <= 50
    ensures i < B.PacketCount(|payload|) <= B.MAX_PACKETS && |payload| <= 24750
    ensures var p, n := B.BurstPacket(burstId, i, payload, crc), |payload|;
            && |p| == 511 && p[..2] == [0x42, 0x46] && p[2..4] == Little2(burstId) && p[4..6] == Little2(i)
            && p[6..8] == Little2((n + 494) / 495) && p[8..12] == Little4(n) && p[12..16] == Little4(crc)
            && forall k :: 16 <= k < 511 ==> p[k] == if 495 * i + k - 16 < n then payload[495 * i + k - 16] else 0
  {
    var n := |payload|;
    var total: u16 := (n + 494) / 495;
    LittleEndian(burstId, n);
    LittleEndian(i, crc);
    LittleEndian(total, 0);
    LittleEndian(0x4642, 0);
    hide Le16, Le32, Little2, Little4;
    assert Little2(0x4642) == [0x42, 0x46] by { MagicBytes(); }
  }

  lemma MagicBytes()
    ensures Little2(0x4642) == [0x42, 0x46]
  {
  }

  /** A receiver's test of a header: the two magic bytes, 1 to 105 packets, 1 to 24576 bytes
      and an index below the packet count. */
  lemma HeaderTest(p: seq<byte>)
    ensures B.IsBurstPacket(p) <==>
            && |p| >= 16 && p[0] == 0x42 && p[1] == 0x46
            && var idx, total := p[4] + 256 * (p[5] as int), p[6] + 256 * (p[7] as int);
               var len := p[8] + 256 * (p[9] as int) + 65536 * (p[10] as int) + 16777216 * (p[11] as int);
               1 <= total <= 105 && 1 <= len <= 24576 && idx < total
  {
  }

  // ----- to the host -----

  lemma FrameLayouts(m: u16, pkt: seq<byte>, rssi: int, code: byte, text: seq<byte>, body: seq<byte>, event: byte,
                     val: u32)
    requires |pkt| <= 65520 && -0x8000 <= rssi < 0x8000 && |text| <= 64 && |body| == 68
    ensures D.Writable(D.Ready(m)) && D.Writable(D.Received(pkt, rssi)) && D.Writable(D.Error(code, text))
    ensures D.Writable(D.Stats(body)) && D.Writable(D.Diag(event, val))
    ensures D.Encode(D.Ready(m)) == [0x47] + Little2(m)
    ensures D.Encode(D.Received(pkt, rssi)) == [0x52] + Little2(|pkt|) + pkt + Little2(rssi)
    ensures D.Encode(D.Error(code, text)) == [0x45, code, |text|] + text
    ensures D.Encode(D.Stats(body)) == [0x53, 68, 0] + body
    ensures D.Encode(D.Diag(event, val)) == [0x44, 6, 0, event] + Little4(val) + [0]
  {
    LittleEndian(m, val);
    LittleEndian(|pkt|, 0);
    LittleEndian(rssi % 0x1_0000, 0);
    D.SignedLe16(rssi);
  }

  // ----- from the host -----

  lemma CommandLayouts(p: seq<byte>, b: seq<byte>, offset: u32, period: u32, dwell: u32)
    requires 1 <= |p| <= 24576 && (|b| == 15 || |b| == 17)
    ensures G.Sendable(P.Transmit(p)) && G.Encode(P.Transmit(p)) == [0x54, 0x58] + Little2(|p|) + p
    ensures G.Sendable(P.Configure(b)) && G.Encode(P.Configure(b)) == [0x43] + Little2(|b|) + b
    ensures G.Encode(P.SetWindow(offset, period)) == [0x57] + Little4(offset) + Little4(period)
    ensures G.Encode(P.StatsRequest) == [0x53] && G.Encode(P.Reset) == [0x58]
  {
    LittleEndian(|p|, offset);
    LittleEndian(|b|, period);
  }

  lemma ScanLayout(dwell: u32, freqs: seq<u32>)
    requires 1 <= |freqs| <= 16
    ensures G.Sendable(P.Scan(dwell, freqs))
    ensures var s := G.Encode(P.Scan(dwell, freqs));
            && |s| == 6 + 4 * |freqs| && s[..2] == [0x51, |freqs|] && s[2..6] == Little4(dwell)
            && forall i :: 0 <= i < |freqs| ==> s[6 + 4 * i..10 + 4 * i] == Little4(freqs[i])
  {
    LittleEndian(0, dwell);
    var s := G.Encode(P.Scan(dwell, freqs));
    assert s == [0x51, |freqs|] + Le32(dwell) + G.WordBytes(freqs);
    forall i | 0 <= i < |freqs|
      ensures s[6 + 4 * i..10 + 4 * i] == Little4(freqs[i])
    {
      WordAt(freqs, i);
      LittleEndian(0, freqs[i]);
      assert s[6..] == G.WordBytes(freqs);
      assert s[6 + 4 * i..10 + 4 * i] == s[6..][4 * i..4 * i + 4];
    }
  }

  /** 'T' frames of 0 or more than 24576 bytes are reported and swallow their length; so are
      CONFIG lengths other than 15 and 17, which swallow nothing. */
  lemma UnfitLengths(n: u16, junk: seq<byte>, rest: seq<byte>)
    ensures (n == 0 || n > 24576) && |junk| == n ==>
              G.Parse([0x54, 0x58] + Little2(n) + junk + rest) == [P.BadTxLen] + G.Parse(rest)
    ensures n != 15 && n != 17 ==> G.Parse([0x43] + Little2(n) + rest) == [P.BadConfigLen] + G.Parse(rest)
  {
    LittleEndian(n, 0);
    Le16RoundTrip(n);
    hide Le16, FromLe16, Little2;
    if (n == 0 || n > 24576) && |junk| == n {
      var s := [0x54, 0x58] + Le16(n) + junk + rest;
      assert s[2..][..2] == Le16(n) && s[2..][2..] == junk + rest;
    }
    if n != 15 && n != 17 {
      var s := [0x43] + Le16(n) + rest;
      assert s[1..][..2] == Le16(n) && s[1..][2..] == rest;
    }
  }

  /** A 'T' without its 'X', a 'Q' with a count other than 1 to 16, and a byte that is no tag
      are passed over. */
  lemma PassedOver(b: byte, rest: seq<byte>)
    ensures b != 0x58 ==> G.Parse([0x54, b] + rest) == G.Parse(rest)
    ensures b == 0 || b > 16 ==> G.Parse([0x51, b] + rest) == G.Parse(rest)
    ensures b !in {0x54, 0x57, 0x43, 0x53, 0x51, 0x58} ==> G.Parse([b] + rest) == G.Parse(rest)
  {
    hide P.Words, FromLe16, FromLe32;
    assert ([0x54, b] + rest)[2..] == rest && ([0x51, b] + rest)[1..][1..] == rest && ([b] + rest)[1..] == rest;
    assert [] + G.Parse(rest) == G.Parse(rest);
  }

  lemma {:induction false} WordAt(ws: seq<u32>, i: nat)
    requires i < |ws|
    ensures G.WordBytes(ws)[4 * i..4 * i + 4] == Le32(ws[i])
  {
    var s := G.WordBytes(ws);
    assert s[..4] == Le32(ws[0]) && s[4..] == G.WordBytes(ws[1..]);
    if i > 0 {
      WordAt(ws[1..], i - 1);
      assert s[4 * i..4 * i + 4] == s[4..][4 * (i - 1)..4 * (i - 1) + 4];
    }
  }

  /** A CONFIG body: frequency, bandwidth, rate, signed power, sync word, role. */
  lemma ConfigLayout(freq: u32, bandwidth: u32, rate: byte, power: int, sync: u32, role: byte)
    requires -128 <= power < 128
    ensures S.ConfigBody(freq, bandwidth, rate, power, sync, role, []) ==
            Little4(freq) + Little4(bandwidth) + [rate, power % 256] + Little4(sync) + [role]
  {
    LittleEndian(0, freq);
    LittleEndian(0, bandwidth);
    LittleEndian(0, sync);
  }

  // ----- texts and numbers -----

  function Ascii(s: string): seq<byte> {
    seq(|s|, i requires 0 <= i < |s| => s[i] as int % 256)
  }

  lemma LengthTexts()
    ensures S.TEXT_TX_LEN == Ascii("bad tx len") && S.TEXT_LEN == Ascii("bad len")
  {
  }

  lemma QueueTexts()
    ensures S.TEXT_BUSY == Ascii("tx queue full") && S.TEXT_DROPPED == Ascii("tx dropped")
    ensures S.TEXT_ABORTED == Ascii("tx aborted")
  {
  }

  lemma ConfigTexts()
    ensures S.TEXT_NO_RADIO == Ascii("radio init failed") && S.TEXT_NO_TUNE == Ascii("set frequency failed")
  {
  }

  lemma Numbers()
    ensures IpcRing.CAP == 65520 && IpcRing.READ_AHEAD == 4096
    ensures P.MAX_TOTAL_PAYLOAD == 24576 && P.IDLE_MS == 100
    ensures B.MAX_TOTAL_PAYLOAD == 24576 && B.PACKET_PAYLOAD == 511 && B.CHUNK == 495 && B.MAX_PACKETS == 50
    ensures BurstTransmit.PACING_US == 220 && BurstTransmit.RETRY_US == 500 && BurstTransmit.TIMEOUT_MS == 25
    ensures W.QUEUE_CAP == 16 && W.MAX_SAFE_DBM == 10 && W.THROTTLED_DBM == 4 && W.BOOT_HZ == 915_000_000
    ensures W.THERMAL_PERIOD_MS == 4000 && W.TX_ONLY == 1 && W.RX_ONLY == 2
    ensures S.MAX_PAYLOAD_REPORTED == 511 && S.SCAN_MAGIC == 0xFFFF_FFFF && S.STATS_PERIOD_MS == 10000
    ensures W.STARTED.cfg == W.Config(915_000_000, 10, 0) && W.STARTED.air == W.Air(915_000_000, 10, true)
    ensures W.STARTED.radioOk && W.STARTED.level == 0 && !W.STARTED.poweredDown && !W.STARTED.scan.active
    ensures W.STARTED.tx == W.TxSide([], [], 0, [], [])
  {
  }
}
