/** The device-to-host stream: the frame writers over the outgoing ring, and a reader
    of the documented formats that recovers exactly the frames written. */
module DeviceFrames {
  import opened Bytes
  import opened IpcRing

  const G: byte := 0x47
  const R: byte := 0x52
  const E: byte := 0x45
  const S: byte := 0x53
  const D: byte := 0x44
  const STATS_LEN := 68
  const DIAG_LEN := 6
  const MAX_ERROR_TEXT := 64

  datatype Frame =
    | Ready(maxPayload: u16)
    | Received(pkt: seq<byte>, rssi: int)
    | Error(code: byte, text: seq<byte>)
    | Stats(body: seq<byte>)
    | Diag(event: byte, val: u32)

  /** The frames whose pieces fit the ring. */
  predicate Writable(f: Frame) {
    match f
    case Received(pkt, rssi) => |pkt| <= CAP && -0x8000 <= rssi < 0x8000
    case Error(_, text) => |text| <= MAX_ERROR_TEXT
    case Stats(body) => |body| == STATS_LEN
    case _ => true
  }

  // ----- formats -----

  function Encode(f: Frame): (s: seq<byte>)
    requires Writable(f)
    ensures s != []
  {
    match f
    case Ready(m) => [G] + Le16(m)
    case Received(pkt, rssi) => [R] + Le16(|pkt|) + (pkt + Le16(rssi % 0x1_0000))
    case Error(code, text) => [E, code, |text|] + text
    case Stats(body) => [S] + Le16(STATS_LEN) + body
    case Diag(event, val) => [D] + Le16(DIAG_LEN) + ([event] + Le32(val) + [0])
  }

  function EncodeAll(fs: seq<Frame>): seq<byte>
    requires forall f :: f in fs ==> Writable(f)
  {
    if fs == [] then [] else Encode(fs[0]) + EncodeAll(fs[1..])
  }

  function I16(x: u16): int {
    if x < 0x8000 then x else x - 0x1_0000
  }

  datatype Front = Front(frame: Frame, rest: seq<byte>)

  /** The first frame of a byte string, as the formats are documented: the strength of
      an 'R' frame trails its counted payload, and an 'E' frame has a 1-byte length. */
  function ReadFront(s: seq<byte>): Option<Front> {
    if |s| < 3 then None
    else if s[0] == G then Some(Front(Ready(FromLe16(s[1..3])), s[3..]))
    else if s[0] == E then
      var n := s[2] as nat;
      if |s| < 3 + n then None else Some(Front(Error(s[1], s[3..3 + n]), s[3 + n..]))
    else
      var n: nat := FromLe16(s[1..3]);
      if s[0] == R then
        if |s| < 5 + n then None
        else Some(Front(Received(s[3..3 + n], I16(FromLe16(s[3 + n..5 + n]))), s[5 + n..]))
      else if |s| < 3 + n then None
      else if s[0] == S && n == STATS_LEN then Some(Front(Stats(s[3..3 + n]), s[3 + n..]))
      else if s[0] == D && n == DIAG_LEN then Some(Front(Diag(s[3], FromLe32(s[4..8])), s[3 + n..]))
      else None
  }

  /** All frames of a byte string, up to the first incomplete or unknown one. */
  function ReadAll(s: seq<byte>): seq<Frame>
    decreases |s|
  {
    var f := ReadFront(s);
    if f.None? then [] else [f.value.frame] + ReadAll(f.value.rest)
  }

  lemma ThreeThenRest(h: seq<byte>, body: seq<byte>, rest: seq<byte>)
    requires |h| == 3
    ensures var s := h + body + rest;
            && s[..3] == h && s[3..3 + |body|] == body && s[3 + |body|..] == rest
            && s[1..3] == h[1..3] && s[0] == h[0] && s[1] == h[1] && s[2] == h[2]
  {
  }

  lemma ReadyReads(m: u16, rest: seq<byte>)
    ensures ReadFront(Encode(Ready(m)) + rest) == Some(Front(Ready(m), rest))
  {
  }

  lemma ReceivedReads(pkt: seq<byte>, rssi: int, rest: seq<byte>)
    requires Writable(Received(pkt, rssi))
    ensures ReadFront(Encode(Received(pkt, rssi)) + rest) == Some(Front(Received(pkt, rssi), rest))
  {
    hide FromLe16, Le16;
    var n, r := |pkt|, Le16(rssi % 0x1_0000);
    var s := [R] + Le16(n) + (pkt + r) + rest;
    Le16RoundTrip(n);
    Le16RoundTrip(rssi % 0x1_0000);
    ThreeThenRest([R] + Le16(n), pkt + r, rest);
    assert ([R] + Le16(n))[1..3] == Le16(n);
    assert s[3..3 + n] == s[3..5 + n][..n] == pkt;
    assert s[3 + n..5 + n] == s[3..5 + n][n..] == r;
  }

  lemma ErrorReads(code: byte, text: seq<byte>, rest: seq<byte>)
    requires Writable(Error(code, text))
    ensures ReadFront(Encode(Error(code, text)) + rest) == Some(Front(Error(code, text), rest))
  {
  }

  lemma StatsReads(body: seq<byte>, rest: seq<byte>)
    requires Writable(Stats(body))
    ensures ReadFront(Encode(Stats(body)) + rest) == Some(Front(Stats(body), rest))
  {
  }

  lemma DiagReads(event: byte, val: u32, rest: seq<byte>)
    ensures ReadFront(Encode(Diag(event, val)) + rest) == Some(Front(Diag(event, val), rest))
  {
    hide FromLe32, Le32;
    var body := [event] + Le32(val) + [0];
    var s := [D] + Le16(DIAG_LEN) + body + rest;
    Le16RoundTrip(DIAG_LEN);
    Le32RoundTrip(val);
    ThreeThenRest([D] + Le16(DIAG_LEN), body, rest);
    assert ([D] + Le16(DIAG_LEN))[1..3] == Le16(DIAG_LEN);
    assert s[4..8] == s[3..9][1..5] == Le32(val);
    assert s[3] == s[3..9][0];
  }

  lemma FrontReadsBack(f: Frame, rest: seq<byte>)
    requires Writable(f)
    ensures ReadFront(Encode(f) + rest) == Some(Front(f, rest))
  {
    hide Encode, ReadFront;
    match f
    case Ready(m) => ReadyReads(m, rest);
    case Received(pkt, rssi) => ReceivedReads(pkt, rssi, rest);
    case Error(code, text) => ErrorReads(code, text, rest);
    case Stats(body) => StatsReads(body, rest);
    case Diag(event, val) => DiagReads(event, val, rest);
  }

  /** Any sequence of frames is recovered exactly from its concatenated bytes. */
  lemma {:induction false} StreamIsDecodable(fs: seq<Frame>)
    requires forall f :: f in fs ==> Writable(f)
    ensures ReadAll(EncodeAll(fs)) == fs
  {
    hide Encode;
    if fs != [] {
      assert fs[0] in fs && forall f :: f in fs[1..] ==> f in fs;
      FrontReadsBack(fs[0], EncodeAll(fs[1..]));
      hide ReadFront;
      StreamIsDecodable(fs[1..]);
    }
  }

  // ----- the writers -----

  /** The ring after several writes. */
  function WrittenAll(r: Region, pieces: seq<seq<byte>>): (w: Region)
    requires |r.data| == CAP && forall p :: p in pieces ==> |p| <= CAP
    ensures |w.data| == CAP
    decreases |pieces|
  {
    if pieces == [] then r else
      assert pieces[0] in pieces && forall p :: p in pieces[1..] ==> p in pieces;
      WrittenAll(Written(r, pieces[0]), pieces[1..])
  }

  /** What each frame is written as: one piece, or a 3-byte header and its payload. */
  function Pieces(f: Frame): (ps: seq<seq<byte>>)
    requires Writable(f)
  {
    match f
    case Ready(_) => [Encode(f)]
    case Error(_, _) => [Encode(f)]
    case Received(pkt, rssi) =>
      if |pkt| <= 512 then [Encode(f)]
      else [[R] + Le16(|pkt|), pkt, Le16(rssi % 0x1_0000)]
    case Stats(body) => [[S] + Le16(STATS_LEN), body]
    case Diag(event, val) => [[D] + Le16(DIAG_LEN), [event] + Le32(val) + [0]]
  }

  function Join(ps: seq<seq<byte>>): seq<byte> {
    if ps == [] then [] else ps[0] + Join(ps[1..])
  }

  lemma PiecesJoin(f: Frame)
    requires Writable(f)
    ensures Join(Pieces(f)) == Encode(f)
    ensures forall p :: p in Pieces(f) ==> |p| <= CAP
  {
    match f
    case Received(pkt, rssi) =>
      if |pkt| <= 512 {
        JoinOne(Encode(f));
      } else {
        JoinThree([R] + Le16(|pkt|), pkt, Le16(rssi % 0x1_0000));
      }
    case Stats(body) => JoinTwo([S] + Le16(STATS_LEN), body);
    case Diag(event, val) => JoinTwo([D] + Le16(DIAG_LEN), [event] + Le32(val) + [0]);
    case _ => JoinOne(Encode(f));
  }

  lemma JoinOne(a: seq<byte>)
    ensures Join([a]) == a
  {
  }

  lemma JoinTwo(a: seq<byte>, b: seq<byte>)
    ensures Join([a, b]) == a + b
  {
    assert [a, b][1..] == [b];
    JoinOne(b);
  }

  lemma JoinThree(a: seq<byte>, b: seq<byte>, c: seq<byte>)
    ensures Join([a, b, c]) == a + (b + c)
  {
    assert [a, b, c][1..] == [b, c];
    JoinTwo(b, c);
  }

  /** Whatever pieces a stream is written in, the ring ends up showing the newest 65520
      bytes of it (while fewer than 2^32 bytes have passed). */
  lemma {:induction false} PiecesKeepTheNewest(r: Region, pieces: seq<seq<byte>>)
    requires r.Sane() && (forall p :: p in pieces ==> |p| <= CAP)
    requires r.head + |Join(pieces)| < TWO_32
    ensures WrittenAll(r, pieces).Sane() && WrittenAll(r, pieces).head == r.head + |Join(pieces)|
    ensures WrittenAll(r, pieces).View() == Last(r.View() + Join(pieces), CAP)
    decreases |pieces|
  {
    if pieces == [] {
      assert r.View() + [] == r.View();
    } else {
      assert pieces[0] in pieces && forall p :: p in pieces[1..] ==> p in pieces;
      WriteKeepsTheNewest(r, pieces[0]);
      var w := Written(r, pieces[0]);
      PiecesKeepTheNewest(w, pieces[1..]);
      LastTwice(r.View(), pieces[0], Join(pieces[1..]));
    }
  }

  lemma LastTwice(a: seq<byte>, b: seq<byte>, c: seq<byte>)
    ensures Last(Last(a + b, CAP) + c, CAP) == Last(a + (b + c), CAP)
  {
  }

  /** While fewer than 2^32 bytes pass, the ring that showed its old contents shows the
      newest 65520 bytes of them and `bytes`. */
  ghost predicate Carries(before: Region, bytes: seq<byte>, after: Region) {
    before.Sane() && before.head + |bytes| < TWO_32 ==>
      && after.Sane() && after.head == before.head + |bytes|
      && after.View() == Last(before.View() + bytes, CAP)
  }

  lemma FrameIsCarried(r: Region, f: Frame)
    requires |r.data| == CAP && Writable(f)
    ensures forall p :: p in Pieces(f) ==> |p| <= CAP
    ensures Carries(r, Encode(f), WrittenAll(r, Pieces(f)))
  {
    hide Encode, Pieces;
    PiecesJoin(f);
    if r.Sane() && r.head + |Encode(f)| < TWO_32 {
      PiecesKeepTheNewest(r, Pieces(f));
    }
  }

  lemma WriteIsCarried(r: Region, buf: seq<byte>)
    requires |r.data| == CAP && |buf| <= CAP
    ensures Carries(r, buf, Written(r, buf))
  {
    if r.Sane() && r.head + |buf| < TWO_32 {
      WriteKeepsTheNewest(r, buf);
    }
  }

  lemma NothingIsCarried(r: Region)
    ensures Carries(r, [], r)
  {
    if r.Sane() {
      assert r.View() + [] == r.View();
    }
  }

  lemma CarriedOn(a: Region, x: seq<byte>, b: Region, y: seq<byte>, c: Region)
    requires Carries(a, x, b) && Carries(b, y, c)
    ensures Carries(a, x + y, c)
  {
    hide Region.View;
    if a.Sane() && a.head + |x + y| < TWO_32 {
      LastTwice(a.View(), x, y);
    }
  }

  /** What a ring that was empty and has not overflowed shows is read back frame by frame. */
  lemma CarriedFramesAreRead(r: Region, fs: seq<Frame>, w: Region)
    requires r.Sane() && r.View() == [] && (forall f :: f in fs ==> Writable(f))
    requires |EncodeAll(fs)| <= CAP && r.head + |EncodeAll(fs)| < TWO_32
    requires Carries(r, EncodeAll(fs), w)
    ensures |w.data| == CAP && ReadAll(w.View()) == fs
  {
    hide ReadAll, EncodeAll, Writable;
    assert [] + EncodeAll(fs) == EncodeAll(fs);
    StreamIsDecodable(fs);
  }

  class DeviceWriter {
    const ring: SharedRing
    /** All bytes written so far. */
    var sent: seq<byte>

    ghost predicate Valid()
      reads this, ring
    {
      ring.Valid()
    }

    constructor (ring: SharedRing)
      requires ring.Valid()
      ensures Valid() && this.ring == ring && sent == []
    {
      this.ring := ring;
      sent := [];
    }

    method Write(buf: seq<byte>)
      requires Valid() && |buf| <= CAP
      modifies this, ring, ring.data
      ensures Valid() && sent == old(sent) + buf && ring.State() == Written(old(ring.State()), buf)
      ensures Carries(old(ring.State()), buf, ring.State())
    {
      WriteIsCarried(ring.State(), buf);
      ring.WriteAll(buf);
      sent := sent + buf;
    }

    method WriteReady(maxPayload: u16)
      requires Valid()
      modifies this, ring, ring.data
      ensures Valid() && sent == old(sent) + Encode(Ready(maxPayload))
      ensures ring.State() == WrittenAll(old(ring.State()), Pieces(Ready(maxPayload)))
      ensures Carries(old(ring.State()), Encode(Ready(maxPayload)), ring.State())
    {
      hide Written, Carries;
      FrameIsCarried(ring.State(), Ready(maxPayload));
      Write([G, maxPayload % 256, maxPayload / 256]);
      assert [G] + Le16(maxPayload) == [G, maxPayload % 256, maxPayload / 256];
      WrittenOnce(old(ring.State()), Encode(Ready(maxPayload)));
    }

    /** The message is cut at 64 bytes. */
    method WriteError(code: byte, text: seq<byte>)
      requires Valid()
      modifies this, ring, ring.data
      ensures Valid() && sent == old(sent) + Encode(Error(code, text[..Min(|text|, MAX_ERROR_TEXT)]))
      ensures ring.State() == WrittenAll(old(ring.State()), Pieces(Error(code, text[..Min(|text|, MAX_ERROR_TEXT)])))
      ensures Carries(old(ring.State()), Encode(Error(code, text[..Min(|text|, MAX_ERROR_TEXT)])), ring.State())
    {
      hide Written, Carries;
      FrameIsCarried(ring.State(), Error(code, text[..Min(|text|, MAX_ERROR_TEXT)]));
      var mlen := |text|;
      if mlen > MAX_ERROR_TEXT {
        mlen := MAX_ERROR_TEXT;
      }
      Write([E, code, mlen] + text[..mlen]);
      WrittenOnce(old(ring.State()), Encode(Error(code, text[..mlen])));
    }

    method WriteFrame(tag: byte, payload: seq<byte>)
      requires Valid() && |payload| <= CAP
      modifies this, ring, ring.data
      ensures Valid() && sent == old(sent) + ([tag] + Le16(|payload|) + payload)
      ensures ring.State() == WrittenAll(old(ring.State()), if payload == [] then [[tag] + Le16(0)]
                                                            else [[tag] + Le16(|payload|), payload])
    {
      hide Written;
      var hdr := [tag, |payload| % 256, |payload| / 256 % 256];
      assert hdr == [tag] + Le16(|payload|);
      Write(hdr);
      if |payload| > 0 {
        Write(payload);
      }
      WrittenOnce(old(ring.State()), hdr);
      WrittenTwice(old(ring.State()), hdr, payload);
    }

    method WriteStats(body: seq<byte>)
      requires Valid() && |body| == STATS_LEN
      modifies this, ring, ring.data
      ensures Valid() && sent == old(sent) + Encode(Stats(body))
      ensures ring.State() == WrittenAll(old(ring.State()), Pieces(Stats(body)))
      ensures Carries(old(ring.State()), Encode(Stats(body)), ring.State())
    {
      hide Carries;
      FrameIsCarried(ring.State(), Stats(body));
      WriteFrame(S, body);
    }

    method WriteRx(pkt: seq<byte>, rssi: int)
      requires Valid() && |pkt| <= CAP && -0x8000 <= rssi < 0x8000
      modifies this, ring, ring.data
      ensures Valid() && sent == old(sent) + Encode(Received(pkt, rssi))
      ensures ring.State() == WrittenAll(old(ring.State()), Pieces(Received(pkt, rssi)))
      ensures Carries(old(ring.State()), Encode(Received(pkt, rssi)), ring.State())
    {
      hide Written, Carries;
      FrameIsCarried(ring.State(), Received(pkt, rssi));
      var hdr := [R, |pkt| % 256, |pkt| / 256 % 256];
      var tail := [rssi % 256, rssi / 256 % 256];
      assert hdr == [R] + Le16(|pkt|);
      SignedLe16(rssi);
      if |pkt| <= 512 {
        Write(hdr + (pkt + tail));
        WrittenOnce(old(ring.State()), hdr + (pkt + tail));
        return;
      }
      Write(hdr);
      Write(pkt);
      Write(tail);
      WrittenThrice(old(ring.State()), hdr, pkt, tail);
      assert old(sent) + hdr + pkt + tail == old(sent) + (hdr + (pkt + tail));
    }

    method WriteDiag(event: byte, val: u32)
      requires Valid()
      modifies this, ring, ring.data
      ensures Valid() && sent == old(sent) + Encode(Diag(event, val))
      ensures ring.State() == WrittenAll(old(ring.State()), Pieces(Diag(event, val)))
      ensures Carries(old(ring.State()), Encode(Diag(event, val)), ring.State())
    {
      hide Carries;
      FrameIsCarried(ring.State(), Diag(event, val));
      var p := [event, val % 256, val / 256 % 256, val / 65536 % 256, val / 16777216 % 256, 0];
      ShiftsCompose(val);
      assert p == [event] + Le32(val) + [0];
      WriteFrame(D, p);
    }
  }

  lemma SignedLe16(x: int)
    requires -0x8000 <= x < 0x8000
    ensures [x % 256, x / 256 % 256] == Le16(x % 0x1_0000)
  {
  }

  lemma WrittenOnce(r: Region, a: seq<byte>)
    requires |r.data| == CAP && |a| <= CAP
    ensures WrittenAll(r, [a]) == Written(r, a)
  {
  }

  lemma WrittenTwice(r: Region, a: seq<byte>, b: seq<byte>)
    requires |r.data| == CAP && |a| <= CAP && |b| <= CAP
    ensures WrittenAll(r, [a, b]) == Written(Written(r, a), b)
  {
    hide Written;
    assert [a, b][1..] == [b];
    WrittenOnce(Written(r, a), b);
  }

  lemma WrittenThrice(r: Region, a: seq<byte>, b: seq<byte>, c: seq<byte>)
    requires |r.data| == CAP && |a| <= CAP && |b| <= CAP && |c| <= CAP
    ensures WrittenAll(r, [a, b, c]) == Written(Written(Written(r, a), b), c)
  {
    hide Written;
    assert [a, b, c][1..] == [b, c];
    WrittenTwice(Written(r, a), b, c);
  }
}
