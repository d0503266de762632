/** The host-to-device byte-tag parser: nine states, idle resynchronisation and
    bodies filled in place, proved against a grammar over whole byte strings. */
module CommandParser {
  import opened Bytes

  const MAX_TOTAL_PAYLOAD := 24576
  const IDLE_MS := 100

  const T: byte := 0x54
  const X: byte := 0x58
  const W: byte := 0x57
  const C: byte := 0x43
  const S: byte := 0x53
  const Q: byte := 0x51

  /** What the parser hands on: commands, and the two length errors it reports. */
  datatype Event =
    | Transmit(payload: seq<byte>)
    | Configure(body: seq<byte>)
    | SetWindow(offsetMs: u32, periodMs: u32)
    | Scan(dwellMs: u32, freqs: seq<u32>)
    | StatsRequest
    | Reset
    | BadTxLen
    | BadConfigLen

  datatype Phase = Tag | TxMagic | Window | LenLo | LenHi | Config | Payload | ScanCount | ScanBody

  // ----- specification of one byte -----

  /** Parser state; `body` is what has arrived of the body being collected. */
  datatype Parser = Parser(phase: Phase, tag: byte, frameLen: u16, scanCount: byte,
                           body: seq<byte>, skip: u16, last: u32, killed: u32,
                           slotOffset: u32, slotPeriod: u32) {

    predicate InBody() {
      phase == Window || phase == Config || phase == Payload || phase == ScanBody
    }

    function Need(): nat {
      if phase == Window then 8 else if phase == ScanBody then 4 + 4 * scanCount else frameLen
    }

    /** Every write index is inside its buffer and the tag fits the length states. */
    ghost predicate Valid() {
      && (skip > 0 ==> phase == Tag)
      && (if InBody() then |body| < Need() else body == [])
      && (phase == Config ==> frameLen == 15 || frameLen == 17)
      && (phase == Payload ==> 1 <= frameLen <= MAX_TOTAL_PAYLOAD)
      && (phase == ScanBody ==> 1 <= scanCount <= 16)
      && (phase == TxMagic ==> tag == T)
      && (phase == LenLo || phase == LenHi ==> tag == C || tag == T)
      && (phase == LenHi ==> frameLen < 256)
    }
  }

  const INITIAL := Parser(Tag, 0, 0, 0, [], 0, 0, 0, 100, 1000)

  function Words(s: seq<byte>): seq<u32> {
    if |s| < 4 then [] else [FromLe32(s[..4])] + Words(s[4..])
  }

  /** The command that a complete body stands for. */
  function Finish(phase: Phase, body: seq<byte>): Event
    requires phase == Window || phase == Config || phase == Payload || phase == ScanBody
    requires phase == Window ==> |body| == 8
    requires phase == ScanBody ==> |body| >= 4
  {
    if phase == Window then SetWindow(FromLe32(body[..4]), FromLe32(body[4..8]))
    else if phase == Config then Configure(body)
    else if phase == Payload then Transmit(body)
    else Scan(FromLe32(body[..4]), Words(body[4..]))
  }

  /** Idle resynchronisation, before a byte that arrives at `now`. */
  function Resync(s: Parser, now: u32): Parser {
    if (s.phase != Tag || s.skip > 0) && U32(now - s.last) > IDLE_MS then
      var cut := s.phase == Payload || s.phase == Config || s.phase == Window || s.phase == LenHi;
      s.(phase := Tag, skip := 0, body := [], killed := if cut then U32(s.killed + 1) else s.killed)
    else s
  }

  /** One byte, once the idle test is over. */
  function Consume(s: Parser, b: byte): (r: (Parser, seq<Event>))
    requires s.Valid()
    ensures r.0.Valid() && r.0.last == s.last && r.0.killed == s.killed
  {
    if s.skip > 0 then (s.(skip := s.skip - 1), [])
    else if s.InBody() then
      if |s.body| + 1 < s.Need() then (s.(body := s.body + [b]), [])
      else
        var e := Finish(s.phase, s.body + [b]);
        var t := s.(phase := Tag, body := []);
        (if e.SetWindow? then t.(slotOffset := e.offsetMs, slotPeriod := e.periodMs) else t, [e])
    else if s.phase == Tag then
      var t := s.(tag := b);
      if b == T then (t.(phase := TxMagic), [])
      else if b == W then (t.(phase := Window), [])
      else if b == C then (t.(phase := LenLo), [])
      else if b == S then (t, [StatsRequest])
      else if b == Q then (t.(phase := ScanCount), [])
      else if b == X then (t, [Reset])
      else (t, [])
    else if s.phase == TxMagic then (s.(phase := if b == X then LenLo else Tag), [])
    else if s.phase == LenLo then (s.(phase := LenHi, frameLen := b), [])
    else if s.phase == LenHi then
      var n: u16 := s.frameLen + 256 * b;
      var t := s.(frameLen := n, phase := Tag);
      if s.tag == C then
        if n != 15 && n != 17 then (t, [BadConfigLen]) else (t.(phase := Config), [])
      else
        if n == 0 || n > MAX_TOTAL_PAYLOAD then (t.(skip := n), [BadTxLen]) else (t.(phase := Payload), [])
    else (s.(scanCount := b, phase := if 1 <= b <= 16 then ScanBody else Tag), [])
  }

  /** One byte arriving at the 32-bit time `now`. */
  function Step(s: Parser, b: byte, now: u32): (r: (Parser, seq<Event>))
    requires s.Valid()
    ensures r.0.Valid()
  {
    Consume(Resync(s, now).(last := now), b)
  }

  /** A byte completes at most one command, and commands have the announced lengths. */
  lemma StepYieldsOneBoundedEvent(s: Parser, b: byte, now: u32)
    requires s.Valid()
    ensures var es := Step(s, b, now).1;
            && |es| <= 1
            && forall e :: e in es ==>
                 && (e.Configure? ==> |e.body| == 15 || |e.body| == 17)
                 && (e.Transmit? ==> 1 <= |e.payload| <= MAX_TOTAL_PAYLOAD)
  {
  }

  // ----- the code -----

  class SerialParser {
    var phase: Phase
    var tag: byte
    var frameLen: u16
    var have: nat
    var skipRemain: u16
    var lastArrivalMs: u32
    var framesKilled: u32
    const configBody: array<byte>
    const windowBody: array<byte>
    const txBuf: array<byte>
    var scanCount: byte
    var scanHave: nat
    const qBuf: array<byte>
    var slotOffsetMs: u32
    var slotPeriodMs: u32
    /** Commands and errors dispatched so far. */
    var events: seq<Event>

    ghost predicate Buffers()
      reads this
    {
      && configBody.Length == 17 && windowBody.Length == 8
      && txBuf.Length == MAX_TOTAL_PAYLOAD && qBuf.Length == 68
      && configBody != windowBody && configBody != txBuf && configBody != qBuf
      && windowBody != txBuf && windowBody != qBuf && txBuf != qBuf
      && (phase == Window ==> have < 8) && (phase == Config ==> have < 17)
      && (phase == Payload ==> have < MAX_TOTAL_PAYLOAD) && (phase == ScanBody ==> scanHave < 68)
    }

    ghost predicate Valid()
      reads this, configBody, windowBody, txBuf, qBuf
    {
      Buffers() && State().Valid()
    }

    ghost function Body(): seq<byte>
      requires Buffers()
      reads this, configBody, windowBody, txBuf, qBuf
    {
      if phase == Window then windowBody[..have]
      else if phase == Config then configBody[..have]
      else if phase == Payload then txBuf[..have]
      else if phase == ScanBody then qBuf[..scanHave]
      else []
    }

    ghost function State(): Parser
      requires Buffers()
      reads this, configBody, windowBody, txBuf, qBuf
    {
      Parser(phase, tag, frameLen, scanCount, Body(), skipRemain, lastArrivalMs, framesKilled,
             slotOffsetMs, slotPeriodMs)
    }

    constructor ()
      ensures Valid() && State() == INITIAL && events == []
      ensures fresh(configBody) && fresh(windowBody) && fresh(txBuf) && fresh(qBuf)
    {
      phase := Tag;
      tag := 0;
      frameLen := 0;
      have := 0;
      skipRemain := 0;
      lastArrivalMs := 0;
      framesKilled := 0;
      scanCount := 0;
      scanHave := 0;
      slotOffsetMs := 100;
      slotPeriodMs := 1000;
      configBody := new byte[17];
      windowBody := new byte[8];
      txBuf := new byte[MAX_TOTAL_PAYLOAD];
      qBuf := new byte[68];
      events := [];
    }

    /** The receive loop's work for one byte that arrives at `now`; `drained` says that the
        byte only counted towards a frame being skipped. */
    method OnByte(b: byte, now: u32) returns (drained: bool)
      requires Valid()
      modifies this, configBody, windowBody, txBuf, qBuf
      ensures drained == (Resync(old(State()), now).skip > 0)
      ensures Valid() && State() == Step(old(State()), b, now).0
      ensures events == old(events) + Step(old(State()), b, now).1
    {
      ResyncIfIdle(now);
      drained := skipRemain > 0;
      if drained {
        skipRemain := skipRemain - 1;
      } else {
        match phase {
          case Window => OnWindowByte(b);
          case Config => OnConfigByte(b);
          case Payload => OnPayloadByte(b);
          case ScanBody => OnScanByte(b);
          case _ => OnHeaderByte(b);
        }
      }
    }

    method ResyncIfIdle(now: u32)
      requires Valid()
      modifies this
      ensures Valid() && State() == Resync(old(State()), now).(last := now)
      ensures events == old(events)
    {
      hide FromLe32, Words, Finish, Consume;
      var sinceArrival := U32(now - lastArrivalMs);
      if (phase != Tag || skipRemain > 0) && sinceArrival > IDLE_MS {
        if phase == Payload || phase == Config || phase == Window || phase == LenHi {
          framesKilled := U32(framesKilled + 1);
        }
        skipRemain := 0;
        phase := Tag;
        have := 0;
      }
      lastArrivalMs := now;
    }

    method OnHeaderByte(b: byte)
      requires Valid() && skipRemain == 0 && !State().InBody()
      modifies this
      ensures Valid() && State() == Consume(old(State()), b).0
      ensures events == old(events) + Consume(old(State()), b).1
    {
      hide FromLe32, Words, Finish;
      if phase == Tag {
        OnTag(b);
      } else if phase == TxMagic {
        phase := if b != X then Tag else LenLo;
      } else if phase == LenLo {
        frameLen := b;
        phase := LenHi;
      } else if phase == LenHi {
        OnLenHi(b);
      } else {
        scanCount := b;
        scanHave := 0;
        phase := if scanCount >= 1 && scanCount <= 16 then ScanBody else Tag;
      }
    }

    method OnTag(b: byte)
      requires Valid() && skipRemain == 0 && phase == Tag
      modifies this
      ensures Valid() && State() == Consume(old(State()), b).0
      ensures events == old(events) + Consume(old(State()), b).1
    {
      hide FromLe32, Words, Finish;
      tag := b;
      if b == T {
        phase := TxMagic;
        have := 0;
      } else if b == W {
        phase := Window;
        have := 0;
      } else if b == C {
        phase := LenLo;
        have := 0;
      } else if b == S {
        events := events + [StatsRequest];
      } else if b == Q {
        phase := ScanCount;
        have := 0;
      } else if b == X {
        events := events + [Reset];
      }
    }

    method OnLenHi(b: byte)
      requires Valid() && skipRemain == 0 && phase == LenHi
      modifies this
      ensures Valid() && State() == Consume(old(State()), b).0
      ensures events == old(events) + Consume(old(State()), b).1
    {
      hide FromLe32, Words, Finish;
      frameLen := frameLen + 256 * b;
      if tag == C {
        if frameLen != 15 && frameLen != 17 {
          events := events + [BadConfigLen];
          phase := Tag;
        } else {
          phase := Config;
          have := 0;
        }
      } else if frameLen == 0 || frameLen > MAX_TOTAL_PAYLOAD {
        events := events + [BadTxLen];
        skipRemain := frameLen;
        phase := Tag;
      } else {
        phase := Payload;
        have := 0;
      }
    }

    method OnWindowByte(b: byte)
      requires Valid() && phase == Window
      modifies this, windowBody
      ensures Valid() && State() == Consume(old(State()), b).0
      ensures events == old(events) + Consume(old(State()), b).1
    {
      hide FromLe32, Words;
      windowBody[have] := b;
      have := have + 1;
      assert windowBody[..have] == old(Body()) + [b];
      if have == 8 {
        assert windowBody[0..4] == windowBody[..have][..4] && windowBody[4..8] == windowBody[..have][4..8];
        slotOffsetMs := FromLe32(windowBody[0..4]);
        slotPeriodMs := FromLe32(windowBody[4..8]);
        events := events + [SetWindow(slotOffsetMs, slotPeriodMs)];
        phase := Tag;
      }
    }

    method OnConfigByte(b: byte)
      requires Valid() && phase == Config
      modifies this, configBody
      ensures Valid() && State() == Consume(old(State()), b).0
      ensures events == old(events) + Consume(old(State()), b).1
    {
      hide FromLe32, Words;
      configBody[have] := b;
      have := have + 1;
      assert configBody[..have] == old(Body()) + [b];
      if have == frameLen {
        events := events + [Configure(configBody[..have])];
        phase := Tag;
      }
    }

    method OnPayloadByte(b: byte)
      requires Valid() && phase == Payload
      modifies this, txBuf
      ensures Valid() && State() == Consume(old(State()), b).0
      ensures events == old(events) + Consume(old(State()), b).1
    {
      hide FromLe32, Words;
      txBuf[have] := b;
      have := have + 1;
      assert txBuf[..have] == old(Body()) + [b];
      if have == frameLen {
        events := events + [Transmit(txBuf[..have])];
        phase := Tag;
      }
    }

    method OnScanByte(b: byte)
      requires Valid() && phase == ScanBody
      modifies this, qBuf
      ensures Valid() && State() == Consume(old(State()), b).0
      ensures events == old(events) + Consume(old(State()), b).1
    {
      hide FromLe32, Words;
      ghost var body := Body() + [b];
      qBuf[scanHave] := b;
      scanHave := scanHave + 1;
      assert qBuf[..scanHave] == body;
      var need := 4 + scanCount as nat * 4;
      if scanHave == need {
        assert qBuf[0..4] == body[..4];
        var dwell := FromLe32(qBuf[0..4]);
        var freqs := ReadFrequencies(body);
        events := events + [Scan(dwell, freqs)];
        phase := Tag;
      }
    }

    /** The frequencies of a complete scan body, four bytes each. */
    method ReadFrequencies(ghost body: seq<byte>) returns (freqs: seq<u32>)
      requires qBuf.Length == 68 && scanCount <= 16
      requires body == qBuf[..4 + 4 * scanCount]
      ensures freqs == Words(body[4..])
    {
      freqs := [];
      ghost var left := body[4..];
      for i := 0 to scanCount
        invariant left == body[4..][4 * i..]
        invariant freqs + Words(left) == Words(body[4..])
      {
        assert left[..4] == qBuf[4 + 4 * i..8 + 4 * i];
        freqs := freqs + [FromLe32(qBuf[4 + 4 * i..8 + 4 * i])];
        left := left[4..];
      }
    }
  }
}
