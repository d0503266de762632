/** The serial server's code: what it does with each parsed command and each worker
    callback, proved to perform its part of the machine in ServiceSpec. */
module HostServer {
  import opened Bytes
  import opened DeviceFrames
  import opened HostView
  import opened ServiceSpec
  import opened WorkerSpec
  import opened IpcRing
  import P = CommandParser
  import RxLoop
  import WorkerService

  /** Between two states of the outgoing ring exactly these notes were sent. */
  ghost predicate Sent(before: Region, notes: seq<Note>, after: Region) {
    AllTellable(notes) && Carries(before, Stream(notes), after)
  }

  lemma SentNothing(r: Region)
    ensures Sent(r, [], r)
  {
    NothingIsCarried(r);
  }

  lemma SentOne(before: Region, n: Note, after: Region)
    requires Tellable(n) && Carries(before, NoteBytes(n), after)
    ensures Sent(before, [n], after)
  {
    hide Carries;
    StreamOfOne(n);
  }

  lemma SentMore(a: Region, x: seq<Note>, b: Region, y: seq<Note>, c: Region)
    requires Sent(a, x, b) && Sent(b, y, c)
    ensures Sent(a, x + y, c)
  {
    hide Carries, NoteBytes;
    StreamConcat(x, y);
    CarriedOn(a, Stream(x), b, Stream(y), c);
  }

  lemma TellOne(cause: Cause, f: Frame)
    ensures Tell(cause, [f]) == [Told(cause, f)]
  {
  }

  /** Whatever was told since the host last emptied the ring, as long as it fits the ring,
      the host reads back frame by frame if and only if resets come last. */
  lemma HostReadsWhatIsTold(before: Region, notes: seq<Note>, after: Region)
    requires before.Sane() && before.View() == [] && Sent(before, notes, after)
    requires |Stream(notes)| <= CAP && before.head + |Stream(notes)| < TWO_32
    ensures |after.data| == CAP && (ReadAll(after.View()) == FramesTold(notes) <==> ResetsLast(notes))
  {
    hide ReadAll, Stream, FramesTold, ResetsLast;
    assert [] + Stream(notes) == Stream(notes);
    StreamIsReadExactly(notes);
  }

  class SerialServer {
    const reader: IpcReader
    const parser: P.SerialParser
    const worker: WorkerService.RadioWorker
    const out: DeviceWriter
    var lastStatsMs: u32
    /** Everything told to the host so far. */
    ghost var notes: seq<Note>

    ghost predicate Valid()
      reads this, worker, out, out.ring
    {
      worker.Valid() && out.Valid() && AllTellable(notes) && out.sent == Stream(notes)
    }

    /** The incoming side, apart from everything on the outgoing side. */
    ghost predicate ValidInput()
      reads reader, reader.ring, parser, parser.configBody, parser.windowBody, parser.txBuf, parser.qBuf
    {
      && reader.Valid() && parser.Valid()
      && {parser.configBody, parser.windowBody, parser.txBuf, parser.qBuf} !!
         {reader.rxBuf, reader.ring.data, out.ring.data}
      && reader.rxBuf != out.ring.data && reader.ring != out.ring && reader.ring.data != out.ring.data
    }

    ghost function State(): Station
      requires ValidInput()
      reads this, worker, reader, reader.rxBuf, reader.ring, reader.ring.data
      reads parser, parser.configBody, parser.windowBody, parser.txBuf, parser.qBuf
    {
      Station(reader.State(), parser.State(), worker.State(), lastStatsMs, notes)
    }

    constructor (reader: IpcReader, parser: P.SerialParser, worker: WorkerService.RadioWorker, out: DeviceWriter)
      requires worker.Valid() && out.Valid() && out.sent == []
      ensures this.reader == reader && this.parser == parser && this.worker == worker && this.out == out
      ensures Valid() && notes == []
    {
      this.reader := reader;
      this.parser := parser;
      this.worker := worker;
      this.out := out;
      lastStatsMs := 0;
      notes := [];
    }

    /** Keep the record of what was told in step with what was written. */
    ghost method Record(n: Note, before: Region)
      requires worker.Valid() && out.Valid() && AllTellable(notes) && Tellable(n)
      requires out.sent == Stream(notes) + NoteBytes(n) && Carries(before, NoteBytes(n), out.ring.State())
      modifies this`notes
      ensures Valid() && notes == old(notes) + [n] && Sent(before, [n], out.ring.State())
    {
      hide NoteBytes, Carries;
      StreamOfOne(n);
      StreamConcat(notes, [n]);
      SentOne(before, n, out.ring.State());
      notes := notes + [n];
    }

    /** Tell the host that the service is up. */
    method Init(around: Around)
      requires Valid() && notes == [] && |around.stats| == STATS_LEN
      modifies this, out, out.ring, out.ring.data
      ensures Valid() && lastStatsMs == Started([], around).lastStatsMs && notes == Started([], around).notes
      ensures Sent(old(out.ring.State()), notes, out.ring.State())
    {
      hide DeviceFrames.Encode, DeviceFrames.Pieces, Carries, Sent, Stream;
      ghost var r0 := out.ring.State();
      out.WriteReady(MAX_PAYLOAD_REPORTED);
      Record(Told(Unasked, Ready(MAX_PAYLOAD_REPORTED)), r0);
      ghost var r1 := out.ring.State();
      lastStatsMs := around.statsMs;
      out.WriteStats(around.stats);
      Record(Told(Unasked, Stats(around.stats)), r1);
      SentMore(r0, [Told(Unasked, Ready(MAX_PAYLOAD_REPORTED))], r1, [Told(Unasked, Stats(around.stats))],
               out.ring.State());
      assert notes == [Told(Unasked, Ready(MAX_PAYLOAD_REPORTED))] + [Told(Unasked, Stats(around.stats))];
    }

    /** Send statistics, if `force` or 10 s after the last ones. */
    method MaybeEmitStats(force: bool, cause: Cause, around: Around)
      requires Valid() && |around.stats| == STATS_LEN
      modifies this, out, out.ring, out.ring.data
      ensures Valid()
      ensures var due := force || U32(around.statsMs - old(lastStatsMs)) >= STATS_PERIOD_MS;
              && lastStatsMs == (if due then around.statsMs else old(lastStatsMs))
              && notes == old(notes) + (if due then [Told(cause, Stats(around.stats))] else [])
      ensures old(notes) <= notes && Sent(old(out.ring.State()), notes[|old(notes)|..], out.ring.State())
    {
      hide DeviceFrames.Encode, DeviceFrames.Pieces, Carries, Sent, Stream;
      ghost var r := out.ring.State();
      SentNothing(r);
      if force || U32(around.statsMs - lastStatsMs) >= STATS_PERIOD_MS {
        lastStatsMs := around.statsMs;
        out.WriteStats(around.stats);
        Record(Told(cause, Stats(around.stats)), r);
      }
      assert notes[|old(notes)|..] == if notes == old(notes) then [] else [Told(cause, Stats(around.stats))];
    }

    /** Handle one command or length error that the parser hands on. */
    method Dispatch(e: P.Event, around: Around)
      requires Valid() && |around.stats| == STATS_LEN && Bounded(e)
      modifies this, worker, out, out.ring, out.ring.data
      ensures Valid()
      ensures worker.State() == Obeyed(old(worker.State()), e, around)
      ensures lastStatsMs == if e.StatsRequest? then around.statsMs else old(lastStatsMs)
      ensures notes == old(notes) + AnswerNotes(old(worker.State()), e, around)
      ensures Sent(old(out.ring.State()), AnswerNotes(old(worker.State()), e, around), out.ring.State())
    {
      hide StartScan, WorkerSpec.ApplyConfig, ReadConfig, DeviceFrames.Encode, DeviceFrames.Pieces, Carries, Sent,
           Stream, Enqueue;
      ghost var r := out.ring.State();
      match e {
        case Transmit(p) => HandleTx(p, around);
        case Configure(b) => HandleConfig(b, around);
        case SetWindow(_, _) => Acknowledge();
        case Scan(dwell, freqs) => HandleScanQ(dwell, freqs, around);
        case StatsRequest =>
          TellOne(Command, Stats(around.stats));
          MaybeEmitStats(true, Command, around);
        case Reset => HandleReset();
        case BadTxLen => Complain(2, TEXT_TX_LEN);
        case BadConfigLen => Complain(3, TEXT_LEN);
      }
    }

    method Acknowledge()
      requires Valid()
      modifies this`notes, out, out.ring, out.ring.data
      ensures Valid() && notes == old(notes) + Tell(Command, [Ready(MAX_PAYLOAD_REPORTED)])
      ensures Sent(old(out.ring.State()), Tell(Command, [Ready(MAX_PAYLOAD_REPORTED)]), out.ring.State())
    {
      hide DeviceFrames.Encode, DeviceFrames.Pieces, Carries, Sent, Stream;
      ghost var r := out.ring.State();
      TellOne(Command, Ready(MAX_PAYLOAD_REPORTED));
      out.WriteReady(MAX_PAYLOAD_REPORTED);
      Record(Told(Command, Ready(MAX_PAYLOAD_REPORTED)), r);
    }

    method Complain(code: byte, text: seq<byte>)
      requires Valid() && |text| <= MAX_ERROR_TEXT
      modifies this`notes, out, out.ring, out.ring.data
      ensures Valid() && notes == old(notes) + Tell(Command, [Error(code, text)])
      ensures Sent(old(out.ring.State()), Tell(Command, [Error(code, text)]), out.ring.State())
    {
      hide DeviceFrames.Encode, DeviceFrames.Pieces, Carries, Sent, Stream;
      ghost var r := out.ring.State();
      TellOne(Command, Error(code, text));
      assert text[..Min(|text|, MAX_ERROR_TEXT)] == text;
      out.WriteError(code, text);
      Record(Told(Command, Error(code, text)), r);
    }

    method HandleConfig(body: seq<byte>, around: Around)
      requires Valid() && Bounded(P.Configure(body))
      modifies this`notes, worker, out, out.ring, out.ring.data
      ensures Valid() && worker.State() == Obeyed(old(worker.State()), P.Configure(body), around)
      ensures notes == old(notes) + AnswerNotes(old(worker.State()), P.Configure(body), around)
      ensures Sent(old(out.ring.State()), AnswerNotes(old(worker.State()), P.Configure(body), around),
                   out.ring.State())
    {
      hide StartScan, WorkerSpec.ApplyConfig, Carries, Sent, Stream, Tell;
      var freq := FromLe32(body[0..4]);
      var power := RxLoop.I8(body[9]);
      if freq == SCAN_MAGIC {
        var count := if body[8] == 0 then 27 else body[8];
        if count > 64 {
          count := 64;
        }
        var dwell: u32 := power % 256 * 100;
        if dwell < 50 {
          dwell := 50;
        }
        var p := ScanParams(FromLe32(body[10..14]), FromLe32(body[4..8]), count, dwell);
        assert ReadConfig(body) == SweepRequest(p);
        worker.StartScan(p, around.now, around.tuneOk);
        Acknowledge();
        return;
      }
      var c := Config(freq, power, body[14]);
      assert ReadConfig(body) == TuneRequest(c);
      hide ReadConfig;
      var radioOk := worker.radioOk;
      var applied := worker.ApplyConfig(c, around.tuneOk);
      if !applied {
        Complain(3, if radioOk then TEXT_NO_TUNE else TEXT_NO_RADIO);
        return;
      }
      Acknowledge();
    }

    method HandleTx(payload: seq<byte>, around: Around)
      requires Valid() && Bounded(P.Transmit(payload))
      modifies this`notes, worker, out, out.ring, out.ring.data
      ensures Valid() && worker.State() == Obeyed(old(worker.State()), P.Transmit(payload), around)
      ensures notes == old(notes) + AnswerNotes(old(worker.State()), P.Transmit(payload), around)
      ensures Sent(old(out.ring.State()), AnswerNotes(old(worker.State()), P.Transmit(payload), around),
                   out.ring.State())
    {
      hide DeviceFrames.Encode, DeviceFrames.Pieces, Carries, Sent, Stream, Enqueue;
      ghost var r := out.ring.State();
      var t := worker.EnqueueTx(payload);
      if t == Busy {
        Complain(4, TEXT_BUSY);
        return;
      }
      TellOne(Command, Diag(47, |payload|));
      out.WriteDiag(47, |payload|);
      Record(Told(Command, Diag(47, |payload|)), r);
    }

    method HandleScanQ(dwell: u32, freqs: seq<u32>, around: Around)
      requires Valid()
      modifies worker
      ensures Valid() && worker.State() == Obeyed(old(worker.State()), P.Scan(dwell, freqs), around)
      ensures AnswerNotes(old(worker.State()), P.Scan(dwell, freqs), around) == []
      ensures Sent(old(out.ring.State()), [], out.ring.State())
    {
      hide StartScan, Sent;
      SentNothing(out.ring.State());
      if |freqs| == 0 || |freqs| > 16 {
        return;
      }
      worker.StartScan(ScanParams(freqs[0], 0, |freqs|, if dwell < 50 then 50 else dwell),
                       around.now, around.tuneOk);
    }

    method HandleReset()
      requires Valid()
      modifies this`notes, out, out.ring, out.ring.data
      ensures Valid() && notes == old(notes) + [BareReset]
      ensures Sent(old(out.ring.State()), [BareReset], out.ring.State())
    {
      hide Carries, Sent, Stream;
      ghost var r := out.ring.State();
      out.Write([G]);
      Record(BareReset, r);
    }

    method OnWorkerRx(rx: RxLoop.Rx)
      requires Valid() && Receivable(rx)
      modifies this`notes, out, out.ring, out.ring.data
      ensures Valid() && notes == old(notes) + [Told(Reception, Received(rx.pkt, rx.rssi))]
      ensures Sent(old(out.ring.State()), [Told(Reception, Received(rx.pkt, rx.rssi))], out.ring.State())
    {
      hide DeviceFrames.Encode, DeviceFrames.Pieces, Carries, Sent, Stream;
      ghost var r := out.ring.State();
      out.WriteRx(rx.pkt, rx.rssi);
      Record(Told(Reception, Received(rx.pkt, rx.rssi)), r);
    }

    method OnWorkerTerminal(t: Terminal)
      requires Valid()
      modifies this`notes, out, out.ring, out.ring.data
      ensures Valid() && notes == old(notes) + [Told(Ending, TerminalFrame(t))]
      ensures Sent(old(out.ring.State()), [Told(Ending, TerminalFrame(t))], out.ring.State())
    {
      hide DeviceFrames.Encode, DeviceFrames.Pieces, Carries, Sent, Stream;
      ghost var r := out.ring.State();
      if t == Ok {
        out.WriteReady(MAX_PAYLOAD_REPORTED);
      } else {
        var code := match t case Busy => 4 case Failed => 5 case _ => 6;
        var text := if code == 5 then TEXT_ABORTED else TEXT_DROPPED;
        assert text[..Min(|text|, MAX_ERROR_TEXT)] == text;
        out.WriteError(code, text);
      }
      Record(Told(Ending, TerminalFrame(t)), r);
    }

    method TellDiag(cause: Cause, event: byte, val: u32)
      requires Valid()
      modifies this`notes, out, out.ring, out.ring.data
      ensures Valid() && notes == old(notes) + [Told(cause, Diag(event, val))]
      ensures Sent(old(out.ring.State()), [Told(cause, Diag(event, val))], out.ring.State())
    {
      hide DeviceFrames.Encode, DeviceFrames.Pieces, Carries, Sent, Stream;
      ghost var r := out.ring.State();
      out.WriteDiag(event, val);
      Record(Told(cause, Diag(event, val)), r);
    }

    method OnWorkerScan(r: Report)
      requires Valid()
      modifies this`notes, out, out.ring, out.ring.data
      ensures Valid() && notes == old(notes) + Tell(Scanning, ReportFrames(r))
      ensures Sent(old(out.ring.State()), Tell(Scanning, ReportFrames(r)), out.ring.State())
    {
      hide Sent, Stream;
      var fs := ReportFrames(r);
      ghost var t := out.ring.State();
      SentNothing(t);
      TellDiag(Scanning, 50, r.freqHz);
      SentMore(t, [], t, [Told(Scanning, fs[0])], out.ring.State());
      ghost var t1 := out.ring.State();
      TellDiag(Scanning, 51, U32(r.frames));
      SentMore(t, [] + [Told(Scanning, fs[0])], t1, [Told(Scanning, fs[1])], out.ring.State());
      ghost var t2 := out.ring.State();
      TellDiag(Scanning, 52, U32(r.consensus));
      SentMore(t, [] + [Told(Scanning, fs[0])] + [Told(Scanning, fs[1])], t2, [Told(Scanning, fs[2])],
               out.ring.State());
      ghost var t3 := out.ring.State();
      TellDiag(Scanning, 53, U32(r.best + 128));
      SentMore(t, [] + [Told(Scanning, fs[0])] + [Told(Scanning, fs[1])] + [Told(Scanning, fs[2])], t3,
               [Told(Scanning, fs[3])], out.ring.State());
      assert Tell(Scanning, fs) == [] + [Told(Scanning, fs[0])] + [Told(Scanning, fs[1])]
                                   + [Told(Scanning, fs[2])] + [Told(Scanning, fs[3])];
    }

    /** Parse one byte and handle what it completes. */
    method ParseByte(b: byte, around: Around) returns (drained: bool)
      requires Valid() && ValidInput() && |around.stats| == STATS_LEN
      modifies this, parser, parser.configBody, parser.windowBody, parser.txBuf, parser.qBuf
      modifies worker, out, out.ring, out.ring.data
      ensures Valid() && ValidInput() && reader.State() == old(reader.State())
      ensures drained == IsDrained(old(parser.State()), around.now)
      ensures State() == Completed(old(State()), b, around)
      ensures old(notes) <= notes && Sent(old(out.ring.State()), notes[|old(notes)|..], out.ring.State())
    {
      hide P.Step, P.Resync, AnswerNotes, Obeyed, Sent, Stream, Region.View;
      SentNothing(out.ring.State());
      P.StepYieldsOneBoundedEvent(parser.State(), b, around.now);
      var n := |parser.events|;
      drained := parser.OnByte(b, around.now);
      assert drained == IsDrained(old(parser.State()), around.now);
      if |parser.events| > n {
        Dispatch(parser.events[n], around);
        assert notes[|old(notes)|..] == AnswerNotes(old(worker.State()), parser.events[n], around);
      } else {
        assert notes[|old(notes)|..] == [];
      }
    }

    /** Send statistics unasked, if 10 s have passed since the last ones. */
    method LookAtCadence(around: Around)
      requires Valid() && ValidInput() && |around.stats| == STATS_LEN
      modifies this, out, out.ring, out.ring.data
      ensures Valid() && ValidInput() && State() == Cadence(old(State()), around)
      ensures old(notes) <= notes && Sent(old(out.ring.State()), notes[|old(notes)|..], out.ring.State())
    {
      hide Sent, Stream, AllTellable, Region.View, P.Parser.Valid, WorkerService.RadioWorker.Valid;
      MaybeEmitStats(false, Unasked, around);
    }

    /** The poll's work for one byte read: parse it, and look at the statistics' cadence
        unless the byte was only drained. */
    method OnByte(b: byte, around: Around)
      requires Valid() && ValidInput() && |around.stats| == STATS_LEN
      modifies this, parser, parser.configBody, parser.windowBody, parser.txBuf, parser.qBuf
      modifies worker, out, out.ring, out.ring.data
      ensures Valid() && ValidInput() && reader.State() == old(reader.State())
      ensures State() == AfterByte(old(State()), b, around)
      ensures old(notes) <= notes && Sent(old(out.ring.State()), notes[|old(notes)|..], out.ring.State())
    {
      hide Completed, IsDrained, Cadence, Sent, Stream, AllTellable, Region.View, P.Parser.Valid,
           WorkerService.RadioWorker.Valid;
      ghost var r0 := out.ring.State();
      var drained := ParseByte(b, around);
      if !drained {
        ghost var told, r1 := notes, out.ring.State();
        LookAtCadence(around);
        SentMore(r0, told[|old(notes)|..], r1, notes[|told|..], out.ring.State());
        assert notes[|old(notes)|..] == told[|old(notes)|..] + notes[|told|..];
      }
    }

    /** One turn of the server's poll: read a byte and work on it, or find none and look
        at the statistics' cadence. */
    method PollByte(around: Around) returns (b: Option<byte>)
      requires Valid() && ValidInput() && |around.stats| == STATS_LEN
      modifies this, reader, reader.rxBuf, reader.ring
      modifies parser, parser.configBody, parser.windowBody, parser.txBuf, parser.qBuf
      modifies worker, out, out.ring, out.ring.data
      ensures Valid() && ValidInput()
      ensures reader.State() == Fetch(old(reader.State())).0 && b == Fetch(old(reader.State())).1
      ensures State() == (if b.None? then Cadence(Looked(old(State())), around)
                          else AfterByte(Looked(old(State())), b.value, around))
      ensures old(notes) <= notes && Sent(old(out.ring.State()), notes[|old(notes)|..], out.ring.State())
    {
      hide AfterByte, Cadence, Fetch, Sent, Stream, AllTellable, Region.View, P.Parser.Valid,
           WorkerService.RadioWorker.Valid;
      b := reader.ReadByte();
      if b.None? {
        LookAtCadence(around);
        return;
      }
      assert State() == Looked(old(State()));
      OnByte(b.value, around);
    }

    /** The same as a step of a poll that has read `bytes` and told what was told since
        the ring was in state `r` and `first` notes had been told. */
    method PollTurn(arounds: nat -> Around, n: nat, ghost acts: seq<Act>, ghost bytes: seq<byte>, ghost r: Region,
                    ghost first: nat)
      returns (b: Option<byte>)
      requires Valid() && ValidInput() && (forall n :: |arounds(n).stats| == STATS_LEN) && n == |bytes|
      requires first <= |notes| && Sent(r, notes[first..], out.ring.State())
      requires Reaches(acts + ByteActs(bytes, arounds), State())
      modifies this, reader, reader.rxBuf, reader.ring
      modifies parser, parser.configBody, parser.windowBody, parser.txBuf, parser.qBuf
      modifies worker, out, out.ring, out.ring.data
      ensures Valid() && ValidInput()
      ensures Reaches(acts + if b.Some? then ByteActs(bytes + [b.value], arounds) else PollActs(bytes, arounds),
                      State())
      ensures b.Some? ==> |reader.State().Queue()| < |old(reader.State()).Queue()|
      ensures HandedOn(old(reader.State()), if b.None? then [] else [b.value], reader.State())
      ensures b.None? && old(reader.State()).region.Sane() ==> reader.State().Queue() == []
      ensures old(notes) <= notes && Sent(r, notes[first..], out.ring.State())
    {
      hide AfterByte, Cadence, Fetch, Sent, Stream, Region.View, Region.Sane, Reaches, PollActs, ByteActs;
      ghost var told, r1, before, s := notes, out.ring.State(), reader.State(), State();
      b := PollByte(arounds(n));
      PollByteActs(acts, bytes, s, b, arounds);
      FetchShortens(before);
      if before.region.Sane() {
        ReadTakesTheOldest(before);
      }
      SentMore(r, told[first..], r1, notes[|told|..], out.ring.State());
      assert notes[first..] == told[first..] + notes[|told|..];
    }

    /** One poll: read bytes until none is left. A reader whose counters are in order
        hands on exactly the bytes that were queued. */
    method Poll(arounds: nat -> Around, ghost acts: seq<Act>) returns (ghost bytes: seq<byte>)
      requires Valid() && ValidInput() && forall n :: |arounds(n).stats| == STATS_LEN
      requires Reaches(acts, State())
      modifies this, reader, reader.rxBuf, reader.ring
      modifies parser, parser.configBody, parser.windowBody, parser.txBuf, parser.qBuf
      modifies worker, out, out.ring, out.ring.data
      ensures Valid() && ValidInput()
      ensures Reaches(acts + PollActs(bytes, arounds), State())
      ensures HandedOn(old(reader.State()), bytes, reader.State())
      ensures old(reader.State()).region.Sane() ==> reader.State().Queue() == []
      ensures old(notes) <= notes && Sent(old(out.ring.State()), notes[|old(notes)|..], out.ring.State())
    {
      hide Sent, Region.View, Region.Sane, Reaches, PollActs, ByteActs, HandedOn, Reading.Queue, P.Parser.Valid,
           AllTellable, Stream;
      bytes := [];
      var n, more := 0, true;
      ghost var r, first, before := out.ring.State(), |notes|, reader.State();
      SentNothing(r);
      assert notes[first..] == [];
      NoBytesYet(acts, arounds);
      HandedNone(before);
      while more
        invariant Valid() && ValidInput() && n == |bytes|
        invariant Reaches(acts + (if more then ByteActs(bytes, arounds) else PollActs(bytes, arounds)), State())
        invariant HandedOn(before, bytes, reader.State())
        invariant !more && before.region.Sane() ==> reader.State().Queue() == []
        invariant old(notes) <= notes && Sent(r, notes[first..], out.ring.State())
        decreases more, |reader.State().Queue()|
      {
        ghost var before1 := reader.State();
        var b := PollTurn(arounds, n, acts, bytes, r, first);
        HandedMore(before, bytes, before1, if b.None? then [] else [b.value], reader.State());
        if b.Some? {
          bytes := bytes + [b.value];
          n := n + 1;
        } else {
          assert bytes + [] == bytes;
          more := false;
        }
      }
    }
  }

  /** A reader whose counters are in order handed on the oldest bytes of its queue. */
  ghost predicate HandedOn(before: Reading, bytes: seq<byte>, after: Reading)
    requires |before.region.data| == CAP && |after.region.data| == CAP
  {
    before.region.Sane() ==> after.region.Sane() && before.Queue() == bytes + after.Queue()
  }

  lemma HandedNone(s: Reading)
    requires |s.region.data| == CAP
    ensures HandedOn(s, [], s)
  {
    assert [] + s.Queue() == s.Queue();
  }

  lemma HandedMore(a: Reading, x: seq<byte>, b: Reading, y: seq<byte>, c: Reading)
    requires |a.region.data| == CAP && |b.region.data| == CAP && |c.region.data| == CAP
    requires HandedOn(a, x, b) && HandedOn(b, y, c)
    ensures HandedOn(a, x + y, c)
    ensures a.region.Sane() ==> b.region.Sane()
  {
    assert x + (y + c.Queue()) == (x + y) + c.Queue();
  }

  lemma NoBytesYet(acts: seq<Act>, arounds: nat -> Around)
    ensures acts + ByteActs([], arounds) == acts
  {
  }

  lemma PollByteActs(acts: seq<Act>, bytes: seq<byte>, s: Station, b: Option<byte>, arounds: nat -> Around)
    requires Reaches(acts + ByteActs(bytes, arounds), s) && s.parser.Valid()
    requires (forall n :: |arounds(n).stats| == STATS_LEN) && s.input.region.Valid() && b == Fetch(s.input).1
    ensures b.Some? ==>
              Reaches(acts + ByteActs(bytes + [b.value], arounds), AfterByte(Looked(s), b.value, arounds(|bytes|)))
    ensures b.None? ==> Reaches(acts + PollActs(bytes, arounds), Cadence(Looked(s), arounds(|bytes|)))
  {
    hide Reaches, AfterByte, Cadence, Looked, Fetch;
    if b.Some? {
      ReachesOn(acts + ByteActs(bytes, arounds), s, ByteAct(b.value, arounds(|bytes|)));
      OneMoreByte(acts, bytes, b.value, arounds);
    } else {
      ReachesOn(acts + ByteActs(bytes, arounds), s, QuietAct(arounds(|bytes|)));
      assert (acts + ByteActs(bytes, arounds)) + [QuietAct(arounds(|bytes|))] == acts + PollActs(bytes, arounds);
    }
  }
}
