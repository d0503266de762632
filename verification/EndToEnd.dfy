/** From the host's bytes to the air: the ring, the parser, the server, the queue, the
    chunking and the retry loop composed into one statement about a transmitted payload. */
module EndToEnd {
  import opened Bytes
  import opened HostSafety
  import opened ServiceSpec
  import opened ServiceSafety
  import opened WorkerSpec
  import Burst
  import BurstTransmit
  import Crc32
  import DeviceFrames
  import G = CommandGrammar
  import P = CommandParser
  import Ring = IpcRing

  // ----- successes and bursts -----

  /** Every recorded burst went the way a transmission can go. */
  ghost predicate AllSent(bursts: seq<AirBurst>) {
    forall j :: 0 <= j < |bursts| ==>
      BurstTransmit.SentAsBurst(bursts[j].frame, bursts[j].ok, bursts[j].burstId, bursts[j].trace)
  }

  /** The frames whose terminal reports success. */
  function SucceededFrames(ts: seq<Finished>): seq<seq<byte>> {
    if ts == [] then [] else
      SucceededFrames(ts[..|ts| - 1]) + if ts[|ts| - 1].outcome == Ok then [ts[|ts| - 1].frame] else []
  }

  /** The frames whose burst completed. */
  function SentFrames(bursts: seq<AirBurst>): seq<seq<byte>> {
    if bursts == [] then [] else
      SentFrames(bursts[..|bursts| - 1]) + if bursts[|bursts| - 1].ok then [bursts[|bursts| - 1].frame] else []
  }

  /** The successes reported and the bursts completed are the same frames, one for one and
      in order. */
  ghost predicate Proven(x: TxSide) {
    SucceededFrames(x.terminals) == SentFrames(x.bursts) && AllSent(x.bursts)
  }

  lemma ServiceProves(s: Worker, op: Op)
    requires op.ServiceOp? && Enabled(s, op) && Proven(s.tx)
    ensures Proven(Step(s, op).tx)
  {
    hide BurstTransmit.SentAsBurst;
    var x, y := s.tx, Step(s, op).tx;
    if y != x {
      assert y.terminals[..|y.terminals| - 1] == x.terminals && y.bursts[..|y.bursts| - 1] == x.bursts;
    }
  }

  lemma {:induction false} DropsAreDrops(fs: seq<seq<byte>>)
    ensures forall i :: 0 <= i < |DropAll(fs)| ==> DropAll(fs)[i].outcome == Dropped
  {
    if fs != [] {
      DropsAreDrops(fs[1..]);
    }
  }

  lemma {:induction false} DropsSucceedNot(ts: seq<Finished>, drops: seq<Finished>)
    requires forall i :: 0 <= i < |drops| ==> drops[i].outcome == Dropped
    ensures SucceededFrames(ts + drops) == SucceededFrames(ts)
  {
    if drops == [] {
      assert ts + drops == ts;
    } else {
      var n := |drops| - 1;
      DropsSucceedNot(ts, drops[..n]);
      assert (ts + drops)[..|ts + drops| - 1] == ts + drops[..n];
    }
  }

  lemma StepProves(s: Worker, op: Op)
    requires Enabled(s, op) && Proven(s.tx)
    ensures Proven(Step(s, op).tx)
  {
    hide Proven, Drained, SetLevel, DwellOver, BurstTransmit.SentAsBurst;
    match op
    case ThermalOp(now, reading, booted, tuned) =>
      if reading.Some? {
        SetLevelTx(s.(lastThermalMs := now), reading.value, booted, tuned);
        DrainProves(s.tx);
      }
    case ServiceOp(ok, id, trace) => ServiceProves(s, op);
    case EnqueueOp(p) => EnqueueProves(s, p);
    case _ =>
  }

  lemma DrainProves(x: TxSide)
    requires Proven(x)
    ensures Proven(Drained(x))
  {
    hide AllSent;
    DropsAreDrops(x.queue);
    DropsSucceedNot(x.terminals, DropAll(x.queue));
  }

  lemma EnqueueProves(s: Worker, payload: seq<byte>)
    requires Proven(s.tx)
    ensures Proven(Enqueue(s, payload).0.tx)
  {
  }

  /** Over every run of the worker. */
  lemma {:induction false} RunProves(states: seq<Worker>, ops: seq<Op>, n: nat)
    requires Run(states, ops) && states[0] == STARTED && n < |states|
    ensures Proven(states[n].tx)
  {
    hide Step, Enabled;
    if n > 0 {
      RunProves(states, ops, n - 1);
      assert states[n - 1 + 1] == Step(states[n - 1], ops[n - 1]);
      StepProves(states[n - 1], ops[n - 1]);
    }
  }

  /** The burst behind a success: as many bursts completed before it as successes were
      reported before, so no burst stands behind two of them. */
  lemma {:induction false} BurstBehind(ts: seq<Finished>, bursts: seq<AirBurst>, i: nat) returns (j: nat)
    requires i < |ts| && ts[i].outcome == Ok && SucceededFrames(ts) == SentFrames(bursts)
    ensures j < |bursts| && bursts[j].ok && bursts[j].frame == ts[i].frame
    ensures |SentFrames(bursts[..j])| == |SucceededFrames(ts[..i])|
    decreases |ts| + |bursts|
  {
    var n, m := |ts| - 1, |bursts| - 1;
    if ts[n].outcome != Ok {
      j := BurstBehind(ts[..n], bursts, i);
      assert ts[..n][..i] == ts[..i];
    } else if bursts != [] && !bursts[m].ok {
      j := BurstBehind(ts, bursts[..m], i);
      assert bursts[..m][..j] == bursts[..j];
    } else {
      var a, b := SucceededFrames(ts[..n]), SentFrames(if bursts == [] then [] else bursts[..m]);
      assert SucceededFrames(ts) == a + [ts[n].frame];
      assert bursts != [];
      assert SentFrames(bursts) == b + [bursts[m].frame];
      assert a == (a + [ts[n].frame])[..|a|] && b == (b + [bursts[m].frame])[..|b|];
      assert (a + [ts[n].frame])[|a|] == ts[n].frame;
      if i == n {
        j := m;
      } else {
        j := BurstBehind(ts[..n], bursts[..m], i);
        assert ts[..n][..i] == ts[..i] && bursts[..m][..j] == bursts[..j];
      }
    }
  }

  // ----- the two halves -----

  /** Host to worker: a payload is written as a 'T' frame in whatever pieces, through a ring
      that does not overflow and is read to its end, by a resting parser that sees no gap
      over 100 ms, with any polls of the worker in between. It is handed on as exactly one
      transmit command. */
  lemma FrameReachesWorker(states: seq<Station>, acts: seq<Act>, times: seq<nat>, i: nat, j: nat,
                           payload: seq<byte>)
    requires Serves(states, acts) && i <= j <= |acts|
    ensures CarriesFrame(states, acts, times, i, j, payload) ==>
              EventsOf(states, acts, i, j) == [P.Transmit(payload)]
  {
    if !CarriesFrame(states, acts, times, i, j, payload) {
      return;
    }
    hide May, After, P.Parser.Valid, G.Steady, G.Parse, G.Encode, G.Run, G.Values, EventsOf, HostBytes, BytesRead,
         ArrivalsOf, NoOverflow, Ring.Reading.Queue, Ring.Region.Sane, Ring.Region.View;
    StartIsSane(states, acts);
    InputStaysSane(states, acts, 0, i);
    InputIsFifo(states, acts, i, j);
    ArrivalsAreBytes(acts, times, i, j);
    var read := BytesRead(acts, i, j);
    assert [] + HostBytes(acts, i, j) == HostBytes(acts, i, j) && read + [] == read;
    EventsAreParsed(states, acts, times, i, j);
    G.StreamMeetsGrammar(states[i].parser, ArrivalsOf(acts, times, i, j));
    TransmitIsSendable(payload);
    ParseOne(P.Transmit(payload));
  }

  /** In acts i to j-1 the host writes the payload's 'T' frame, fewer than 2^32 bytes having
      passed; the ring has room, is empty before and after, and the parser rests before and
      sees no gap. */
  ghost predicate CarriesFrame(states: seq<Station>, acts: seq<Act>, times: seq<nat>, i: nat, j: nat,
                               payload: seq<byte>)
    requires i <= j <= |acts| < |states|
  {
    && 1 <= |payload| <= P.MAX_TOTAL_PAYLOAD && HostBytes(acts, i, j) == G.Encode(P.Transmit(payload))
    && |HostBytes(acts, 0, i)| + |HostBytes(acts, i, j)| < TWO_32
    && NoOverflow(states, acts, i, j) && NothingQueued(states[i]) && NothingQueued(states[j])
    && G.Resting(states[i].parser) && Clocked(acts, times)
    && var a := ArrivalsOf(acts, times, i, j);
       a != [] && G.Steady(a[0].at, a[1..])
  }

  /** Nothing is left to be read. */
  ghost predicate NothingQueued(s: Station) {
    s.input.region.Valid() && s.input.Queue() == []
  }

  lemma TransmitIsSendable(payload: seq<byte>)
    requires 1 <= |payload| <= P.MAX_TOTAL_PAYLOAD
    ensures G.Sendable(P.Transmit(payload))
  {
  }

  lemma ParseOne(c: P.Event)
    requires G.Sendable(c)
    ensures G.Parse(G.Encode(c)) == [c]
  {
    G.FrontOfEncoding(c, []);
    hide G.CommandFront, G.Encode;
    assert G.Encode(c) + [] == G.Encode(c);
  }

  /** Worker to air: when the i-th terminal reports success, a burst of its own sent the
      i-th accepted frame, and whoever hears that burst's completed packets, with any
      retries and in any order, reassembles exactly that frame; every packet carries its
      CRC-32. */
  lemma SuccessReachesTheAir(states: seq<Worker>, ops: seq<Op>, n: nat, i: nat) returns (j: nat)
    requires Run(states, ops) && states[0] == STARTED && n < |states|
    requires i < |states[n].tx.terminals| && states[n].tx.terminals[i].outcome == Ok
    ensures i < |states[n].tx.accepted| && j < |states[n].tx.bursts|
    ensures Delivers(states[n].tx.bursts[j], states[n].tx.accepted[i])
    ensures |SentFrames(states[n].tx.bursts[..j])| == |SucceededFrames(states[n].tx.terminals[..i])|
  {
    hide Step, BurstTransmit.SentAsBurst, Delivers;
    OneTerminalPerFrame(states, ops, n);
    RunProves(states, ops, n);
    j := BurstBehind(states[n].tx.terminals, states[n].tx.bursts, i);
    SentDelivers(states[n].tx.bursts[j]);
  }

  /** The burst carries the payload: to whoever hears enough of it, under its CRC-32. */
  ghost predicate Delivers(b: AirBurst, payload: seq<byte>) {
    && b.frame == payload && b.ok
    && (forall heard, buf :: HeardEnough(b, heard) && |buf| == |payload| ==> Burst.Assemble(buf, heard) == payload)
    && forall pkt :: pkt in BurstTransmit.Aired(b.trace) ==>
         Burst.IsBurstPacket(pkt) && Burst.HeaderOf(pkt).crc == Crc32.Checksum(payload)
  }

  lemma SentDelivers(b: AirBurst)
    ensures b.ok && BurstTransmit.SentAsBurst(b.frame, b.ok, b.burstId, b.trace) ==> Delivers(b, b.frame)
  {
    hide BurstTransmit.SentAsBurst, Burst.Assemble;
    if b.ok && BurstTransmit.SentAsBurst(b.frame, b.ok, b.burstId, b.trace) {
      var payload := b.frame;
      SuccessMeans(payload, b.burstId, b.trace);
      forall heard, buf | HeardEnough(b, heard) && |buf| == |payload|
        ensures Burst.Assemble(buf, heard) == payload
      {
        BurstTransmit.SuccessfulBurstReassembles(b.trace, heard, b.burstId, payload, buf);
      }
      forall pkt | pkt in BurstTransmit.Aired(b.trace)
        ensures Burst.IsBurstPacket(pkt) && Burst.HeaderOf(pkt).crc == Crc32.Checksum(payload)
      {
        AiredCarriesCrc(b.trace, b.burstId, payload, pkt);
      }
    }
  }

  lemma SuccessMeans(payload: seq<byte>, burstId: u16, trace: seq<BurstTransmit.Attempt>)
    ensures BurstTransmit.SentAsBurst(payload, true, burstId, trace) ==>
              && 1 <= |payload| <= Burst.MAX_TOTAL_PAYLOAD
              && Burst.PacketCount(|payload|) <= Burst.MAX_PACKETS
              && BurstTransmit.CarriesBurst(trace, burstId, payload) && BurstTransmit.InOrder(trace)
              && BurstTransmit.Completed(trace) == Burst.PacketCount(|payload|)
  {
    hide BurstTransmit.CarriesBurst, BurstTransmit.InOrder, BurstTransmit.Completed;
  }

  /** A receiver heard packets of the burst only, and at least the completed ones. */
  ghost predicate HeardEnough(b: AirBurst, heard: seq<seq<byte>>) {
    && (forall p :: p in heard ==> p in BurstTransmit.Aired(b.trace))
    && forall j :: 0 <= j < |b.trace| && b.trace[j].done ==> b.trace[j].pkt in heard
  }

  lemma AiredCarriesCrc(trace: seq<BurstTransmit.Attempt>, burstId: u16, payload: seq<byte>, pkt: seq<byte>)
    requires 1 <= |payload| <= Burst.MAX_TOTAL_PAYLOAD && Burst.PacketCount(|payload|) <= Burst.MAX_PACKETS
    requires BurstTransmit.CarriesBurst(trace, burstId, payload)
    ensures pkt in BurstTransmit.Aired(trace) ==>
              Burst.IsBurstPacket(pkt) && Burst.HeaderOf(pkt).crc == Crc32.Checksum(payload)
  {
    hide Crc32.Checksum;
    BurstTransmit.AiredMembers(trace, pkt);
    if j :| 0 <= j < |trace| && trace[j].started && trace[j].pkt == pkt {
      Burst.BurstPacketIsAccepted(burstId, trace[j].idx, payload, Crc32.Checksum(payload));
    }
  }

  // ----- the whole way, in a run of the service -----

  /** The act completes no command. */
  ghost predicate NoEvent(s: Station, act: Act) {
    act.ByteAct? && s.parser.Valid() ==> EventOf(s.parser, act.b, act.around.now).None?
  }

  lemma NoEventNoOffer(s: Station, act: Act)
    requires May(s, act) && NoEvent(s, act)
    ensures var x, y := s.worker.tx, After(s, act).worker.tx;
            y.accepted == x.accepted && y.refused == x.refused
  {
    hide Step, Enabled, Callbacks, P.Parser.Valid, P.Step, EventOf;
    if act.WorkerAct? {
      OwnOpsKeepAccepted(s.worker, act.op);
    }
  }

  lemma {:induction false} NoEventsNoOffers(states: seq<Station>, acts: seq<Act>, i: nat, j: nat)
    requires Serves(states, acts) && i <= j <= |acts| && EventsOf(states, acts, i, j) == []
    ensures var x, y := states[i].worker.tx, states[j].worker.tx;
            y.accepted == x.accepted && y.refused == x.refused
    decreases j - i
  {
    hide May, After, P.Parser.Valid, EventOf;
    if i < j {
      assert states[i + 1] == After(states[i], acts[i]);
      NoEventNoOffer(states[i], acts[i]);
      NoEventsNoOffers(states, acts, i + 1, j);
    }
  }

  /** The act that completes the only command of a stretch. */
  lemma {:induction false} TheEvent(states: seq<Station>, acts: seq<Act>, i: nat, j: nat, e: P.Event)
    returns (k: nat)
    requires Serves(states, acts) && i <= j <= |acts|
    ensures EventsOf(states, acts, i, j) == [e] ==>
              && i <= k < j && EventsOf(states, acts, i, k) == [] && EventsOf(states, acts, k + 1, j) == []
              && acts[k].ByteAct? && states[k].parser.Valid()
              && EventOf(states[k].parser, acts[k].b, acts[k].around.now) == Some(e)
    decreases j - i
  {
    hide May, After, P.Parser.Valid, EventOf;
    k := i;
    if EventsOf(states, acts, i, j) != [e] {
      return;
    }
    var rest := EventsOf(states, acts, i + 1, j);
    if NoEvent(states[i], acts[i]) {
      assert EventsOf(states, acts, i, j) == [] + rest == rest;
      ParserStaysValid(states, acts, i);
      k := TheEvent(states, acts, i + 1, j, e);
      assert EventsOf(states, acts, i, k) == [] + EventsOf(states, acts, i + 1, k);
    } else {
      assert rest == EventsOf(states, acts, i, j)[1..] == [];
      assert EventOf(states[i].parser, acts[i].b, acts[i].around.now).value == EventsOf(states, acts, i, j)[0];
    }
  }

  /** Whether the worker can take a frame. */
  predicate CanTake(w: Worker) {
    w.radioOk && w.level < 2 && |w.tx.queue| < 16
  }

  lemma TransmitIsOffered(s: Station, act: Act, payload: seq<byte>)
    requires May(s, act) && act.ByteAct? && s.parser.Valid()
    requires EventOf(s.parser, act.b, act.around.now) == Some(P.Transmit(payload))
    ensures var x, y := s.worker.tx, After(s, act).worker.tx;
            if CanTake(s.worker) then y.accepted == x.accepted + [payload] && y.refused == x.refused
            else y.accepted == x.accepted && y.refused == x.refused + 1
  {
    hide P.Step, P.Resync, P.Parser.Valid, EventOf, AnswerNotes;
  }

  /** A stretch of the run that completes one transmit command, and nothing else, offers its
      payload to the worker once; the worker takes it exactly when the radio is up, the
      level is below 2 and fewer than 16 frames wait. */
  lemma FrameIsOffered(states: seq<Station>, acts: seq<Act>, i: nat, j: nat, payload: seq<byte>) returns (k: nat)
    requires Serves(states, acts) && i <= j <= |acts|
    ensures k <= |acts|
    ensures EventsOf(states, acts, i, j) == [P.Transmit(payload)] ==>
              var x, y := states[i].worker.tx, states[j].worker.tx;
              && i <= k < j && states[k].worker.tx.accepted == x.accepted
              && if CanTake(states[k].worker) then y.accepted == x.accepted + [payload] && y.refused == x.refused
                 else y.accepted == x.accepted && y.refused == x.refused + 1
  {
    hide May, After, P.Parser.Valid, EventOf, CanTake;
    k := i;
    if EventsOf(states, acts, i, j) != [P.Transmit(payload)] {
      return;
    }
    k := TheEvent(states, acts, i, j, P.Transmit(payload));
    NoEventsNoOffers(states, acts, i, k);
    assert states[k + 1] == After(states[k], acts[k]);
    TransmitIsOffered(states[k], acts[k], payload);
    NoEventsNoOffers(states, acts, k + 1, j);
  }

  lemma ActKeepsAccepted(s: Station, act: Act)
    requires May(s, act) && s.parser.Valid()
    ensures s.worker.tx.accepted <= After(s, act).worker.tx.accepted
  {
    hide Step, Enabled, P.Parser.Valid, OpOf, After, May;
    ActPerformsOp(s, act);
    if OpOf(s, act).Some? {
      StepKeepsAccepted(s.worker, OpOf(s, act).value);
    }
  }

  lemma StepKeepsAccepted(w: Worker, op: Op)
    requires Enabled(w, op)
    ensures w.tx.accepted <= Step(w, op).tx.accepted
  {
    hide DropAll, BurstTransmit.SentAsBurst, DwellOver, ChannelHz;
  }

  lemma {:induction false} AcceptedFramesStay(states: seq<Station>, acts: seq<Act>, j: nat, n: nat)
    requires Serves(states, acts) && j <= n <= |acts|
    ensures states[j].worker.tx.accepted <= states[n].worker.tx.accepted
    decreases n
  {
    hide May, After, P.Parser.Valid;
    if j < n {
      AcceptedFramesStay(states, acts, j, n - 1);
      ParserStaysValid(states, acts, n - 1);
      assert states[n - 1 + 1] == After(states[n - 1], acts[n - 1]);
      ActKeepsAccepted(states[n - 1], acts[n - 1]);
    }
  }

  /** The terminal frames told to the host so far. */
  function Endings(s: Station): seq<Note> {
    Select(s.notes, IsEnding)
  }

  lemma OnlyOkIsReady(t: Terminal)
    ensures TerminalFrame(t).Ready? <==> t == Ok
  {
  }

  /** The host's view: if the m-th terminal frame it was sent is a 'G', the m-th frame that
      the worker accepted was delivered by a burst, and by one of its own: as many bursts
      completed before it as successes were reported before. */
  lemma ReadyMeansDelivered(states: seq<Station>, acts: seq<Act>, n: nat, m: nat) returns (b: nat)
    requires Serves(states, acts) && n <= |acts|
    requires m < |Endings(states[n])| && Endings(states[n])[m].Told? && Endings(states[n])[m].frame.Ready?
    ensures var x := states[n].worker.tx;
            && m < |x.accepted| && b < |x.bursts| && m < |x.terminals| && Delivers(x.bursts[b], x.accepted[m])
            && |SentFrames(x.bursts[..b])| == |SucceededFrames(x.terminals[..m])|
  {
    hide May, After, P.Parser.Valid, Step, Enabled, Delivers, Select, EndingNotes, TerminalFrame, Conserved, Run, Leads,
         OpsOf, StatesOf;
    HostIsTold(states, acts, n);
    EndingAt(states[n].worker.tx.terminals, m);
    OnlyOkIsReady(states[n].worker.tx.terminals[m].outcome);
    WorkerRuns(states, acts, n);
    var ops := OpsOf(states, acts, n);
    LeadsIsRun(STARTED, ops, states[n].worker);
    b := SuccessReachesTheAir(StatesOf(STARTED, ops), ops, |ops|, m);
  }

  /** The same read off the bytes: in a run without CONFIG, 'W' and reset, the 'G' and 'E'
      0x05 and 0x06 frames that the host reads are the start-up's 'G' and the terminals, and
      where the m-th of those is a 'G', the m-th accepted frame was delivered. */
  lemma HostReadsDelivery(states: seq<Station>, acts: seq<Act>, n: nat, m: nat) returns (b: nat)
    requires Serves(states, acts) && n <= |acts| && forall i :: 0 <= i < n ==> NoAck(states[i], acts[i])
    ensures AllTellable(states[n].notes)
    ensures var ts, x := TerminalsIn(DeviceFrames.ReadAll(Stream(states[n].notes))), states[n].worker.tx;
            m + 1 < |ts| && ts[m + 1].Ready? ==>
              && m < |x.accepted| && b < |x.bursts| && m < |x.terminals| && Delivers(x.bursts[b], x.accepted[m])
              && |SentFrames(x.bursts[..b])| == |SucceededFrames(x.terminals[..m])|
  {
    hide May, After, P.Parser.Valid, Delivers, Select, DeviceFrames.ReadAll, Stream, TerminalsIn, EndingFrames, EndingNotes,
         TerminalFrame;
    HostReadsTerminals(states, acts, n);
    var ts := states[n].worker.tx.terminals;
    HostIsTold(states, acts, n);
    EndingAt(ts, m);
    EndingFrameAt(ts, m);
    b := 0;
    if m < |ts| && TerminalFrame(ts[m].outcome).Ready? {
      b := ReadyMeansDelivered(states, acts, n, m);
    }
  }

  lemma {:induction false} EndingFrameAt(ts: seq<Finished>, m: nat)
    ensures |EndingFrames(ts)| == |ts|
    ensures m < |ts| ==> EndingFrames(ts)[m] == TerminalFrame(ts[m].outcome)
  {
    if ts != [] {
      EndingFrameAt(ts[..|ts| - 1], m);
    }
  }

  /** From the host's ring writes to the receivers, in any run of the service. A payload's
      'T' frame passes the ring and the parser in acts i to j-1. If the worker could take
      it, it is the m-th accepted frame, and if the m-th terminal the host is then told is a
      'G', a burst delivered the payload. */
  lemma PayloadReachesTheAir(states: seq<Station>, acts: seq<Act>, times: seq<nat>, i: nat, j: nat, n: nat,
                             payload: seq<byte>)
    returns (k: nat, m: nat, b: nat)
    requires Serves(states, acts) && i <= j <= n <= |acts|
    ensures k <= |acts| && m == |states[i].worker.tx.accepted|
    ensures CarriesFrame(states, acts, times, i, j, payload) ==>
              && i <= k < j
              && if CanTake(states[k].worker) then
                   && m < |states[n].worker.tx.accepted| && states[n].worker.tx.accepted[m] == payload
                   && (m < |Endings(states[n])| && Endings(states[n])[m].Told?
                       && Endings(states[n])[m].frame.Ready? ==>
                         b < |states[n].worker.tx.bursts| && Delivers(states[n].worker.tx.bursts[b], payload))
                 else
                   && states[j].worker.tx.accepted == states[i].worker.tx.accepted
                   && states[j].worker.tx.refused == states[i].worker.tx.refused + 1
  {
    hide May, After, P.Parser.Valid, Delivers, Select, CanTake, CarriesFrame, EventsOf, HostBytes;
    k, m, b := i, |states[i].worker.tx.accepted|, 0;
    if !CarriesFrame(states, acts, times, i, j, payload) {
      return;
    }
    FrameReachesWorker(states, acts, times, i, j, payload);
    k := FrameIsOffered(states, acts, i, j, payload);
    AcceptedFramesStay(states, acts, j, n);
    if CanTake(states[k].worker) && m < |Endings(states[n])| && Endings(states[n])[m].Told?
       && Endings(states[n])[m].frame.Ready? {
      b := ReadyMeansDelivered(states, acts, n, m);
    }
  }
}
