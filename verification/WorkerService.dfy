/** The radio worker's code: one object whose methods update its fields, each proved
    to perform its operation of the state machine in WorkerSpec. */
module WorkerService {
  import opened Bytes
  import opened WorkerSpec
  import BurstTransmit
  import RxLoop

  /** The fields of one concern are kept in one record, replaced as a whole. */
  class RadioWorker {
    var radioOk: bool
    var thermalLevel: int
    var poweredDown: bool
    var lastThermalCheckMs: u32
    var cfg: Config
    var scan: Sweep
    var tx: TxSide
    var air: Air

    ghost function State(): Worker
      reads this
    {
      Worker(radioOk, thermalLevel, poweredDown, lastThermalCheckMs, cfg, scan, tx, air)
    }

    /** The channel index stays in range. */
    ghost predicate Valid()
      reads this
    {
      scan.active ==> scan.idx == 0 || scan.idx < scan.params.count
    }

    /** A worker whose radio started. */
    constructor ()
      ensures Valid() && State() == STARTED
    {
      radioOk, thermalLevel, poweredDown, lastThermalCheckMs := true, 0, false, 0;
      cfg := Config(BOOT_HZ, MAX_SAFE_DBM, 0);
      scan := Sweep(ScanParams(902_000_000, 1_000_000, 27, 300), false, BOOT_HZ, 0, 0, 0, 0, -128, []);
      tx := TxSide([], [], 0, [], []);
      air := Air(BOOT_HZ, MAX_SAFE_DBM, true);
    }

    method Init(ok: bool)
      requires Valid()
      modifies this
      ensures Valid() && State() == Boot(old(State()), ok)
    {
      air := air.(pinHigh := true);
      air := air.(powerDbm := MAX_SAFE_DBM);
      if !ok {
        return;
      }
      air := air.(tunedHz := BOOT_HZ);
      radioOk := true;
    }

    method ApplyConfig(c: Config, tuneOk: bool) returns (applied: bool)
      requires Valid()
      modifies this
      ensures Valid() && State() == WorkerSpec.ApplyConfig(old(State()), c, tuneOk).0
      ensures applied == WorkerSpec.ApplyConfig(old(State()), c, tuneOk).1
    {
      if !radioOk {
        return false;
      }
      var clamped := c;
      var maxPwr := if thermalLevel >= 1 then THROTTLED_DBM else MAX_SAFE_DBM;
      if clamped.powerDbm > maxPwr {
        clamped := clamped.(powerDbm := maxPwr);
      }
      var pwrChanged := clamped.powerDbm != cfg.powerDbm;
      if !scan.active && clamped.freqHz == cfg.freqHz && !pwrChanged && clamped.role == cfg.role {
        return true;
      }
      scan := scan.(active := false);
      cfg := clamped;
      if clamped.freqHz > 0 {
        if !tuneOk {
          return false;
        }
        air := air.(tunedHz := clamped.freqHz);
      }
      if pwrChanged {
        air := air.(powerDbm := clamped.powerDbm);
      }
      applied := true;
    }

    method SetScanFrequency(f: u32, tuneOk: bool)
      requires Valid()
      modifies this`air, this`cfg
      ensures Valid() && State() == ScanTune(old(State()), f, tuneOk)
    {
      if tuneOk {
        air := air.(tunedHz := f);
      }
      cfg := cfg.(freqHz := f);
    }

    method StartScan(p: ScanParams, now: u32, tuneOk: bool)
      requires Valid()
      modifies this
      ensures Valid() && State() == WorkerSpec.StartScan(old(State()), p, now, tuneOk)
    {
      if !scan.active && cfg.freqHz > 0 {
        scan := scan.(homeHz := cfg.freqHz);
      }
      scan := scan.(params := p, idx := 0, frames := 0, consensus := 0, best := -128,
                    dwellUntil := U32(now + p.dwellMs), active := true);
      if radioOk && p.startHz > 0 {
        SetScanFrequency(p.startHz, tuneOk);
      }
    }

    method ScanTick(now: u32, tuneOk: bool)
      requires Valid() && scan.active
      modifies this
      ensures Valid() && State() == WorkerSpec.ScanTick(old(State()), now, tuneOk)
    {
      if scan.consensus == 0 && Before(now, scan.dwellUntil) {
        return;
      }
      var here := U32(scan.params.startHz + scan.idx * scan.params.stepHz);
      scan := scan.(reports := scan.reports + [Report(here, scan.frames, scan.consensus, scan.best)]);
      scan := scan.(idx := scan.idx + 1);
      if scan.idx >= scan.params.count {
        scan := scan.(active := false);
        if radioOk && scan.homeHz > 0 {
          SetScanFrequency(scan.homeHz, tuneOk);
        }
        return;
      }
      var f := U32(scan.params.startHz + scan.idx * scan.params.stepHz);
      scan := scan.(frames := 0, consensus := 0, best := -128, dwellUntil := U32(now + scan.params.dwellMs));
      SetScanFrequency(f, tuneOk);
    }

    method EnqueueTx(payload: seq<byte>) returns (answer: Terminal)
      requires Valid()
      modifies this
      ensures Valid() && State() == Enqueue(old(State()), payload).0
      ensures answer == Enqueue(old(State()), payload).1
    {
      if !radioOk || thermalLevel >= 2 {
        tx := tx.(refused := tx.refused + 1);
        return Busy;
      }
      if |tx.queue| >= QUEUE_CAP {
        tx := tx.(refused := tx.refused + 1);
        return Busy;
      }
      tx := tx.(queue := tx.queue + [payload], accepted := tx.accepted + [payload]);
      answer := Ok;
    }

    /** Pop every queued frame. */
    method EmptyQueue() returns (dropped: seq<seq<byte>>)
      requires Valid()
      modifies this`tx
      ensures Valid() && tx == old(tx).(queue := []) && dropped == old(tx.queue)
    {
      dropped := [];
      while tx.queue != []
        invariant dropped + tx.queue == old(tx.queue)
        invariant tx == old(tx).(queue := tx.queue)
        decreases |tx.queue|
      {
        dropped := dropped + [tx.queue[0]];
        tx := tx.(queue := tx.queue[1..]);
      }
    }

    /** Drop every queued frame, then call back one terminal for each. */
    method DrainQueue()
      requires Valid()
      modifies this`tx
      ensures Valid() && tx == Drained(old(tx))
    {
      hide DropAll;
      var dropped := EmptyQueue();
      ghost var emptied := tx;
      DropNone();
      for i := 0 to |dropped|
        invariant tx == emptied.(terminals := emptied.terminals + DropAll(dropped[..i]))
      {
        DropOneMore(dropped, i);
        tx := tx.(terminals := tx.terminals + [Finished(dropped[i], Dropped)]);
      }
      assert dropped[..|dropped|] == dropped;
    }

    /** The periodic thermal check; `reading` is the level the source asks for. */
    method ThermalTick(now: u32, reading: Option<int>, bootOk: bool, tuneOk: bool)
      requires Valid()
      modifies this
      ensures Valid() && State() == Thermal(old(State()), now, reading, bootOk, tuneOk)
    {
      hide SetLevel;
      if lastThermalCheckMs != 0 && U32(now - lastThermalCheckMs) < THERMAL_PERIOD_MS {
        return;
      }
      lastThermalCheckMs := now;
      if reading.None? {
        return;
      }
      ChangeLevel(reading.value, bootOk, tuneOk);
    }

    method ChangeLevel(nextLevel: int, bootOk: bool, tuneOk: bool)
      requires Valid()
      modifies this
      ensures Valid() && State() == SetLevel(old(State()), nextLevel, bootOk, tuneOk)
    {
      hide Drained, WorkerSpec.ApplyConfig;
      if nextLevel == thermalLevel {
        return;
      }
      var prev := thermalLevel;
      thermalLevel := nextLevel;
      if nextLevel == 2 {
        air := air.(pinHigh := false);
        poweredDown := true;
        DrainQueue();
      } else if nextLevel == 1 {
        if radioOk && !poweredDown {
          air := air.(powerDbm := THROTTLED_DBM);
        }
      } else if nextLevel == 0 {
        if poweredDown {
          var savedCfg := cfg;
          Init(bootOk);
          if bootOk {
            poweredDown := false;
            var applied := ApplyConfig(savedCfg, tuneOk);
          }
        } else if prev == 1 && radioOk {
          air := air.(powerDbm := cfg.powerDbm);
        }
      }
    }

    /** Send the oldest queued frame, if the worker may transmit. */
    method ServiceTxQueue(radio: BurstTransmit.Radio, id: u16, us: nat)
      returns (ok: bool, burstId: u16, trace: seq<BurstTransmit.Attempt>, us': nat)
      requires Valid() && BurstTransmit.Responsive(radio)
      modifies this
      ensures Valid() && us <= us' && State() == Service(old(State()), ok, burstId, trace)
      ensures Enabled(old(State()), ServiceOp(ok, burstId, trace)) && BurstTransmit.FromRadio(trace, radio)
      // throttled, it rests for 15 ms
      ensures trace != [] && old(thermalLevel) == 1 ==> us' >= 15000 && BurstTransmit.EndedBy(trace, us' - 15000)
    {
      hide BurstTransmit.FromRadio, BurstTransmit.EndedBy, BurstTransmit.SentAsBurst, BurstTransmit.Responsive;
      BurstTransmit.NothingFromRadio(radio);
      ok, burstId, trace, us' := false, 0, [], us;
      if cfg.role == RX_ONLY || scan.active || thermalLevel >= 2 {
        return;
      }
      if tx.queue == [] {
        return;
      }
      var frame := tx.queue[0];
      tx := tx.(queue := tx.queue[1..]);
      var sent;
      ok, trace, sent, burstId, us' := BurstTransmit.TransmitBurst(radio, frame, id, us);
      var burst := AirBurst(frame, ok, burstId, trace, thermalLevel, air.powerDbm, air.pinHigh, scan.active);
      tx := tx.(bursts := tx.bursts + [burst]);
      if thermalLevel == 1 {
        us' := us' + 15000;
      }
      if ok {
        tx := tx.(terminals := tx.terminals + [Finished(frame, Ok)]);
      } else {
        tx := tx.(terminals := tx.terminals + [Finished(frame, Dropped)]);
      }
    }

    /** Run the receive loop and add what it heard to the scan's counters. */
    method ReceivePackets(looks: seq<RxLoop.Look>)
      returns (returned: bool, delivered: seq<RxLoop.Rx>, ghost read: seq<RxLoop.Rx>)
      requires Valid()
      modifies this`scan
      ensures Valid() && State() == Received(old(State()), read)
      ensures returned ==> delivered == RxLoop.Deliverable(read) && LoopRan(looks, read, delivered)
      ensures ReadFrom(read, looks)
    {
      hide RxLoop.TallyOf, RxLoop.PacketsRead, RxLoop.LastTurnRead, RxLoop.Ends, RxLoop.Deliverable, RxLoop.ReadsExactly;
      var turns, tally;
      returned, turns, delivered, tally := RxLoop.Receive(looks, scan.active, scan.best);
      read := RxLoop.PacketsRead(looks[..turns]);
      scan := scan.(frames := scan.frames + tally.scanFrames,
                    consensus := scan.consensus + tally.scanConsensus,
                    best := tally.best);
    }

    /** The half of a poll that uses the radio: receive loop, then TX service. */
    method UseRadio(looks: seq<RxLoop.Look>, radio: BurstTransmit.Radio, id: u16, us: nat)
      returns (delivered: seq<RxLoop.Rx>, returned: bool, ghost ops: seq<Op>, ghost read: seq<RxLoop.Rx>,
               ghost served: Op)
      requires Valid() && BurstTransmit.Responsive(radio)
      modifies this
      ensures Valid() && Leads(old(State()), ops, State())
      ensures served.ServiceOp? && BurstTransmit.FromRadio(served.trace, radio) && ReadFrom(read, looks)
      ensures ops == RadioOps(old(State()), ReceivedOp(read), served, returned)
      ensures read != [] ==> ReceivedOp(read) in ops
      ensures returned ==> delivered == RxLoop.Deliverable(read)
      ensures radioOk == old(radioOk) && cfg == old(cfg) && thermalLevel == old(thermalLevel)
      ensures scan.active == old(scan.active) && scan.reports == old(scan.reports)
      ensures if radioOk && cfg.role != 1 then returned ==> LoopRan(looks, read, delivered)
              else returned && read == [] && delivered == []
      ensures if returned && radioOk && cfg.role != 2 && !scan.active && thermalLevel < 2 then OldestSent(old(tx), tx)
              else tx == old(tx)
    {
      hide Step, Enabled, Leads, Service, RxLoop.TallyOf, RxLoop.PacketsRead, LoopRan, OldestSent, ReadFrom,
           BurstTransmit.FromRadio;
      BurstTransmit.NothingFromRadio(radio);
      served := ServiceOp(false, 0, []);
      delivered, returned, ops, read := [], true, [], [];
      LeadsNowhere(State());
      NothingRead(looks);
      if !radioOk {
        return;
      }
      if cfg.role != TX_ONLY {
        returned, delivered, read := ReceivePackets(looks);
        ReceiveIsStep(old(State()), read);
        LeadsOn(old(State()), [], old(State()), ReceivedOp(read));
        assert [] + [ReceivedOp(read)] == [ReceivedOp(read)];
        ops := [ReceivedOp(read)];
        if !returned {
          return;
        }
      }
      if !scan.active {
        ghost var s := State();
        var ok, burstId, trace, us' := ServiceTxQueue(radio, id, us);
        ServiceIsStep(s, ok, burstId, trace);
        ServiceSends(s, ok, burstId, trace);
        served := ServiceOp(ok, burstId, trace);
        LeadsOn(old(State()), ops, s, served);
        ops := ops + [served];
      }
    }

    /** One poll of the superloop: thermal check, scan tick, receive loop, TX service.
        It performs the operations `ops` that the worker's condition calls for and hands
        up the packets `delivered` of the packets `read`; `returned` says that the
        receive loop ended within the given turns. */
    method PollOnce(now: u32, reading: Option<int>, bootOk: bool, tuneOk: bool,
                    looks: seq<RxLoop.Look>, radio: BurstTransmit.Radio, id: u16, us: nat)
      returns (delivered: seq<RxLoop.Rx>, returned: bool, ghost ops: seq<Op>, ghost read: seq<RxLoop.Rx>,
               ghost served: Op)
      requires Valid() && BurstTransmit.Responsive(radio)
      modifies this
      ensures Valid() && Leads(old(State()), ops, State())
      ensures served.ServiceOp? && BurstTransmit.FromRadio(served.trace, radio) && ReadFrom(read, looks)
      ensures ops == PollOps(old(State()), ThermalOp(now, reading, bootOk, tuneOk), ReceivedOp(read), served,
                             returned)
      ensures read != [] ==> ReceivedOp(read) in ops
      ensures returned ==> delivered == RxLoop.Deliverable(read)
      // the check comes first; the rest follows unless it cuts the radio off
      ensures ops != [] && ops[0] == ThermalOp(now, reading, bootOk, tuneOk) && InPollOrder(ops)
      ensures if radioOk && thermalLevel < 2 && cfg.role != 1 then returned ==> LoopRan(looks, read, delivered)
              else returned && read == [] && delivered == []
      ensures thermalLevel < 2 ==>
                if returned && radioOk && cfg.role != 2 && !scan.active then OldestSent(old(tx), tx) else tx == old(tx)
      ensures var checked := Thermal(old(State()), now, reading, bootOk, tuneOk);
              thermalLevel == checked.level && DwellLooked(checked, now, scan.reports)
    {
      hide Step, Enabled, Leads, WorkerSpec.ScanTick, Thermal, RxLoop.PacketsRead, RadioOps, LoopRan, OldestSent,
           DwellLooked, ReadFrom, InPollOrder, BurstTransmit.FromRadio;
      BurstTransmit.NothingFromRadio(radio);
      served := ServiceOp(false, 0, []);
      delivered, returned, ops, read := [], true, [ThermalOp(now, reading, bootOk, tuneOk)], [];
      StartLeading(State(), ops[0]);
      NothingRead(looks);
      ThermalTick(now, reading, bootOk, tuneOk);
      ghost var checked := State();
      ThermalKeepsTx(old(State()), now, reading, bootOk, tuneOk);
      TickLooks(checked, now, tuneOk);
      if thermalLevel >= 2 {
        PollIsOrdered(old(State()), ops[0], ReceivedOp([]), served, returned);
        return;
      }
      if scan.active {
        TickIsStep(State(), now, tuneOk);
        LeadsOn(old(State()), ops, State(), TickOp(now, tuneOk));
        ops := ops + [TickOp(now, tuneOk)];
        ScanTick(now, tuneOk);
      }
      ghost var s := State();
      ghost var rest;
      delivered, returned, rest, read, served := UseRadio(looks, radio, id, us);
      LeadsThrough(old(State()), ops, s, rest, State());
      PollIsOrdered(old(State()), ops[0], ReceivedOp(read), served, returned);
      ops := ops + rest;
    }
  }

  /** The receive loop ran to its end: the packets read are those of the turns up to it, and
      what is handed up is what is deliverable of them. */
  ghost predicate LoopRan(looks: seq<RxLoop.Look>, read: seq<RxLoop.Rx>, delivered: seq<RxLoop.Rx>) {
    exists turns :: 0 <= turns <= |looks| && RxLoop.Ends(looks[..turns]) && read == RxLoop.PacketsRead(looks[..turns])
                    && delivered == RxLoop.Deliverable(read)
  }

  /** The oldest frame, if any, left the queue and got its terminal. */
  ghost predicate OldestSent(x: TxSide, y: TxSide) {
    if x.queue == [] then y == x
    else
      && y.queue == x.queue[1..] && y.accepted == x.accepted && y.refused == x.refused
      && |y.terminals| == |x.terminals| + 1 && y.terminals[..|x.terminals|] == x.terminals
      && y.terminals[|x.terminals|].frame == x.queue[0]
  }

  /** A scan that is active after the thermal check, short of the cutoff, has its dwell
      looked at: one that is over, or has heard consensus, adds one report. */
  ghost predicate DwellLooked(s: Worker, now: u32, reports: seq<Report>) {
    if s.level < 2 && s.scan.active && (s.scan.consensus > 0 || I32(U32(now - s.scan.dwellUntil)) >= 0)
    then |reports| == |s.scan.reports| + 1 && reports[..|s.scan.reports|] == s.scan.reports
    else reports == s.scan.reports
  }

  lemma ServiceSends(s: Worker, ok: bool, burstId: u16, trace: seq<BurstTransmit.Attempt>)
    ensures var t := Service(s, ok, burstId, trace);
            && t == s.(tx := t.tx)
            && if s.cfg.role != 2 && !s.scan.active && s.level < 2 then OldestSent(s.tx, t.tx) else t == s
  {
  }

  lemma ThermalKeepsTx(s: Worker, now: u32, reading: Option<int>, bootOk: bool, tuneOk: bool)
    ensures Thermal(s, now, reading, bootOk, tuneOk).level < 2 ==>
              Thermal(s, now, reading, bootOk, tuneOk).tx == s.tx
  {
    hide DropAll;
  }

  lemma TickLooks(s: Worker, now: u32, tuneOk: bool)
    ensures s.level >= 2 || !s.scan.active ==> DwellLooked(s, now, s.scan.reports)
    ensures s.scan.idx < 255 && s.level < 2 && s.scan.active ==>
              var t := WorkerSpec.ScanTick(s, now, tuneOk);
              && DwellLooked(s, now, t.scan.reports)
              && t.tx == s.tx && t.level == s.level && t.radioOk == s.radioOk && t.cfg.role == s.cfg.role
  {
    hide ChannelHz;
  }

  /** Where an operation comes in a poll. */
  function Rank(op: Op): nat {
    match op
    case ThermalOp(_, _, _, _) => 0
    case TickOp(_, _) => 1
    case ReceivedOp(_) => 2
    case ServiceOp(_, _, _) => 3
    case _ => 4
  }

  /** The thermal check, then the scan's tick, then reception, then transmission, each at
      most once. */
  ghost predicate InPollOrder(ops: seq<Op>) {
    && (forall i :: 0 <= i < |ops| ==> Rank(ops[i]) < 4)
    && forall i, j :: 0 <= i < j < |ops| ==> Rank(ops[i]) < Rank(ops[j])
  }

  lemma PollIsOrdered(s: Worker, thermal: Op, received: Op, served: Op, returned: bool)
    requires thermal.ThermalOp? && received.ReceivedOp? && served.ServiceOp?
    ensures InPollOrder(PollOps(s, thermal, received, served, returned))
  {
    hide Thermal, WorkerSpec.ScanTick;
  }

  /** These are the packets read in some number of the given turns, in order. */
  ghost predicate ReadFrom(read: seq<RxLoop.Rx>, looks: seq<RxLoop.Look>) {
    exists n :: 0 <= n <= |looks| && read == RxLoop.PacketsRead(looks[..n])
  }

  lemma NothingRead(looks: seq<RxLoop.Look>)
    ensures ReadFrom([], looks)
  {
    assert RxLoop.PacketsRead(looks[..0]) == [];
  }

  /** No reception for a transmit-only role; no service during a scan, or before the
      receive loop has ended. */
  ghost function RadioOps(s: Worker, received: Op, served: Op, returned: bool): seq<Op> {
    var a := if s.radioOk && s.cfg.role != TX_ONLY then [received] else [];
    if s.radioOk && !s.scan.active && returned then a + [served] else a
  }

  /** The operations of one poll: nothing after a cutoff; the tick only of an active
      scan; then what the radio is used for. */
  ghost function PollOps(s: Worker, thermal: Op, received: Op, served: Op, returned: bool): seq<Op>
    requires thermal.ThermalOp?
  {
    var s1 := Thermal(s, thermal.checkMs, thermal.reading, thermal.booted, thermal.tuned);
    var tick := TickOp(thermal.checkMs, thermal.tuned);
    if s1.level >= 2 then [thermal]
    else if s1.scan.active && s1.scan.idx < 255 then
      [thermal, tick] + RadioOps(WorkerSpec.ScanTick(s1, thermal.checkMs, thermal.tuned), received, served, returned)
    else
      [thermal] + RadioOps(s1, received, served, returned)
  }

  lemma LeadsNowhere(s: Worker)
    ensures Leads(s, [], s)
  {
  }

  lemma DropNone()
    ensures DropAll([]) == []
  {
  }

  lemma TailOfTake<X>(s: seq<X>, n: nat)
    requires 1 <= n <= |s|
    ensures s[..n][1..] == s[1..][..n - 1] && s[..n][0] == s[0]
  {
  }

  lemma {:induction false} DropOneMore(fs: seq<seq<byte>>, i: nat)
    requires i < |fs|
    ensures DropAll(fs[..i + 1]) == DropAll(fs[..i]) + [Finished(fs[i], Dropped)]
  {
    if i > 0 {
      DropOneMore(fs[1..], i - 1);
      TailOfTake(fs, i + 1);
      TailOfTake(fs, i);
    }
  }

  lemma StartLeading(s: Worker, op: Op)
    requires op.ThermalOp?
    ensures Leads(s, [op], Thermal(s, op.checkMs, op.reading, op.booted, op.tuned))
  {
  }

  lemma TickIsStep(s: Worker, now: u32, tuneOk: bool)
    requires s.scan.active && (s.scan.idx == 0 || s.scan.idx < s.scan.params.count)
    ensures Enabled(s, TickOp(now, tuneOk))
    ensures Step(s, TickOp(now, tuneOk)) == WorkerSpec.ScanTick(s, now, tuneOk)
  {
  }

  lemma ReceiveIsStep(s: Worker, read: seq<RxLoop.Rx>)
    ensures Enabled(s, ReceivedOp(read)) && Step(s, ReceivedOp(read)) == Received(s, read)
  {
  }

  lemma ServiceIsStep(s: Worker, ok: bool, burstId: u16, trace: seq<BurstTransmit.Attempt>)
    requires Enabled(s, ServiceOp(ok, burstId, trace))
    ensures Step(s, ServiceOp(ok, burstId, trace)) == Service(s, ok, burstId, trace)
  {
  }
}
