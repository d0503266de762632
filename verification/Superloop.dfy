/** The program's main loop: the server's poll, then the worker's poll with its callbacks.
    Each turn extends the run of the service that led to the object's state. */
module Superloop {
  import opened Bytes
  import opened HostServer
  import opened ServiceSpec
  import opened WorkerSpec
  import opened WorkerService
  import DeviceFrames
  import BurstTransmit
  import P = CommandParser
  import Ring = IpcRing
  import RxLoop

  // ----- what a poll of the worker tells the host -----

  function WorkerActs(ops: seq<Op>): (acts: seq<Act>)
    ensures |acts| == |ops|
  {
    seq(|ops|, i requires 0 <= i < |ops| => WorkerAct(ops[i]))
  }

  ghost predicate ByWorker(op: Op) {
    && (op.ThermalOp? || op.TickOp? || op.ServiceOp? || op.ReceivedOp?)
    && (op.ReceivedOp? ==> forall i :: 0 <= i < |op.read| ==> Receivable(op.read[i]))
  }

  /** The callbacks of operations performed one after the other. */
  ghost function AllCallbacks(w: Worker, ops: seq<Op>): seq<Note>
    decreases |ops|
  {
    if ops == [] || !Enabled(w, ops[0]) then [] else
      Callbacks(w, ops[0], Step(w, ops[0])) + AllCallbacks(Step(w, ops[0]), ops[1..])
  }

  lemma {:induction false} WorkerReaches(acts: seq<Act>, s: Station, ops: seq<Op>, w: Worker)
    requires Reaches(acts, s) && Leads(s.worker, ops, w) && forall i :: 0 <= i < |ops| ==> ByWorker(ops[i])
    ensures Reaches(acts + WorkerActs(ops), s.(worker := w, notes := s.notes + AllCallbacks(s.worker, ops)))
    decreases |ops|
  {
    hide Reaches, Step, Enabled, Callbacks;
    if ops == [] {
      assert acts + WorkerActs(ops) == acts && s.notes + [] == s.notes;
    } else {
      ReachesOn(acts, s, WorkerAct(ops[0]));
      var t := After(s, WorkerAct(ops[0]));
      WorkerReaches(acts + [WorkerAct(ops[0])], t, ops[1..], w);
      assert (acts + [WorkerAct(ops[0])]) + WorkerActs(ops[1..]) == acts + WorkerActs(ops);
      var c, cs := Callbacks(s.worker, ops[0], t.worker), AllCallbacks(t.worker, ops[1..]);
      assert s.notes + (c + cs) == (s.notes + c) + cs;
    }
  }

  lemma ThermalTells(w: Worker, op: Op)
    requires op.ThermalOp? && Enabled(w, op)
    ensures Step(w, op) == Thermal(w, op.checkMs, op.reading, op.booted, op.tuned)
    ensures var w' := Step(w, op);
            && w'.scan.reports == w.scan.reports && w.tx.terminals <= w'.tx.terminals
            && (w'.level < 2 ==> w'.tx.terminals == w.tx.terminals)
            && Callbacks(w, op, w') == EndingNotes(New(w.tx.terminals, w'.tx.terminals))
  {
    hide DropAll, EndingNotes;
    assert New(w.scan.reports, w.scan.reports) == [];
  }

  lemma TickTells(w: Worker, op: Op)
    requires op.TickOp? && Enabled(w, op)
    ensures var w' := Step(w, op);
            && w.scan.reports <= w'.scan.reports && w'.tx.terminals == w.tx.terminals
            && Callbacks(w, op, w') == ReportNotes(New(w.scan.reports, w'.scan.reports))
  {
    hide ReportNotes, DwellOver, ChannelHz;
    assert New(w.tx.terminals, w.tx.terminals) == [];
  }

  lemma ReceiveTells(w: Worker, op: Op)
    requires op.ReceivedOp?
    ensures var w' := Step(w, op);
            && w'.scan.reports == w.scan.reports && w'.tx.terminals == w.tx.terminals
            && Callbacks(w, op, w') == HeardNotes(RxLoop.Deliverable(op.read))
  {
    hide HeardNotes, RxLoop.TallyOf, RxLoop.Deliverable;
    assert New(w.tx.terminals, w.tx.terminals) == [] && New(w.scan.reports, w.scan.reports) == [];
  }

  lemma ServiceTells(w: Worker, op: Op)
    requires op.ServiceOp? && Enabled(w, op)
    ensures var w' := Step(w, op);
            && w'.scan.reports == w.scan.reports && w.tx.terminals <= w'.tx.terminals
            && Callbacks(w, op, w') == EndingNotes(New(w.tx.terminals, w'.tx.terminals))
  {
    hide EndingNotes, BurstTransmit.SentAsBurst;
    assert New(w.scan.reports, w.scan.reports) == [];
  }

  lemma CallbacksOfOne(w: Worker, op: Op, rest: seq<Op>, w': Worker)
    requires Leads(w, [op] + rest, w')
    ensures Enabled(w, op) && Leads(Step(w, op), rest, w')
    ensures AllCallbacks(w, [op] + rest) == Callbacks(w, op, Step(w, op)) + AllCallbacks(Step(w, op), rest)
  {
    hide Step, Enabled, Callbacks;
    assert ([op] + rest)[0] == op && ([op] + rest)[1..] == rest;
  }

  lemma CallbacksOfNone(w: Worker, w': Worker)
    requires Leads(w, [], w')
    ensures w == w' && AllCallbacks(w, []) == []
  {
  }

  /** The half of a poll that uses the radio: packets handed up, then a terminal. */
  lemma RadioTells(w: Worker, read: seq<RxLoop.Rx>, served: Op, w': Worker)
    requires served.ServiceOp?
    requires var ops := RadioOps(w, ReceivedOp(read), served, true);
             Leads(w, ops, w') && (read != [] ==> ReceivedOp(read) in ops)
    ensures w'.scan.reports == w.scan.reports && w.tx.terminals <= w'.tx.terminals
    ensures AllCallbacks(w, RadioOps(w, ReceivedOp(read), served, true))
            == HeardNotes(RxLoop.Deliverable(read)) + EndingNotes(New(w.tx.terminals, w'.tx.terminals))
  {
    hide Step, Enabled, Callbacks, Leads, AllCallbacks;
    var recv := ReceivedOp(read);
    var a: seq<Op> := if w.radioOk && w.cfg.role != TX_ONLY then [recv] else [];
    var b: seq<Op> := if w.radioOk && !w.scan.active then [served] else [];
    assert RadioOps(w, recv, served, true) == a + b;
    var w1 := w;
    if a != [] {
      CallbacksOfOne(w, recv, b, w');
      ReceiveTells(w, recv);
      w1 := Step(w, recv);
    } else {
      assert a + b == b;
    }
    if b != [] {
      assert b == [served] + [];
      CallbacksOfOne(w1, served, [], w');
      ServiceTells(w1, served);
      CallbacksOfNone(Step(w1, served), w');
    } else {
      CallbacksOfNone(w1, w');
    }
    NoNews(w.tx.terminals);
  }

  lemma NoNews(ts: seq<Finished>)
    ensures EndingNotes(New(ts, ts)) == []
    ensures HeardNotes(RxLoop.Deliverable([])) == [] && ReportNotes([]) == []
  {
  }

  /** What a poll tells the host: its reports, the packets handed up, its terminals. */
  function PollNotes(w: Worker, delivered: seq<RxLoop.Rx>, w': Worker): seq<Note> {
    ReportNotes(New(w.scan.reports, w'.scan.reports)) + HeardNotes(delivered)
    + EndingNotes(New(w.tx.terminals, w'.tx.terminals))
  }

  lemma TickedTells(w: Worker, tick: Op, read: seq<RxLoop.Rx>, served: Op, w': Worker)
    requires tick.TickOp? && served.ServiceOp? && w.scan.idx < 255
    requires var rest := RadioOps(WorkerSpec.ScanTick(w, tick.tickMs, tick.tuned), ReceivedOp(read), served, true);
             Leads(w, [tick] + rest, w') && (read != [] ==> ReceivedOp(read) in [tick] + rest)
    ensures w.scan.reports <= w'.scan.reports && w.tx.terminals <= w'.tx.terminals
    ensures AllCallbacks(w, [tick] + RadioOps(WorkerSpec.ScanTick(w, tick.tickMs, tick.tuned), ReceivedOp(read),
                                              served, true))
            == PollNotes(w, RxLoop.Deliverable(read), w')
  {
    hide Enabled, Callbacks, Leads, AllCallbacks, WorkerSpec.ScanTick, RadioOps, RxLoop.Deliverable,
         ReportNotes, HeardNotes, EndingNotes;
    var w2 := WorkerSpec.ScanTick(w, tick.tickMs, tick.tuned);
    var rest := RadioOps(w2, ReceivedOp(read), served, true);
    CallbacksOfOne(w, tick, rest, w');
    TickTells(w, tick);
    assert Step(w, tick) == w2;
    RadioTells(w2, read, served, w');
    var r, h, e := ReportNotes(New(w.scan.reports, w2.scan.reports)), HeardNotes(RxLoop.Deliverable(read)),
                   EndingNotes(New(w.tx.terminals, w'.tx.terminals));
    assert r + (h + e) == r + h + e;
  }

  lemma UntickedTells(w: Worker, read: seq<RxLoop.Rx>, served: Op, w': Worker)
    requires served.ServiceOp?
    requires var rest := RadioOps(w, ReceivedOp(read), served, true);
             Leads(w, rest, w') && (read != [] ==> ReceivedOp(read) in rest)
    ensures w.scan.reports <= w'.scan.reports && w.tx.terminals <= w'.tx.terminals
    ensures AllCallbacks(w, RadioOps(w, ReceivedOp(read), served, true))
            == PollNotes(w, RxLoop.Deliverable(read), w')
  {
    hide Enabled, Callbacks, Leads, AllCallbacks, RadioOps, RxLoop.Deliverable, ReportNotes, HeardNotes, EndingNotes;
    RadioTells(w, read, served, w');
    NoNews(w.tx.terminals);
    assert New(w.scan.reports, w.scan.reports) == [];
    var h, e := HeardNotes(RxLoop.Deliverable(read)), EndingNotes(New(w.tx.terminals, w'.tx.terminals));
    assert [] + h + e == h + e;
  }

  /** The callbacks of a whole poll, operation by operation, are these notes. */
  lemma PollTells(w: Worker, thermal: Op, read: seq<RxLoop.Rx>, served: Op, w': Worker)
    requires thermal.ThermalOp? && served.ServiceOp?
    requires var ops := PollOps(w, thermal, ReceivedOp(read), served, true);
             Leads(w, ops, w') && (read != [] ==> ReceivedOp(read) in ops)
    ensures w.scan.reports <= w'.scan.reports && w.tx.terminals <= w'.tx.terminals
    ensures AllCallbacks(w, PollOps(w, thermal, ReceivedOp(read), served, true))
            == PollNotes(w, RxLoop.Deliverable(read), w')
  {
    hide Enabled, Callbacks, Leads, AllCallbacks, WorkerSpec.ScanTick, Thermal, RadioOps, RxLoop.Deliverable,
         ReportNotes, HeardNotes, EndingNotes, Step;
    var w1 := Thermal(w, thermal.checkMs, thermal.reading, thermal.booted, thermal.tuned);
    var recv, tick := ReceivedOp(read), TickOp(thermal.checkMs, thermal.tuned);
    NoNews(w.tx.terminals);
    assert New(w.scan.reports, w.scan.reports) == [];
    if w1.level >= 2 {
      assert PollOps(w, thermal, recv, served, true) == [thermal] + [];
      CallbacksOfOne(w, thermal, [], w');
      ThermalTells(w, thermal);
      CallbacksOfNone(w1, w');
    } else if w1.scan.active && w1.scan.idx < 255 {
      var rest := [tick] + RadioOps(WorkerSpec.ScanTick(w1, tick.tickMs, tick.tuned), recv, served, true);
      assert PollOps(w, thermal, recv, served, true) == [thermal] + rest;
      CallbacksOfOne(w, thermal, rest, w');
      ThermalTells(w, thermal);
      TickedTells(w1, tick, read, served, w');
    } else {
      var rest := RadioOps(w1, recv, served, true);
      assert PollOps(w, thermal, recv, served, true) == [thermal] + rest;
      CallbacksOfOne(w, thermal, rest, w');
      ThermalTells(w, thermal);
      UntickedTells(w1, read, served, w');
    }
  }

  lemma PollOpsAreTheWorkers(w: Worker, thermal: Op, read: seq<RxLoop.Rx>, served: Op)
    requires thermal.ThermalOp? && served.ServiceOp? && forall i :: 0 <= i < |read| ==> Receivable(read[i])
    ensures var ops := PollOps(w, thermal, ReceivedOp(read), served, true);
            forall i :: 0 <= i < |ops| ==> ByWorker(ops[i])
  {
    hide Thermal, WorkerSpec.ScanTick;
  }

  lemma {:induction false} ReadsAreReceivable(looks: seq<RxLoop.Look>)
    requires forall i :: 0 <= i < |looks| ==> Receivable(looks[i].rx)
    ensures forall i :: 0 <= i < |RxLoop.PacketsRead(looks)| ==> Receivable(RxLoop.PacketsRead(looks)[i])
  {
    if looks != [] {
      ReadsAreReceivable(looks[..|looks| - 1]);
    }
  }

  lemma PollIsReceivable(read: seq<RxLoop.Rx>, looks: seq<RxLoop.Look>)
    requires ReadFrom(read, looks) && forall i :: 0 <= i < |looks| ==> Receivable(looks[i].rx)
    ensures forall i :: 0 <= i < |read| ==> Receivable(read[i])
    ensures forall i :: 0 <= i < |RxLoop.Deliverable(read)| ==> Receivable(RxLoop.Deliverable(read)[i])
  {
    hide RxLoop.PacketsRead, Receivable;
    var n :| 0 <= n <= |looks| && read == RxLoop.PacketsRead(looks[..n]);
    ReadsAreReceivable(looks[..n]);
    RxLoop.DeliversPrefix(read);
  }

  lemma PollReaches(acts: seq<Act>, s: Station, thermal: Op, read: seq<RxLoop.Rx>, served: Op, w: Worker)
    requires Reaches(acts, s) && thermal.ThermalOp? && served.ServiceOp?
    requires forall i :: 0 <= i < |read| ==> Receivable(read[i])
    requires var ops := PollOps(s.worker, thermal, ReceivedOp(read), served, true);
             Leads(s.worker, ops, w) && (read != [] ==> ReceivedOp(read) in ops)
    ensures Reaches(acts + WorkerActs(PollOps(s.worker, thermal, ReceivedOp(read), served, true)),
                    s.(worker := w, notes := s.notes + PollNotes(s.worker, RxLoop.Deliverable(read), w)))
  {
    hide *;
    var ops := PollOps(s.worker, thermal, ReceivedOp(read), served, true);
    PollOpsAreTheWorkers(s.worker, thermal, read, served);
    WorkerReaches(acts, s, ops, w);
    PollTells(s.worker, thermal, read, served, w);
  }

  lemma PollExtends(acts: seq<Act>, s: Station, thermal: Op, read: seq<RxLoop.Rx>, served: Op, w: Worker,
                    looks: seq<RxLoop.Look>)
    requires Reaches(acts, s) && thermal.ThermalOp? && served.ServiceOp?
    requires ReadFrom(read, looks) && forall i :: 0 <= i < |looks| ==> Receivable(looks[i].rx)
    requires var ops := PollOps(s.worker, thermal, ReceivedOp(read), served, true);
             Leads(s.worker, ops, w) && (read != [] ==> ReceivedOp(read) in ops)
    ensures Reaches(acts + WorkerActs(PollOps(s.worker, thermal, ReceivedOp(read), served, true)),
                    s.(worker := w, notes := s.notes + PollNotes(s.worker, RxLoop.Deliverable(read), w)))
    ensures s.worker.scan.reports <= w.scan.reports && s.worker.tx.terminals <= w.tx.terminals
    ensures forall i :: 0 <= i < |RxLoop.Deliverable(read)| ==> Receivable(RxLoop.Deliverable(read)[i])
  {
    hide *;
    PollIsReceivable(read, looks);
    PollReaches(acts, s, thermal, read, served, w);
    PollTells(s.worker, thermal, read, served, w);
  }

  lemma HostReaches(acts: seq<Act>, s: Station, buf: seq<byte>)
    requires Reaches(acts, s) && s.input.region.Valid() && |buf| <= Ring.CAP
    ensures Reaches(acts + [HostAct(buf)], s.(input := s.input.(region := Ring.Written(s.input.region, buf))))
  {
    hide Reaches;
    ReachesOn(acts, s, HostAct(buf));
  }

  // ----- the code -----

  /** The service that `main` sets up. */
  class Service {
    const server: SerialServer
    /** Everything done since start-up. */
    ghost var acts: seq<Act>

    ghost predicate Valid()
      reads this, server, server.worker, server.out, server.out.ring
      reads server.reader, server.reader.rxBuf, server.reader.ring, server.reader.ring.data
      reads server.parser, server.parser.configBody, server.parser.windowBody, server.parser.txBuf, server.parser.qBuf
    {
      server.Valid() && server.ValidInput() && Reaches(acts, server.State())
    }

    constructor (server: SerialServer, around: Around)
      requires server.Valid() && server.ValidInput() && server.notes == [] && |around.stats| == DeviceFrames.STATS_LEN
      requires server.parser.State() == P.INITIAL && server.worker.State() == STARTED
      requires var r := server.reader.State();
               r.region.head == 0 && r.region.tail == 0 && r.ahead == []
      modifies server, server.out, server.out.ring, server.out.ring.data
      ensures Valid() && this.server == server && acts == []
      ensures server.State() == Started(old(server.reader.State()).region.data, around)
    {
      this.server := server;
      acts := [];
      new;
      hide Reaches, Sent;
      ghost var data := server.reader.State().region.data;
      server.Init(around);
      ReachesStart(data, around);
    }

    /** Between turns the host, on its core, writes to the incoming ring. */
    method HostWrite(buf: seq<byte>)
      requires Valid() && |buf| <= Ring.CAP
      modifies this`acts, server.reader.ring, server.reader.ring.data
      ensures Valid() && acts == old(acts) + [HostAct(buf)]
      ensures server.notes == old(server.notes)
    {
      hide Reaches, AllTellable, Stream, P.Parser.Valid, RadioWorker.Valid, Ring.Written;
      ghost var s := server.State();
      server.reader.ring.WriteAll(buf);
      HostReaches(acts, s, buf);
      acts := acts + [HostAct(buf)];
    }

    /** Forward what the worker's poll called back since it was in state `w`, in the order
        in which it called. */
    method Forward(reports: nat, delivered: seq<RxLoop.Rx>, terminals: nat, ghost w: Worker)
      requires server.Valid()
      requires w.scan.reports <= server.worker.scan.reports && reports == |w.scan.reports|
      requires w.tx.terminals <= server.worker.tx.terminals && terminals == |w.tx.terminals|
      requires forall i :: 0 <= i < |delivered| ==> Receivable(delivered[i])
      modifies server`notes, server.out, server.out.ring, server.out.ring.data
      ensures server.Valid()
      ensures server.notes == old(server.notes) + PollNotes(w, delivered, server.worker.State())
      ensures Sent(old(server.out.ring.State()), server.notes[|old(server.notes)|..], server.out.ring.State())
    {
      hide Sent, Stream, AllTellable, Receivable, ReportNotes, HeardNotes, EndingNotes;
      ghost var r := server.out.ring.State();
      ForwardReports(server.worker.scan.reports[reports..]);
      ghost var n1, r1 := server.notes, server.out.ring.State();
      ForwardPackets(delivered);
      ghost var n2, r2 := server.notes, server.out.ring.State();
      ForwardTerminals(server.worker.tx.terminals[terminals..]);
      SentMore(r, ReportNotes(server.worker.scan.reports[reports..]), r1, HeardNotes(delivered), r2);
      SentMore(r, ReportNotes(server.worker.scan.reports[reports..]) + HeardNotes(delivered), r2,
               EndingNotes(server.worker.tx.terminals[terminals..]), server.out.ring.State());
      assert server.notes == old(server.notes) + PollNotes(w, delivered, server.worker.State());
    }

    method ForwardReports(rs: seq<Report>)
      requires server.Valid()
      modifies server`notes, server.out, server.out.ring, server.out.ring.data
      ensures server.Valid() && server.notes == old(server.notes) + ReportNotes(rs)
      ensures Sent(old(server.out.ring.State()), ReportNotes(rs), server.out.ring.State())
    {
      hide Sent, Stream, AllTellable, ReportFrames;
      ghost var r := server.out.ring.State();
      SentNothing(r);
      for i := 0 to |rs|
        invariant server.Valid()
        invariant server.notes == old(server.notes) + ReportNotes(rs[..i])
        invariant Sent(r, ReportNotes(rs[..i]), server.out.ring.State())
      {
        ghost var r1 := server.out.ring.State();
        server.OnWorkerScan(rs[i]);
        SentMore(r, ReportNotes(rs[..i]), r1, Tell(Scanning, ReportFrames(rs[i])), server.out.ring.State());
        assert rs[..i + 1][..i] == rs[..i];
      }
      assert rs[..|rs|] == rs;
    }

    method ForwardPackets(delivered: seq<RxLoop.Rx>)
      requires server.Valid() && forall i :: 0 <= i < |delivered| ==> Receivable(delivered[i])
      modifies server`notes, server.out, server.out.ring, server.out.ring.data
      ensures server.Valid() && server.notes == old(server.notes) + HeardNotes(delivered)
      ensures Sent(old(server.out.ring.State()), HeardNotes(delivered), server.out.ring.State())
    {
      hide Sent, Stream, AllTellable, Receivable;
      ghost var r := server.out.ring.State();
      SentNothing(r);
      for i := 0 to |delivered|
        invariant server.Valid()
        invariant server.notes == old(server.notes) + HeardNotes(delivered[..i])
        invariant Sent(r, HeardNotes(delivered[..i]), server.out.ring.State())
      {
        ghost var r1 := server.out.ring.State();
        server.OnWorkerRx(delivered[i]);
        SentMore(r, HeardNotes(delivered[..i]), r1,
                 [Told(Reception, DeviceFrames.Received(delivered[i].pkt, delivered[i].rssi))],
                 server.out.ring.State());
        assert delivered[..i + 1][..i] == delivered[..i];
      }
      assert delivered[..|delivered|] == delivered;
    }

    method ForwardTerminals(ts: seq<Finished>)
      requires server.Valid()
      modifies server`notes, server.out, server.out.ring, server.out.ring.data
      ensures server.Valid() && server.notes == old(server.notes) + EndingNotes(ts)
      ensures Sent(old(server.out.ring.State()), EndingNotes(ts), server.out.ring.State())
    {
      hide Sent, Stream, AllTellable, TerminalFrame;
      ghost var r := server.out.ring.State();
      SentNothing(r);
      for i := 0 to |ts|
        invariant server.Valid()
        invariant server.notes == old(server.notes) + EndingNotes(ts[..i])
        invariant Sent(r, EndingNotes(ts[..i]), server.out.ring.State())
      {
        ghost var r1 := server.out.ring.State();
        server.OnWorkerTerminal(ts[i].outcome);
        SentMore(r, EndingNotes(ts[..i]), r1, [Told(Ending, TerminalFrame(ts[i].outcome))],
                 server.out.ring.State());
        assert ts[..i + 1][..i] == ts[..i];
      }
      assert ts[..|ts|] == ts;
    }

    /** The worker's poll and its callbacks, if its receive loop ends within `looks`. */
    method PollWorker(now: u32, reading: Option<int>, bootOk: bool, tuneOk: bool, looks: seq<RxLoop.Look>,
                      radio: BurstTransmit.Radio, id: u16, us: nat)
      returns (finished: bool, ghost read: seq<RxLoop.Rx>, ghost served: Op)
      requires Valid() && BurstTransmit.Responsive(radio)
      requires forall i :: 0 <= i < |looks| ==> Receivable(looks[i].rx)
      modifies this`acts, server`notes, server.worker, server.out, server.out.ring, server.out.ring.data
      ensures server.Valid() && server.ValidInput()
      ensures served.ServiceOp? && BurstTransmit.FromRadio(served.trace, radio) && ReadFrom(read, looks)
      ensures server.reader.State() == old(server.reader.State())
      ensures finished ==>
                && Valid() && old(server.notes) <= server.notes
                && acts == old(acts) + WorkerActs(PollOps(old(server.worker.State()),
                                                          ThermalOp(now, reading, bootOk, tuneOk),
                                                          ReceivedOp(read), served, true))
                && Sent(old(server.out.ring.State()), server.notes[|old(server.notes)|..], server.out.ring.State())
    {
      hide Sent, Stream, AllTellable, Receivable, ReportNotes, HeardNotes, EndingNotes, Reaches, Leads, PollOps,
           RxLoop.Deliverable, ReadFrom, BurstTransmit.FromRadio, LoopRan, OldestSent, DwellLooked, InPollOrder, Thermal,
           Ring.Region.View, PollNotes, P.Parser.Valid, RadioWorker.Valid, WorkerActs;
      ghost var s := server.State();
      ghost var thermal := ThermalOp(now, reading, bootOk, tuneOk);
      var reports, terminals := |server.worker.scan.reports|, |server.worker.tx.terminals|;
      var delivered;
      ghost var ops;
      delivered, finished, ops, read, served := server.worker.PollOnce(now, reading, bootOk, tuneOk, looks, radio, id, us);
      if finished {
        PollExtends(acts, s, thermal, read, served, server.worker.State(), looks);
        Forward(reports, delivered, terminals, s.worker);
        acts := acts + WorkerActs(ops);
      }
    }

    /** One turn of the loop. If the receive loop ends within `looks`, the turn extends the
        run since start-up by the bytes read, which bring it to `mid`, and the
        operations that a poll from there calls for; the bytes are those queued, and the
        outgoing ring carries what was told. */
    method Turn(arounds: nat -> Around, now: u32, reading: Option<int>, bootOk: bool, tuneOk: bool,
                looks: seq<RxLoop.Look>, radio: BurstTransmit.Radio, id: u16, us: nat)
      returns (finished: bool, ghost bytes: seq<byte>, ghost mid: Station, ghost read: seq<RxLoop.Rx>, ghost served: Op)
      requires Valid() && BurstTransmit.Responsive(radio)
      requires forall n :: |arounds(n).stats| == DeviceFrames.STATS_LEN
      requires forall i :: 0 <= i < |looks| ==> Receivable(looks[i].rx)
      modifies this`acts, server, server.reader, server.reader.rxBuf, server.reader.ring
      modifies server.parser, server.parser.configBody, server.parser.windowBody, server.parser.txBuf,
               server.parser.qBuf
      modifies server.worker, server.out, server.out.ring, server.out.ring.data
      ensures server.Valid() && server.ValidInput()
      ensures served.ServiceOp? && BurstTransmit.FromRadio(served.trace, radio) && ReadFrom(read, looks)
      ensures Reaches(old(acts) + PollActs(bytes, arounds), mid)
      ensures finished ==>
                && Valid()
                && acts == old(acts) + PollActs(bytes, arounds)
                           + WorkerActs(PollOps(mid.worker, ThermalOp(now, reading, bootOk, tuneOk), ReceivedOp(read),
                                                served, true))
      ensures HandedOn(old(server.reader.State()), bytes, server.reader.State())
      ensures old(server.reader.State()).region.Sane() ==> server.reader.State().Queue() == []
      ensures finished ==>
                && old(server.notes) <= server.notes
                && Sent(old(server.out.ring.State()), server.notes[|old(server.notes)|..], server.out.ring.State())
    {
      hide Sent, Stream, AllTellable, Receivable, Reaches, PollOps, ReadFrom, BurstTransmit.FromRadio,
           Ring.Region.View, Ring.Region.Sane,
           HandedOn, Ring.Reading.Queue, PollActs, WorkerActs, P.Parser.Valid, RadioWorker.Valid;
      ghost var told, r := server.notes, server.out.ring.State();
      bytes := server.Poll(arounds, acts);
      acts := acts + PollActs(bytes, arounds);
      mid := server.State();
      ghost var told1, r1 := server.notes, server.out.ring.State();
      finished, read, served := PollWorker(now, reading, bootOk, tuneOk, looks, radio, id, us);
      if finished {
        SentMore(r, told1[|told|..], r1, server.notes[|told1|..], server.out.ring.State());
        assert server.notes[|told|..] == told1[|told|..] + server.notes[|told1|..];
      }
    }
  }
}
