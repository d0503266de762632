/** Scan reports, received packets and statistics as a host reads them from the service's
    bytes, over whole runs. */
module HostReports {
  import opened Bytes
  import opened DeviceFrames
  import opened HostContract
  import opened HostView
  import opened ServiceSafety
  import opened ServiceSpec
  import opened WorkerSpec
  import BurstTransmit
  import HostSafety
  import P = CommandParser
  import RxLoop

  // ----- kinds of frames -----

  predicate IsReport(f: Frame) {
    f.Diag? && 50 <= f.event <= 53
  }

  predicate IsPacket(f: Frame) {
    f.Received?
  }

  predicate IsStats(f: Frame) {
    f.Stats?
  }

  function Sift(fs: seq<Frame>, p: Frame -> bool): seq<Frame> {
    if fs == [] then [] else Sift(fs[..|fs| - 1], p) + if p(fs[|fs| - 1]) then [fs[|fs| - 1]] else []
  }

  /** The frames of one kind among everything told. */
  function Shown(notes: seq<Note>, p: Frame -> bool): seq<Frame> {
    Sift(FramesTold(notes), p)
  }

  lemma {:induction false} SiftConcat(a: seq<Frame>, b: seq<Frame>, p: Frame -> bool)
    ensures Sift(a + b, p) == Sift(a, p) + Sift(b, p)
  {
    if b == [] {
      assert a + b == a;
    } else {
      LastOfConcat(a, b);
      SiftConcat(a, b[..|b| - 1], p);
    }
  }

  lemma ShownConcat(a: seq<Note>, b: seq<Note>, p: Frame -> bool)
    ensures Shown(a + b, p) == Shown(a, p) + Shown(b, p)
  {
    ResetsConcat(a, b);
    SiftConcat(FramesTold(a), FramesTold(b), p);
  }

  lemma ShownOne(n: Note, p: Frame -> bool)
    ensures Shown([n], p) == if n.Told? && p(n.frame) then [n.frame] else []
  {
    OneNote(n);
    if n.Told? {
      assert [n.frame][..0] == [] && Sift([], p) == [];
    }
  }

  lemma NothingShown(p: Frame -> bool)
    ensures Shown([], p) == []
  {
  }

  lemma {:induction false} ShownNone(notes: seq<Note>, p: Frame -> bool)
    requires forall i :: 0 <= i < |notes| && notes[i].Told? ==> !p(notes[i].frame)
    ensures Shown(notes, p) == []
  {
    hide Shown;
    if notes == [] {
      NothingShown(p);
    } else {
      var n := |notes| - 1;
      ShownNone(notes[..n], p);
      ShownConcat(notes[..n], [notes[n]], p);
      ShownOne(notes[n], p);
      assert notes == notes[..n] + [notes[n]];
    }
  }

  // ----- what is to be shown -----

  /** Diagnostics 50 to 53 of each report: frequency, packets, consensus packets, and the best
      strength shifted by 128. */
  function Measured(rs: seq<Report>): (fs: seq<Frame>)
    ensures |fs| == 4 * |rs|
  {
    if rs == [] then [] else
      var r := rs[|rs| - 1];
      Measured(rs[..|rs| - 1]) + [Diag(50, r.freqHz), Diag(51, r.frames % 0x1_0000_0000),
                                  Diag(52, r.consensus % 0x1_0000_0000), Diag(53, (r.best + 128) % 0x1_0000_0000)]
  }

  /** An 'R' frame for each packet. */
  function Forwarded(rs: seq<RxLoop.Rx>): (fs: seq<Frame>)
    ensures |fs| == |rs|
  {
    seq(|rs|, i requires 0 <= i < |rs| => Received(rs[i].pkt, rs[i].rssi))
  }

  /** The packets that the receive loops hand up in the first `n` acts. */
  function HandedUp(acts: seq<Act>, n: nat): seq<RxLoop.Rx>
    requires n <= |acts|
  {
    if n == 0 then [] else HandedUp(acts, n - 1) + HandedUpBy(acts[n - 1])
  }

  function HandedUpBy(act: Act): seq<RxLoop.Rx> {
    if act.WorkerAct? && act.op.ReceivedOp? then RxLoop.Deliverable(act.op.read) else []
  }

  lemma ForwardedConcat(a: seq<RxLoop.Rx>, b: seq<RxLoop.Rx>)
    ensures Forwarded(a + b) == Forwarded(a) + Forwarded(b)
  {
  }

  lemma {:induction false} MeasuredConcat(a: seq<Report>, b: seq<Report>)
    ensures Measured(a + b) == Measured(a) + Measured(b)
  {
    if b == [] {
      assert a + b == a;
    } else {
      LastOfConcat(a, b);
      MeasuredConcat(a, b[..|b| - 1]);
    }
  }

  lemma {:induction false} MeasuredAt(rs: seq<Report>, i: nat)
    requires i < |rs|
    ensures Measured(rs)[4 * i] == Diag(50, rs[i].freqHz)
    ensures Measured(rs)[4 * i + 1] == Diag(51, rs[i].frames % 0x1_0000_0000)
    ensures Measured(rs)[4 * i + 2] == Diag(52, rs[i].consensus % 0x1_0000_0000)
    ensures Measured(rs)[4 * i + 3] == Diag(53, (rs[i].best + 128) % 0x1_0000_0000)
  {
    if i < |rs| - 1 {
      MeasuredAt(rs[..|rs| - 1], i);
    }
  }

  // ----- what the notes show -----

  lemma {:induction false} ReportsShow(rs: seq<Report>)
    ensures Shown(ReportNotes(rs), IsReport) == Measured(rs)
    ensures Shown(ReportNotes(rs), IsPacket) == [] && Shown(ReportNotes(rs), IsStats) == []
  {
    if rs == [] {
      ShownNone([], IsReport);
      ShownNone([], IsPacket);
      ShownNone([], IsStats);
    } else {
      var n := |rs| - 1;
      ReportsShow(rs[..n]);
      var more := Tell(Scanning, ReportFrames(rs[n]));
      ShownConcat(ReportNotes(rs[..n]), more, IsReport);
      ShownConcat(ReportNotes(rs[..n]), more, IsPacket);
      ShownConcat(ReportNotes(rs[..n]), more, IsStats);
      OneReportShows(rs[n]);
      ShownNone(more, IsPacket);
      ShownNone(more, IsStats);
    }
  }

  lemma OneReportShows(r: Report)
    ensures Shown(Tell(Scanning, ReportFrames(r)), IsReport) ==
            [Diag(50, r.freqHz), Diag(51, r.frames % 0x1_0000_0000), Diag(52, r.consensus % 0x1_0000_0000),
             Diag(53, (r.best + 128) % 0x1_0000_0000)]
  {
    var fs := ReportFrames(r);
    assert Tell(Scanning, fs) == [Told(Scanning, fs[0]), Told(Scanning, fs[1])]
                                 + [Told(Scanning, fs[2]), Told(Scanning, fs[3])];
    PairShows(fs[0], fs[1]);
    PairShows(fs[2], fs[3]);
    hide Shown;
    ShownConcat([Told(Scanning, fs[0]), Told(Scanning, fs[1])], [Told(Scanning, fs[2]), Told(Scanning, fs[3])],
                IsReport);
  }

  lemma PairShows(f: Frame, g: Frame)
    requires IsReport(f) && IsReport(g)
    ensures Shown([Told(Scanning, f), Told(Scanning, g)], IsReport) == [f, g]
  {
    hide Shown;
    ShownOne(Told(Scanning, f), IsReport);
    ShownOne(Told(Scanning, g), IsReport);
    ShownConcat([Told(Scanning, f)], [Told(Scanning, g)], IsReport);
    assert [Told(Scanning, f), Told(Scanning, g)] == [Told(Scanning, f)] + [Told(Scanning, g)];
  }

  lemma {:induction false} HeardShow(rs: seq<RxLoop.Rx>)
    ensures Shown(HeardNotes(rs), IsPacket) == Forwarded(rs)
    ensures Shown(HeardNotes(rs), IsReport) == [] && Shown(HeardNotes(rs), IsStats) == []
  {
    if rs == [] {
      ShownNone([], IsReport);
      ShownNone([], IsPacket);
      ShownNone([], IsStats);
    } else {
      var n := |rs| - 1;
      HeardShow(rs[..n]);
      var one := Told(Reception, Received(rs[n].pkt, rs[n].rssi));
      assert Forwarded([rs[n]]) == [one.frame];
      assert rs == rs[..n] + [rs[n]];
      ForwardedConcat(rs[..n], [rs[n]]);
      hide Shown, Forwarded;
      ShownConcat(HeardNotes(rs[..n]), [one], IsReport);
      ShownConcat(HeardNotes(rs[..n]), [one], IsPacket);
      ShownConcat(HeardNotes(rs[..n]), [one], IsStats);
      ShownOne(one, IsReport);
      ShownOne(one, IsPacket);
      ShownOne(one, IsStats);
    }
  }

  lemma {:induction false} EndingsAreEnds(ts: seq<Finished>)
    ensures forall i :: 0 <= i < |EndingNotes(ts)| ==>
              EndingNotes(ts)[i].Told? && (EndingNotes(ts)[i].frame.Ready? || EndingNotes(ts)[i].frame.Error?)
  {
    if ts != [] {
      EndingsAreEnds(ts[..|ts| - 1]);
    }
  }

  lemma EndingsShowNone(ts: seq<Finished>)
    ensures Shown(EndingNotes(ts), IsReport) == [] && Shown(EndingNotes(ts), IsPacket) == []
    ensures Shown(EndingNotes(ts), IsStats) == []
  {
    EndingsAreEnds(ts);
    ShownNone(EndingNotes(ts), IsReport);
    ShownNone(EndingNotes(ts), IsPacket);
    ShownNone(EndingNotes(ts), IsStats);
  }

  lemma CallbacksShow(w: Worker, op: Op, w': Worker)
    ensures var notes := Callbacks(w, op, w');
            && Shown(notes, IsReport) == Measured(New(w.scan.reports, w'.scan.reports))
            && Shown(notes, IsPacket) == Forwarded(HandedUpBy(WorkerAct(op))) && Shown(notes, IsStats) == []
  {
    hide Shown, ReportNotes, HeardNotes, EndingNotes, Measured, Forwarded, RxLoop.Deliverable;
    var a, b := ReportNotes(New(w.scan.reports, w'.scan.reports)), HeardNotes(HandedUpBy(WorkerAct(op)));
    var c := EndingNotes(New(w.tx.terminals, w'.tx.terminals));
    ReportsShow(New(w.scan.reports, w'.scan.reports));
    HeardShow(HandedUpBy(WorkerAct(op)));
    EndingsShowNone(New(w.tx.terminals, w'.tx.terminals));
    Shown3(a, b, c, IsReport);
    Shown3(a, b, c, IsPacket);
    Shown3(a, b, c, IsStats);
  }

  lemma Shown3(a: seq<Note>, b: seq<Note>, c: seq<Note>, p: Frame -> bool)
    ensures Shown(a + b + c, p) == Shown(a, p) + Shown(b, p) + Shown(c, p)
  {
    ShownConcat(a + b, c, p);
    ShownConcat(a, b, p);
  }

  lemma ReplyShows(notes: seq<Note>, w: Worker, e: P.Event, around: Around)
    requires IsReply(notes, w, e, around)
    ensures Shown(notes, IsReport) == [] && Shown(notes, IsPacket) == []
    ensures Shown(notes, IsStats) == if e.StatsRequest? then [Stats(around.stats)] else []
  {
    if |notes| == 1 {
      ShownOne(notes[0], IsReport);
      ShownOne(notes[0], IsPacket);
      ShownOne(notes[0], IsStats);
    } else {
      ShownNone(notes, IsReport);
      ShownNone(notes, IsPacket);
      ShownNone(notes, IsStats);
    }
  }

  // ----- reports and packets over runs -----

  lemma OpsAddReports(w: Worker, op: Op)
    requires Enabled(w, op)
    ensures Step(w, op).scan.reports == w.scan.reports + New(w.scan.reports, Step(w, op).scan.reports)
    ensures !op.TickOp? ==> Step(w, op).scan.reports == w.scan.reports
  {
    hide DropAll, BurstTransmit.SentAsBurst, RxLoop.TallyOf, DwellOver, ChannelHz;
  }

  lemma CommandsAddNoReports(s: Station, act: Act)
    requires May(s, act) && !act.WorkerAct? && s.parser.Valid()
    ensures After(s, act).worker.scan.reports == s.worker.scan.reports
  {
    ActPerformsOp(s, act);
    if OpOf(s, act).Some? {
      CommandsDoNotTick(s, act);
      hide May, After, OpOf, P.Parser.Valid, Step, Enabled;
      OpsAddReports(s.worker, OpOf(s, act).value);
    }
  }

  lemma CommandsDoNotTick(s: Station, act: Act)
    requires !act.WorkerAct? && s.parser.Valid() && OpOf(s, act).Some?
    ensures !OpOf(s, act).value.TickOp?
  {
    hide EventOf, ReadConfig;
  }

  /** What one act adds to the notes, and what of it is a report, a packet or statistics. */
  lemma ActShows(s: Station, act: Act) returns (added: seq<Note>)
    requires May(s, act) && s.parser.Valid()
    ensures After(s, act).notes == s.notes + added
    ensures var old_, new_ := s.worker.scan.reports, After(s, act).worker.scan.reports;
            new_ == old_ + New(old_, new_) && Shown(added, IsReport) == Measured(New(old_, new_))
    ensures Shown(added, IsPacket) == Forwarded(HandedUpBy(act))
    ensures Shown(added, IsStats) == if TellsStats(s, act) then [Stats(act.around.stats)] else []
  {
    hide After, May, Shown, Measured, Forwarded, P.Parser.Valid, EventOf, Step, Enabled, Callbacks;
    match act
    case ByteAct(b, around) =>
      CommandsAddNoReports(s, act);
      NoneOf(s.worker.scan.reports);
      added := ByteShows(s, act);
    case QuietAct(around) =>
      CommandsAddNoReports(s, act);
      NoneOf(s.worker.scan.reports);
      QuietTells(s, act);
      added := StatsIf(TellsStats(s, act), around);
      StatsShow(TellsStats(s, act), around);
    case HostAct(buf) =>
      CommandsAddNoReports(s, act);
      NoneOf(s.worker.scan.reports);
      added := [];
      HostTells(s, act);
      StatsShow(false, Around(0, 0, false, []));
    case WorkerAct(op) =>
      WorkerTells(s, op);
      added := Callbacks(s.worker, op, Step(s.worker, op));
      OpsAddReports(s.worker, op);
      CallbacksShow(s.worker, op, Step(s.worker, op));
  }

  lemma NoneOf(rs: seq<Report>)
    ensures New(rs, rs) == [] && rs + [] == rs && Measured([]) == [] && Forwarded([]) == []
  {
  }

  lemma WorkerTells(s: Station, op: Op)
    requires May(s, WorkerAct(op))
    ensures Enabled(s.worker, op) && After(s, WorkerAct(op)).worker == Step(s.worker, op)
    ensures After(s, WorkerAct(op)).notes == s.notes + Callbacks(s.worker, op, Step(s.worker, op))
    ensures After(s, WorkerAct(op)).lastStatsMs == s.lastStatsMs
  {
    hide Step, Callbacks, Enabled;
  }

  lemma HostTells(s: Station, act: Act)
    requires May(s, act) && act.HostAct?
    ensures After(s, act).notes == s.notes + [] && After(s, act).lastStatsMs == s.lastStatsMs
  {
  }

  function StatsIf(told: bool, around: Around): seq<Note> {
    if told then [Told(Unasked, Stats(around.stats))] else []
  }

  lemma StatsShow(told: bool, around: Around)
    ensures var notes := StatsIf(told, around);
            && Shown(notes, IsReport) == [] && Shown(notes, IsPacket) == []
            && Shown(notes, IsStats) == if told then [Stats(around.stats)] else []
  {
    if told {
      var n := Told(Unasked, Stats(around.stats));
      ShownOne(n, IsReport);
      ShownOne(n, IsPacket);
      ShownOne(n, IsStats);
    } else {
      ShownNone([], IsReport);
      ShownNone([], IsPacket);
      ShownNone([], IsStats);
    }
  }

  lemma QuietTells(s: Station, act: Act)
    requires May(s, act) && act.QuietAct?
    ensures var t := After(s, act);
            && t.notes == s.notes + StatsIf(TellsStats(s, act), act.around)
            && t.lastStatsMs == if TellsStats(s, act) then act.around.statsMs else s.lastStatsMs
  {
  }

  lemma ByteShows(s: Station, act: Act) returns (added: seq<Note>)
    requires May(s, act) && act.ByteAct? && s.parser.Valid()
    ensures After(s, act).notes == s.notes + added
    ensures Shown(added, IsReport) == [] && Shown(added, IsPacket) == []
    ensures Shown(added, IsStats) == if TellsStats(s, act) then [Stats(act.around.stats)] else []
  {
    hide After, May, Shown, EventOf, IsReply, Skipped, P.Parser.Valid;
    var reply := ByteIsAnswered(s, act);
    var e := EventOf(s.parser, act.b, act.around.now);
    if e.Some? {
      ReplyShows(reply, s.worker, e.value, act.around);
    } else {
      StatsShow(false, act.around);
    }
    var asked := e == Some(P.StatsRequest);
    var due := !Skipped(s, act) && !asked && (act.around.statsMs - s.lastStatsMs) % 0x1_0000_0000 >= 10000;
    var rest := StatsIf(due, act.around);
    StatsShow(due, act.around);
    added := reply + rest;
    assert s.notes + reply + rest == s.notes + (reply + rest);
    ShownConcat(reply, rest, IsReport);
    ShownConcat(reply, rest, IsPacket);
    ShownConcat(reply, rest, IsStats);
  }

  /** What the notes of a run show: the reports made and the packets handed up. */
  lemma {:induction false} RunShows(states: seq<Station>, acts: seq<Act>, n: nat)
    requires Serves(states, acts) && n <= |acts|
    ensures Shown(states[n].notes, IsReport) == Measured(states[n].worker.scan.reports)
    ensures Shown(states[n].notes, IsPacket) == Forwarded(HandedUp(acts, n))
  {
    hide May, After, Shown, Measured, Forwarded, HandedUpBy, New, P.Parser.Valid, TellsStats;
    if n == 0 {
      StartShows(states, acts);
    } else {
      RunShows(states, acts, n - 1);
      ParserStaysValid(states, acts, n - 1);
      assert states[n - 1 + 1] == After(states[n - 1], acts[n - 1]);
      var added := ActShows(states[n - 1], acts[n - 1]);
      ShownConcat(states[n - 1].notes, added, IsReport);
      ShownConcat(states[n - 1].notes, added, IsPacket);
      var rs := states[n - 1].worker.scan.reports;
      MeasuredConcat(rs, New(rs, states[n].worker.scan.reports));
      ForwardedConcat(HandedUp(acts, n - 1), HandedUpBy(acts[n - 1]));
    }
  }

  lemma StartShows(states: seq<Station>, acts: seq<Act>)
    requires Serves(states, acts)
    ensures Shown(states[0].notes, IsReport) == Measured(states[0].worker.scan.reports)
    ensures Shown(states[0].notes, IsPacket) == Forwarded([])
  {
    hide Shown;
    ShownNone(states[0].notes, IsReport);
    ShownNone(states[0].notes, IsPacket);
  }

  /** In every state the service reaches, a host that reads the bytes sent so far finds each
      packet handed up as one 'R' frame, in order, and each report as diagnostics 50 to 53, in
      order, as long as nothing followed a reset: frequency, packets and consensus packets
      modulo 2^32, and a best strength of -128 to 127, shifted by 128. */
  lemma HostReadsReports(states: seq<Station>, acts: seq<Act>, n: nat, i: nat)
    requires Serves(states, acts) && n <= |acts|
    ensures AllTellable(states[n].notes)
    ensures HostSafety.NothingAfterReset(states[n].notes) ==>
              var fs, rs := ReadAll(Stream(states[n].notes)), states[n].worker.scan.reports;
              && Sift(fs, IsPacket) == Forwarded(HandedUp(acts, n))
              && |Sift(fs, IsReport)| == 4 * |rs|
              && (i < |rs| ==>
                    && -128 <= rs[i].best < 128
                    && Sift(fs, IsReport)[4 * i..4 * i + 4] ==
                       [Diag(50, rs[i].freqHz), Diag(51, rs[i].frames % 0x1_0000_0000),
                        Diag(52, rs[i].consensus % 0x1_0000_0000), Diag(53, rs[i].best + 128)])
  {
    hide May, After, ReadAll, Stream, FramesTold, Measured, Tellable, Sift, HandedUp;
    HostSafety.HostReadsExactly(states, acts, n);
    RunShows(states, acts, n);
    var rs := states[n].worker.scan.reports;
    BestFits(states, acts, n);
    if i < |rs| {
      MeasuredAt(rs, i);
      var fs := Measured(rs);
      assert fs[4 * i..4 * i + 4] == [fs[4 * i], fs[4 * i + 1], fs[4 * i + 2], fs[4 * i + 3]];
    }
  }

  // ----- the best strength fits 8 bits -----

  ghost predicate BestInRange(w: Worker) {
    -128 <= w.scan.best < 128 && forall i :: 0 <= i < |w.scan.reports| ==> -128 <= w.scan.reports[i].best < 128
  }

  lemma {:induction false} BestStaysInRange(best: int, rs: seq<RxLoop.Rx>)
    requires -128 <= best < 128
    ensures -128 <= RxLoop.BestRssi(best, rs) < 128
  {
    if rs != [] {
      BestStaysInRange(best, rs[..|rs| - 1]);
    }
  }

  lemma StepBestInRange(w: Worker, op: Op)
    requires Enabled(w, op) && BestInRange(w)
    ensures BestInRange(Step(w, op))
  {
    hide DropAll, BurstTransmit.SentAsBurst, DwellOver, ChannelHz, RxLoop.BestRssi, RxLoop.CountConsensus,
         RxLoop.CountFinal;
    if op.ReceivedOp? {
      BestStaysInRange(w.scan.best, op.read);
    }
  }

  lemma {:induction false} RunBestInRange(states: seq<Worker>, ops: seq<Op>, n: nat)
    requires Run(states, ops) && states[0] == STARTED && n < |states|
    ensures BestInRange(states[n])
  {
    hide Step, Enabled;
    if n > 0 {
      RunBestInRange(states, ops, n - 1);
      assert states[n - 1 + 1] == Step(states[n - 1], ops[n - 1]);
      StepBestInRange(states[n - 1], ops[n - 1]);
    }
  }

  lemma BestFits(states: seq<Station>, acts: seq<Act>, n: nat)
    requires Serves(states, acts) && n <= |acts|
    ensures BestInRange(states[n].worker)
  {
    hide May, After, Started, Step, Enabled, Leads, Run, OpsOf, BestInRange;
    var ops := OpsOf(states, acts, n);
    WorkerRuns(states, acts, n);
    LeadsIsRun(STARTED, ops, states[n].worker);
    RunBestInRange(StatesOf(STARTED, ops), ops, |ops|);
  }

  // ----- statistics -----

  /** The act looks whether statistics are due: an attempt to read a byte, unless it skipped
      the byte. */
  predicate Looks(s: Station, act: Act) {
    act.QuietAct? || (act.ByteAct? && !Skipped(s, act))
  }

  /** It asks for statistics, or it looks 10 s after the last ones. */
  ghost predicate TellsStats(s: Station, act: Act) {
    || (act.ByteAct? && s.parser.Valid() && EventOf(s.parser, act.b, act.around.now) == Some(P.StatsRequest))
    || (Looks(s, act) && (act.around.statsMs - s.lastStatsMs) % 0x1_0000_0000 >= 10000)
  }

  /** How many statistics the host has been sent. */
  function StatsSent(s: Station): nat {
    |Shown(s.notes, IsStats)|
  }

  lemma LastStatsMoves(s: Station, act: Act)
    requires May(s, act) && s.parser.Valid()
    ensures After(s, act).lastStatsMs == if TellsStats(s, act) then act.around.statsMs else s.lastStatsMs
    ensures StatsSent(After(s, act)) == StatsSent(s) + if TellsStats(s, act) then 1 else 0
  {
    hide May, After, TellsStats, Shown, P.Parser.Valid, EventOf;
    var added := ActShows(s, act);
    ShownConcat(s.notes, added, IsStats);
    match act
    case ByteAct(_, _) => ByteMovesStats(s, act);
    case QuietAct(_) => QuietTells(s, act);
    case HostAct(_) =>
      HostTells(s, act);
      StatsNeedClock(s, act);
    case WorkerAct(op) =>
      WorkerTells(s, op);
      StatsNeedClock(s, act);
  }

  lemma ByteMovesStats(s: Station, act: Act)
    requires May(s, act) && act.ByteAct?
    ensures After(s, act).lastStatsMs == if TellsStats(s, act) then act.around.statsMs else s.lastStatsMs
  {
    var t := Completed(Looked(s), act.b, act.around);
    SkippedIsDrained(s, act);
    var reply := CompletedTells(Looked(s), act.b, act.around);
    CadenceTells(t, act.around);
    hide EventOf, Completed, Cadence, IsReply, IsDrained, Skipped, P.Parser.Valid;
  }

  /** The real times of start-up and of each act, as far as the clock is looked at. */
  ghost predicate StatsClock(states: seq<Station>, acts: seq<Act>, times: seq<nat>)
    requires |states| == |acts| + 1
  {
    && |times| == |states| && states[0].lastStatsMs == times[0] % 0x1_0000_0000
    && (forall i, j :: 0 <= i <= j < |times| ==> times[i] <= times[j])
    && forall i :: 0 <= i < |acts| && (acts[i].ByteAct? || acts[i].QuietAct?) ==>
         acts[i].around.statsMs == times[i + 1] % 0x1_0000_0000
  }

  /** State k is right after start-up or after statistics were sent. */
  ghost predicate StatsAt(states: seq<Station>, k: nat) {
    k < |states| && (k == 0 || StatsSent(states[k]) > StatsSent(states[k - 1]))
  }

  /** The last statistics sent before state n. */
  lemma {:induction false} LastStats(states: seq<Station>, acts: seq<Act>, times: seq<nat>, n: nat) returns (k: nat)
    requires Serves(states, acts) && StatsClock(states, acts, times) && n <= |acts|
    ensures k <= n && StatsAt(states, k) && states[n].lastStatsMs == times[k] % 0x1_0000_0000
    ensures forall m :: k < m <= n ==> !StatsAt(states, m)
  {
    hide May, After, TellsStats, StatsSent, P.Parser.Valid;
    if n == 0 {
      k := 0;
    } else {
      k := LastStats(states, acts, times, n - 1);
      ParserStaysValid(states, acts, n - 1);
      assert states[n - 1 + 1] == After(states[n - 1], acts[n - 1]);
      LastStatsMoves(states[n - 1], acts[n - 1]);
      if TellsStats(states[n - 1], acts[n - 1]) {
        StatsNeedClock(states[n - 1], acts[n - 1]);
        k := n;
      }
    }
  }

  lemma StatsNeedClock(s: Station, act: Act)
    ensures TellsStats(s, act) ==> act.ByteAct? || act.QuietAct?
  {
  }

  /** Statistics that were not asked for are sent no sooner than 10 s after any others. */
  lemma NotTooOften(states: seq<Station>, acts: seq<Act>, times: seq<nat>, i: nat, k: nat)
    requires Serves(states, acts) && k <= i < |acts|
    ensures states[i].parser.Valid()
    ensures StatsClock(states, acts, times) && StatsAt(states, i + 1) && StatsAt(states, k) ==>
              || (acts[i].ByteAct?
                  && EventOf(states[i].parser, acts[i].b, acts[i].around.now) == Some(P.StatsRequest))
              || times[i + 1] >= times[k] + 10000
  {
    hide May, After, StatsSent, P.Parser.Valid, EventOf;
    ParserStaysValid(states, acts, i);
    if !StatsClock(states, acts, times) || !StatsAt(states, i + 1) || !StatsAt(states, k) {
      return;
    }
    assert states[i + 1] == After(states[i], acts[i]);
    LastStatsMoves(states[i], acts[i]);
    var last := LastStats(states, acts, times, i);
    assert TellsStats(states[i], acts[i]);
    assert k <= last;
    Elapsed(times[last], times[i + 1]);
  }

  lemma Elapsed(last: nat, now: nat)
    requires last <= now
    ensures (now % 0x1_0000_0000 - last % 0x1_0000_0000) % 0x1_0000_0000 == (now - last) % 0x1_0000_0000
    ensures (now - last) % 0x1_0000_0000 <= now - last
  {
  }

  /** Every look comes less than 2^31 ms after start-up or another look. */
  ghost predicate KeepsLooking(states: seq<Station>, acts: seq<Act>, times: seq<nat>)
    requires |states| == |acts| + 1 == |times|
  {
    forall i :: 0 <= i < |acts| && Looks(states[i], acts[i]) ==>
      exists j: nat :: LooksAt(states, acts, j) && j <= i && times[i + 1] < times[j] + 0x8000_0000
  }

  /** State j is right after start-up or a look. */
  ghost predicate LooksAt(states: seq<Station>, acts: seq<Act>, j: nat)
    requires |states| == |acts| + 1
  {
    j <= |acts| && (j == 0 || Looks(states[j - 1], acts[j - 1]))
  }

  /** After each look the host's last statistics are less than 10 s old. */
  lemma {:induction false} NoSilence(states: seq<Station>, acts: seq<Act>, times: seq<nat>, j: nat) returns (k: nat)
    requires Serves(states, acts)
    ensures k <= j
    ensures StatsClock(states, acts, times) && KeepsLooking(states, acts, times) && LooksAt(states, acts, j) ==>
              StatsAt(states, k) && times[j] < times[k] + 10000
    decreases j
  {
    hide *;
    LengthsAgree(states, acts, times);
    k := 0;
    if j > 0 && StatsClock(states, acts, times) && KeepsLooking(states, acts, times) && LooksAt(states, acts, j) {
      var l := EarlierLook(states, acts, times, j);
      var before := NoSilence(states, acts, times, l);
      k := LookIsInTime(states, acts, times, j - 1, l, before);
    }
  }

  lemma EarlierLook(states: seq<Station>, acts: seq<Act>, times: seq<nat>, j: nat) returns (l: nat)
    requires |states| == |acts| + 1 == |times| && KeepsLooking(states, acts, times)
    requires j > 0 && LooksAt(states, acts, j)
    ensures j <= |acts| && Looks(states[j - 1], acts[j - 1])
    ensures LooksAt(states, acts, l) && l < j && times[j] < times[l] + 0x8000_0000
  {
    hide Looks;
    var i := j - 1;
    l :| LooksAt(states, acts, l) && l <= i && times[i + 1] < times[l] + 0x8000_0000;
  }

  lemma LengthsAgree(states: seq<Station>, acts: seq<Act>, times: seq<nat>)
    requires Serves(states, acts)
    ensures |states| == |acts| + 1 && StatsAt(states, 0)
    ensures StatsClock(states, acts, times) ==> |times| == |states|
  {
  }

  lemma LookIsInTime(states: seq<Station>, acts: seq<Act>, times: seq<nat>, i: nat, l: nat, before: nat)
    returns (k: nat)
    requires Serves(states, acts) && StatsClock(states, acts, times) && i < |acts| && Looks(states[i], acts[i])
    requires before <= l <= i && StatsAt(states, before)
    requires times[l] < times[before] + 10000 && times[i + 1] < times[l] + 0x8000_0000
    ensures k <= i + 1 && StatsAt(states, k) && times[i + 1] < times[k] + 10000
  {
    hide May, After, StatsSent, P.Parser.Valid, EventOf, TellsStats, Skipped;
    k := LastStats(states, acts, times, i);
    assert before <= k;
    ParserStaysValid(states, acts, i);
    assert states[i + 1] == After(states[i], acts[i]);
    LastStatsMoves(states[i], acts[i]);
    LookTellsInTime(states[i], acts[i], times[k], times[i + 1]);
    if TellsStats(states[i], acts[i]) {
      k := i + 1;
    }
  }

  lemma LookTellsInTime(s: Station, act: Act, last: nat, now: nat)
    requires Looks(s, act) && s.lastStatsMs == last % 0x1_0000_0000 && act.around.statsMs == now % 0x1_0000_0000
    requires last <= now < last + 0x1_0000_0000
    ensures TellsStats(s, act) || now < last + 10000
  {
    Elapsed(last, now);
  }
}
