/** What a host that reads the service's bytes frame by frame learns, over whole runs. */
module HostSafety {
  import opened Bytes
  import opened DeviceFrames
  import opened HostView
  import opened ServiceSafety
  import opened ServiceSpec
  import opened WorkerSpec
  import P = CommandParser
  import RxLoop

  // ----- every note is readable -----

  /** A note whose frame can be written and does not look like three resets. */
  predicate Plain(n: Note) {
    Tellable(n) && (n.Told? ==> n.frame != Ready(DOUBLE_G))
  }

  ghost predicate AllPlain(notes: seq<Note>) {
    forall i :: 0 <= i < |notes| ==> Plain(notes[i])
  }

  lemma PlainTogether(a: seq<Note>, b: seq<Note>)
    requires AllPlain(a) && AllPlain(b)
    ensures AllPlain(a + b)
  {
  }

  lemma AnswersArePlain(w: Worker, e: P.Event, around: Around)
    requires Bounded(e) && |around.stats| == STATS_LEN
    ensures AllPlain(AnswerNotes(w, e, around))
  {
    hide Enqueue, ApplyConfig, ReadConfig;
  }

  lemma {:induction false} ReportsArePlain(rs: seq<Report>)
    ensures AllPlain(ReportNotes(rs)) && Quiet(ReportNotes(rs))
  {
    if rs != [] {
      ReportsArePlain(rs[..|rs| - 1]);
    }
  }

  lemma {:induction false} HeardArePlain(rs: seq<RxLoop.Rx>)
    requires forall i :: 0 <= i < |rs| ==> Receivable(rs[i])
    ensures AllPlain(HeardNotes(rs)) && Quiet(HeardNotes(rs))
  {
    if rs != [] {
      HeardArePlain(rs[..|rs| - 1]);
    }
  }

  lemma {:induction false} EndingsArePlain(ts: seq<Finished>)
    ensures AllPlain(EndingNotes(ts))
  {
    if ts != [] {
      EndingsArePlain(ts[..|ts| - 1]);
    }
  }

  lemma CallbacksArePlain(w: Worker, op: Op, w': Worker)
    requires op.ReceivedOp? ==> forall i :: 0 <= i < |op.read| ==> Receivable(op.read[i])
    ensures AllPlain(Callbacks(w, op, w'))
  {
    hide ReportNotes, HeardNotes, EndingNotes, Plain, Receivable;
    ReportsArePlain(New(w.scan.reports, w'.scan.reports));
    EndingsArePlain(New(w.tx.terminals, w'.tx.terminals));
    var heard := if op.ReceivedOp? then RxLoop.Deliverable(op.read) else [];
    if op.ReceivedOp? {
      RxLoop.DeliversPrefix(op.read);
    }
    HeardArePlain(heard);
  }

  lemma ActStaysPlain(s: Station, act: Act)
    requires May(s, act) && AllPlain(s.notes)
    ensures AllPlain(After(s, act).notes)
  {
    hide AnswerNotes, Callbacks, Plain, P.Parser.Valid, P.Step, Obeyed, Step, Enabled, EventOf;
    match act
    case ByteAct(b, around) =>
      CompletedStaysPlain(Looked(s), b, around);
      CadenceStaysPlain(Completed(Looked(s), b, around), around);
    case QuietAct(around) => CadenceStaysPlain(Looked(s), around);
    case HostAct(_) =>
    case WorkerAct(op) =>
      CallbacksArePlain(s.worker, op, Step(s.worker, op));
      PlainTogether(s.notes, Callbacks(s.worker, op, Step(s.worker, op)));
  }

  lemma CompletedStaysPlain(s: Station, b: byte, around: Around)
    requires s.parser.Valid() && AllPlain(s.notes) && |around.stats| == STATS_LEN
    ensures AllPlain(Completed(s, b, around).notes)
  {
    hide AnswerNotes, Plain, P.Step, Obeyed, EventOf;
    var e := EventOf(s.parser, b, around.now);
    if e.Some? {
      AnswersArePlain(s.worker, e.value, around);
    }
  }

  lemma CadenceStaysPlain(s: Station, around: Around)
    requires AllPlain(s.notes) && |around.stats| == STATS_LEN
    ensures AllPlain(Cadence(s, around).notes)
  {
  }

  lemma {:induction false} RunIsPlain(states: seq<Station>, acts: seq<Act>, n: nat)
    requires Serves(states, acts) && n <= |acts|
    ensures AllPlain(states[n].notes)
  {
    hide May, After, AllPlain, Plain;
    if n == 0 {
      StartIsPlain(states, acts);
    } else {
      RunIsPlain(states, acts, n - 1);
      assert states[n - 1 + 1] == After(states[n - 1], acts[n - 1]);
      ActStaysPlain(states[n - 1], acts[n - 1]);
    }
  }

  lemma StartIsPlain(states: seq<Station>, acts: seq<Act>)
    requires Serves(states, acts)
    ensures AllPlain(states[0].notes)
  {
  }

  /** At most two resets, and no frame after the first. */
  ghost predicate NothingAfterReset(notes: seq<Note>) {
    && Resets(notes) <= 2
    && forall i, j :: 0 <= i < j < |notes| && notes[i].BareReset? ==> notes[j].BareReset?
  }

  /** In every state the service reaches, a host that reads all bytes sent so far recovers
      exactly the frames told, if and only if at most two resets were answered and nothing
      was told after the first. */
  lemma HostReadsExactly(states: seq<Station>, acts: seq<Act>, n: nat)
    requires Serves(states, acts) && n <= |acts|
    ensures AllTellable(states[n].notes)
    ensures ReadAll(Stream(states[n].notes)) == FramesTold(states[n].notes) <==> NothingAfterReset(states[n].notes)
  {
    hide May, After, Started, ReadAll, Stream, FramesTold, Resets, Tellable;
    RunIsPlain(states, acts, n);
    var notes := states[n].notes;
    PlainIsTellable(notes);
    StreamIsReadExactly(notes);
    assert ResetsLast(notes) <==> NothingAfterReset(notes);
  }

  lemma PlainIsTellable(notes: seq<Note>)
    requires AllPlain(notes)
    ensures AllTellable(notes)
  {
  }

  // ----- which frames are terminals -----

  /** The kinds of frames that terminals are told by: 'G', and 'E' 0x05 and 0x06. */
  predicate LooksTerminal(f: Frame) {
    f.Ready? || (f.Error? && (f.code == 5 || f.code == 6))
  }

  function TerminalsIn(fs: seq<Frame>): seq<Frame> {
    if fs == [] then [] else
      TerminalsIn(fs[..|fs| - 1]) + if LooksTerminal(fs[|fs| - 1]) then [fs[|fs| - 1]] else []
  }

  function EndingFrames(ts: seq<Finished>): seq<Frame> {
    if ts == [] then [] else EndingFrames(ts[..|ts| - 1]) + [TerminalFrame(ts[|ts| - 1].outcome)]
  }

  /** No reset, and no frame that looks like a terminal. */
  ghost predicate Quiet(notes: seq<Note>) {
    forall i :: 0 <= i < |notes| ==> notes[i].Told? && !LooksTerminal(notes[i].frame)
  }

  /** The start-up's 'G', then the terminals. */
  ghost predicate TerminalsShow(s: Station) {
    && TerminalsIn(FramesTold(s.notes)) == [Ready(MAX_PAYLOAD_REPORTED)] + EndingFrames(s.worker.tx.terminals)
    && Resets(s.notes) == 0
  }

  lemma {:induction false} TerminalsConcat(a: seq<Frame>, b: seq<Frame>)
    ensures TerminalsIn(a + b) == TerminalsIn(a) + TerminalsIn(b)
  {
    if b == [] {
      assert a + b == a;
    } else {
      LastOfConcat(a, b);
      TerminalsConcat(a, b[..|b| - 1]);
    }
  }

  lemma {:induction false} EndingFramesConcat(a: seq<Finished>, b: seq<Finished>)
    ensures EndingFrames(a + b) == EndingFrames(a) + EndingFrames(b)
  {
    if b == [] {
      assert a + b == a;
    } else {
      LastOfConcat(a, b);
      EndingFramesConcat(a, b[..|b| - 1]);
    }
  }

  lemma {:induction false} QuietShowsNothing(notes: seq<Note>)
    requires Quiet(notes)
    ensures TerminalsIn(FramesTold(notes)) == [] && Resets(notes) == 0
  {
    if notes != [] {
      var n := |notes| - 1;
      QuietShowsNothing(notes[..n]);
      TerminalsConcat(FramesTold(notes[..n]), [notes[n].frame]);
      OneTerminal(notes[n].frame);
    }
  }

  lemma OneTerminal(f: Frame)
    ensures TerminalsIn([f]) == if LooksTerminal(f) then [f] else []
  {
    assert [f][..0] == [];
  }

  lemma {:induction false} EndingsShow(ts: seq<Finished>)
    requires FinalOutcomes(ts)
    ensures TerminalsIn(FramesTold(EndingNotes(ts))) == EndingFrames(ts) && Resets(EndingNotes(ts)) == 0
  {
    if ts != [] {
      var n := |ts| - 1;
      EndingsShow(ts[..n]);
      var f := TerminalFrame(ts[n].outcome);
      var notes := EndingNotes(ts[..n]);
      assert (notes + [Told(Ending, f)])[..|notes|] == notes;
      TerminalsConcat(FramesTold(notes), [f]);
      OneTerminal(f);
    }
  }

  /** Notes that show exactly the new terminals keep what all notes show. */
  lemma ShowsOn(s: Station, t: Station, notes: seq<Note>, added: seq<Finished>)
    requires TerminalsShow(s) && t.notes == s.notes + notes
    requires t.worker.tx.terminals == s.worker.tx.terminals + added
    requires TerminalsIn(FramesTold(notes)) == EndingFrames(added) && Resets(notes) == 0
    ensures TerminalsShow(t)
  {
    hide TerminalsIn, FramesTold, EndingFrames, Resets;
    ResetsConcat(s.notes, notes);
    TerminalsConcat(FramesTold(s.notes), FramesTold(notes));
    EndingFramesConcat(s.worker.tx.terminals, added);
    var ready, x, y := [Ready(MAX_PAYLOAD_REPORTED)], EndingFrames(s.worker.tx.terminals), EndingFrames(added);
    assert (ready + x) + y == ready + (x + y);
  }

  /** The act handles none of the commands answered by 'G': CONFIG, 'W' and reset. */
  ghost predicate NoAck(s: Station, act: Act) {
    act.ByteAct? && s.parser.Valid() ==>
      match EventOf(s.parser, act.b, act.around.now)
      case Some(e) => !e.Configure? && !e.SetWindow? && !e.Reset?
      case None => true
  }

  lemma AnswerIsQuiet(w: Worker, e: P.Event, around: Around)
    requires Bounded(e) && !e.Configure? && !e.SetWindow? && !e.Reset?
    ensures Quiet(AnswerNotes(w, e, around))
    ensures Obeyed(w, e, around).tx.terminals == w.tx.terminals
  {
  }

  lemma CompletedShows(s: Station, b: byte, around: Around)
    requires s.parser.Valid() && TerminalsShow(s)
    requires match EventOf(s.parser, b, around.now)
             case Some(e) => !e.Configure? && !e.SetWindow? && !e.Reset?
             case None => true
    ensures TerminalsShow(Completed(s, b, around))
  {
    hide AnswerNotes, Obeyed, P.Step, EventOf, TerminalsIn, FramesTold, Resets;
    var e := EventOf(s.parser, b, around.now);
    if e.Some? {
      AnswerIsQuiet(s.worker, e.value, around);
      var notes := AnswerNotes(s.worker, e.value, around);
      QuietShowsNothing(notes);
      assert s.worker.tx.terminals + [] == s.worker.tx.terminals;
      ShowsOn(s, Completed(s, b, around), notes, []);
    }
  }

  lemma CadenceShows(s: Station, around: Around)
    requires TerminalsShow(s)
    ensures TerminalsShow(Cadence(s, around))
  {
    hide TerminalsIn, FramesTold, Resets;
    var note := Told(Unasked, Stats(around.stats));
    if U32(around.statsMs - s.lastStatsMs) >= STATS_PERIOD_MS {
      QuietShowsNothing([note]);
      assert s.worker.tx.terminals + [] == s.worker.tx.terminals;
      ShowsOn(s, Cadence(s, around), [note], []);
    }
  }

  lemma OwnOpShows(s: Station, op: Op)
    requires May(s, WorkerAct(op)) && TerminalsShow(s) && Conserved(Step(s.worker, op).tx)
    ensures TerminalsShow(After(s, WorkerAct(op)))
  {
    OwnOpsKeepAccepted(s.worker, op);
    var t := After(s, WorkerAct(op));
    var notes, added := Callbacks(s.worker, op, t.worker), New(s.worker.tx.terminals, t.worker.tx.terminals);
    assert t.notes == s.notes + notes && t.worker.tx.terminals == s.worker.tx.terminals + added;
    assert FinalOutcomes(t.worker.tx.terminals);
    assert op.ReceivedOp? ==> forall i :: 0 <= i < |op.read| ==> Receivable(op.read[i]);
    hide *;
    AddedAreFinal(s.worker.tx.terminals, added, t.worker.tx.terminals);
    CallbacksShow(s.worker, op, t.worker);
    ShowsOn(s, t, notes, added);
  }

  lemma AddedAreFinal(a: seq<Finished>, b: seq<Finished>, all: seq<Finished>)
    requires all == a + b && FinalOutcomes(all)
    ensures FinalOutcomes(b)
  {
    assert forall i :: 0 <= i < |b| ==> b[i] == all[|a| + i];
  }

  /** The callbacks of one operation show exactly its new terminals. */
  lemma CallbacksShow(w: Worker, op: Op, w': Worker)
    requires op.ReceivedOp? ==> forall i :: 0 <= i < |op.read| ==> Receivable(op.read[i])
    requires FinalOutcomes(New(w.tx.terminals, w'.tx.terminals))
    ensures var notes := Callbacks(w, op, w');
            && TerminalsIn(FramesTold(notes)) == EndingFrames(New(w.tx.terminals, w'.tx.terminals))
            && Resets(notes) == 0
  {
    hide TerminalsIn, FramesTold, Resets, EndingNotes, ReportNotes, HeardNotes, RxLoop.Deliverable, EndingFrames, Quiet,
         FinalOutcomes, Receivable, New;
    var reports, added := New(w.scan.reports, w'.scan.reports), New(w.tx.terminals, w'.tx.terminals);
    var heard := if op.ReceivedOp? then RxLoop.Deliverable(op.read) else [];
    if op.ReceivedOp? {
      RxLoop.DeliversPrefix(op.read);
    }
    ReportsArePlain(reports);
    HeardArePlain(heard);
    EndingsShow(added);
    QuietThenEndings(ReportNotes(reports), HeardNotes(heard), EndingNotes(added));
  }

  lemma QuietThenEndings(a: seq<Note>, b: seq<Note>, c: seq<Note>)
    requires Quiet(a) && Quiet(b)
    ensures TerminalsIn(FramesTold(a + b + c)) == TerminalsIn(FramesTold(c)) && Resets(a + b + c) == Resets(c)
  {
    QuietShowsNothing(a);
    QuietShowsNothing(b);
    ResetsConcat(a, b);
    ResetsConcat(a + b, c);
    TerminalsConcat(FramesTold(a), FramesTold(b));
    TerminalsConcat(FramesTold(a + b), FramesTold(c));
  }

  lemma ActShows(s: Station, act: Act)
    requires May(s, act) && s.parser.Valid() && TerminalsShow(s) && NoAck(s, act)
    ensures Conserved(After(s, act).worker.tx) ==> TerminalsShow(After(s, act))
  {
    hide Completed, Cadence, Step, Callbacks, Enabled, P.Parser.Valid, Conserved, EventOf, TerminalsIn, FramesTold, Resets;
    match act
    case ByteAct(b, around) =>
      CompletedShows(Looked(s), b, around);
      CadenceShows(Completed(Looked(s), b, around), around);
    case QuietAct(around) => CadenceShows(Looked(s), around);
    case HostAct(_) =>
    case WorkerAct(op) =>
      if Conserved(Step(s.worker, op).tx) {
        OwnOpShows(s, op);
      }
  }

  lemma TwoNotes(a: Frame, b: Frame)
    requires LooksTerminal(a) && !LooksTerminal(b)
    ensures TerminalsIn(FramesTold([Told(Unasked, a), Told(Unasked, b)])) == [a]
    ensures Resets([Told(Unasked, a), Told(Unasked, b)]) == 0
  {
    var m, n := Told(Unasked, a), Told(Unasked, b);
    assert [m, n] == [m] + [n];
    ResetsConcat([m], [n]);
    OneNote(m);
    OneNote(n);
    TerminalsConcat([a], [b]);
    OneTerminal(a);
    OneTerminal(b);
  }

  lemma StartedShows(data: seq<byte>, around: Around)
    ensures TerminalsShow(Started(data, around))
  {
    hide TerminalsIn, FramesTold, Resets;
    TwoNotes(Ready(MAX_PAYLOAD_REPORTED), Stats(around.stats));
    assert [Ready(MAX_PAYLOAD_REPORTED)] + EndingFrames([]) == [Ready(MAX_PAYLOAD_REPORTED)];
  }

  lemma StartShows(states: seq<Station>, acts: seq<Act>)
    requires Serves(states, acts)
    ensures TerminalsShow(states[0])
  {
    hide May, After, TerminalsShow;
    var data, around: Around :| states[0] == Started(data, around);
    StartedShows(data, around);
  }

  lemma {:induction false} RunShows(states: seq<Station>, acts: seq<Act>, n: nat)
    requires Serves(states, acts) && n <= |acts| && forall i :: 0 <= i < n ==> NoAck(states[i], acts[i])
    ensures TerminalsShow(states[n])
  {
    hide May, After, P.Parser.Valid, TerminalsShow, NoAck, Conserved;
    if n == 0 {
      StartShows(states, acts);
    } else {
      RunShows(states, acts, n - 1);
      ParserStaysValid(states, acts, n - 1);
      ServiceIsSafe(states, acts, n);
      assert states[n - 1 + 1] == After(states[n - 1], acts[n - 1]);
      ActShows(states[n - 1], acts[n - 1]);
    }
  }

  /** In a run without CONFIG, 'W' and reset the host finds the terminals in the bytes: the
      'G' and 'E' 0x05 and 0x06 frames it reads are the start-up's 'G' and then, in order,
      the terminal of each finished frame. */
  lemma HostReadsTerminals(states: seq<Station>, acts: seq<Act>, n: nat)
    requires Serves(states, acts) && n <= |acts| && forall i :: 0 <= i < n ==> NoAck(states[i], acts[i])
    ensures AllTellable(states[n].notes)
    ensures TerminalsIn(ReadAll(Stream(states[n].notes)))
            == [Ready(MAX_PAYLOAD_REPORTED)] + EndingFrames(states[n].worker.tx.terminals)
  {
    hide May, After, Started, ReadAll, Stream, FramesTold, Tellable, TerminalsIn, EndingFrames;
    RunShows(states, acts, n);
    HostReadsExactly(states, acts, n);
    NoResetNoHarm(states[n].notes);
  }

  lemma {:induction false} NoResetNoHarm(notes: seq<Note>)
    requires Resets(notes) == 0
    ensures forall i :: 0 <= i < |notes| ==> notes[i].Told?
    ensures NothingAfterReset(notes)
  {
    if notes != [] {
      NoResetNoHarm(notes[..|notes| - 1]);
      assert forall i :: 0 <= i < |notes| - 1 ==> notes[i] == notes[..|notes| - 1][i];
    }
  }
}
