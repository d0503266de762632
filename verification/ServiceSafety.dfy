/** What every run of the service keeps: its worker runs as WorkerSpec says, its commands
    are those of the grammar, and the host is told exactly what became of its frames. */
module ServiceSafety {
  import opened Bytes
  import opened ServiceSpec
  import opened WorkerSpec
  import BurstTransmit
  import DeviceFrames
  import G = CommandGrammar
  import P = CommandParser
  import Ring = IpcRing
  import RxLoop
  import WorkerSafety

  // ----- the worker's run inside the service's -----

  /** The worker's operation that an act performs, if any. */
  function OpOf(s: Station, act: Act): Option<Op>
    requires s.parser.Valid()
  {
    match act
    case ByteAct(b, around) =>
      var e := EventOf(s.parser, b, around.now);
      if e.None? then None else CommandOp(e.value, around)
    case WorkerAct(op) => Some(op)
    case _ => None
  }

  lemma ActPerformsOp(s: Station, act: Act)
    requires May(s, act) && s.parser.Valid()
    ensures After(s, act).parser.Valid()
    ensures OpOf(s, act).None? ==> After(s, act).worker == s.worker
    ensures OpOf(s, act).Some? ==> Enabled(s.worker, OpOf(s, act).value)
                                   && After(s, act).worker == Step(s.worker, OpOf(s, act).value)
  {
    hide Step, P.Consume, AnswerNotes, Callbacks, P.Parser.Valid, CommandOp, Enabled;
    if act.ByteAct? && EventOf(s.parser, act.b, act.around.now).Some? {
      var e := EventOf(s.parser, act.b, act.around.now).value;
      if CommandOp(e, act.around).Some? {
        CommandsAreEnabled(s.worker, e, act.around);
      }
    }
  }

  lemma {:induction false} ParserStaysValid(states: seq<Station>, acts: seq<Act>, n: nat)
    requires Serves(states, acts) && n < |states|
    ensures states[n].parser.Valid()
  {
    hide May, After, P.Parser.Valid;
    if n == 0 {
      InitialIsValid();
    } else {
      ParserStaysValid(states, acts, n - 1);
      assert states[n - 1 + 1] == After(states[n - 1], acts[n - 1]);
      ActPerformsOp(states[n - 1], acts[n - 1]);
    }
  }

  lemma InitialIsValid()
    ensures P.INITIAL.Valid() && G.Resting(P.INITIAL)
  {
  }

  /** The worker's operations in the first `n` acts. */
  ghost function OpsOf(states: seq<Station>, acts: seq<Act>, n: nat): seq<Op>
    requires n <= |acts| < |states|
  {
    if n == 0 then [] else
      OpsOf(states, acts, n - 1)
      + if states[n - 1].parser.Valid() && OpOf(states[n - 1], acts[n - 1]).Some?
        then [OpOf(states[n - 1], acts[n - 1]).value] else []
  }

  /** Every run of the service contains a run of the worker from its start-up: all that is
      proved of the worker's runs holds of the service. */
  lemma {:induction false} WorkerRuns(states: seq<Station>, acts: seq<Act>, n: nat)
    requires Serves(states, acts) && n <= |acts|
    ensures Leads(STARTED, OpsOf(states, acts, n), states[n].worker)
  {
    hide May, After, P.Parser.Valid, OpOf, Step, Enabled, Leads;
    if n == 0 {
      NoOpsYet();
    } else {
      WorkerRuns(states, acts, n - 1);
      ParserStaysValid(states, acts, n - 1);
      assert states[n - 1 + 1] == After(states[n - 1], acts[n - 1]);
      ActPerformsOp(states[n - 1], acts[n - 1]);
      var ops := OpsOf(states, acts, n - 1);
      if OpOf(states[n - 1], acts[n - 1]).Some? {
        LeadsOn(STARTED, ops, states[n - 1].worker, OpOf(states[n - 1], acts[n - 1]).value);
      } else {
        assert ops + [] == ops;
      }
    }
  }

  lemma NoOpsYet()
    ensures Leads(STARTED, [], STARTED)
  {
  }

  /** In every state the service reaches, the worker is thermally safe and every accepted
      frame is finished or queued, in order. */
  lemma ServiceIsSafe(states: seq<Station>, acts: seq<Act>, n: nat)
    requires Serves(states, acts) && n <= |acts|
    ensures WorkerSafety.ThermallySafe(states[n].worker) && Conserved(states[n].worker.tx)
  {
    hide May, After, Started, Step, Enabled, Leads, Run, Conserved, OpsOf, WorkerSafety.ThermallySafe;
    var ops := OpsOf(states, acts, n);
    WorkerRuns(states, acts, n);
    LeadsIsRun(STARTED, ops, states[n].worker);
    var run := StatesOf(STARTED, ops);
    WorkerSafety.RunIsThermallySafe(run, ops, |ops|);
    OneTerminalPerFrame(run, ops, |ops|);
  }

  // ----- the bytes -----

  /** What the host writes in acts i to j-1. */
  function HostBytes(acts: seq<Act>, i: nat, j: nat): seq<byte>
    requires i <= j <= |acts|
    decreases j - i
  {
    if i == j then [] else Written(acts[i]) + HostBytes(acts, i + 1, j)
  }

  /** What the service reads in acts i to j-1. */
  function BytesRead(acts: seq<Act>, i: nat, j: nat): seq<byte>
    requires i <= j <= |acts|
    decreases j - i
  {
    if i == j then [] else ReadBy(acts[i]) + BytesRead(acts, i + 1, j)
  }

  /** The ring has room for each of the host's writes. */
  ghost predicate NoOverflow(states: seq<Station>, acts: seq<Act>, i: nat, j: nat)
    requires i <= j <= |acts| < |states|
  {
    forall k :: i <= k < j && acts[k].HostAct? ==> states[k].input.region.Used() + |acts[k].buf| <= Ring.CAP
  }

  function Written(act: Act): seq<byte> {
    if act.HostAct? then act.buf else []
  }

  function ReadBy(act: Act): seq<byte> {
    if act.ByteAct? then [act.b] else []
  }

  lemma WriteOnInput(r: Ring.Reading, buf: seq<byte>)
    requires r.region.Sane() && |buf| <= Ring.CAP && r.region.head + |buf| < TWO_32
    ensures var w := Ring.Written(r.region, buf);
            && w.Sane() && w.head == r.region.head + |buf|
            && (r.region.Used() + |buf| <= Ring.CAP ==> r.(region := w).Queue() == r.Queue() + buf)
  {
    Ring.WriteKeepsTheNewest(r.region, buf);
    hide Ring.Written, Ring.Region.View;
    assert (r.ahead + r.region.View()) + buf == r.ahead + (r.region.View() + buf);
  }

  /** One act moves the ring's head by what it writes, and keeps the queue first in first
      out if what it writes fits. */
  lemma ActOnInput(s: Station, act: Act)
    requires May(s, act) && s.input.region.Sane() && s.input.region.head + |Written(act)| < TWO_32
    ensures var t := After(s, act).input;
            && t.region.Sane() && t.region.head == s.input.region.head + |Written(act)|
            && ((act.HostAct? ==> s.input.region.Used() + |act.buf| <= Ring.CAP) ==>
                 ReadBy(act) + t.Queue() == s.input.Queue() + Written(act))
  {
    hide Ring.Region.View, Ring.Written, Ring.Fetch, P.Parser.Valid, Step, Callbacks, Enabled, AfterByte, Ring.Region.Sane,
         Ring.Reading.Queue;
    var r := s.input;
    SaneIsValid(r.region);
    if act.HostAct? {
      WriteOnInput(r, act.buf);
      SaneIsValid(Ring.Written(r.region, act.buf));
      assert [] + r.(region := Ring.Written(r.region, act.buf)).Queue()
             == r.(region := Ring.Written(r.region, act.buf)).Queue();
    } else if act.WorkerAct? {
      assert r.Queue() + [] == [] + r.Queue();
    } else {
      Ring.ReadTakesTheOldest(r);
      FetchKeepsHead(r);
      assert r.Queue() + [] == r.Queue();
      if act.ByteAct? {
        AfterByteKeepsInput(Looked(s), act.b, act.around);
      }
    }
  }

  lemma FetchKeepsHead(r: Ring.Reading)
    requires |r.region.data| == Ring.CAP
    ensures Ring.Fetch(r).0.region.head == r.region.head
  {
  }

  lemma AfterByteKeepsInput(s: Station, b: byte, around: Around)
    requires s.parser.Valid()
    ensures AfterByte(s, b, around).input == s.input
  {
    hide P.Step, Obeyed, AnswerNotes, EventOf;
  }

  /** While fewer than 2^32 bytes pass, the ring's counters are in order. */
  lemma {:induction false} InputStaysSane(states: seq<Station>, acts: seq<Act>, i: nat, j: nat)
    requires Serves(states, acts) && i <= j <= |acts| && states[i].input.region.Sane()
    requires states[i].input.region.head + |HostBytes(acts, i, j)| < TWO_32
    ensures states[j].input.region.Sane()
    ensures states[j].input.region.head == states[i].input.region.head + |HostBytes(acts, i, j)|
    decreases j - i
  {
    hide May, After, Ring.Region.Sane;
    if i < j {
      assert states[i + 1] == After(states[i], acts[i]);
      ActOnInput(states[i], acts[i]);
      InputStaysSane(states, acts, i + 1, j);
    }
  }

  lemma StartIsSane(states: seq<Station>, acts: seq<Act>)
    requires Serves(states, acts)
    ensures states[0].input.region.Sane() && states[0].input.region.head == 0
  {
  }

  /** First in, first out, over any stretch of a run in which the ring does not overflow:
      what was queued and then written is what was read and is then queued. */
  lemma {:induction false} InputIsFifo(states: seq<Station>, acts: seq<Act>, i: nat, j: nat)
    requires Serves(states, acts) && i <= j <= |acts| && states[i].input.region.Sane()
    requires states[i].input.region.head + |HostBytes(acts, i, j)| < TWO_32 && NoOverflow(states, acts, i, j)
    ensures states[j].input.region.Sane()
    ensures BytesRead(acts, i, j) + states[j].input.Queue() == states[i].input.Queue() + HostBytes(acts, i, j)
    decreases j - i
  {
    hide May, After, Ring.Region.Sane, Ring.Region.View, Ring.Reading.Queue;
    SaneIsValid(states[i].input.region);
    if i == j {
      assert [] + states[i].input.Queue() == states[i].input.Queue() + [];
    } else {
      assert states[i + 1] == After(states[i], acts[i]);
      ActOnInput(states[i], acts[i]);
      InputIsFifo(states, acts, i + 1, j);
      SaneIsValid(states[i + 1].input.region);
      SaneIsValid(states[j].input.region);
      Ring.Regroup(ReadBy(acts[i]), BytesRead(acts, i + 1, j), states[j].input.Queue(), states[i + 1].input.Queue(),
                   HostBytes(acts, i + 1, j), states[i].input.Queue(), Written(acts[i]));
    }
  }

  lemma SaneIsValid(r: Ring.Region)
    requires r.Sane()
    ensures |r.data| == Ring.CAP
  {
  }

  // ----- the commands -----

  /** What the bytes among acts i to j-1 complete. */
  ghost function EventsOf(states: seq<Station>, acts: seq<Act>, i: nat, j: nat): seq<P.Event>
    requires i <= j <= |acts| < |states|
    decreases j - i
  {
    if i == j then [] else
      (if acts[i].ByteAct? && states[i].parser.Valid()
          && EventOf(states[i].parser, acts[i].b, acts[i].around.now).Some?
       then [EventOf(states[i].parser, acts[i].b, acts[i].around.now).value] else [])
      + EventsOf(states, acts, i + 1, j)
  }

  /** The bytes among acts i to j-1 with the real times at which they are read. */
  function ArrivalsOf(acts: seq<Act>, times: seq<nat>, i: nat, j: nat): seq<G.Arrival>
    requires i <= j <= |acts| == |times|
    decreases j - i
  {
    if i == j then [] else
      (if acts[i].ByteAct? then [G.Arrival(acts[i].b, times[i])] else []) + ArrivalsOf(acts, times, i + 1, j)
  }

  /** The code sees each byte's real time modulo 2^32. */
  ghost predicate Clocked(acts: seq<Act>, times: seq<nat>) {
    |acts| == |times| && forall i :: 0 <= i < |acts| && acts[i].ByteAct? ==> acts[i].around.now == U32(times[i])
  }

  lemma ByteParses(s: Station, act: Act)
    requires May(s, act) && act.ByteAct?
    ensures var (p, es) := P.Step(s.parser, act.b, act.around.now);
            && After(s, act).parser == p
            && es == match EventOf(s.parser, act.b, act.around.now) case Some(e) => [e] case None => []
  {
    hide P.Consume, P.Resync, Obeyed, AnswerNotes;
    P.StepYieldsOneBoundedEvent(s.parser, act.b, act.around.now);
  }

  lemma OthersDoNotParse(s: Station, act: Act)
    requires May(s, act) && !act.ByteAct?
    ensures After(s, act).parser == s.parser
  {
    hide Step, Callbacks, Enabled;
  }

  /** Whatever the worker does between the bytes, the parser runs on the bytes alone. */
  lemma {:induction false} EventsAreParsed(states: seq<Station>, acts: seq<Act>, times: seq<nat>, i: nat, j: nat)
    requires Serves(states, acts) && Clocked(acts, times) && i <= j <= |acts|
    ensures states[i].parser.Valid()
    ensures EventsOf(states, acts, i, j) == G.Run(states[i].parser, ArrivalsOf(acts, times, i, j)).1
    ensures states[j].parser == G.Run(states[i].parser, ArrivalsOf(acts, times, i, j)).0
    decreases j - i
  {
    hide May, After, P.Parser.Valid, P.Step, EventOf;
    ParserStaysValid(states, acts, i);
    if i < j {
      EventsAreParsed(states, acts, times, i + 1, j);
      assert states[i + 1] == After(states[i], acts[i]);
      var rest := ArrivalsOf(acts, times, i + 1, j);
      if acts[i].ByteAct? {
        ByteParses(states[i], acts[i]);
        assert ([G.Arrival(acts[i].b, times[i])] + rest)[1..] == rest;
      } else {
        OthersDoNotParse(states[i], acts[i]);
        assert ArrivalsOf(acts, times, i, j) == [] + rest == rest;
        assert EventsOf(states, acts, i, j) == EventsOf(states, acts, i + 1, j);
      }
    }
  }

  lemma {:induction false} ArrivalsAreBytes(acts: seq<Act>, times: seq<nat>, i: nat, j: nat)
    requires i <= j <= |acts| == |times|
    ensures G.Values(ArrivalsOf(acts, times, i, j)) == BytesRead(acts, i, j)
    decreases j - i
  {
    if i < j {
      ArrivalsAreBytes(acts, times, i + 1, j);
      var rest := ArrivalsOf(acts, times, i + 1, j);
      if acts[i].ByteAct? {
        assert ([G.Arrival(acts[i].b, times[i])] + rest)[1..] == rest;
      } else {
        assert [] + rest == rest && [] + BytesRead(acts, i + 1, j) == BytesRead(acts, i + 1, j);
      }
    }
  }

  /** From start-up, on any bytes read without a gap, whatever happens in between, the
      commands handled are exactly those of the grammar. */
  lemma ServiceMeetsGrammar(states: seq<Station>, acts: seq<Act>, times: seq<nat>, n: nat)
    requires Serves(states, acts) && Clocked(acts, times) && n <= |acts|
    requires var a := ArrivalsOf(acts, times, 0, n);
             a != [] && G.Steady(a[0].at, a[1..])
    ensures EventsOf(states, acts, 0, n) == G.Parse(G.Values(ArrivalsOf(acts, times, 0, n)))
  {
    hide May, After, P.Parser.Valid, G.Parse, G.Run, G.Resting, G.Steady, ArrivalsOf, EventsOf;
    InitialIsValid();
    EventsAreParsed(states, acts, times, 0, n);
    G.StreamMeetsGrammar(states[0].parser, ArrivalsOf(acts, times, 0, n));
  }

  /** A CONFIG whose tune fails is answered by 'E' 0x03; sent again, as the host does every
      second, it is answered by 'G' however often, and is not in force. */
  lemma RepeatedConfigIsAnsweredReady(body: seq<byte>, once: Around, again: Around)
    requires Bounded(P.Configure(body)) && ReadConfig(body).TuneRequest? && !once.tuneOk
    requires ReadConfig(body).config.freqHz != 0 && ReadConfig(body).config.freqHz != BOOT_HZ
    ensures var e, c := P.Configure(body), ReadConfig(body).config;
            var w := Obeyed(STARTED, e, once);
            && Answer(STARTED, e, once) == [DeviceFrames.Error(3, TEXT_NO_TUNE)]
            && Answer(w, e, again) == [DeviceFrames.Ready(MAX_PAYLOAD_REPORTED)] && Obeyed(w, e, again) == w
            && w.cfg.freqHz == c.freqHz && w.air.tunedHz == BOOT_HZ && !WorkerSafety.InForce(w, c)
  {
    hide ReadConfig;
    WorkerSafety.RepeatedConfigIsNotInForce(ReadConfig(body).config, again.tuneOk);
  }

  // ----- what the host learns of its frames -----

  function Select(notes: seq<Note>, p: Note -> bool): seq<Note> {
    if notes == [] then [] else
      var n := |notes| - 1;
      Select(notes[..n], p) + if p(notes[n]) then [notes[n]] else []
  }

  predicate IsRefusal(n: Note) {
    n.Told? && n.frame.Error? && n.frame.code == 4
  }

  predicate IsLaunch(n: Note) {
    n.Told? && n.frame.Diag? && n.frame.event == 47
  }

  predicate IsEnding(n: Note) {
    n.Told? && n.cause == Ending
  }

  /** The diagnostics 47 of accepted frames. */
  function LaunchNotes(ps: seq<seq<byte>>): seq<Note> {
    if ps == [] then [] else
      LaunchNotes(ps[..|ps| - 1]) + [Told(Command, DeviceFrames.Diag(47, U32(|ps[|ps| - 1]|)))]
  }

  /** Among everything told to the host, the 'E' 0x04 frames are as many as the frames
      refused, the diagnostics 47 are those of the accepted frames, in order, and the
      terminal frames are those of the finished frames, in order. */
  ghost predicate HostKnows(s: Station) {
    && |Select(s.notes, IsRefusal)| == s.worker.tx.refused
    && Select(s.notes, IsLaunch) == LaunchNotes(s.worker.tx.accepted)
    && Select(s.notes, IsEnding) == EndingNotes(s.worker.tx.terminals)
  }

  lemma {:induction false} SelectConcat(a: seq<Note>, b: seq<Note>, p: Note -> bool)
    ensures Select(a + b, p) == Select(a, p) + Select(b, p)
  {
    if b == [] {
      assert a + b == a;
    } else {
      var n := |b| - 1;
      SelectConcat(a, b[..n], p);
      LastOfConcat(a, b);
    }
  }

  lemma {:induction false} SelectNone(a: seq<Note>, p: Note -> bool)
    requires forall i :: 0 <= i < |a| ==> !p(a[i])
    ensures Select(a, p) == []
  {
    if a != [] {
      SelectNone(a[..|a| - 1], p);
    }
  }

  lemma {:induction false} SelectAll(a: seq<Note>, p: Note -> bool)
    requires forall i :: 0 <= i < |a| ==> p(a[i])
    ensures Select(a, p) == a
  {
    if a != [] {
      SelectAll(a[..|a| - 1], p);
      assert a == a[..|a| - 1] + [a[|a| - 1]];
    }
  }

  lemma {:induction false} EndingsConcat(a: seq<Finished>, b: seq<Finished>)
    ensures EndingNotes(a + b) == EndingNotes(a) + EndingNotes(b)
  {
    if b == [] {
      assert a + b == a;
    } else {
      EndingsConcat(a, b[..|b| - 1]);
      LastOfConcat(a, b);
    }
  }

  lemma {:induction false} EndingAt(ts: seq<Finished>, m: nat)
    ensures |EndingNotes(ts)| == |ts|
    ensures m < |ts| ==> EndingNotes(ts)[m] == Told(Ending, TerminalFrame(ts[m].outcome))
  {
    if ts != [] {
      EndingAt(ts[..|ts| - 1], m);
    }
  }

  lemma {:induction false} EndingsAreEndings(ts: seq<Finished>)
    requires FinalOutcomes(ts)
    ensures forall i :: 0 <= i < |EndingNotes(ts)| ==>
              IsEnding(EndingNotes(ts)[i]) && !IsRefusal(EndingNotes(ts)[i]) && !IsLaunch(EndingNotes(ts)[i])
  {
    if ts != [] {
      EndingsAreEndings(ts[..|ts| - 1]);
    }
  }

  ghost predicate Neutral(notes: seq<Note>) {
    forall i :: 0 <= i < |notes| ==> !IsRefusal(notes[i]) && !IsLaunch(notes[i]) && !IsEnding(notes[i])
  }

  lemma {:induction false} ReportsAreNeutral(rs: seq<Report>)
    ensures Neutral(ReportNotes(rs))
  {
    if rs != [] {
      ReportsAreNeutral(rs[..|rs| - 1]);
    }
  }

  lemma {:induction false} HeardIsNeutral(rs: seq<RxLoop.Rx>)
    ensures Neutral(HeardNotes(rs))
  {
    if rs != [] {
      HeardIsNeutral(rs[..|rs| - 1]);
    }
  }

  /** Notes told for a change of the worker keep what the host knows. */
  lemma Learns(s: Station, t: Station, notes: seq<Note>)
    requires HostKnows(s) && t.notes == s.notes + notes
    requires t.worker.tx.refused == s.worker.tx.refused + |Select(notes, IsRefusal)|
    requires LaunchNotes(t.worker.tx.accepted) == LaunchNotes(s.worker.tx.accepted) + Select(notes, IsLaunch)
    requires EndingNotes(t.worker.tx.terminals) == EndingNotes(s.worker.tx.terminals) + Select(notes, IsEnding)
    ensures HostKnows(t)
  {
    SelectConcat(s.notes, notes, IsRefusal);
    SelectConcat(s.notes, notes, IsLaunch);
    SelectConcat(s.notes, notes, IsEnding);
  }

  lemma NeutralIsNotSelected(notes: seq<Note>)
    requires Neutral(notes)
    ensures Select(notes, IsRefusal) == [] && Select(notes, IsLaunch) == [] && Select(notes, IsEnding) == []
  {
    SelectNone(notes, IsRefusal);
    SelectNone(notes, IsLaunch);
    SelectNone(notes, IsEnding);
  }

  /** A command changes what the worker holds exactly as its answer says. */
  lemma AnswerTells(w: Worker, e: P.Event, around: Around)
    requires Bounded(e)
    ensures var x, y, notes := w.tx, Obeyed(w, e, around).tx, AnswerNotes(w, e, around);
            && y.refused == x.refused + |Select(notes, IsRefusal)|
            && LaunchNotes(y.accepted) == LaunchNotes(x.accepted) + Select(notes, IsLaunch)
            && y.terminals == x.terminals && Select(notes, IsEnding) == []
  {
    hide ReadConfig, LaunchNotes;
    if e.Transmit? {
      TransmitTells(w, e.payload, around);
    } else {
      hide ApplyConfig, StartScan;
      OtherCommandsKeepTx(w, e, around);
      var notes := AnswerNotes(w, e, around);
      assert Neutral(notes);
      NeutralIsNotSelected(notes);
    }
  }

  lemma OtherCommandsKeepTx(w: Worker, e: P.Event, around: Around)
    requires Bounded(e) && !e.Transmit?
    ensures Obeyed(w, e, around).tx == w.tx
  {
    hide ReadConfig;
  }

  lemma SelectOne(n: Note)
    ensures Select([n], IsRefusal) == (if IsRefusal(n) then [n] else [])
    ensures Select([n], IsLaunch) == (if IsLaunch(n) then [n] else [])
    ensures Select([n], IsEnding) == (if IsEnding(n) then [n] else [])
  {
    assert [n][..0] == [];
  }

  lemma LaunchOneMore(ps: seq<seq<byte>>, p: seq<byte>)
    ensures LaunchNotes(ps + [p]) == LaunchNotes(ps) + [Told(Command, DeviceFrames.Diag(47, U32(|p|)))]
  {
    assert (ps + [p])[..|ps|] == ps;
  }

  lemma TellsOne(w: Worker, p: seq<byte>, around: Around)
    requires Bounded(P.Transmit(p))
    ensures AnswerNotes(w, P.Transmit(p), around) ==
            [Told(Command, if Enqueue(w, p).1 == Busy then DeviceFrames.Error(4, TEXT_BUSY)
                           else DeviceFrames.Diag(47, |p|))]
  {
  }

  lemma TransmitTells(w: Worker, p: seq<byte>, around: Around)
    requires Bounded(P.Transmit(p))
    ensures var x, y, notes := w.tx, Obeyed(w, P.Transmit(p), around).tx, AnswerNotes(w, P.Transmit(p), around);
            && y.refused == x.refused + |Select(notes, IsRefusal)|
            && LaunchNotes(y.accepted) == LaunchNotes(x.accepted) + Select(notes, IsLaunch)
            && y.terminals == x.terminals && Select(notes, IsEnding) == []
  {
    hide Select, LaunchNotes;
    var x := w.tx;
    TellsOne(w, p, around);
    hide AnswerNotes, Answer;
    if Enqueue(w, p).1 == Busy {
      SelectOne(Told(Command, DeviceFrames.Error(4, TEXT_BUSY)));
      assert LaunchNotes(x.accepted) + [] == LaunchNotes(x.accepted);
    } else {
      SelectOne(Told(Command, DeviceFrames.Diag(47, |p|)));
      LaunchOneMore(x.accepted, p);
    }
  }

  lemma CompletedLearns(s: Station, b: byte, around: Around)
    requires HostKnows(s) && s.parser.Valid()
    ensures HostKnows(Completed(s, b, around))
  {
    hide P.Step, AnswerNotes, Obeyed, EventOf, Select, LaunchNotes, EndingNotes;
    var e := EventOf(s.parser, b, around.now);
    if e.Some? {
      AnswerTells(s.worker, e.value, around);
      Learns(s, Completed(s, b, around), AnswerNotes(s.worker, e.value, around));
    }
  }

  lemma CadenceLearns(s: Station, around: Around)
    requires HostKnows(s)
    ensures HostKnows(Cadence(s, around))
  {
    hide Select, LaunchNotes, EndingNotes;
    var note := Told(Unasked, DeviceFrames.Stats(around.stats));
    NeutralIsNotSelected([note]);
    if U32(around.statsMs - s.lastStatsMs) >= STATS_PERIOD_MS {
      Learns(s, Cadence(s, around), [note]);
    }
  }

  /** The worker's own operations accept and refuse nothing, and add to the terminals. */
  lemma OwnOpsKeepAccepted(w: Worker, op: Op)
    requires Enabled(w, op) && (op.ThermalOp? || op.TickOp? || op.ServiceOp? || op.ReceivedOp?)
    ensures var x, y := w.tx, Step(w, op).tx;
            y.accepted == x.accepted && y.refused == x.refused && x.terminals <= y.terminals
  {
    hide DropAll, BurstTransmit.SentAsBurst, RxLoop.TallyOf, DwellOver, ChannelHz;
  }

  lemma OwnOpTells(w: Worker, op: Op)
    requires Enabled(w, op) && (op.ThermalOp? || op.TickOp? || op.ServiceOp? || op.ReceivedOp?)
    requires Conserved(Step(w, op).tx)
    ensures var x, y, notes := w.tx, Step(w, op).tx, Callbacks(w, op, Step(w, op));
            && y.accepted == x.accepted && y.refused == x.refused
            && Select(notes, IsRefusal) == [] && Select(notes, IsLaunch) == []
            && EndingNotes(y.terminals) == EndingNotes(x.terminals) + Select(notes, IsEnding)
  {
    OwnOpsKeepAccepted(w, op);
    hide Step, Enabled, Select, EndingNotes, ReportNotes, HeardNotes, RxLoop.Deliverable, Neutral, IsRefusal, IsLaunch,
         IsEnding, LaunchNotes, Frames;
    var w' := Step(w, op);
    var reports := ReportNotes(New(w.scan.reports, w'.scan.reports));
    var heard := HeardNotes(if op.ReceivedOp? then RxLoop.Deliverable(op.read) else []);
    var added := New(w.tx.terminals, w'.tx.terminals);
    ReportsAreNeutral(New(w.scan.reports, w'.scan.reports));
    HeardIsNeutral(if op.ReceivedOp? then RxLoop.Deliverable(op.read) else []);
    assert w'.tx.terminals == w.tx.terminals + added;
    EndingsConcat(w.tx.terminals, added);
    assert FinalOutcomes(added) by {
      assert forall i :: 0 <= i < |added| ==> added[i] == w'.tx.terminals[|w.tx.terminals| + i];
    }
    EndingsAreEndings(added);
    NeutralTogether(reports, heard);
    SelectEndings(reports + heard, EndingNotes(added));
  }

  lemma NeutralTogether(a: seq<Note>, b: seq<Note>)
    requires Neutral(a) && Neutral(b)
    ensures Neutral(a + b)
  {
  }

  lemma SelectEndings(neutral: seq<Note>, endings: seq<Note>)
    requires Neutral(neutral)
    requires forall i :: 0 <= i < |endings| ==>
               IsEnding(endings[i]) && !IsRefusal(endings[i]) && !IsLaunch(endings[i])
    ensures Select(neutral + endings, IsRefusal) == [] && Select(neutral + endings, IsLaunch) == []
    ensures Select(neutral + endings, IsEnding) == endings
  {
    NeutralIsNotSelected(neutral);
    SelectConcat(neutral, endings, IsRefusal);
    SelectConcat(neutral, endings, IsLaunch);
    SelectConcat(neutral, endings, IsEnding);
    SelectNone(endings, IsRefusal);
    SelectNone(endings, IsLaunch);
    SelectAll(endings, IsEnding);
  }

  lemma OtherFieldsDoNotMatter(s: Station, t: Station)
    requires HostKnows(s) && t.notes == s.notes && t.worker == s.worker
    ensures HostKnows(t)
  {
  }

  lemma LookedLearns(s: Station)
    requires HostKnows(s) && s.input.region.Valid()
    ensures HostKnows(Looked(s))
  {
  }

  lemma ActLearns(s: Station, act: Act)
    requires May(s, act) && s.parser.Valid() && HostKnows(s)
    ensures Conserved(After(s, act).worker.tx) ==> HostKnows(After(s, act))
  {
    hide HostKnows, Completed, Cadence, Step, Callbacks, Enabled, P.Parser.Valid, Conserved;
    match act
    case ByteAct(b, around) =>
      LookedLearns(s);
      CompletedLearns(Looked(s), b, around);
      CadenceLearns(Completed(Looked(s), b, around), around);
    case QuietAct(around) =>
      LookedLearns(s);
      CadenceLearns(Looked(s), around);
    case HostAct(buf) => OtherFieldsDoNotMatter(s, After(s, act));
    case WorkerAct(op) =>
      if Conserved(Step(s.worker, op).tx) {
        OwnOpTells(s.worker, op);
        assert LaunchNotes(s.worker.tx.accepted) + [] == LaunchNotes(s.worker.tx.accepted);
        Learns(s, After(s, act), Callbacks(s.worker, op, Step(s.worker, op)));
      }
  }

  lemma HostKnowsTheStart(data: seq<byte>, around: Around)
    ensures HostKnows(Started(data, around))
  {
    hide Select;
    NeutralIsNotSelected(Started(data, around).notes);
  }

  /** In every state that the service reaches, whatever bytes, polls and thermal levels led
      to it, the host has been told exactly what became of its frames; so the frames
      launched are those with a terminal and those still queued. */
  lemma {:induction false} HostIsTold(states: seq<Station>, acts: seq<Act>, n: nat)
    requires Serves(states, acts) && n <= |acts|
    ensures HostKnows(states[n])
    ensures |Select(states[n].notes, IsLaunch)| ==
            |Select(states[n].notes, IsEnding)| + |states[n].worker.tx.queue|
  {
    hide May, After, P.Parser.Valid, HostKnows, Select, Started, Conserved;
    ServiceIsSafe(states, acts, n);
    if n == 0 {
      var data, around: Around :| states[0] == Started(data, around);
      HostKnowsTheStart(data, around);
    } else {
      HostIsTold(states, acts, n - 1);
      ParserStaysValid(states, acts, n - 1);
      assert states[n - 1 + 1] == After(states[n - 1], acts[n - 1]);
      ActLearns(states[n - 1], acts[n - 1]);
    }
    CountsAgree(states[n]);
  }

  lemma {:induction false} NotesCount(ps: seq<seq<byte>>, ts: seq<Finished>)
    ensures |LaunchNotes(ps)| == |ps| && |EndingNotes(ts)| == |ts|
    decreases |ps| + |ts|
  {
    if ps != [] {
      NotesCount(ps[..|ps| - 1], ts);
    } else if ts != [] {
      NotesCount(ps, ts[..|ts| - 1]);
    }
  }

  lemma CountsAgree(s: Station)
    requires HostKnows(s) && Conserved(s.worker.tx)
    ensures |Select(s.notes, IsLaunch)| == |Select(s.notes, IsEnding)| + |s.worker.tx.queue|
  {
    NotesCount(s.worker.tx.accepted, s.worker.tx.terminals);
  }
}
