/** Bounded response: while the service may send, each turn of its loop finishes the oldest
    frame. */
module Progress {
  import opened Bytes
  import opened ServiceSafety
  import opened ServiceSpec
  import opened Superloop
  import opened WorkerService
  import opened WorkerSpec
  import BurstTransmit
  import EndToEnd
  import P = CommandParser
  import RxLoop

  /** The worker may send: the radio is up, neither cut off nor scanning, and the role sends. */
  predicate Sends(w: Worker) {
    w.radioOk && w.cfg.role != 2 && !w.scan.active && w.level < 2
  }

  // ----- one poll -----

  /** What a poll that sends does to the frames: the oldest gets its terminal. */
  ghost predicate FinishesOldest(x: TxSide, y: TxSide) {
    && y.accepted == x.accepted
    && if x.queue == [] then y.terminals == x.terminals
       else |y.terminals| == |x.terminals| + 1 && x.terminals <= y.terminals
            && y.terminals[|x.terminals|].frame == x.queue[0] && y.queue == x.queue[1..]
  }

  lemma ServiceFinishesOldest(w: Worker, op: Op)
    requires op.ServiceOp? && Enabled(w, op) && Sends(Step(w, op))
    ensures FinishesOldest(w.tx, Step(w, op).tx)
  {
    hide BurstTransmit.SentAsBurst;
  }

  lemma ReceiveKeepsTx(w: Worker, op: Op)
    requires op.ReceivedOp?
    ensures Enabled(w, op) && Step(w, op).tx == w.tx && (Sends(Step(w, op)) <==> Sends(w))
    ensures Step(w, op).scan.active == w.scan.active && Step(w, op).radioOk == w.radioOk
  {
    hide RxLoop.TallyOf;
  }

  lemma RadioFinishesOldest(w: Worker, read: seq<RxLoop.Rx>, served: Op, w': Worker)
    requires served.ServiceOp? && Leads(w, RadioOps(w, ReceivedOp(read), served, true), w') && Sends(w')
    ensures FinishesOldest(w.tx, w'.tx)
  {
    hide Step, Enabled, Callbacks, Leads, AllCallbacks, Sends, FinishesOldest;
    var recv := ReceivedOp(read);
    var a: seq<Op> := if w.radioOk && w.cfg.role != TX_ONLY then [recv] else [];
    var b: seq<Op> := if w.radioOk && !w.scan.active then [served] else [];
    assert RadioOps(w, recv, served, true) == a + b;
    var w1 := w;
    if a != [] {
      CallbacksOfOne(w, recv, b, w');
      ReceiveKeepsTx(w, recv);
      w1 := Step(w, recv);
    } else {
      assert a + b == b;
    }
    if b != [] {
      assert b == [served] + [];
      CallbacksOfOne(w1, served, [], w');
      CallbacksOfNone(Step(w1, served), w');
      ServiceFinishesOldest(w1, served);
    } else {
      CallbacksOfNone(w1, w');
      SendsServes(w1);
    }
  }

  lemma SendsServes(w: Worker)
    ensures Sends(w) ==> w.radioOk && !w.scan.active
  {
  }

  lemma ThermalKeepsFrames(w: Worker, op: Op)
    requires op.ThermalOp? && Enabled(w, op)
    ensures Step(w, op) == Thermal(w, op.checkMs, op.reading, op.booted, op.tuned)
    ensures Step(w, op).level < 2 ==> Step(w, op).tx == w.tx
    ensures Step(w, op).level >= 2 ==> !Sends(Step(w, op))
  {
    hide DropAll;
  }

  lemma TickKeepsFrames(w: Worker, op: Op)
    requires op.TickOp? && Enabled(w, op)
    ensures Step(w, op) == WorkerSpec.ScanTick(w, op.tickMs, op.tuned) && Step(w, op).tx == w.tx
  {
    hide DwellOver, ChannelHz;
  }

  /** A completed poll after which the worker may send has finished the oldest frame, if
      there was one. */
  lemma PollFinishesOldest(w: Worker, thermal: Op, read: seq<RxLoop.Rx>, served: Op, w': Worker)
    requires thermal.ThermalOp? && served.ServiceOp? && Sends(w')
    requires Leads(w, PollOps(w, thermal, ReceivedOp(read), served, true), w')
    ensures FinishesOldest(w.tx, w'.tx)
  {
    hide Step, Enabled, Callbacks, Leads, AllCallbacks, Sends, FinishesOldest, RadioOps, Thermal, WorkerSpec.ScanTick;
    var w1 := Thermal(w, thermal.checkMs, thermal.reading, thermal.booted, thermal.tuned);
    var recv, tick := ReceivedOp(read), TickOp(thermal.checkMs, thermal.tuned);
    if w1.level >= 2 {
      assert PollOps(w, thermal, recv, served, true) == [thermal] + [];
      CallbacksOfOne(w, thermal, [], w');
      ThermalKeepsFrames(w, thermal);
      CallbacksOfNone(w1, w');
    } else if w1.scan.active && w1.scan.idx < 255 {
      var w2 := WorkerSpec.ScanTick(w1, tick.tickMs, tick.tuned);
      var rest := RadioOps(w2, recv, served, true);
      assert PollOps(w, thermal, recv, served, true) == [thermal] + ([tick] + rest);
      CallbacksOfOne(w, thermal, [tick] + rest, w');
      ThermalKeepsFrames(w, thermal);
      CallbacksOfOne(w1, tick, rest, w');
      TickKeepsFrames(w1, tick);
      RadioFinishesOldest(w2, read, served, w');
    } else {
      var rest := RadioOps(w1, recv, served, true);
      assert PollOps(w, thermal, recv, served, true) == [thermal] + rest;
      CallbacksOfOne(w, thermal, rest, w');
      ThermalKeepsFrames(w, thermal);
      RadioFinishesOldest(w1, read, served, w');
    }
  }

  // ----- turns of the loop, in a run of the service -----

  /** Acts i to j-1 are a turn: the host writes and the server reads, then a poll of the
      worker runs to its end. */
  ghost predicate TurnAt(states: seq<Station>, acts: seq<Act>, i: nat, j: nat) {
    && i <= j <= |acts| < |states|
    && exists mid: nat, thermal, read, served :: PollsFrom(states, acts, i, mid, j, thermal, read, served)
  }

  ghost predicate PollsFrom(states: seq<Station>, acts: seq<Act>, i: nat, mid: nat, j: nat, thermal: Op,
                            read: seq<RxLoop.Rx>, served: Op)
    requires i <= j <= |acts| < |states|
  {
    && i <= mid <= j && thermal.ThermalOp? && served.ServiceOp?
    && (forall k :: i <= k < mid ==> !acts[k].WorkerAct?)
    && acts[mid..j] == WorkerActs(PollOps(states[mid].worker, thermal, ReceivedOp(read), served, true))
  }

  lemma {:induction false} WorkerActsLead(states: seq<Station>, acts: seq<Act>, i: nat, j: nat, ops: seq<Op>)
    requires Serves(states, acts) && i <= j <= |acts| && acts[i..j] == WorkerActs(ops)
    ensures Leads(states[i].worker, ops, states[j].worker)
    decreases |ops|
  {
    hide After, Step, Enabled;
    assert |ops| == j - i;
    if ops != [] {
      assert acts[i] == acts[i..j][0] == WorkerAct(ops[0]);
      assert states[i + 1] == After(states[i], acts[i]);
      WorkerActIsOp(states[i], ops[0]);
      assert acts[i + 1..j] == acts[i..j][1..] == WorkerActs(ops[1..]);
      WorkerActsLead(states, acts, i + 1, j, ops[1..]);
    }
  }

  lemma WorkerActIsOp(s: Station, op: Op)
    requires May(s, WorkerAct(op))
    ensures Enabled(s.worker, op) && After(s, WorkerAct(op)).worker == Step(s.worker, op)
  {
    hide Step, Callbacks;
  }

  lemma StepKeepsTerminals(w: Worker, op: Op)
    requires Enabled(w, op)
    ensures w.tx.terminals <= Step(w, op).tx.terminals
  {
    hide DropAll, BurstTransmit.SentAsBurst, DwellOver, ChannelHz, RxLoop.TallyOf;
  }

  lemma {:induction false} TerminalsStay(states: seq<Station>, acts: seq<Act>, i: nat, j: nat)
    requires Serves(states, acts) && i <= j <= |acts|
    ensures states[i].worker.tx.terminals <= states[j].worker.tx.terminals
    decreases j
  {
    hide May, After, P.Parser.Valid, OpOf, Step, Enabled;
    if i < j {
      TerminalsStay(states, acts, i, j - 1);
      ParserStaysValid(states, acts, j - 1);
      assert states[j - 1 + 1] == After(states[j - 1], acts[j - 1]);
      ActPerformsOp(states[j - 1], acts[j - 1]);
      if OpOf(states[j - 1], acts[j - 1]).Some? {
        StepKeepsTerminals(states[j - 1].worker, OpOf(states[j - 1], acts[j - 1]).value);
      }
    }
  }

  /** A turn after which the service may send finishes a frame unless all frames accepted
      before it are finished. */
  lemma TurnFinishesOne(states: seq<Station>, acts: seq<Act>, i: nat, j: nat)
    requires Serves(states, acts) && i <= j <= |acts|
    ensures TurnAt(states, acts, i, j) && Sends(states[j].worker) ==>
              var x, y := states[i].worker.tx, states[j].worker.tx;
              |y.terminals| > |x.terminals| || |y.terminals| >= |x.accepted|
  {
    hide May, After, PollOps, Leads, WorkerActs, Step, Enabled, Sends, Frames;
    if !TurnAt(states, acts, i, j) || !Sends(states[j].worker) {
      return;
    }
    var mid: nat, thermal, read, served :| PollsFrom(states, acts, i, mid, j, thermal, read, served);
    WorkerActsLead(states, acts, mid, j, PollOps(states[mid].worker, thermal, ReceivedOp(read), served, true));
    PollFinishesOldest(states[mid].worker, thermal, read, served, states[j].worker);
    TerminalsStay(states, acts, i, mid);
    EndToEnd.AcceptedFramesStay(states, acts, i, mid);
    ServiceIsSafe(states, acts, mid);
    assert |states[mid].worker.tx.accepted| == |states[mid].worker.tx.terminals| + |states[mid].worker.tx.queue|;
  }

  /** With k frames ahead of it, an accepted frame has its terminal after k + 1 turns that
      each end with the service able to send: `marks` are the turns' boundaries. */
  lemma {:induction false} BoundedResponse(states: seq<Station>, acts: seq<Act>, marks: seq<nat>, f: nat)
    requires Serves(states, acts) && marks != [] && forall t :: 0 <= t < |marks| ==> marks[t] <= |acts|
    requires forall t :: 0 < t < |marks| ==>
               TurnAt(states, acts, marks[t - 1], marks[t]) && Sends(states[marks[t]].worker)
    requires f < |states[marks[0]].worker.tx.accepted|
    requires var ahead := f - |states[marks[0]].worker.tx.terminals|;
             |marks| - 1 > ahead
    ensures f < |states[marks[|marks| - 1]].worker.tx.terminals|
    decreases |marks|
  {
    hide May, After, TurnAt, Sends;
    if |marks| > 1 {
      TurnsAreOrdered(states, acts, marks[0], marks[1]);
      TurnFinishesOne(states, acts, marks[0], marks[1]);
      if f < |states[marks[1]].worker.tx.terminals| {
        AllTerminalsStay(states, acts, marks[1..]);
      } else {
        EndToEnd.AcceptedFramesStay(states, acts, marks[0], marks[1]);
        BoundedResponse(states, acts, marks[1..], f);
      }
    }
  }

  lemma TurnsAreOrdered(states: seq<Station>, acts: seq<Act>, i: nat, j: nat)
    requires TurnAt(states, acts, i, j)
    ensures i <= j
  {
  }

  lemma {:induction false} AllTerminalsStay(states: seq<Station>, acts: seq<Act>, marks: seq<nat>)
    requires Serves(states, acts) && marks != [] && forall t :: 0 <= t < |marks| ==> marks[t] <= |acts|
    requires forall t :: 0 < t < |marks| ==> TurnAt(states, acts, marks[t - 1], marks[t])
    ensures |states[marks[0]].worker.tx.terminals| <= |states[marks[|marks| - 1]].worker.tx.terminals|
    decreases |marks|
  {
    hide May, After, TurnAt;
    if |marks| > 1 {
      TurnsAreOrdered(states, acts, marks[0], marks[1]);
      TerminalsStay(states, acts, marks[0], marks[1]);
      AllTerminalsStay(states, acts, marks[1..]);
    }
  }
}
