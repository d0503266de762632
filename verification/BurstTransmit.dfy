/** Transmission of one burst: up to three attempts a packet, each polled for
    TX_DONE against a 25 ms deadline on a wrapping millisecond clock. */
module BurstTransmit {
  import opened Bytes
  import opened Burst
  import Crc32

  /** One look at the interrupt flags, and how long the look took. */
  datatype Poll = Poll(txDone: bool, timeout: bool, delayUs: nat)

  /** Everything the radio may answer: whether attempt `a` of packet `i` starts and how long
      the call takes, how long standing by before a retry takes, and what the k-th poll
      shows. */
  datatype Radio = Radio(starts: (nat, nat) -> bool, startUs: (nat, nat) -> nat, standbyUs: (nat, nat) -> nat,
                         poll: (nat, nat, nat) -> Poll)

  /** One `startTransmit` call: the packet given to the radio, whether the radio took it,
      whether TX_DONE was seen, and the real times of the call and of the attempt's end. */
  datatype Attempt = Attempt(idx: nat, pkt: seq<byte>, started: bool, done: bool, startUs: nat, endUs: nat)

  const PACING_US := 220
  const RETRY_US := 500
  const TIMEOUT_MS := 25

  /** The millisecond clock the code reads at real time `us`. */
  function NowMs(us: nat): u32 {
    U32(us / 1000)
  }

  /** No single poll stalls for as long as the signed deadline test can span. */
  ghost predicate Responsive(radio: Radio) {
    forall i, a, k :: radio.poll(i, a, k).delayUs + 100 < 1000 * (TWO_31 - 1)
  }

  /** When poll n of an attempt that started by `us` is made: polls follow one another after
      100 us. */
  function PollUs(radio: Radio, i: nat, a: nat, us: nat, n: nat): nat {
    if n == 0 then us else PollUs(radio, i, a, us, n - 1) + radio.poll(i, a, n - 1).delayUs + 100
  }

  /** Poll n is the first that shows TX_DONE, no poll before it showed the radio's timeout,
      and it is made before the 25 ms are over. */
  ghost predicate DoneAt(radio: Radio, i: nat, a: nat, us: nat, n: nat) {
    && radio.poll(i, a, n).txDone && PollUs(radio, i, a, us, n) / 1000 < us / 1000 + 25
    && forall k :: 0 <= k < n ==> !radio.poll(i, a, k).txDone && !radio.poll(i, a, k).timeout
  }

  /** TX_DONE shows in time. */
  ghost predicate Seen(radio: Radio, i: nat, a: nat, us: nat) {
    exists n: nat :: DoneAt(radio, i, a, us, n)
  }

  /** The first n polls show no TX_DONE, and with the last one the radio timed out or after it
      the 25 ms are over. */
  ghost predicate GivenUpAt(radio: Radio, i: nat, a: nat, us: nat, n: nat) {
    && (forall k :: 0 <= k < n ==> !radio.poll(i, a, k).txDone)
    && (n > 0 ==> PollUs(radio, i, a, us, n - 1) / 1000 < us / 1000 + 25)
    && ((n > 0 && radio.poll(i, a, n - 1).timeout) || PollUs(radio, i, a, us, n) / 1000 >= us / 1000 + 25)
  }

  /** The polls end at `end`: with the n-th, if it shows TX_DONE or the timeout, or 100 us later. */
  ghost predicate PolledUntil(radio: Radio, i: nat, a: nat, us: nat, n: nat, end: nat) {
    && n > 0 && (forall k :: 0 <= k < n - 1 ==> !radio.poll(i, a, k).txDone && !radio.poll(i, a, k).timeout)
    && var p := radio.poll(i, a, n - 1);
       end == PollUs(radio, i, a, us, n - 1) + p.delayUs + if p.txDone || p.timeout then 0 else 100
  }

  ghost predicate PollingEnds(radio: Radio, i: nat, a: nat, us: nat, end: nat) {
    exists n: nat :: PolledUntil(radio, i, a, us, n, end)
  }

  lemma {:induction false} PollsAreOrdered(radio: Radio, i: nat, a: nat, us: nat, m: nat, n: nat)
    requires m <= n
    ensures us <= PollUs(radio, i, a, us, m) <= PollUs(radio, i, a, us, n)
    decreases n
  {
    if m < n {
      PollsAreOrdered(radio, i, a, us, m, n - 1);
    } else if n > 0 {
      PollsAreOrdered(radio, i, a, us, m - 1, n - 1);
    }
  }

  lemma GivenUpIsNotDone(radio: Radio, i: nat, a: nat, us: nat, n: nat)
    requires GivenUpAt(radio, i, a, us, n)
    ensures !Seen(radio, i, a, us)
  {
    forall m: nat
      ensures !DoneAt(radio, i, a, us, m)
    {
      if m >= n {
        PollsAreOrdered(radio, i, a, us, n, m);
      }
    }
  }

  /** Poll for TX_DONE until it shows, the radio times out or 25 ms have passed: TX_DONE is
      reported exactly when a poll made in time shows it. The loop ends wherever the 32-bit
      clock wraps. */
  method AwaitTxDone(radio: Radio, i: nat, a: nat, us: nat)
    returns (done: bool, polls: nat, us': nat)
    requires Responsive(radio)
    ensures us <= us' && (done <==> Seen(radio, i, a, us))
    ensures if done then polls > 0 && DoneAt(radio, i, a, us, polls - 1) else GivenUpAt(radio, i, a, us, polls)
    ensures PolledUntil(radio, i, a, us, polls, us')
  {
    hide Before, NowMs, Seen;
    done, polls, us' := false, 0, us;
    var deadline := U32(NowMs(us) + TIMEOUT_MS);
    InTime(us, us');
    while Before(NowMs(us'), deadline)
      invariant us <= us' == PollUs(radio, i, a, us, polls) && us' / 1000 < us / 1000 + TIMEOUT_MS + TWO_31
      invariant Before(NowMs(us'), deadline) <==> us' / 1000 < us / 1000 + TIMEOUT_MS
      invariant forall k :: 0 <= k < polls ==> !radio.poll(i, a, k).txDone && !radio.poll(i, a, k).timeout
      invariant polls > 0 ==> PollUs(radio, i, a, us, polls - 1) / 1000 < us / 1000 + TIMEOUT_MS
      invariant !done
      decreases 1000 * (us / 1000 + TIMEOUT_MS) - us'
    {
      var p := radio.poll(i, a, polls);
      polls := polls + 1;
      us' := us' + p.delayUs;
      if p.txDone {
        done := true;
        FirstIsSeen(radio, i, a, us, polls - 1);
        return;
      }
      if p.timeout {
        GivenUpIsNotDone(radio, i, a, us, polls);
        return;
      }
      us' := us' + 100;
      InTime(us, us');
    }
    GivenUpIsNotDone(radio, i, a, us, polls);
  }

  lemma FirstIsSeen(radio: Radio, i: nat, a: nat, us: nat, n: nat)
    requires DoneAt(radio, i, a, us, n)
    ensures Seen(radio, i, a, us)
  {
  }

  /** The code's deadline test on the wrapping clock. */
  lemma InTime(us: nat, now: nat)
    requires us <= now && now / 1000 < us / 1000 + TIMEOUT_MS + TWO_31
    ensures Before(NowMs(now), U32(NowMs(us) + TIMEOUT_MS)) <==> now / 1000 < us / 1000 + TIMEOUT_MS
  {
    var due := us / 1000 + TIMEOUT_MS;
    assert U32(NowMs(us) + TIMEOUT_MS) == U32(due);
    BeforeIsRealTime(now / 1000, due);
  }

  /** The attempt `t`, the a-th of its packet, went as the radio answered: it started if the
      radio took it, lasted as long as its polls, and is done exactly when one of them showed
      TX_DONE in time. */
  ghost predicate Answers(radio: Radio, t: Attempt, a: nat) {
    && t.started == radio.starts(t.idx, a)
    && var us := t.startUs + radio.startUs(t.idx, a);
       && (t.done <==> t.started && Seen(radio, t.idx, a, us))
       && if t.started then PollingEnds(radio, t.idx, a, us, t.endUs) else t.endUs == us
  }

  /** How many attempts of the same packet come right before attempt j. */
  function TryNo(trace: seq<Attempt>, j: nat): nat
    requires j < |trace|
  {
    if j > 0 && trace[j - 1].idx == trace[j].idx then 1 + TryNo(trace, j - 1) else 0
  }

  ghost predicate FromRadio(trace: seq<Attempt>, radio: Radio) {
    forall j :: 0 <= j < |trace| ==> Answers(radio, trace[j], TryNo(trace, j))
  }

  /** Attempts end before the next one starts: at least 500 us before a retry, and at
      least 220 us before the next packet. */
  ghost predicate Paced(trace: seq<Attempt>) {
    && (forall j :: 0 <= j < |trace| ==> trace[j].startUs <= trace[j].endUs)
    && forall j :: 0 < j < |trace| ==>
         if trace[j].idx == trace[j - 1].idx then trace[j].startUs >= trace[j - 1].endUs + 500
         else trace[j].startUs >= trace[j - 1].endUs + 220
  }

  /** Up to three attempts of one packet, of which only the last may have completed. */
  ghost predicate TriesOf(tries: seq<Attempt>, radio: Radio, i: nat, pkt: seq<byte>) {
    && |tries| <= 3 && Paced(tries)
    && (forall j :: 0 <= j < |tries| ==>
          tries[j].idx == i && tries[j].pkt == pkt && (tries[j].done ==> tries[j].started))
    && (forall j :: 0 <= j < |tries| ==> Answers(radio, tries[j], j))
    && forall j :: 0 <= j < |tries| - 1 ==> !tries[j].done
  }

  lemma OneMoreTry(tries: seq<Attempt>, radio: Radio, i: nat, pkt: seq<byte>, t: Attempt)
    requires TriesOf(tries, radio, i, pkt) && |tries| < 3
    requires tries != [] ==> !tries[|tries| - 1].done && t.startUs >= tries[|tries| - 1].endUs + RETRY_US
    requires t.idx == i && t.pkt == pkt && Answers(radio, t, |tries|)
    requires t.startUs <= t.endUs
    ensures TriesOf(tries + [t], radio, i, pkt)
  {
    hide DoneAt, PolledUntil, Seen;
  }

  /** The attempts for one packet: it is given up after the third. */
  method AirPacket(radio: Radio, i: nat, pkt: seq<byte>, us: nat)
    returns (done: bool, tries: seq<Attempt>, us': nat)
    requires Responsive(radio)
    ensures TriesOf(tries, radio, i, pkt) && tries != [] && (!done ==> |tries| == 3)
    ensures us == tries[0].startUs && tries[|tries| - 1].endUs == us' && us <= us'
    ensures done == tries[|tries| - 1].done && FromRadio(tries, radio)
  {
    hide TriesOf, DoneAt, GivenUpAt, PollUs, PolledUntil, Seen;
    done, tries, us' := false, [], us;
    NoTries(radio, i, pkt);
    while |tries| < 3 && !done
      invariant us <= us' && |tries| <= 3 && TriesOf(tries, radio, i, pkt)
      invariant if tries == [] then us' == us else tries[0].startUs == us && tries[|tries| - 1].endUs == us'
      invariant done == (tries != [] && tries[|tries| - 1].done)
      decreases 3 - |tries|
    {
      var attempt := |tries|;
      if attempt > 0 {
        us' := us' + radio.standbyUs(i, attempt) + RETRY_US;
      }
      var startUs := us';
      us' := us' + radio.startUs(i, attempt);
      if !radio.starts(i, attempt) {
        OneMoreTry(tries, radio, i, pkt, Attempt(i, pkt, false, false, startUs, us'));
        tries := tries + [Attempt(i, pkt, false, false, startUs, us')];
        continue;
      }
      var polls;
      done, polls, us' := AwaitTxDone(radio, i, attempt, us');
      OneMoreTry(tries, radio, i, pkt, Attempt(i, pkt, true, done, startUs, us'));
      tries := tries + [Attempt(i, pkt, true, done, startUs, us')];
    }
    TriesAreFromRadio(tries, radio, i, pkt);
  }

  lemma TriesAreFromRadio(tries: seq<Attempt>, radio: Radio, i: nat, pkt: seq<byte>)
    requires TriesOf(tries, radio, i, pkt)
    ensures FromRadio(tries, radio)
  {
    hide Answers;
    forall j | 0 <= j < |tries|
      ensures Answers(radio, tries[j], TryNo(tries, j))
    {
      assert j > 1 ==> TryNo(tries, j - 1) == 1;
    }
  }

  lemma NoTries(radio: Radio, i: nat, pkt: seq<byte>)
    ensures TriesOf([], radio, i, pkt)
  {
  }

  /** How many attempts of a trace completed. */
  function Completed(trace: seq<Attempt>): (n: nat)
    ensures n <= |trace|
  {
    if trace == [] then 0
    else Completed(trace[..|trace| - 1]) + if trace[|trace| - 1].done then 1 else 0
  }

  /** Every attempt is for the first packet that has not completed yet. */
  ghost predicate InOrder(trace: seq<Attempt>) {
    forall j :: 0 <= j < |trace| ==> trace[j].idx == Completed(trace[..j])
  }

  /** No packet gets a fourth attempt. */
  ghost predicate AtMostThree(trace: seq<Attempt>) {
    forall j :: 3 <= j < |trace| ==> trace[j - 3].idx < trace[j].idx
  }

  ghost predicate CarriesBurst(trace: seq<Attempt>, burstId: u16, payload: seq<byte>)
    requires PacketCount(|payload|) <= MAX_PACKETS
  {
    forall j :: 0 <= j < |trace| ==>
      && 0 <= trace[j].idx < PacketCount(|payload|)
      && trace[j].pkt == BurstPacket(burstId, trace[j].idx, payload, Crc32.Checksum(payload))
      && (trace[j].done ==> trace[j].started)
  }

  /** What a transmission leaves behind: its attempts carry the payload's packets in
      order and paced, at most three a packet; it succeeds exactly when every packet completed,
      and otherwise stops after three failures of the first packet that did not. */
  ghost predicate SentAsBurst(payload: seq<byte>, ok: bool, burstId: u16, trace: seq<Attempt>) {
    if 1 <= |payload| <= MAX_TOTAL_PAYLOAD then
      && PacketCount(|payload|) <= MAX_PACKETS
      && CarriesBurst(trace, burstId, payload) && InOrder(trace) && AtMostThree(trace) && Paced(trace)
      && (ok <==> Completed(trace) == PacketCount(|payload|))
      && (!ok ==> |trace| >= 3 && forall j :: |trace| - 3 <= j < |trace| ==>
            trace[j].idx == Completed(trace) && !trace[j].done)
    else
      !ok && trace == []
  }

  /** Transmit a payload as one burst. `id` is the mixed entropy; the trace lists the
      `startTransmit` calls, `sent` is the growth of the packets_tx counter. */
  method TransmitBurst(radio: Radio, payload: seq<byte>, id: u16, us: nat)
    returns (ok: bool, trace: seq<Attempt>, sent: nat, burstId: u16, us': nat)
    requires Responsive(radio)
    ensures us <= us' && burstId != 0 && (id != 0 ==> burstId == id)
    ensures SentAsBurst(payload, ok, burstId, trace) && sent == Completed(trace)
    ensures FromRadio(trace, radio) && EndedBy(trace, us')
  {
    hide PacketBytes, BurstPacket, Crc32.Checksum, SentSoFar, TriesOf, Answers, FromRadio, EndedBy;
    ok, trace, sent, us' := false, [], 0, us;
    burstId := if id == 0 then 1 else id;
    var total: u16 := (|payload| + CHUNK - 1) / CHUNK % 0x1_0000;
    NothingFromRadio(radio);
    if total == 0 || total > MAX_PACKETS || |payload| > MAX_TOTAL_PAYLOAD {
      return;
    }
    assert total == PacketCount(|payload|);
    var crc := Crc32.Compute(payload);
    NothingSentYet(burstId, payload, us);
    var pkt := new byte[PACKET_PAYLOAD];
    for idx := 0 to total
      invariant us <= us' && sent == idx && SentSoFar(trace, idx, burstId, payload, us')
      invariant fresh(pkt) && FromRadio(trace, radio)
    {
      ChunkStartsInside(|payload|, idx);
      EncodedIsBurstPacket(burstId, idx, payload, crc);
      var pktLen := EncodePacket(pkt, burstId, idx, total, payload, |payload|, crc);
      var done, tries;
      done, tries, us' := AirPacket(radio, idx, pkt[..pktLen], us');
      OnePacketMore(trace, tries, radio, idx, done, burstId, payload);
      MoreFromRadio(trace, tries, radio, idx, burstId, payload, pkt[..pktLen]);
      EndedWithTries(trace, tries);
      trace := trace + tries;
      if !done {
        return;
      }
      sent := sent + 1;
      us' := us' + PACING_US;
    }
    ok := true;
    AllPacketsSent(trace, burstId, payload, us');
  }

  /** Packets 0 to idx - 1 have completed by the time `us`, and nothing else was tried. */
  ghost predicate SentSoFar(trace: seq<Attempt>, idx: nat, burstId: u16, payload: seq<byte>, us: nat)
    requires PacketCount(|payload|) <= MAX_PACKETS
  {
    && CarriesBurst(trace, burstId, payload) && InOrder(trace) && AtMostThree(trace) && Paced(trace)
    && Completed(trace) == idx && (forall j :: 0 <= j < |trace| ==> trace[j].idx < idx)
    && (trace != [] ==> trace[|trace| - 1].endUs + PACING_US <= us)
  }

  /** The last attempt has ended. */
  predicate EndedBy(trace: seq<Attempt>, us: nat) {
    trace != [] ==> trace[|trace| - 1].endUs <= us
  }

  lemma EndedWithTries(trace: seq<Attempt>, tries: seq<Attempt>)
    requires tries != []
    ensures EndedBy(trace + tries, tries[|tries| - 1].endUs)
  {
  }

  lemma NothingFromRadio(radio: Radio)
    ensures FromRadio([], radio) && forall us :: EndedBy([], us)
  {
  }

  lemma {:induction false} TryNoInFront(a: seq<Attempt>, b: seq<Attempt>, j: nat)
    requires j < |a|
    ensures TryNo(a + b, j) == TryNo(a, j)
  {
    if j > 0 {
      TryNoInFront(a, b, j - 1);
    }
  }

  lemma {:induction false} TryNoBehind(a: seq<Attempt>, b: seq<Attempt>, j: nat)
    requires j < |b| && (a != [] ==> a[|a| - 1].idx != b[0].idx)
    ensures TryNo(a + b, |a| + j) == TryNo(b, j)
  {
    if j > 0 {
      TryNoBehind(a, b, j - 1);
    }
  }

  lemma MoreFromRadio(trace: seq<Attempt>, tries: seq<Attempt>, radio: Radio, idx: nat, burstId: u16,
                      payload: seq<byte>, pkt: seq<byte>)
    requires FromRadio(trace, radio) && FromRadio(tries, radio) && TriesOf(tries, radio, idx, pkt)
    requires PacketCount(|payload|) <= MAX_PACKETS && tries != []
    requires SentSoFar(trace, idx, burstId, payload, tries[0].startUs)
    ensures FromRadio(trace + tries, radio)
  {
    hide Answers, BurstPacket, Crc32.Checksum;
    var t := trace + tries;
    forall j | 0 <= j < |t|
      ensures Answers(radio, t[j], TryNo(t, j))
    {
      if j < |trace| {
        TryNoInFront(trace, tries, j);
      } else {
        TryNoBehind(trace, tries, j - |trace|);
      }
    }
  }

  lemma AllPacketsSent(trace: seq<Attempt>, burstId: u16, payload: seq<byte>, us: nat)
    requires 1 <= |payload| <= MAX_TOTAL_PAYLOAD && PacketCount(|payload|) <= MAX_PACKETS
    ensures SentSoFar(trace, PacketCount(|payload|), burstId, payload, us) ==>
              && SentAsBurst(payload, true, burstId, trace) && Completed(trace) == PacketCount(|payload|)
              && EndedBy(trace, us)
  {
    hide CarriesBurst, InOrder, AtMostThree, Paced, Completed;
  }

  /** The attempts of one more packet either complete it or fail the burst. */
  lemma OnePacketMore(trace: seq<Attempt>, tries: seq<Attempt>, radio: Radio, idx: nat, done: bool,
                      burstId: u16, payload: seq<byte>)
    requires 1 <= |payload| <= MAX_TOTAL_PAYLOAD && idx < PacketCount(|payload|) <= MAX_PACKETS
    requires tries != [] && SentSoFar(trace, idx, burstId, payload, tries[0].startUs)
    requires TriesOf(tries, radio, idx, BurstPacket(burstId, idx, payload, Crc32.Checksum(payload)))
    requires done == tries[|tries| - 1].done && (!done ==> |tries| == 3)
    ensures done ==> SentSoFar(trace + tries, idx + 1, burstId, payload, tries[|tries| - 1].endUs + PACING_US)
    ensures !done ==> SentAsBurst(payload, false, burstId, trace + tries) && Completed(trace + tries) == idx
  {
    hide BurstPacket, Crc32.Checksum, InOrder, AtMostThree, Paced, Completed;
    assert Paced(tries);
    TriesExtendTrace(trace, tries, idx, done);
    TriesStayPaced(trace, tries, idx);
  }

  lemma {:induction false} CompletedSplit(a: seq<Attempt>, b: seq<Attempt>)
    ensures Completed(a + b) == Completed(a) + Completed(b)
  {
    if b == [] {
      assert a + b == a;
    } else {
      var n := |b| - 1;
      assert (a + b)[..|a + b| - 1] == a + b[..n];
      CompletedSplit(a, b[..n]);
    }
  }

  lemma {:induction false} CompletedOfTries(tries: seq<Attempt>)
    requires forall j :: 0 <= j < |tries| - 1 ==> !tries[j].done
    ensures Completed(tries) == if tries != [] && tries[|tries| - 1].done then 1 else 0
  {
    if tries != [] {
      CompletedOfTries(tries[..|tries| - 1]);
    }
  }

  lemma NothingSentYet(burstId: u16, payload: seq<byte>, us: nat)
    requires PacketCount(|payload|) <= MAX_PACKETS
    ensures SentSoFar([], 0, burstId, payload, us)
  {
  }

  lemma EncodedIsBurstPacket(burstId: u16, idx: nat, payload: seq<byte>, crc: u32)
    requires idx < PacketCount(|payload|) <= MAX_PACKETS
    ensures U32(|payload| - idx * CHUNK) == |payload| - idx * CHUNK
    ensures BurstPacket(burstId, idx, payload, crc) ==
            PacketBytes(Header(MAGIC, burstId, idx, PacketCount(|payload|), |payload|, crc),
                        payload[idx * CHUNK..idx * CHUNK + Min(|payload| - idx * CHUNK, CHUNK)])
  {
    hide PacketBytes;
    ChunkStartsInside(|payload|, idx);
  }

  lemma TriesStayInOrder(trace: seq<Attempt>, tries: seq<Attempt>, idx: nat)
    requires InOrder(trace) && Completed(trace) == idx
    requires forall j :: 0 <= j < |tries| ==> tries[j].idx == idx
    requires forall j :: 0 <= j < |tries| - 1 ==> !tries[j].done
    ensures InOrder(trace + tries)
  {
    hide Completed;
    var t := trace + tries;
    forall j | 0 <= j < |t|
      ensures t[j].idx == Completed(t[..j])
    {
      if j < |trace| {
        assert t[..j] == trace[..j];
      } else {
        assert t[..j] == trace + tries[..j - |trace|];
        CompletedSplit(trace, tries[..j - |trace|]);
        CompletedOfTries(tries[..j - |trace|]);
      }
    }
  }

  lemma TriesStayPaced(trace: seq<Attempt>, tries: seq<Attempt>, idx: nat)
    requires Paced(trace) && Paced(tries) && tries != []
    requires forall j :: 0 <= j < |trace| ==> trace[j].idx < idx
    requires forall j :: 0 <= j < |tries| ==> tries[j].idx == idx
    requires trace != [] ==> trace[|trace| - 1].endUs + PACING_US <= tries[0].startUs
    ensures Paced(trace + tries)
  {
  }

  /** The attempts of the next packet keep the trace in order. */
  lemma TriesExtendTrace(trace: seq<Attempt>, tries: seq<Attempt>, idx: nat, done: bool)
    requires InOrder(trace) && AtMostThree(trace) && Completed(trace) == idx
    requires forall j :: 0 <= j < |trace| ==> trace[j].idx < idx
    requires 1 <= |tries| <= 3 && done == tries[|tries| - 1].done
    requires forall j :: 0 <= j < |tries| ==> tries[j].idx == idx
    requires forall j :: 0 <= j < |tries| - 1 ==> !tries[j].done
    ensures InOrder(trace + tries) && AtMostThree(trace + tries)
    ensures Completed(trace + tries) == idx + if done then 1 else 0
  {
    hide Completed, InOrder;
    TriesStayInOrder(trace, tries, idx);
    CompletedSplit(trace, tries);
    CompletedOfTries(tries);
  }

  // ----- what a receiver of the attempts can conclude -----

  lemma {:induction false} CompletedHasWitness(trace: seq<Attempt>, i: nat) returns (j: nat)
    requires InOrder(trace) && i < Completed(trace)
    ensures j < |trace| && trace[j].idx == i && trace[j].done
  {
    var n := |trace| - 1;
    if i < Completed(trace[..n]) {
      assert InOrder(trace[..n]) by {
        forall k | 0 <= k < n
          ensures trace[..n][k].idx == Completed(trace[..n][..k])
        {
          assert trace[..n][..k] == trace[..k];
        }
      }
      j := CompletedHasWitness(trace[..n], i);
    } else {
      j := n;
    }
  }

  lemma {:induction false} IndicesNeverDecrease(trace: seq<Attempt>, i: nat, j: nat)
    requires InOrder(trace) && i <= j < |trace|
    ensures trace[i].idx <= trace[j].idx
    decreases j
  {
    if i < j {
      IndicesNeverDecrease(trace, i, j - 1);
      assert trace[..j][..j - 1] == trace[..j - 1];
    }
  }

  /** The packets the radio was given. */
  function Aired(trace: seq<Attempt>): seq<seq<byte>> {
    if trace == [] then []
    else (if trace[0].started then [trace[0].pkt] else []) + Aired(trace[1..])
  }

  lemma {:induction false} AiredMembers(trace: seq<Attempt>, p: seq<byte>)
    ensures p in Aired(trace) <==> exists j :: 0 <= j < |trace| && trace[j].started && trace[j].pkt == p
  {
    if trace != [] {
      AiredMembers(trace[1..], p);
      if j :| 0 <= j < |trace| && trace[j].started && trace[j].pkt == p {
        assert j > 0 ==> trace[1..][j - 1] == trace[j];
      }
    }
  }

  /** A burst reported as sent completed every one of its packets: a receiver that
      heard those, and whatever else of the burst's attempts in any order, reassembles
      exactly the payload. */
  lemma SuccessfulBurstReassembles(trace: seq<Attempt>, heard: seq<seq<byte>>, burstId: u16,
                                   payload: seq<byte>, buf: seq<byte>)
    requires 1 <= |payload| <= MAX_TOTAL_PAYLOAD && |buf| == |payload|
    requires PacketCount(|payload|) <= MAX_PACKETS
    requires CarriesBurst(trace, burstId, payload) && InOrder(trace)
    requires Completed(trace) == PacketCount(|payload|)
    requires forall p :: p in heard ==> p in Aired(trace)
    requires forall j :: 0 <= j < |trace| && trace[j].done ==> trace[j].pkt in heard
    ensures Assemble(buf, heard) == payload
  {
    var crc := Crc32.Checksum(payload);
    forall p | p in heard
      ensures exists i :: 0 <= i < PacketCount(|payload|) && p == BurstPacket(burstId, i, payload, crc)
    {
      AiredMembers(trace, p);
      var j :| 0 <= j < |trace| && trace[j].started && trace[j].pkt == p;
      assert p == BurstPacket(burstId, trace[j].idx, payload, crc);
    }
    forall i | 0 <= i < PacketCount(|payload|)
      ensures BurstPacket(burstId, i, payload, crc) in heard
    {
      var j := CompletedHasWitness(trace, i);
    }
    ReassemblyRoundTrip(buf, heard, burstId, payload, crc);
  }
}
