/** The receive loop of one worker poll: packets are buffered while a burst is under
    way and handed up in order when it ends, fails or goes quiet. */
module RxLoop {
  import opened Bytes
  import opened Burst

  /** A packet read from the radio, with its signal strength. */
  datatype Rx = Rx(pkt: seq<byte>, rssi: int)

  /** What one turn of the loop may see: interrupt flags, the FIFO level at its three
      possible readings, the packet read, and the clock at its three readings. */
  datatype Look = Look(
    crcError: bool, lenError: bool, headerError: bool, timeout: bool, rxDone: bool,
    fifoIdle: nat, fifoAtRead: nat, readOk: bool, rx: Rx, fifoAfter: nat,
    nowIdle: u32, nowRead: u32, nowCheck: u32)
  {
    predicate HasError() {
      crcError || lenError || headerError || timeout
    }
  }

  // ----- specification -----

  /** Whether a turn reads a packet; `afterRx` says that the turn before it did. */
  predicate ReadsPacket(look: Look, afterRx: bool) {
    && (look.rxDone || (!look.HasError() && afterRx && look.fifoIdle >= PACKET_PAYLOAD))
    && !look.crcError && !look.lenError && !look.headerError
    && look.fifoAtRead >= PACKET_PAYLOAD
    && look.readOk
  }

  /** Whether a turn without a packet leaves the loop waiting for more of a burst. */
  predicate StaysInBurst(look: Look, afterRx: bool, inBurst: bool) {
    && !look.rxDone && !look.crcError && !look.lenError && !look.timeout
    && !(!look.headerError && afterRx && look.fifoIdle >= PACKET_PAYLOAD)
    && (inBurst || (!look.headerError && look.fifoIdle > 0))
  }

  predicate LastTurnRead(looks: seq<Look>) {
    looks != [] && ReadsPacket(looks[|looks| - 1], LastTurnRead(looks[..|looks| - 1]))
  }

  /** The packets read in the given turns, in order. */
  function PacketsRead(looks: seq<Look>): seq<Rx> {
    if looks == [] then [] else
      var n := |looks| - 1;
      PacketsRead(looks[..n]) + if LastTurnRead(looks) then [looks[n].rx] else []
  }

  /** Whether turn `t` reads, told from what the turns saw: it shows RX_DONE, or follows a
      reading turn and finds a whole packet left in the FIFO, and the packet is without
      error, whole and readable. */
  ghost predicate ReadsThen(looks: seq<Look>, turns: seq<nat>, t: nat)
    requires t < |looks|
  {
    && !looks[t].crcError && !looks[t].lenError && !looks[t].headerError
    && looks[t].fifoAtRead >= 511 && looks[t].readOk
    && (looks[t].rxDone || (t > 0 && t - 1 in turns && looks[t].fifoIdle >= 511 && !looks[t].timeout))
  }

  /** The packets `read` are those of the turns `turns`, in order. */
  ghost predicate Picks(looks: seq<Look>, turns: seq<nat>, read: seq<Rx>) {
    && |turns| == |read|
    && (forall i, j :: 0 <= i < j < |turns| ==> turns[i] < turns[j])
    && forall i :: 0 <= i < |turns| ==> turns[i] < |looks| && read[i] == looks[turns[i]].rx
  }

  /** What was read are the packets of exactly the turns that read. */
  ghost predicate ReadsExactly(looks: seq<Look>, turns: seq<nat>, read: seq<Rx>) {
    Picks(looks, turns, read) && forall t :: 0 <= t < |looks| ==> (t in turns <==> ReadsThen(looks, turns, t))
  }

  /** Until when a turn leaves the loop waiting for more, given until when it did before;
      None means not at all. */
  function NextWait(look: Look, afterRx: bool, before: Option<u32>): Option<u32> {
    if ReadsPacket(look, afterRx) then
      if !IsBurst(look.rx) then None
      else if !IsFinal(look.rx) then Some(U32(look.nowRead + 10))
      else if look.fifoAfter >= PACKET_PAYLOAD then Some(U32(look.nowRead + 5))
      else if look.fifoAfter > 0 then Some(U32(look.nowRead + 4))
      else None
    else if !StaysInBurst(look, afterRx, before.Some?) then None
    else if before.Some? then before
    else Some(U32(look.nowIdle + 4))
  }

  function Waiting(looks: seq<Look>): Option<u32> {
    if looks == [] then None else
      var n := |looks| - 1;
      NextWait(looks[n], LastTurnRead(looks[..n]), Waiting(looks[..n]))
  }

  /** Whether a turn ends the loop: nothing more is awaited, or nothing was read and the
      deadline has passed. */
  predicate EndsLoop(look: Look, read: bool, wait: Option<u32>) {
    wait == None || (!read && !Before(look.nowCheck, wait.value))
  }

  predicate Ends(looks: seq<Look>) {
    looks != [] && EndsLoop(looks[|looks| - 1], LastTurnRead(looks), Waiting(looks))
  }

  predicate IsBurst(r: Rx) {
    IsBurstPacket(r.pkt)
  }

  /** The last packet of its burst. */
  predicate IsFinal(r: Rx) {
    IsBurst(r) && HeaderOf(r.pkt).idx + 1 == HeaderOf(r.pkt).total
  }

  /** How many packets there are up to and including the last burst-final one. */
  function UpToFinal(rs: seq<Rx>): (n: nat)
    ensures n <= |rs|
  {
    if rs == [] then 0
    else if IsFinal(rs[|rs| - 1]) then |rs|
    else UpToFinal(rs[..|rs| - 1])
  }

  /** What is to be handed up of the packets read: everything, unless the last one is
      not a burst packet; then only the bursts completed before it. */
  function Deliverable(rs: seq<Rx>): seq<Rx> {
    if rs == [] || IsBurst(rs[|rs| - 1]) then rs else rs[..UpToFinal(rs)]
  }

  function CountConsensus(rs: seq<Rx>): nat {
    if rs == [] then 0
    else CountConsensus(rs[..|rs| - 1]) + if IsConsensusPrefix(rs[|rs| - 1].pkt) then 1 else 0
  }

  function CountFinal(rs: seq<Rx>): nat {
    if rs == [] then 0
    else CountFinal(rs[..|rs| - 1]) + if IsFinal(rs[|rs| - 1]) then 1 else 0
  }

  /** The value of `static_cast<int8_t>`. */
  function I8(x: int): int {
    if x % 256 < 128 then x % 256 else x % 256 - 256
  }

  /** The best signal strength kept in an 8-bit field. */
  function BestRssi(best: int, rs: seq<Rx>): int {
    if rs == [] then best else
      var b := BestRssi(best, rs[..|rs| - 1]);
      if rs[|rs| - 1].rssi > b then I8(rs[|rs| - 1].rssi) else b
  }

  /** The counters that a poll adds to, and the scan's best signal strength. */
  datatype Tally = Tally(packetsRx: nat, burstsRx: nat, scanFrames: nat, scanConsensus: nat, best: int)

  function TallyOf(scanning: bool, best: int, rs: seq<Rx>): Tally {
    Tally(|rs|, CountFinal(rs), if scanning then |rs| else 0,
          if scanning then CountConsensus(rs) else 0, if scanning then BestRssi(best, rs) else best)
  }

  // ----- the code -----

  /** The part of a turn that talks to the radio. */
  method PollRadio(look: Look, afterRx: bool, inBurst: bool, deadline: u32)
    returns (gotRx: bool, stillInBurst: bool, deadline': u32)
    ensures gotRx == ReadsPacket(look, afterRx)
    ensures gotRx <==> !look.crcError && !look.lenError && !look.headerError && look.fifoAtRead >= 511 && look.readOk
                       && (look.rxDone || (afterRx && look.fifoIdle >= 511 && !look.timeout))
    ensures !gotRx ==> stillInBurst == StaysInBurst(look, afterRx, inBurst)
    ensures deadline' == if StaysInBurst(look, afterRx, inBurst) && !inBurst then U32(look.nowIdle + 4) else deadline
  {
    gotRx, stillInBurst, deadline' := false, inBurst, deadline;
    var hasRx := look.rxDone;
    if !hasRx && !look.HasError() {
      if afterRx && look.fifoIdle >= PACKET_PAYLOAD {
        hasRx := true;
      } else if look.fifoIdle > 0 && !inBurst {
        stillInBurst := true;
        deadline' := U32(look.nowIdle + 4);
      }
    }
    if hasRx {
      if look.crcError || look.lenError || look.headerError {
        stillInBurst := false;
      } else if look.fifoAtRead < PACKET_PAYLOAD {
        stillInBurst := false;
      } else if look.readOk {
        gotRx := true;
      } else {
        stillInBurst := false;
      }
    } else if look.crcError || look.lenError || look.timeout {
      stillInBurst := false;
    }
  }

  /** Count one packet read, and its part in the scan; whether a burst ended with it is
      counted later. */
  method CountPacket(tally: Tally, scanning: bool, rx: Rx, ghost best: int, ghost read: seq<Rx>)
    returns (t: Tally)
    requires tally == TallyOf(scanning, best, read)
    ensures TallyOf(scanning, best, read + [rx]) ==
            if IsFinal(rx) then t.(burstsRx := t.burstsRx + 1) else t
  {
    OneMorePacket(scanning, best, read, rx);
    hide TallyOf, I8, IsConsensusPrefix, IsFinal;
    t := tally.(packetsRx := tally.packetsRx + 1);
    if rx.rssi > t.best && scanning {
      t := t.(best := I8(rx.rssi));
    }
    if scanning && IsConsensusPrefix(rx.pkt) {
      t := t.(scanConsensus := t.scanConsensus + 1);
    }
    if scanning {
      t := t.(scanFrames := t.scanFrames + 1);
    }
  }

  /** Run the loop on the turns `looks`; `finished` says that it came to its end within
      them, after `turns` of them. */
  method Receive(looks: seq<Look>, scanning: bool, bestRssi: int)
    returns (finished: bool, turns: nat, delivered: seq<Rx>, tally: Tally)
    ensures turns <= |looks| && (!finished ==> turns == |looks|)
    ensures var read := PacketsRead(looks[..turns]);
            && tally == TallyOf(scanning, bestRssi, read)
            && (forall k :: 0 <= k < |read| - 1 ==> IsBurst(read[k]))
            && (finished ==> delivered == Deliverable(read))
    ensures finished == Ends(looks[..turns]) && forall k :: 0 <= k < turns ==> !Ends(looks[..k])
    ensures finished ==> (delivered == PacketsRead(looks[..turns]) <==>
                          forall k :: 0 <= k < turns ==> !ReadsForeign(looks, k))
    ensures finished ==> delivered <= PacketsRead(looks[..turns])
    ensures exists readers :: ReadsExactly(looks[..turns], readers, PacketsRead(looks[..turns]))
  {
    hide ReadsPacket, StaysInBurst, HeaderOf, IsBurstPacket, IsConsensusPrefix, I8, Before;
    NothingRead(scanning, bestRssi);
    hide PacketsRead, LastTurnRead, UpToFinal, TallyOf, Waiting, Ends, ReadsForeign, ReadsExactly;
    finished, turns, delivered := false, 0, [];
    tally := Tally(0, 0, 0, 0, bestRssi);
    var inBurst := false;
    var burstDeadlineMs: u32 := 0;
    var queue: seq<Rx> := [];
    var checkFifoAfterRx := false;
    ghost var read: seq<Rx> := [];

    while turns < |looks|
      invariant turns <= |looks| && read == PacketsRead(looks[..turns])
      invariant checkFifoAfterRx == LastTurnRead(looks[..turns])
      invariant Waiting(looks[..turns]) == if inBurst then Some(burstDeadlineMs) else None
      invariant forall k :: 0 <= k <= turns ==> !Ends(looks[..k])
      invariant delivered + queue == read && |delivered| == UpToFinal(read)
      invariant forall k :: 0 <= k < |read| ==> IsBurst(read[k])
      invariant tally == TallyOf(scanning, bestRssi, read)
      invariant !finished
      decreases |looks| - turns
    {
      var look := looks[turns];
      OneMoreTurn(looks, turns);
      turns := turns + 1;
      var gotRx;
      gotRx, inBurst, burstDeadlineMs := PollRadio(look, checkFifoAfterRx, inBurst, burstDeadlineMs);
      checkFifoAfterRx := false;
      if gotRx {
        checkFifoAfterRx := true;
        OneMoreFinal(read, look.rx);
        tally := CountPacket(tally, scanning, look.rx, bestRssi, read);
        read := read + [look.rx];
        var isFb, hdr := DecodeHeader(look.rx.pkt);
        if !isFb {
          assert !IsFinal(look.rx);
          NothingIsLostOfTurns(looks, turns);
          ReadingTurns(looks[..turns]);
          finished := true;
          return;
        }
        if hdr.idx + 1 < hdr.total {
          inBurst := true;
          burstDeadlineMs := U32(look.nowRead + 10);
        } else {
          inBurst := false;
          tally := tally.(burstsRx := tally.burstsRx + 1);
        }
        if inBurst {
          queue := queue + [look.rx];
          continue;
        }
        delivered := delivered + queue;
        queue := [];
        delivered := delivered + [look.rx];
        if look.fifoAfter >= PACKET_PAYLOAD {
          inBurst := true;
          burstDeadlineMs := U32(look.nowRead + 5);
          continue;
        } else if look.fifoAfter > 0 {
          inBurst := true;
          burstDeadlineMs := U32(look.nowRead + 4);
          continue;
        }
      }

      if inBurst {
        if Before(look.nowCheck, burstDeadlineMs) {
          continue;
        }
        inBurst := false;
      }
      if queue != [] {
        delivered := delivered + queue;
        queue := [];
      }
      assert read == PacketsRead(looks[..turns]);
      NothingIsLostOfTurns(looks, turns);
      ReadingTurns(looks[..turns]);
      finished := true;
      return;
    }
    ReadingTurns(looks[..turns]);
  }

  lemma ReadingTurns(looks: seq<Look>)
    ensures exists turns :: ReadsExactly(looks, turns, PacketsRead(looks))
  {
    var turns := TurnsThatRead(looks);
  }

  lemma {:induction false} TurnsThatRead(looks: seq<Look>) returns (turns: seq<nat>)
    ensures ReadsExactly(looks, turns, PacketsRead(looks))
    ensures LastTurnRead(looks) <==> looks != [] && |looks| - 1 in turns
  {
    if looks == [] {
      turns := [];
    } else {
      var n := |looks| - 1;
      var before := TurnsThatRead(looks[..n]);
      var read := PacketsRead(looks[..n]);
      turns := if LastTurnRead(looks) then before + [n] else before;
      assert PacketsRead(looks) == if LastTurnRead(looks) then read + [looks[n].rx] else read;
      hide PacketsRead, LastTurnRead, ReadsPacket, ReadsThen, Picks;
      LastReads(looks, before, read);
      PicksMore(looks, before, read);
      ReadersMore(looks, before, turns);
    }
  }

  /** The last turn is a reader exactly if it reads, and the others stay what they are. */
  lemma ReadersMore(looks: seq<Look>, before: seq<nat>, turns: seq<nat>)
    requires looks != [] && |looks| - 1 !in before
    requires forall t :: 0 <= t < |looks| - 1 ==> (t in before <==> ReadsThen(looks[..|looks| - 1], before, t))
    requires turns == if ReadsThen(looks, before, |looks| - 1) then before + [|looks| - 1] else before
    requires ReadsThen(looks, turns, |looks| - 1) <==> ReadsThen(looks, before, |looks| - 1)
    ensures forall t :: 0 <= t < |looks| ==> (t in turns <==> ReadsThen(looks, turns, t))
  {
    hide ReadsThen;
    forall t | 0 <= t < |looks| - 1
      ensures t in turns <==> ReadsThen(looks, turns, t)
    {
      EarlierReads(looks, before, turns, t);
    }
    assert |looks| - 1 in turns <==> turns != before;
  }

  lemma LastReads(looks: seq<Look>, before: seq<nat>, read: seq<Rx>)
    requires looks != [] && Picks(looks[..|looks| - 1], before, read)
    requires LastTurnRead(looks[..|looks| - 1]) <==> |looks| > 1 && |looks| - 2 in before
    ensures var n := |looks| - 1;
            && (LastTurnRead(looks) <==> ReadsThen(looks, before, n))
            && (LastTurnRead(looks) <==> ReadsThen(looks, before + [n], n)) && n !in before
  {
  }

  lemma PicksMore(looks: seq<Look>, before: seq<nat>, read: seq<Rx>)
    requires looks != [] && Picks(looks[..|looks| - 1], before, read)
    ensures Picks(looks, before, read)
    ensures Picks(looks, before + [|looks| - 1], read + [looks[|looks| - 1].rx])
  {
  }

  lemma EarlierReads(looks: seq<Look>, before: seq<nat>, turns: seq<nat>, t: nat)
    requires t < |looks| - 1 && (turns == before || turns == before + [|looks| - 1])
    ensures t in turns <==> t in before
    ensures ReadsThen(looks, turns, t) <==> ReadsThen(looks[..|looks| - 1], before, t)
  {
  }

  lemma NothingRead(scanning: bool, best: int)
    ensures PacketsRead([]) == [] && !LastTurnRead([]) && UpToFinal([]) == 0
    ensures Waiting([]) == None && !Ends([])
    ensures TallyOf(scanning, best, []) == Tally(0, 0, 0, 0, best)
  {
  }

  lemma OneMoreTurn(looks: seq<Look>, n: nat)
    requires n < |looks|
    ensures LastTurnRead(looks[..n + 1]) == ReadsPacket(looks[n], LastTurnRead(looks[..n]))
    ensures PacketsRead(looks[..n + 1]) ==
            PacketsRead(looks[..n]) + if LastTurnRead(looks[..n + 1]) then [looks[n].rx] else []
    ensures Waiting(looks[..n + 1]) == NextWait(looks[n], LastTurnRead(looks[..n]), Waiting(looks[..n]))
    ensures Ends(looks[..n + 1]) == EndsLoop(looks[n], LastTurnRead(looks[..n + 1]), Waiting(looks[..n + 1]))
  {
    hide ReadsPacket, NextWait, EndsLoop;
    assert looks[..n + 1][..n] == looks[..n];
  }

  lemma OneMoreFinal(rs: seq<Rx>, r: Rx)
    ensures UpToFinal(rs + [r]) == if IsFinal(r) then |rs| + 1 else UpToFinal(rs)
  {
    hide IsFinal;
    assert (rs + [r])[..|rs|] == rs;
  }

  lemma OneMorePacket(scanning: bool, best: int, rs: seq<Rx>, r: Rx)
    ensures var t := TallyOf(scanning, best, rs);
            TallyOf(scanning, best, rs + [r]) ==
            Tally(t.packetsRx + 1, t.burstsRx + if IsFinal(r) then 1 else 0,
                  t.scanFrames + if scanning then 1 else 0,
                  t.scanConsensus + if scanning && IsConsensusPrefix(r.pkt) then 1 else 0,
                  if scanning && r.rssi > t.best then I8(r.rssi) else t.best)
  {
    hide IsFinal, IsConsensusPrefix, I8;
    assert (rs + [r])[..|rs|] == rs;
  }

  // ----- consequences -----

  lemma {:induction false} PrefixUpToFinalEndsInFinal(rs: seq<Rx>)
    ensures UpToFinal(rs) > 0 ==>
              var pkt := rs[UpToFinal(rs) - 1].pkt;
              IsBurstPacket(pkt) && HeaderOf(pkt).idx + 1 == HeaderOf(pkt).total
    ensures forall k :: UpToFinal(rs) <= k < |rs| ==>
              !IsBurstPacket(rs[k].pkt) || HeaderOf(rs[k].pkt).idx + 1 != HeaderOf(rs[k].pkt).total
  {
    if rs != [] && !IsFinal(rs[|rs| - 1]) {
      PrefixUpToFinalEndsInFinal(rs[..|rs| - 1]);
    }
  }

  /** Turn `k` reads a packet that is no burst packet. */
  predicate ReadsForeign(looks: seq<Look>, k: nat)
    requires k < |looks|
  {
    LastTurnRead(looks[..k + 1]) && !IsBurst(looks[k].rx)
  }

  /** For the turns of a loop (none but the last may end it): everything read is handed up
      if and only if no turn read a foreign packet. A foreign packet ends the loop, and
      costs itself and the burst in progress: what follows the last burst-final packet. */
  lemma NothingIsLostUnlessForeign(looks: seq<Look>)
    requires forall k :: 0 <= k < |looks| ==> !Ends(looks[..k])
    ensures var read := PacketsRead(looks);
            && (Deliverable(read) == read <==> forall k :: 0 <= k < |looks| ==> !ReadsForeign(looks, k))
            && (forall k :: 0 <= k < |looks| && ReadsForeign(looks, k) ==>
                  k == |looks| - 1 && Ends(looks) && Deliverable(read) == read[..UpToFinal(read)])
  {
    hide LastTurnRead, PacketsRead, Waiting, Ends, ReadsForeign, IsBurst, Deliverable;
    forall k | 0 <= k < |looks| && ReadsForeign(looks, k)
      ensures k == |looks| - 1 && Ends(looks)
    {
      ForeignEnds(looks, k);
      assert looks[..|looks|] == looks;
    }
    if looks == [] {
      NothingRead(false, 0);
      DeliveredExactly([]);
    } else {
      var n := |looks| - 1;
      LastTurn(looks);
      OnlyBurstsBefore(looks, n);
      DeliveredExactly(PacketsRead(looks));
    }
  }

  lemma NothingIsLostOfTurns(looks: seq<Look>, turns: nat)
    requires turns <= |looks| && forall k :: 0 <= k < turns ==> !Ends(looks[..k])
    ensures var read := PacketsRead(looks[..turns]);
            Deliverable(read) == read <==> forall k :: 0 <= k < turns ==> !ReadsForeign(looks, k)
  {
    hide LastTurnRead, PacketsRead, Ends, IsBurst, Deliverable;
    var some := looks[..turns];
    assert forall k :: 0 <= k <= turns ==> some[..k] == looks[..k];
    forall k | 0 <= k < turns
      ensures ReadsForeign(some, k) == ReadsForeign(looks, k)
    {
      assert some[..k + 1] == looks[..k + 1];
    }
    NothingIsLostUnlessForeign(some);
  }

  lemma ForeignEnds(looks: seq<Look>, k: nat)
    requires k < |looks|
    ensures ReadsForeign(looks, k) ==> Ends(looks[..k + 1])
  {
    hide LastTurnRead, PacketsRead, Waiting, Ends, IsBurst, StaysInBurst;
    OneMoreTurn(looks, k);
  }

  lemma LastTurn(looks: seq<Look>)
    requires looks != []
    ensures var n := |looks| - 1;
            && PacketsRead(looks) == PacketsRead(looks[..n]) + (if LastTurnRead(looks) then [looks[n].rx] else [])
            && (ReadsForeign(looks, n) <==> LastTurnRead(looks) && !IsBurst(looks[n].rx))
  {
    assert looks[..|looks|] == looks;
  }

  lemma DeliveredExactly(rs: seq<Rx>)
    ensures Deliverable(rs) == rs <==> rs == [] || IsBurst(rs[|rs| - 1])
    ensures rs != [] && !IsBurst(rs[|rs| - 1]) ==> Deliverable(rs) == rs[..UpToFinal(rs)]
  {
    if rs != [] && !IsBurst(rs[|rs| - 1]) {
      assert UpToFinal(rs) <= |rs| - 1;
    }
  }

  /** Every turn but a loop's last reads burst packets only. */
  lemma {:induction false} OnlyBurstsBefore(looks: seq<Look>, n: nat)
    requires n < |looks| && forall k :: 0 <= k <= n ==> !Ends(looks[..k])
    ensures forall i :: 0 <= i < |PacketsRead(looks[..n])| ==> IsBurst(PacketsRead(looks[..n])[i])
  {
    hide ReadsPacket, IsBurst, StaysInBurst;
    if n > 0 {
      OnlyBurstsBefore(looks, n - 1);
      OneMoreTurn(looks, n - 1);
    }
  }

  lemma DeliversPrefix(rs: seq<Rx>)
    ensures Deliverable(rs) <= rs
  {
  }

  /** For strengths that fit in 8 bits the scan reports the true maximum. */
  lemma {:induction false} BestRssiIsMaximum(best: int, rs: seq<Rx>)
    requires -128 <= best <= 127 && forall k :: 0 <= k < |rs| ==> -128 <= rs[k].rssi <= 127
    ensures var b := BestRssi(best, rs);
            && b >= best && (forall k :: 0 <= k < |rs| ==> b >= rs[k].rssi)
            && (b == best || exists k :: 0 <= k < |rs| && b == rs[k].rssi)
  {
    if rs != [] {
      var n := |rs| - 1;
      BestRssiIsMaximum(best, rs[..n]);
      assert rs == rs[..n] + [rs[n]];
    }
  }
}
