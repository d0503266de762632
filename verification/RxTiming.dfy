/** How long the receive loop waits, what ends it at once, and what its counters count, told
    from what its turns saw and from real time. */
module RxTiming {
  import opened Bytes
  import opened Burst
  import opened RxLoop

  /** Turns k + 1 to m show no packet, no error that ends the loop, and no whole packet left
      in the FIFO. */
  ghost predicate QuietAfter(looks: seq<Look>, k: nat, m: nat)
    requires k <= m < |looks|
  {
    forall j :: k < j <= m ==>
      && !looks[j].rxDone && !looks[j].crcError && !looks[j].lenError && !looks[j].timeout
      && (looks[j].headerError || looks[j].fifoIdle < 511)
  }

  lemma {:induction false} QuietTurnsKeepWaiting(looks: seq<Look>, k: nat, m: nat)
    requires k <= m < |looks| && QuietAfter(looks, k, m) && Waiting(looks[..k + 1]).Some?
    ensures Waiting(looks[..m + 1]) == Waiting(looks[..k + 1])
    ensures k < m ==> !LastTurnRead(looks[..m + 1])
    decreases m
  {
    if k < m {
      QuietTurnsKeepWaiting(looks, k, m - 1);
      OneMoreTurn(looks, m);
    }
  }

  /** The loop waits until the real time `until` and no longer: quiet turns end it exactly
      when that time has come. */
  lemma WaitEndsInTime(looks: seq<Look>, k: nat, m: nat, until: nat, now: nat)
    requires k < m < |looks| && QuietAfter(looks, k, m) && Waiting(looks[..k + 1]) == Some(U32(until))
    requires looks[m].nowCheck == U32(now) && -TWO_31 <= now - until < TWO_31
    ensures Ends(looks[..m + 1]) <==> now >= until
  {
    QuietTurnsKeepWaiting(looks, k, m);
    OneMoreTurn(looks, m);
    BeforeIsRealTime(now, until);
  }

  /** Turn k reads a packet by RX_DONE. */
  predicate ReadsAt(looks: seq<Look>, k: nat)
    requires k < |looks|
  {
    && looks[k].rxDone && !looks[k].crcError && !looks[k].lenError && !looks[k].headerError
    && looks[k].fifoAtRead >= 511 && looks[k].readOk
  }

  lemma WaitAfterRead(looks: seq<Look>, k: nat, t: nat)
    requires k < |looks| && ReadsAt(looks, k) && IsBurstPacket(looks[k].rx.pkt) && looks[k].nowRead == U32(t)
    ensures LastTurnRead(looks[..k + 1])
    ensures var h, left := HeaderOf(looks[k].rx.pkt), looks[k].fifoAfter;
            Waiting(looks[..k + 1]) ==
            if h.idx + 1 < h.total then Some(U32(t + 10))
            else if left >= 511 then Some(U32(t + 5))
            else if left > 0 then Some(U32(t + 4))
            else None
  {
    hide HeaderOf;
    OneMoreTurn(looks, k);
    Sum32(t, 10);
    Sum32(t, 5);
    Sum32(t, 4);
  }

  lemma Sum32(a: nat, b: nat)
    ensures U32(U32(a) + b) == U32(a + b)
  {
  }

  /** After a burst packet read at the real time t, quiet turns end the loop exactly when
      10 ms have passed if more of the burst is to come; after its last packet, when 5 ms
      have passed with another packet in the FIFO, 4 ms with a part of one, and at once
      with an empty FIFO. */
  lemma WaitsAfterRead(looks: seq<Look>, k: nat, m: nat, t: nat, now: nat)
    requires k < m < |looks| && ReadsAt(looks, k) && IsBurstPacket(looks[k].rx.pkt) && QuietAfter(looks, k, m)
    requires looks[k].nowRead == U32(t) && looks[m].nowCheck == U32(now) && t <= now < t + TWO_31
    ensures var h, left := HeaderOf(looks[k].rx.pkt), looks[k].fifoAfter;
            && (h.idx + 1 < h.total ==> (Ends(looks[..m + 1]) <==> now >= t + 10))
            && (h.idx + 1 == h.total && left >= 511 ==> (Ends(looks[..m + 1]) <==> now >= t + 5))
            && (h.idx + 1 == h.total && 0 < left < 511 ==> (Ends(looks[..m + 1]) <==> now >= t + 4))
            && (h.idx + 1 == h.total && left == 0 ==> Ends(looks[..k + 1]))
  {
    hide HeaderOf, Waiting, Ends;
    WaitAfterRead(looks, k, t);
    var h, left := HeaderOf(looks[k].rx.pkt), looks[k].fifoAfter;
    if h.idx + 1 < h.total {
      WaitEndsInTime(looks, k, m, t + 10, now);
    } else if left >= 511 {
      WaitEndsInTime(looks, k, m, t + 5, now);
    } else if left > 0 {
      WaitEndsInTime(looks, k, m, t + 4, now);
    } else {
      NothingAwaitedEnds(looks, k);
    }
  }

  lemma NothingAwaitedEnds(looks: seq<Look>, k: nat)
    requires k < |looks| && Waiting(looks[..k + 1]).None?
    ensures Ends(looks[..k + 1])
  {
    OneMoreTurn(looks, k);
  }

  /** A packet that is no burst packet ends the loop at once. */
  lemma ForeignPacketEnds(looks: seq<Look>, k: nat)
    requires k < |looks| && ReadsAt(looks, k) && !IsBurstPacket(looks[k].rx.pkt)
    ensures Ends(looks[..k + 1])
  {
    OneMoreTurn(looks, k);
  }

  /** The first turn, when it finds a part of a packet in the FIFO and no flag set, has the
      loop wait 4 ms; when it finds nothing the loop ends. */
  lemma FirstTurnWaits(looks: seq<Look>, m: nat, t: nat, now: nat)
    requires 0 < m < |looks| && QuietAfter(looks, 0, m)
    requires !looks[0].rxDone && !looks[0].crcError && !looks[0].lenError && !looks[0].headerError && !looks[0].timeout
    requires looks[0].nowIdle == U32(t) && looks[m].nowCheck == U32(now) && t <= now < t + TWO_31
    ensures looks[0].fifoIdle > 0 && Before(looks[0].nowCheck, U32(t + 4)) ==>
              (Ends(looks[..m + 1]) <==> now >= t + 4)
    ensures looks[0].fifoIdle == 0 ==> Ends(looks[..1])
  {
    OneMoreTurn(looks, 0);
    assert looks[..0] == [];
    Sum32(t, 4);
    if looks[0].fifoIdle > 0 {
      assert Waiting(looks[..1]) == Some(U32(t + 4));
      WaitEndsInTime(looks, 0, m, t + 4, now);
    }
  }

  /** A packet with an error, too short or unreadable ends the loop, and so does an error
      flag without a packet, except a header error alone. */
  lemma ErrorsEnd(looks: seq<Look>, k: nat)
    requires k < |looks|
    requires if looks[k].rxDone then !ReadsAt(looks, k) else looks[k].crcError || looks[k].lenError || looks[k].timeout
    ensures Ends(looks[..k + 1]) && !LastTurnRead(looks[..k + 1])
  {
    OneMoreTurn(looks, k);
  }

  // ----- the counters -----

  /** The counters of what was read: all packets, those that end a burst, and while scanning
      those whose first bytes are `SLRF` or `BF`. */
  lemma {:induction false} TallyCounts(scanning: bool, best: int, rs: seq<Rx>)
    ensures var t := TallyOf(scanning, best, rs);
            && t.packetsRx == |rs|
            && t.burstsRx == |Finals(rs)|
            && t.scanFrames == (if scanning then |rs| else 0)
            && t.scanConsensus == (if scanning then |Consensus(rs)| else 0)
            && (!scanning ==> t.best == best)
  {
    if rs != [] {
      var n := |rs| - 1;
      TallyCounts(scanning, best, rs[..n]);
      FinalsMore(rs);
      ConsensusMore(rs);
      hide Finals, Consensus, HeaderOf;
    }
  }

  ghost function Finals(rs: seq<Rx>): set<nat> {
    set k: nat | k < |rs| && IsBurstPacket(rs[k].pkt) && HeaderOf(rs[k].pkt).idx + 1 == HeaderOf(rs[k].pkt).total
  }

  ghost function Consensus(rs: seq<Rx>): set<nat> {
    set k: nat | k < |rs| && (rs[k].pkt[..Min(4, |rs[k].pkt|)] == [0x53, 0x4C, 0x52, 0x46]
                              || rs[k].pkt[..Min(2, |rs[k].pkt|)] == [0x42, 0x46])
  }

  lemma FinalsMore(rs: seq<Rx>)
    requires rs != []
    ensures var n := |rs| - 1;
            |Finals(rs)| == |Finals(rs[..n])| + if IsFinal(rs[n]) then 1 else 0
  {
    hide HeaderOf, IsBurstPacket;
    var n := |rs| - 1;
    assert Finals(rs) == if IsFinal(rs[n]) then Finals(rs[..n]) + {n} else Finals(rs[..n]);
  }

  lemma ConsensusMore(rs: seq<Rx>)
    requires rs != []
    ensures var n := |rs| - 1;
            |Consensus(rs)| == |Consensus(rs[..n])| + if IsConsensusPrefix(rs[n].pkt) then 1 else 0
  {
    var n := |rs| - 1;
    PrefixBytes(rs[n].pkt);
    hide IsConsensusPrefix;
    assert Consensus(rs) == if IsConsensusPrefix(rs[n].pkt) then Consensus(rs[..n]) + {n} else Consensus(rs[..n]);
  }

  lemma PrefixBytes(p: seq<byte>)
    ensures IsConsensusPrefix(p) <==> p[..Min(4, |p|)] == [0x53, 0x4C, 0x52, 0x46] || p[..Min(2, |p|)] == [0x42, 0x46]
  {
  }
}
