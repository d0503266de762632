/** The same ring with its writer and reader on two cores: a state machine whose
    steps are the single reads and writes of the shared file. Copies move one byte a
    step, so every split of a copy into larger chunks is one of these runs. */
module ConcurrentRing {
  import opened Bytes
  import opened IpcRing

  datatype Writer =
    | WriterIdle
    | HeaderRead(buf: seq<byte>, seenTail: u32)
    | Writing(out: seq<byte>, done: nat)

  datatype Reader =
    | ReaderIdle
    | HeadRead(seenHead: u32, ownTail: u32)
    | Fetching(base: u32, take: nat, got: seq<byte>)

  /** The shared file, both cores' local variables, the reader's fetched bytes, and
      three histories: bytes whose head was published, bytes `readByte` returned, and
      the counter values under which the returned and fetched bytes were fetched. */
  datatype State = State(
    data: seq<byte>, head: u32, tail: u32,
    writer: Writer, reader: Reader, ahead: seq<byte>,
    written: seq<byte>, returned: seq<byte>, origins: seq<nat>)

  predicate Init(s: State) {
    && |s.data| == CAP && s.head == 0 && s.tail == 0
    && s.writer == WriterIdle && s.reader == ReaderIdle
    && s.ahead == [] && s.written == [] && s.returned == [] && s.origins == []
  }

  /** The slot that byte `i` of a copy of `n` bytes starting at counter `c` goes to. */
  function CopySlot(c: u32, n: nat, i: nat): nat {
    var off := c % CAP;
    var first := if off + n <= CAP then n else CAP - off;
    if i < first then off + i else i - first
  }

  // ----- the writer's steps -----

  /** Fewer than 2^32 bytes pass through the ring in the runs considered. */
  predicate WriterReadsHeader(s: State, t: State, buf: seq<byte>) {
    && s.writer == WriterIdle && |buf| <= CAP && |s.written| + |buf| < TWO_32
    && t == s.(writer := HeaderRead(buf, s.tail))
  }

  /** The room test on the possibly stale tail finds room; a corrupt tail counts as an
      empty ring. */
  predicate WriterDecides(s: State, t: State) {
    && s.writer.HeaderRead?
    && var used := U32(s.head - s.writer.seenTail);
    && (used > CAP || used + |s.writer.buf| <= CAP)
    && t == s.(writer := Writing(s.writer.buf, 0))
  }

  /** Where the drop-oldest branch puts the tail. */
  function DropTail(s: State): u32
    requires s.writer.HeaderRead?
  {
    U32(s.head - (CAP - |s.writer.buf|))
  }

  /** The drop-oldest branch: it finds no room and moves the reader's tail. */
  predicate WriterDrops(s: State, t: State) {
    && s.writer.HeaderRead?
    && var used := U32(s.head - s.writer.seenTail);
    && used <= CAP < used + |s.writer.buf|
    && t == s.(tail := DropTail(s), writer := Writing(s.writer.buf, 0))
  }

  predicate WriterCopies(s: State, t: State) {
    && s.writer.Writing? && s.writer.done < |s.writer.out|
    && var slot := CopySlot(s.head, |s.writer.out|, s.writer.done);
    && slot < |s.data|
    && t == s.(data := s.data[slot := s.writer.out[s.writer.done]],
               writer := s.writer.(done := s.writer.done + 1))
  }

  predicate WriterPublishes(s: State, t: State) {
    && s.writer.Writing? && s.writer.done == |s.writer.out|
    && t == s.(head := U32(s.head + |s.writer.out|), writer := WriterIdle,
               written := s.written + s.writer.out)
  }

  // ----- the reader's steps -----

  predicate ReaderTakesFetched(s: State, t: State) {
    && s.reader == ReaderIdle && s.ahead != []
    && t == s.(ahead := s.ahead[1..], returned := s.returned + [s.ahead[0]])
  }

  predicate ReaderReadsHeader(s: State, t: State) {
    && s.reader == ReaderIdle && s.ahead == [] && s.head != s.tail
    && t == s.(reader := HeadRead(s.head, s.tail))
  }

  predicate ReaderRepairs(s: State, t: State) {
    && s.reader.HeadRead? && U32(s.reader.seenHead - s.reader.ownTail) > CAP
    && t == s.(tail := s.reader.seenHead, reader := ReaderIdle)
  }

  predicate ReaderDecides(s: State, t: State) {
    && s.reader.HeadRead?
    && var avail := U32(s.reader.seenHead - s.reader.ownTail);
    && avail <= CAP
    && t == s.(reader := Fetching(s.reader.ownTail, Min(avail, READ_AHEAD), []))
  }

  predicate ReaderCopies(s: State, t: State) {
    && s.reader.Fetching? && |s.reader.got| < s.reader.take
    && var slot := CopySlot(s.reader.base, s.reader.take, |s.reader.got|);
    && slot < |s.data|
    && t == s.(reader := s.reader.(got := s.reader.got + [s.data[slot]]))
  }

  predicate ReaderPublishes(s: State, t: State) {
    && s.reader.Fetching? && |s.reader.got| == s.reader.take > 0
    && t == s.(tail := U32(s.reader.base + s.reader.take), reader := ReaderIdle,
               ahead := s.reader.got[1..], returned := s.returned + [s.reader.got[0]],
               origins := s.origins + Counters(s.reader.base, s.reader.take))
  }

  function Counters(base: nat, n: nat): seq<nat> {
    seq(n, i requires 0 <= i => base + i)
  }

  /** A writer's step other than a drop. */
  ghost predicate WriterStep(s: State, t: State) {
    || (exists buf :: WriterReadsHeader(s, t, buf))
    || WriterDecides(s, t) || WriterCopies(s, t) || WriterPublishes(s, t)
  }

  ghost predicate ReaderStep(s: State, t: State) {
    || ReaderTakesFetched(s, t) || ReaderReadsHeader(s, t) || ReaderRepairs(s, t)
    || ReaderDecides(s, t) || ReaderCopies(s, t) || ReaderPublishes(s, t)
  }

  ghost predicate Step(s: State, t: State) {
    WriterStep(s, t) || WriterDrops(s, t) || ReaderStep(s, t)
  }

  /** A run: any interleaving of the two cores' steps. */
  ghost predicate Run(states: seq<State>) {
    && |states| > 0 && Init(states[0])
    && forall i :: 0 < i < |states| ==> Step(states[i - 1], states[i])
  }

  // ----- the invariant -----

  /** Every returned or fetched byte is the one written under its counter value, in the
      order written and none twice. */
  ghost predicate InOrder(out: seq<byte>, origins: seq<nat>, written: seq<byte>) {
    && |origins| == |out|
    && (forall i :: 0 <= i < |out| ==> origins[i] < |written| && out[i] == written[origins[i]])
    && forall i, j :: 0 <= i < j < |out| ==> origins[i] < origins[j]
  }

  ghost predicate AllBelow(origins: seq<nat>, bound: nat) {
    forall i :: 0 <= i < |origins| ==> origins[i] < bound
  }

  /** The slots of the counter values from `low` on hold what was written. */
  ghost predicate Holds(data: seq<byte>, written: seq<byte>, low: nat) {
    |data| == CAP && forall n :: low <= n < |written| ==> data[n % CAP] == written[n]
  }

  ghost predicate RingHolds(s: State) {
    Holds(s.data, s.written, s.tail) && s.head == |s.written| && s.tail <= s.head <= s.tail + CAP
  }

  /** A stale tail only understates the room, so the copy stays off the live slots. What
      was live when the header was read stays in place until the writer moves on, and a
      tail that moved since then was moved by the reader's last fetch. */
  ghost predicate WriterHolds(s: State) {
    match s.writer
    case WriterIdle => true
    case HeaderRead(buf, seenTail) =>
      && seenTail <= s.tail && s.head <= seenTail + CAP && |buf| <= CAP && s.head + |buf| < TWO_32
      && Holds(s.data, s.written, seenTail)
      && (seenTail < s.tail ==> s.origins != [] && s.origins[|s.origins| - 1] == s.tail - 1)
    case Writing(buf, done) =>
      && s.head + |buf| <= s.tail + CAP && s.head + |buf| < TWO_32 && done <= |buf|
      && |s.data| == CAP && forall n :: s.head <= n < s.head + done ==> s.data[n % CAP] == buf[n - s.head]
  }

  /** A stale head only understates what there is to read; what is still to be copied
      and published lies at or above the tail. */
  ghost predicate ReaderHolds(s: State) {
    match s.reader
    case ReaderIdle => true
    case HeadRead(seenHead, ownTail) =>
      s.tail <= ownTail < seenHead <= s.head && seenHead <= ownTail + CAP && s.ahead == []
    case Fetching(base, take, got) =>
      && s.ahead == [] && 0 < take <= CAP && base + take <= s.head && |got| <= take && s.tail <= base + |got|
      && |s.written| == s.head && got == s.written[base..base + |got|]
  }

  /** The counter value from which the reader goes on, once it is done. */
  function NextFetch(s: State): nat {
    match s.reader
    case ReaderIdle => s.tail
    case HeadRead(_, ownTail) => ownTail
    case Fetching(base, _, _) => base
  }

  ghost predicate Inv(s: State) {
    && RingHolds(s) && WriterHolds(s) && ReaderHolds(s)
    && InOrder(s.returned + s.ahead, s.origins, s.written) && AllBelow(s.origins, NextFetch(s))
  }

  lemma CopySlotIsCounterModCap(c: u32, n: nat, i: nat)
    requires i < n <= CAP
    ensures CopySlot(c, n, i) == (c + i) % CAP
  {
  }

  lemma SlotsDiffer(m: nat, n: nat)
    requires m < n < m + CAP
    ensures m % CAP != n % CAP
  {
  }

  lemma WriterReadKeepsInv(s: State, t: State, buf: seq<byte>)
    requires Inv(s) && WriterReadsHeader(s, t, buf)
    ensures Inv(t)
  {
    hide InOrder, AllBelow, Holds;
  }

  lemma WriterDecideKeepsInv(s: State, t: State)
    requires Inv(s) && WriterDecides(s, t)
    ensures Inv(t)
  {
    hide InOrder, AllBelow;
  }

  lemma WriterCopyKeepsInv(s: State, t: State)
    requires Inv(s) && WriterCopies(s, t)
    ensures Inv(t)
  {
    hide InOrder, AllBelow;
    var c := s.head + s.writer.done;
    CopySlotIsCounterModCap(s.head, |s.writer.out|, s.writer.done);
    forall n | s.tail <= n < c
      ensures t.data[n % CAP] == s.data[n % CAP]
    {
      SlotsDiffer(n, c);
    }
  }

  lemma HistoryGrows(out: seq<byte>, origins: seq<nat>, written: seq<byte>, more: seq<byte>)
    requires InOrder(out, origins, written)
    ensures InOrder(out, origins, written + more)
  {
  }

  lemma WriterPublishKeepsInv(s: State, t: State)
    requires Inv(s) && WriterPublishes(s, t)
    ensures Inv(t)
  {
    hide InOrder, AllBelow;
    HistoryGrows(s.returned + s.ahead, s.origins, s.written, s.writer.out);
    assert forall n :: 0 <= n < s.head ==> t.written[n] == s.written[n];
    if s.reader.Fetching? {
      var base, n := s.reader.base, |s.reader.got|;
      assert t.written[base..base + n] == s.written[base..base + n];
    }
  }

  lemma WriterStepKeepsInv(s: State, t: State)
    requires Inv(s) && WriterStep(s, t)
    ensures Inv(t)
  {
    hide Inv, WriterReadsHeader, WriterDecides, WriterCopies, WriterPublishes;
    if buf :| WriterReadsHeader(s, t, buf) {
      WriterReadKeepsInv(s, t, buf);
    } else if WriterDecides(s, t) {
      WriterDecideKeepsInv(s, t);
    } else if WriterCopies(s, t) {
      WriterCopyKeepsInv(s, t);
    } else {
      WriterPublishKeepsInv(s, t);
    }
  }

  lemma ReaderTakeKeepsInv(s: State, t: State)
    requires Inv(s) && ReaderTakesFetched(s, t)
    ensures Inv(t)
  {
    hide InOrder, AllBelow, Holds;
    assert t.returned + t.ahead == s.returned + s.ahead;
  }

  lemma ReaderHeadKeepsInv(s: State, t: State)
    requires Inv(s) && (ReaderReadsHeader(s, t) || ReaderRepairs(s, t) || ReaderDecides(s, t))
    ensures Inv(t)
  {
    hide InOrder, AllBelow, Holds;
  }

  lemma ReaderCopyKeepsInv(s: State, t: State)
    requires Inv(s) && ReaderCopies(s, t)
    ensures Inv(t)
  {
    hide InOrder, AllBelow;
    CopySlotIsCounterModCap(s.reader.base, s.reader.take, |s.reader.got|);
  }

  /** Fetched bytes extend the history. */
  lemma HistoryFetches(out: seq<byte>, origins: seq<nat>, written: seq<byte>, base: nat, n: nat)
    requires InOrder(out, origins, written) && AllBelow(origins, base) && base + n <= |written|
    ensures InOrder(out + written[base..base + n], origins + Counters(base, n), written)
    ensures AllBelow(origins + Counters(base, n), base + n)
  {
  }

  lemma LowerHolds(data: seq<byte>, written: seq<byte>, low: nat, high: nat)
    requires Holds(data, written, low) && low <= high
    ensures Holds(data, written, high)
  {
  }

  lemma ReaderPublishKeepsInv(s: State, t: State)
    requires Inv(s) && ReaderPublishes(s, t)
    ensures Inv(t)
  {
    hide InOrder, AllBelow, Holds;
    var base, take := s.reader.base, s.reader.take;
    HistoryFetches(s.returned + s.ahead, s.origins, s.written, base, take);
    assert t.returned + t.ahead == (s.returned + s.ahead) + s.written[base..base + take];
    LowerHolds(s.data, s.written, s.tail, base + take);
    assert t.origins[|t.origins| - 1] == base + take - 1;
  }

  lemma ReaderStepKeepsInv(s: State, t: State)
    requires Inv(s) && ReaderStep(s, t)
    ensures Inv(t)
  {
    hide Inv, ReaderTakesFetched, ReaderReadsHeader, ReaderRepairs, ReaderDecides, ReaderCopies, ReaderPublishes;
    if ReaderTakesFetched(s, t) {
      ReaderTakeKeepsInv(s, t);
    } else if ReaderCopies(s, t) {
      ReaderCopyKeepsInv(s, t);
    } else if ReaderPublishes(s, t) {
      ReaderPublishKeepsInv(s, t);
    } else {
      ReaderHeadKeepsInv(s, t);
    }
  }

  // ----- dropping the oldest bytes under a concurrent reader -----

  /** The new tail is not behind an idle reader, nor ahead of anything that a busy one
      has still to copy or publish. */
  predicate HarmlessDrop(s: State)
    requires s.writer.HeaderRead?
  {
    match s.reader
    case ReaderIdle => s.tail <= DropTail(s)
    case HeadRead(_, ownTail) => DropTail(s) <= ownTail
    case Fetching(base, _, got) => DropTail(s) <= base + |got|
  }

  /** A drop keeps the invariant if and only if it is harmless. */
  lemma DropIsSafeExactlyWhenHarmless(s: State, t: State)
    requires Inv(s) && WriterDrops(s, t)
    ensures Inv(t) <==> HarmlessDrop(s)
  {
    hide InOrder, Holds;
    assert s.writer.seenTail < DropTail(s) == s.head + |s.writer.buf| - CAP;
    LowerHolds(s.data, s.written, s.writer.seenTail, DropTail(s));
    if s.reader.ReaderIdle? && DropTail(s) < s.tail {
      assert s.origins[|s.origins| - 1] >= NextFetch(t);
    }
  }

  ghost predicate HarmlessDrops(states: seq<State>) {
    forall i :: 0 < i < |states| && WriterDrops(states[i - 1], states[i]) ==> HarmlessDrop(states[i - 1])
  }

  lemma {:induction false} RunKeepsInv(states: seq<State>)
    requires Run(states) && HarmlessDrops(states)
    ensures Inv(states[|states| - 1])
    decreases |states|
  {
    hide Inv, WriterStep, ReaderStep, WriterDrops, HarmlessDrop;
    var n := |states| - 1;
    if n == 0 {
      InitHolds(states[0]);
    } else {
      RunKeepsInv(states[..n]);
      assert Step(states[n - 1], states[n]);
      if WriterStep(states[n - 1], states[n]) {
        WriterStepKeepsInv(states[n - 1], states[n]);
      } else if ReaderStep(states[n - 1], states[n]) {
        ReaderStepKeepsInv(states[n - 1], states[n]);
      } else {
        DropIsSafeExactlyWhenHarmless(states[n - 1], states[n]);
      }
    }
  }

  lemma InitHolds(s: State)
    requires Init(s)
    ensures Inv(s)
  {
  }

  /** In every state of every interleaving whose drops are harmless, the bytes returned
      are bytes written, each under a later counter value than the one before (so none
      is torn, repeated or out of order), the counters are at most 65520 apart, and
      neither core ever sees them far enough apart to repair them. */
  lemma HarmlessDropsAreSafe(states: seq<State>, i: nat)
    requires Run(states) && HarmlessDrops(states) && i < |states|
    ensures InOrder(states[i].returned + states[i].ahead, states[i].origins, states[i].written)
    ensures states[i].tail <= states[i].head <= states[i].tail + CAP
    ensures forall t :: !ReaderRepairs(states[i], t)
    ensures states[i].writer.HeaderRead? ==> U32(states[i].head - states[i].writer.seenTail) <= CAP
  {
    RunKeepsInv(states[..i + 1]);
  }

  /** When both cores are idle after such an interleaving, the ring shows exactly the
      bytes written from the tail on, and everything taken from it lies before them. */
  lemma QuiescentRingShowsTheRest(states: seq<State>)
    requires Run(states) && HarmlessDrops(states)
    requires states[|states| - 1].writer == WriterIdle && states[|states| - 1].reader == ReaderIdle
    ensures var s := states[|states| - 1];
            && |s.data| == CAP && s.tail <= |s.written| && AllBelow(s.origins, s.tail)
            && Region(s.data, s.head, s.tail).View() == s.written[s.tail..]
  {
    RunKeepsInv(states);
  }

  /** What a drop-free run keeps besides: no counter value is skipped. */
  ghost predicate NothingSkipped(s: State) {
    && s.tail == NextFetch(s) == |s.origins|
    && forall i :: 0 <= i < |s.origins| ==> s.origins[i] == i
  }

  ghost predicate NoDrops(states: seq<State>) {
    forall i :: 0 < i < |states| ==> !WriterDrops(states[i - 1], states[i])
  }

  lemma WriterSkipsNothing(s: State, t: State)
    requires Inv(s) && NothingSkipped(s) && WriterStep(s, t)
    ensures NothingSkipped(t)
  {
    hide RingHolds, WriterHolds, ReaderHolds, InOrder, CopySlot;
  }

  lemma ReaderSkipsNothing(s: State, t: State)
    requires Inv(s) && NothingSkipped(s) && ReaderStep(s, t)
    ensures NothingSkipped(t)
  {
    hide WriterHolds, InOrder, Holds, CopySlot, AllBelow;
  }

  lemma {:induction false} RunSkipsNothing(states: seq<State>)
    requires Run(states) && NoDrops(states)
    ensures Inv(states[|states| - 1]) && NothingSkipped(states[|states| - 1])
    decreases |states|
  {
    hide Inv, WriterStep, ReaderStep, WriterDrops, NothingSkipped;
    var n := |states| - 1;
    RunKeepsInv(states);
    if n == 0 {
      InitSkipsNothing(states[0]);
    } else {
      RunSkipsNothing(states[..n]);
      assert Step(states[n - 1], states[n]);
      if WriterStep(states[n - 1], states[n]) {
        WriterSkipsNothing(states[n - 1], states[n]);
      } else {
        ReaderSkipsNothing(states[n - 1], states[n]);
      }
    }
  }

  lemma InitSkipsNothing(s: State)
    requires Init(s)
    ensures NothingSkipped(s)
  {
  }

  lemma OutputIsPrefix(s: State)
    requires Inv(s) && NothingSkipped(s)
    ensures s.tail <= |s.written| && s.returned + s.ahead == s.written[..s.tail]
  {
  }

  /** In every state of every interleaving without a drop the bytes returned are a
      prefix of the bytes written. */
  lemma InterleavingsAreSafe(states: seq<State>, i: nat)
    requires Run(states) && NoDrops(states) && i < |states|
    ensures states[i].returned <= states[i].written
  {
    var s := states[i];
    RunSkipsNothing(states[..i + 1]);
    OutputIsPrefix(s);
    assert s.returned <= s.returned + s.ahead;
  }

  /** When both cores are idle after such an interleaving, what was written is what was
      returned, then what was fetched, then what the ring shows: no byte is lost or
      duplicated. */
  lemma QuiescentRingLosesNothing(states: seq<State>)
    requires Run(states) && NoDrops(states)
    requires states[|states| - 1].writer == WriterIdle && states[|states| - 1].reader == ReaderIdle
    ensures var s := states[|states| - 1];
            |s.data| == CAP &&
            s.written == s.returned + s.ahead + Region(s.data, s.head, s.tail).View()
  {
    var s := states[|states| - 1];
    RunSkipsNothing(states);
    OutputIsPrefix(s);
    hide Inv, Run;
    QuiescentRingShowsTheRest(states);
  }

  // ----- runs with a harmful drop, one for each way it can go wrong -----

  /** The last state of a run. */
  function End(run: seq<State>): State
    requires run != []
  {
    run[|run| - 1]
  }

  lemma Extend(run: seq<State>, t: State) returns (longer: seq<State>)
    requires Run(run) && Step(End(run), t)
    ensures Run(longer) && run < longer && |longer| == |run| + 1 && End(longer) == t
  {
    hide Init, Step;
    longer := run + [t];
  }

  /** The first `n` bytes of `buf` lie in the slots from counter value `head` on. */
  ghost predicate Laid(data: seq<byte>, head: nat, buf: seq<byte>, n: nat) {
    |data| == CAP && n <= |buf| && forall i :: 0 <= i < n ==> data[(head + i) % CAP] == buf[i]
  }

  lemma LaidAt(data: seq<byte>, head: nat, buf: seq<byte>, n: nat, i: nat)
    requires Laid(data, head, buf, n) && i < n
    ensures data[(head + i) % CAP] == buf[i]
  {
  }

  lemma NothingLaid(data: seq<byte>, head: nat, buf: seq<byte>)
    requires |data| == CAP
    ensures Laid(data, head, buf, 0)
  {
  }

  lemma LayOne(data: seq<byte>, head: nat, buf: seq<byte>, n: nat)
    requires Laid(data, head, buf, n) && n < |buf| <= CAP
    ensures Laid(data[(head + n) % CAP := buf[n]], head, buf, n + 1)
  {
    forall i | 0 <= i < n
      ensures data[(head + n) % CAP := buf[n]][(head + i) % CAP] == buf[i]
    {
      SlotsDiffer(head + i, head + n);
    }
  }

  /** The writer's copy, once under way, can be run to its end. */
  lemma {:induction false} CopyAll(run: seq<State>) returns (longer: seq<State>, data: seq<byte>)
    requires Run(run) && End(run).writer.Writing? && |End(run).data| == CAP
    requires var w := End(run).writer;
             w.done <= |w.out| <= CAP && Laid(End(run).data, End(run).head, w.out, w.done)
    ensures Run(longer) && run <= longer && |data| == CAP
    ensures var w := End(run).writer;
            && End(longer) == End(run).(data := data, writer := Writing(w.out, |w.out|))
            && Laid(data, End(run).head, w.out, |w.out|)
    decreases |End(run).writer.out| - End(run).writer.done
  {
    var s := End(run);
    var out, done := s.writer.out, s.writer.done;
    if done == |out| {
      longer, data := run, s.data;
    } else {
      CopySlotIsCounterModCap(s.head, |out|, done);
      var t := s.(data := s.data[(s.head + done) % CAP := out[done]], writer := Writing(out, done + 1));
      LayOne(s.data, s.head, out, done);
      assert WriterCopies(s, t);
      hide Run, Step, Laid;
      var next := Extend(run, t);
      longer, data := CopyAll(next);
    }
  }

  /** The writer finishes a write, its room test or drop being over. */
  lemma FinishWrite(run: seq<State>) returns (longer: seq<State>, data: seq<byte>)
    requires Run(run) && |End(run).data| == CAP
    requires End(run).writer.Writing? && End(run).writer.done == 0 && |End(run).writer.out| <= CAP
    requires End(run).head + |End(run).writer.out| < TWO_32
    ensures Run(longer) && run < longer && |data| == CAP
    ensures var s, out := End(run), End(run).writer.out;
            && End(longer) == s.(data := data, head := s.head + |out|, writer := WriterIdle,
                                 written := s.written + out)
            && Laid(data, s.head, out, |out|)
  {
    var s, out := End(run), End(run).writer.out;
    longer, data := CopyAll(run);
    var t := End(longer).(head := s.head + |out|, writer := WriterIdle, written := s.written + out);
    assert WriterPublishes(End(longer), t);
    longer := Extend(longer, t);
  }

  /** Up to its room test or drop, a write changes nothing but the writer and the tail. */
  lemma BeginWrite(run: seq<State>, buf: seq<byte>) returns (longer: seq<State>)
    requires Run(run) && End(run).writer.WriterIdle?
    requires |buf| <= CAP && |End(run).written| + |buf| < TWO_32
    ensures Run(longer) && run < longer
    ensures End(longer) == End(run).(writer := HeaderRead(buf, End(run).tail))
  {
    var t := End(run).(writer := HeaderRead(buf, End(run).tail));
    assert WriterReadsHeader(End(run), t, buf);
    longer := Extend(run, t);
  }

  /** A write into an idle ring with room. */
  lemma Write(run: seq<State>, buf: seq<byte>) returns (longer: seq<State>, data: seq<byte>)
    requires Run(run) && End(run).writer.WriterIdle? && |End(run).data| == CAP
    requires |buf| <= CAP && |End(run).written| + |buf| < TWO_32
    requires End(run).tail <= End(run).head <= End(run).tail + CAP - |buf| && End(run).head + |buf| < TWO_32
    ensures Run(longer) && run < longer && |data| == CAP
    ensures var s := End(run);
            && End(longer) == s.(data := data, head := s.head + |buf|, written := s.written + buf)
            && Laid(data, s.head, buf, |buf|)
  {
    longer := BeginWrite(run, buf);
    var t := End(longer).(writer := Writing(buf, 0));
    assert WriterDecides(End(longer), t);
    longer := Extend(longer, t);
    longer, data := FinishWrite(longer);
  }

  /** The drop itself; `run` ends right before it. */
  lemma Drop(run: seq<State>) returns (longer: seq<State>)
    requires Run(run) && End(run).writer.HeaderRead?
    requires End(run).writer.seenTail <= End(run).head <= End(run).writer.seenTail + CAP
    requires End(run).head + |End(run).writer.buf| > End(run).writer.seenTail + CAP
    requires |End(run).writer.buf| <= CAP
    ensures Run(longer) && run < longer && |longer| == |run| + 1 && WriterDrops(End(run), End(longer))
    ensures var s := End(run);
            End(longer) == s.(tail := s.head + |s.writer.buf| - CAP, writer := Writing(s.writer.buf, 0))
  {
    var s := End(run);
    var t := s.(tail := DropTail(s), writer := Writing(s.writer.buf, 0));
    assert WriterDrops(s, t);
    longer := Extend(run, t);
  }

  /** The reader's fetch up to the first copy. */
  lemma BeginFetch(run: seq<State>) returns (longer: seq<State>)
    requires Run(run) && End(run).reader.ReaderIdle? && End(run).ahead == []
    requires End(run).tail < End(run).head <= End(run).tail + READ_AHEAD
    ensures Run(longer) && run < longer
    ensures End(longer) == End(run).(reader := Fetching(End(run).tail, End(run).head - End(run).tail, []))
  {
    var s := End(run);
    var t := s.(reader := HeadRead(s.head, s.tail));
    assert ReaderReadsHeader(s, t);
    longer := Extend(run, t);
    var u := s.(reader := Fetching(s.tail, s.head - s.tail, []));
    assert ReaderDecides(t, u);
    longer := Extend(longer, u);
  }

  lemma FetchByte(run: seq<State>) returns (longer: seq<State>)
    requires Run(run) && |End(run).data| == CAP
    requires End(run).reader.Fetching? && |End(run).reader.got| < End(run).reader.take <= CAP
    ensures Run(longer) && run < longer
    ensures var s := End(run);
            End(longer) == s.(reader := s.reader.(got := s.reader.got
                                                        + [s.data[(s.reader.base + |s.reader.got|) % CAP]]))
  {
    var s := End(run);
    CopySlotIsCounterModCap(s.reader.base, s.reader.take, |s.reader.got|);
    var t := s.(reader := s.reader.(got := s.reader.got + [s.data[(s.reader.base + |s.reader.got|) % CAP]]));
    assert ReaderCopies(s, t);
    longer := Extend(run, t);
  }

  lemma EndFetch(run: seq<State>) returns (longer: seq<State>)
    requires Run(run) && End(run).reader.Fetching? && |End(run).reader.got| == End(run).reader.take > 0
    requires End(run).reader.base + End(run).reader.take < TWO_32
    ensures Run(longer) && run < longer
    ensures var s, r := End(run), End(run).reader;
            End(longer) == s.(tail := r.base + r.take, reader := ReaderIdle, ahead := r.got[1..],
                              returned := s.returned + [r.got[0]],
                              origins := s.origins + Counters(r.base, r.take))
  {
    var s, r := End(run), End(run).reader;
    var t := s.(tail := r.base + r.take, reader := ReaderIdle, ahead := r.got[1..],
                returned := s.returned + [r.got[0]], origins := s.origins + Counters(r.base, r.take));
    assert ReaderPublishes(s, t);
    longer := Extend(run, t);
  }

  /** The empty ring, as `init` leaves it. */
  function Start(): State {
    State(seq(CAP, _ => 0), 0, 0, WriterIdle, ReaderIdle, [], [], [], [])
  }

  function Ones(n: nat): (buf: seq<byte>)
    ensures |buf| == n
  {
    seq(n, _ => 1)
  }

  /** A run whose drop number `d` is harmful. */
  ghost predicate HarmfulDrop(run: seq<State>, d: nat) {
    Run(run) && 0 < d < |run| && WriterDrops(run[d - 1], run[d]) && !HarmlessDrop(run[d - 1])
  }

  lemma StartRun() returns (run: seq<State>)
    ensures Run(run) && run != [] && End(run) == Start()
  {
    run := [Start()];
  }

  /** The writer begins to write `buf` and finds too little room: ready for the drop. */
  lemma DropOn(run: seq<State>) returns (longer: seq<State>)
    requires Run(run) && End(run).writer.HeaderRead?
    requires End(run).writer.seenTail <= End(run).head <= End(run).writer.seenTail + CAP
    requires End(run).head + |End(run).writer.buf| > End(run).writer.seenTail + CAP
    requires |End(run).writer.buf| <= CAP && !HarmlessDrop(End(run))
    ensures HarmfulDrop(longer, |run|) && |longer| == |run| + 1 && run < longer
    ensures var s := End(run);
            End(longer) == s.(tail := s.head + |s.writer.buf| - CAP, writer := Writing(s.writer.buf, 0))
  {
    hide Step, WriterDrops, HarmlessDrop;
    longer := Drop(run);
    assert longer[|run| - 1] == End(run);
  }

  lemma HarmStays(run: seq<State>, longer: seq<State>, d: nat)
    requires HarmfulDrop(run, d) && run <= longer && Run(longer)
    ensures HarmfulDrop(longer, d) && longer[d - 1] == run[d - 1]
  {
    hide Run, WriterDrops, HarmlessDrop;
  }

  /** A reader that has yet to copy a byte below the new tail copies the byte that
      overwrote it: here a 1 is returned while only a 0 has been published. */
  lemma TornFetch() returns (run: seq<State>, d: nat)
    ensures HarmfulDrop(run, d) && run[d - 1].reader.Fetching? && run[d - 1].reader.got == []
    ensures End(run).written == [0] && End(run).returned == [1]
  {
    hide Run, Step, CopySlot, Laid;
    var data;
    run := StartRun();
    run, data := Write(run, [0]);
    run := BeginFetch(run);
    run := BeginWrite(run, Ones(CAP));
    d := |run|;
    run := DropOn(run);
    var dropped := run;
    NothingLaid(End(run).data, 1, Ones(CAP));
    run, data := CopyAll(run);
    LaidAt(data, 1, Ones(CAP), CAP, CAP - 1);
    run := FetchByte(run);
    run := EndFetch(run);
    HarmStays(dropped, run, d);
  }

  /** An idle reader whose tail the drop moves back reads a byte again: here the two
      bytes published are returned as three. */
  lemma RepeatedByte() returns (run: seq<State>, d: nat)
    ensures HarmfulDrop(run, d) && run[d - 1].reader.ReaderIdle?
    ensures End(run).written == [0, 1] && End(run).returned == [0, 1, 1]
  {
    hide Run, Step, CopySlot, Laid;
    run := BothBytesRead();
    d := |run|;
    run := DropOn(run);
    var dropped := run;
    run := BeginFetch(run);
    run := FetchByte(run);
    run := EndFetch(run);
    HarmStays(dropped, run, d);
  }

  /** Two bytes are written; the writer reads the header for its next write; then the
      reader returns both. */
  lemma BothBytesRead() returns (run: seq<State>)
    ensures Run(run) && run != []
    ensures var s := End(run);
            && |s.data| == CAP && s.data[1] == 1 && s.written == [0, 1] && s.head == 2 && s.tail == 2
            && s.writer == HeaderRead(Ones(CAP - 1), 0) && s.reader == ReaderIdle
            && s.ahead == [] && s.returned == [0, 1]
  {
    hide Run, Step, CopySlot, Laid;
    run := FirstByteFetched();
    run := FetchByte(run);
    run := EndFetch(run);
    var s := End(run);
    assert s.ahead == [1] && s.returned == [0];
    var t := s.(ahead := [], returned := [0, 1]);
    assert ReaderTakesFetched(s, t);
    run := Advance(run, t);
  }

  lemma FirstByteFetched() returns (run: seq<State>)
    ensures Run(run) && run != []
    ensures var s := End(run);
            && |s.data| == CAP && s.data[1] == 1 && s.written == [0, 1] && s.head == 2
            && s.writer == HeaderRead(Ones(CAP - 1), 0) && s.reader == Fetching(0, 2, [0])
            && s.ahead == [] && s.returned == []
  {
    hide Run, Step, CopySlot, Laid;
    var data;
    run := StartRun();
    run, data := Write(run, [0, 1]);
    LaidAt(data, 0, [0, 1], 2, 0);
    LaidAt(data, 0, [0, 1], 2, 1);
    run := BeginWrite(run, Ones(CAP - 1));
    run := BeginFetch(run);
    run := FetchByte(run);
  }

  lemma Advance(run: seq<State>, t: State) returns (longer: seq<State>)
    requires Run(run) && (ReaderTakesFetched(End(run), t) || ReaderRepairs(End(run), t))
    ensures Run(longer) && run < longer && End(longer) == t
  {
    longer := Extend(run, t);
  }

  /** A reader that publishes its finished fetch below the new tail moves the tail back
      and lets the counters drift too far apart: here the next read takes 65521 unread
      bytes for a corrupt header and throws them all away. */
  lemma DiscardedBytes() returns (run: seq<State>, d: nat)
    ensures HarmfulDrop(run, d) && run[d - 1].reader.Fetching? && run[d - 1].reader.got == [0]
    ensures |End(run).written| == CAP + 2 && End(run).returned == [0] && End(run).ahead == []
    ensures End(run).tail == End(run).head
  {
    hide Run, Step, CopySlot, Laid;
    var data;
    run := StartRun();
    run, data := Write(run, [0]);
    LaidAt(data, 0, [0], 1, 0);
    run := BeginFetch(run);
    run := FetchByte(run);
    run, data := Write(run, [1]);
    run := BeginWrite(run, Ones(CAP));
    d := |run|;
    run := DropOn(run);
    var dropped := run;
    run := EndFetch(run);
    run, data := FinishWrite(run);
    var s := End(run);
    var t := s.(reader := HeadRead(s.head, s.tail));
    run := ReadHeader(run, t);
    run := Advance(run, t.(tail := s.head, reader := ReaderIdle));
    HarmStays(dropped, run, d);
  }

  lemma ReadHeader(run: seq<State>, t: State) returns (longer: seq<State>)
    requires Run(run) && ReaderReadsHeader(End(run), t)
    ensures Run(longer) && run < longer && End(longer) == t
  {
    longer := Extend(run, t);
  }

  // ----- every harmful drop can go wrong in one of these ways -----

  /** The next byte to be copied has been overwritten by the writer's copy. */
  ghost predicate Overwritten(s: State) {
    && s.reader.Fetching? && |s.reader.got| < s.reader.take && s.writer.Writing? && |s.data| == CAP
    && var p := s.reader.base + |s.reader.got|;
    && s.head <= p + CAP < s.head + s.writer.done && s.writer.done <= |s.writer.out|
    && s.data[p % CAP] == s.writer.out[p + CAP - s.head]
  }

  /** A fetch has begun at or below a counter value already fetched. */
  ghost predicate FetchesAgain(s: State) {
    s.reader.Fetching? && s.origins != [] && s.reader.base <= s.origins[|s.origins| - 1]
  }

  /** The reader is about to take the header for corrupt. */
  ghost predicate RepairDue(s: State) {
    s.reader.HeadRead? && U32(s.reader.seenHead - s.reader.ownTail) > CAP
  }

  lemma {:induction false} TakeAll(run: seq<State>) returns (longer: seq<State>)
    requires Run(run) && End(run).reader.ReaderIdle?
    ensures Run(longer) && run <= longer
    ensures End(longer) == End(run).(ahead := [], returned := End(run).returned + End(run).ahead)
    decreases |End(run).ahead|
  {
    var s := End(run);
    if s.ahead == [] {
      longer := run;
      assert s.returned + [] == s.returned;
    } else {
      var t := s.(ahead := s.ahead[1..], returned := s.returned + [s.ahead[0]]);
      assert ReaderTakesFetched(s, t);
      longer := Advance(run, t);
      hide Run;
      longer := TakeAll(longer);
      assert s.returned + s.ahead == t.returned + t.ahead;
    }
  }

  lemma Decide(run: seq<State>) returns (longer: seq<State>)
    requires Run(run) && End(run).reader.HeadRead?
    requires var r := End(run).reader;
             r.ownTail < r.seenHead <= r.ownTail + CAP
    ensures Run(longer) && run < longer
    ensures var r := End(run).reader;
            End(longer) == End(run).(reader := Fetching(r.ownTail, Min(r.seenHead - r.ownTail, READ_AHEAD), []))
  {
    var s, r := End(run), End(run).reader;
    var t := s.(reader := Fetching(r.ownTail, Min(r.seenHead - r.ownTail, READ_AHEAD), []));
    assert ReaderDecides(s, t);
    longer := Extend(run, t);
  }

  /** After a drop past a byte still to be copied, the writer's copy overwrites it. */
  lemma CopyOverwrites(run: seq<State>) returns (longer: seq<State>)
    requires run != [] && Run(run) && |End(run).data| == CAP
    requires End(run).writer.Writing? && End(run).writer.done == 0 && |End(run).writer.out| <= CAP
    requires End(run).reader.Fetching?
    requires |End(run).reader.got| < End(run).reader.take
    requires var p := End(run).reader.base + |End(run).reader.got|;
             End(run).head <= p + CAP < End(run).head + |End(run).writer.out|
    ensures Run(longer) && run <= longer && Overwritten(End(longer))
  {
    hide Run, Step, Laid;
    var s := End(run);
    var p, out := s.reader.base + |s.reader.got|, s.writer.out;
    NothingLaid(s.data, s.head, out);
    var data;
    longer, data := CopyAll(run);
    LaidAt(data, s.head, out, |out|, p + CAP - s.head);
    assert (s.head + (p + CAP - s.head)) % CAP == p % CAP;
  }

  /** Every harmful drop that an otherwise harmless run can reach has a continuation in
      which a byte still to be copied is overwritten, or a byte is fetched again, or the
      reader takes the header for corrupt. */
  lemma HarmfulDropGoesWrong(run: seq<State>, t: State) returns (longer: seq<State>)
    requires Run(run) && HarmlessDrops(run) && WriterDrops(End(run), t) && !HarmlessDrop(End(run))
    ensures Run(longer) && run < longer && longer[|run|] == t
    ensures Overwritten(End(longer)) || FetchesAgain(End(longer)) || RepairDue(End(longer))
  {
    var s := End(run);
    hide Run, Step, HarmlessDrops, Overwritten, FetchesAgain, RepairDue;
    RunKeepsInv(run);
    DropFacts(s, t);
    var dropped := DropOn(run);
    match s.reader
    case ReaderIdle =>
      longer := ReadsAgain(dropped);
    case HeadRead(_, _) =>
      longer := Decide(dropped);
      longer := CopyOverwrites(longer);
    case Fetching(base, take, got) =>
      if |got| < take {
        longer := CopyOverwrites(dropped);
      } else {
        longer := PublishesBelow(dropped);
      }
    PrefixAt(dropped, longer, |run|);
  }

  lemma PrefixAt(a: seq<State>, b: seq<State>, i: nat)
    requires a <= b && i < |a|
    ensures a[i] == b[i]
  {
  }

  /** What the invariant says right before a harmful drop. */
  lemma DropFacts(s: State, t: State)
    requires Inv(s) && WriterDrops(s, t) && !HarmlessDrop(s)
    ensures |s.data| == CAP && s.head + |s.writer.buf| < TWO_32 && |s.writer.buf| <= CAP
    ensures s.writer.seenTail <= s.head <= s.writer.seenTail + CAP
    ensures s.writer.seenTail + CAP < s.head + |s.writer.buf|
    ensures t == s.(tail := s.head + |s.writer.buf| - CAP, writer := Writing(s.writer.buf, 0))
    ensures match s.reader
            case ReaderIdle =>
              t.tail < s.tail <= s.head && s.origins != [] && t.tail <= s.origins[|s.origins| - 1]
            case HeadRead(seenHead, ownTail) =>
              && ownTail < seenHead <= ownTail + CAP
              && s.head <= ownTail + CAP && ownTail < t.tail
            case Fetching(base, take, got) =>
              && |got| <= take && s.head <= base + |got| + CAP && base + |got| < t.tail && base + take < TWO_32
              && s.ahead == [] && 0 < take
  {
    hide InOrder, AllBelow;
    assert s.writer.seenTail < DropTail(s) == s.head + |s.writer.buf| - CAP;
  }

  lemma ReadsAgain(run: seq<State>) returns (longer: seq<State>)
    requires run != [] && Run(run) && End(run).reader.ReaderIdle?
    requires End(run).tail < End(run).head <= End(run).tail + CAP
    requires End(run).origins != [] && End(run).tail <= End(run).origins[|End(run).origins| - 1]
    ensures Run(longer) && run <= longer && FetchesAgain(End(longer))
  {
    hide Run, Step;
    longer := TakeAll(run);
    var s := End(longer);
    longer := ReadHeader(longer, s.(reader := HeadRead(s.head, s.tail)));
    longer := Decide(longer);
  }

  lemma PublishesBelow(run: seq<State>) returns (longer: seq<State>)
    requires run != [] && Run(run) && |End(run).data| == CAP
    requires End(run).writer.Writing? && End(run).writer.done == 0 && |End(run).writer.out| <= CAP
    requires End(run).head + |End(run).writer.out| < TWO_32
    requires var r := End(run).reader;
             && r.Fetching? && |r.got| == r.take > 0 && r.base + r.take < TWO_32
             && r.base + r.take + CAP < End(run).head + |End(run).writer.out|
    ensures Run(longer) && run <= longer && RepairDue(End(longer))
  {
    hide Run, Step, Laid;
    var data;
    longer := EndFetch(run);
    longer, data := FinishWrite(longer);
    longer := TakeAll(longer);
    var s := End(longer);
    longer := ReadHeader(longer, s.(reader := HeadRead(s.head, s.tail)));
  }
}
