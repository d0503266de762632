/** The cross-core ring: free-running 32-bit counters over a 65520-byte region, a
    writer that drops the oldest bytes and a reader with a 4096-byte read-ahead. */
module IpcRing {
  import opened Bytes

  const CAP := 65520
  const READ_AHEAD := 4096

  // ----- specification -----

  /** The ring region of the IPC file: its bytes and the two counters of its header. */
  datatype Region = Region(data: seq<byte>, head: u32, tail: u32) {
    ghost predicate Valid() {
      |data| == CAP
    }

    function Used(): u32 {
      U32(head - tail)
    }

    /** What a reader finds from the tail on. */
    function View(): (v: seq<byte>)
      requires |data| == CAP
      ensures |v| == Used()
    {
      seq(Used(), k requires 0 <= k => data[(tail + k) % CAP])
    }

    /** The states reached while fewer than 2^32 bytes have passed. */
    ghost predicate Sane() {
      Valid() && tail <= head <= tail + CAP
    }
  }

  /** `data` with `buf` laid over the slots from `start` on, cyclically. */
  function Overlay(data: seq<byte>, start: nat, buf: seq<byte>): (r: seq<byte>)
    requires |data| == CAP && |buf| <= CAP
    ensures |r| == CAP
  {
    seq(CAP, s requires 0 <= s < CAP =>
      if (s - start) % CAP < |buf| then buf[(s - start) % CAP] else data[s])
  }

  /** The region after one `writeAll`. A corrupt tail counts as an empty ring but
      is not repaired in the file; the tail moves only to make room. */
  function Written(r: Region, buf: seq<byte>): (w: Region)
    requires |r.data| == CAP && |buf| <= CAP
    ensures |w.data| == CAP
  {
    var used := if r.Used() > CAP then 0 else r.Used();
    Region(Overlay(r.data, r.head, buf), U32(r.head + |buf|),
           if used + |buf| > CAP then U32(r.head - (CAP - |buf|)) else r.tail)
  }

  /** A reader's state: the region and the bytes already fetched from it. */
  datatype Reading = Reading(region: Region, ahead: seq<byte>) {
    /** All bytes that later reads will return, oldest first. */
    function Queue(): seq<byte>
      requires |region.data| == CAP
    {
      ahead + region.View()
    }
  }

  /** One `readByte` with a zero timeout, and the byte it returns. */
  function Fetch(s: Reading): (r: (Reading, Option<byte>))
    requires |s.region.data| == CAP
  {
    var used := s.region.Used();
    if s.ahead != [] then
      (s.(ahead := s.ahead[1..]), Some(s.ahead[0]))
    else if used == 0 then
      (s, None)
    else if used > CAP then
      (s.(region := s.region.(tail := s.region.head)), None)
    else
      var take := if used < READ_AHEAD then used else READ_AHEAD;
      (Reading(s.region.(tail := U32(s.region.tail + take)), s.region.View()[1..take]),
       Some(s.region.View()[0]))
  }

  // ----- the code -----

  class SharedRing {
    const data: array<byte>
    var head: u32
    var tail: u32

    ghost predicate Valid()
      reads this
    {
      data.Length == CAP
    }

    ghost function State(): (r: Region)
      requires Valid()
      reads this, data
      ensures |r.data| == CAP
    {
      Region(data[..], head, tail)
    }

    /** `init` zeroes both counters and leaves the data as it is. */
    constructor (data: array<byte>)
      requires data.Length == CAP
      ensures Valid() && this.data == data
      ensures State().head == 0 && State().tail == 0
    {
      this.data := data;
      head := 0;
      tail := 0;
    }

    /** Write `buf` whole, dropping the oldest unread bytes when it does not fit. */
    method WriteAll(buf: seq<byte>)
      requires Valid() && |buf| <= CAP
      modifies this, data
      ensures Valid() && State() == Written(old(State()), buf)
    {
      var t := tail;
      var used := U32(head - t);
      if used > CAP {
        t := head;
        used := 0;
      }
      if used + |buf| > CAP {
        tail := U32(head - (CAP - |buf|));
      }
      var off := head % CAP;
      var n := |buf|;
      var first := if off + n <= CAP then n else CAP - off;
      forall i | 0 <= i < first {
        data[off + i] := buf[i];
      }
      if n > first {
        forall i | 0 <= i < n - first {
          data[i] := buf[first + i];
        }
      }
      OverlayBySlots(old(data[..]), head, buf, data[..]);
      head := U32(head + n);
    }
  }

  class IpcReader {
    const ring: SharedRing
    const rxBuf: array<byte>
    var rxPos: nat
    var rxLen: nat

    ghost predicate Valid()
      reads this, ring
    {
      && ring.Valid() && rxBuf.Length == READ_AHEAD && rxBuf != ring.data
      && rxPos <= rxLen <= READ_AHEAD
    }

    ghost function State(): (s: Reading)
      requires Valid()
      reads this, rxBuf, ring, ring.data
      ensures |s.region.data| == CAP
    {
      Reading(ring.State(), rxBuf[rxPos..rxLen])
    }

    constructor (ring: SharedRing)
      requires ring.Valid()
      ensures Valid() && this.ring == ring && State() == Reading(ring.State(), [])
      ensures fresh(rxBuf)
    {
      this.ring := ring;
      rxBuf := new byte[READ_AHEAD];
      rxPos := 0;
      rxLen := 0;
    }

    /** Copy the `take` oldest ring bytes into the read-ahead buffer. */
    method CopyOldest(take: nat)
      requires Valid() && take <= ring.State().Used() <= CAP && take <= READ_AHEAD
      modifies rxBuf
      ensures rxBuf[..take] == ring.State().View()[..take]
    {
      var off := ring.tail % CAP;
      var first := if off + take <= CAP then take else CAP - off;
      forall i | 0 <= i < first {
        rxBuf[i] := ring.data[off + i];
      }
      if take > first {
        forall i | 0 <= i < take - first {
          rxBuf[first + i] := ring.data[i];
        }
      }
      SplitCopy(ring.State(), first, take, rxBuf[..take]);
    }

    /** Return the next byte, or None when nothing can be read now. */
    method ReadByte() returns (b: Option<byte>)
      requires Valid()
      modifies this, rxBuf, ring
      ensures Valid() && ring.data[..] == old(ring.data[..])
      ensures (State(), b) == Fetch(old(State()))
    {
      if rxPos < rxLen {
        b := Some(rxBuf[rxPos]);
        rxPos := rxPos + 1;
        return;
      }
      if ring.head != ring.tail {
        var avail := U32(ring.head - ring.tail);
        if avail > CAP {
          ring.tail := ring.head;
        } else {
          var take := if avail < READ_AHEAD then avail else READ_AHEAD;
          ghost var view := ring.State().View();
          CopyOldest(take);
          ring.tail := U32(ring.tail + take);
          rxPos := 1;
          rxLen := take;
          assert rxBuf[1..take] == rxBuf[..take][1..] == view[1..take];
          assert rxBuf[0] == rxBuf[..take][0];
          return Some(rxBuf[0]);
        }
      }
      b := None;
    }
  }

  lemma ModShift(a: int, b: int)
    ensures (a % CAP - b) % CAP == (a - b) % CAP
  {
  }

  /** The writer's two copies lay `buf` over the ring. */
  lemma OverlayBySlots(before: seq<byte>, head: nat, buf: seq<byte>, after: seq<byte>)
    requires |before| == |after| == CAP && |buf| <= CAP
    requires var off, n := head % CAP, |buf|;
             var first := if off + n <= CAP then n else CAP - off;
             forall s :: 0 <= s < CAP ==>
               after[s] == (if off <= s < off + first then buf[s - off]
                            else if s < n - first then buf[first + s] else before[s])
    ensures after == Overlay(before, head, buf)
  {
  }

  /** The reader's two copies fetch the oldest bytes of the view. */
  lemma SplitCopy(r: Region, first: nat, take: nat, copied: seq<byte>)
    requires r.Valid() && |copied| == take <= r.Used() <= CAP
    requires first == if r.tail % CAP + take <= CAP then take else CAP - r.tail % CAP
    requires forall i :: 0 <= i < first ==> copied[i] == r.data[r.tail % CAP + i]
    requires forall i :: first <= i < take ==> copied[i] == r.data[i - first]
    ensures copied == r.View()[..take]
  {
    forall i | 0 <= i < take
      ensures copied[i] == r.View()[i]
    {
      ModShift(r.tail, -i);
      assert (r.tail + i) % CAP == (r.tail % CAP + i) % CAP;
    }
  }

  // ----- refinement: the ring is a queue that drops its oldest bytes -----

  function Last(q: seq<byte>, n: nat): seq<byte> {
    if |q| <= n then q else q[|q| - n..]
  }

  /** A slot of the view after an overlay: new bytes above the head, old ones below. */
  lemma OverlaidSlot(data: seq<byte>, head: nat, buf: seq<byte>, n: nat)
    requires |data| == CAP && |buf| <= CAP
    requires head + |buf| <= n + CAP && n < head + |buf|
    ensures Overlay(data, head, buf)[n % CAP] == if n < head then data[n % CAP] else buf[n - head]
  {
  }

  /** While the counters have not wrapped, a write appends `buf` and keeps the last
      65520 bytes; in particular the copies never touch a byte that stays unread. */
  lemma WriteKeepsTheNewest(r: Region, buf: seq<byte>)
    requires r.Sane() && |buf| <= CAP && r.head + |buf| < TWO_32
    ensures Written(r, buf).Sane()
    ensures Written(r, buf).View() == Last(r.View() + buf, CAP)
    ensures Written(r, buf).head == r.head + |buf|
  {
    var w := Written(r, buf);
    var want := Last(r.View() + buf, CAP);
    assert r.Used() == r.head - r.tail;
    assert w.Used() == w.head - w.tail == |want|;
    hide Overlay;
    forall k | 0 <= k < |want|
      ensures w.View()[k] == want[k]
    {
      OverlaidSlot(r.data, r.head, buf, w.tail + k);
    }
  }

  lemma SlotIsCyclic(head: nat, k: nat)
    requires k < CAP
    ensures ((head + k) % CAP - head) % CAP == k
  {
    ModShift(head + k, head);
  }

  /** Whatever the header says: a write lays the buffer over the slots from the head on and
      leaves the other slots alone. */
  lemma WriteLaysTheBuffer(r: Region, buf: seq<byte>, k: nat)
    requires |r.data| == CAP && |buf| <= CAP && k < 65520
    ensures var w, slot := Written(r, buf), (r.head + k) % 65520;
            && w.data[slot] == (if k < |buf| then buf[k] else r.data[slot])
            && w.head == (r.head + |buf|) % 0x1_0000_0000
  {
    SlotIsCyclic(r.head, k);
    hide Region.Used;
  }

  /** The tail moves only if the buffer does not fit, and then 65520 bytes are unread. A header
      that counts more than 65520 unread bytes counts as empty. */
  lemma WriteMakesRoom(r: Region, buf: seq<byte>)
    requires |r.data| == CAP && |buf| <= CAP
    ensures var w := Written(r, buf);
            if r.Used() > 65520 || r.Used() + |buf| <= 65520 then w.tail == r.tail else w.Used() == 65520
  {
    hide Overlay;
  }

  lemma EmptyRing(r: Region)
    requires |r.data| == CAP && r.tail == r.head
    ensures r.Sane() && r.View() == []
  {
  }

  /** A header that counts more than 65520 unread bytes: a read returns nothing and empties the
      ring, and what is then written is what the ring shows. */
  lemma CorruptHeaderHeals(r: Region, buf: seq<byte>)
    requires |r.data| == CAP && r.Used() > 65520 && |buf| <= CAP && r.head + |buf| < TWO_32
    ensures var (s, b) := Fetch(Reading(r, []));
            && b == None && s.ahead == [] && s.region.View() == [] && s.region.head == r.head
            && Written(s.region, buf).View() == buf
  {
    var w := r.(tail := r.head);
    assert Fetch(Reading(r, [])) == (Reading(w, []), None);
    hide Fetch, Written, Region.View, Region.Sane, Region.Used;
    EmptyRing(w);
    WriteKeepsTheNewest(w, buf);
    assert [] + buf == buf;
  }

  lemma LaterView(r: Region, k: nat)
    requires r.Sane() && k <= r.head - r.tail
    ensures r.Used() == r.head - r.tail
    ensures r.(tail := r.tail + k).View() == r.View()[k..]
  {
  }

  lemma FetchMovesTheOldest(s: Reading)
    requires s.region.Sane() && s.ahead == [] && s.region.Used() > 0
    ensures var (s', b) := Fetch(s);
            var take := Min(s.region.Used(), READ_AHEAD);
            && s'.region.Sane() && s'.region.head == s.region.head
            && b == Some(s.region.View()[0])
            && s'.ahead == s.region.View()[1..take]
            && s'.region.View() == s.region.View()[take..]
  {
    hide Region.View;
    LaterView(s.region, Min(s.region.Used(), READ_AHEAD));
  }

  /** A read removes exactly the oldest byte, and fails exactly on an empty queue. */
  lemma ReadTakesTheOldest(s: Reading)
    requires s.region.Sane()
    ensures var (s', b) := Fetch(s);
            && s'.region.Sane()
            && (b == None <==> s.Queue() == [])
            && s.Queue() == (if b == None then [] else [b.value]) + s'.Queue()
  {
    var r := s.region;
    assert r.Used() == r.head - r.tail == |r.View()|;
    if s.ahead != [] {
      assert s.Queue() == s.ahead[..1] + (s.ahead[1..] + r.View());
    } else if r.Used() > 0 {
      FetchMovesTheOldest(s);
      var take := Min(r.Used(), READ_AHEAD);
      assert s.Queue() == r.View() == r.View()[..1] + (r.View()[1..take] + r.View()[take..]);
    }
  }

  lemma FetchShortens(s: Reading)
    requires |s.region.data| == CAP
    ensures |Fetch(s).0.region.data| == CAP
    ensures Fetch(s).1.Some? ==> |Fetch(s).0.Queue()| < |s.Queue()|
  {
    var r := s.region;
    if s.ahead == [] && 0 < r.Used() <= CAP {
      var take := Min(r.Used(), READ_AHEAD);
      TailMoves(r, take);
      assert Fetch(s).0 == Reading(r.(tail := U32(r.tail + take)), r.View()[1..take]);
    }
  }

  lemma TailMoves(r: Region, take: nat)
    requires take <= r.Used()
    ensures r.(tail := U32(r.tail + take)).Used() == r.Used() - take
  {
  }

  datatype Op = Write(buf: seq<byte>) | Read

  /** The abstract buffer: fetched bytes and ring contents, without slots or counters. */
  datatype Buffer = Buffer(ahead: seq<byte>, ring: seq<byte>)

  function StepBuffer(q: Buffer, op: Op): (Buffer, Option<byte>) {
    match op
    case Write(buf) => (q.(ring := Last(q.ring + buf, CAP)), None)
    case Read =>
      if q.ahead != [] then (q.(ahead := q.ahead[1..]), Some(q.ahead[0]))
      else if q.ring == [] then (q, None)
      else
        var take := Min(|q.ring|, READ_AHEAD);
        (Buffer(q.ring[1..take], q.ring[take..]), Some(q.ring[0]))
  }

  function StepRing(s: Reading, op: Op): (r: (Reading, Option<byte>))
    requires |s.region.data| == CAP && (op.Write? ==> |op.buf| <= CAP)
    ensures |r.0.region.data| == CAP
  {
    match op
    case Write(buf) => (s.(region := Written(s.region, buf)), None)
    case Read => Fetch(s)
  }

  predicate Legal(ops: seq<Op>) {
    forall op :: op in ops && op.Write? ==> |op.buf| <= CAP
  }

  function BytesWritten(ops: seq<Op>): nat {
    if ops == [] then 0 else (if ops[0].Write? then |ops[0].buf| else 0) + BytesWritten(ops[1..])
  }

  /** The answers of a whole run: one per operation, None for a write. */
  function RunRing(s: Reading, ops: seq<Op>): (r: (Reading, seq<Option<byte>>))
    requires |s.region.data| == CAP && Legal(ops)
    ensures |r.0.region.data| == CAP
    decreases |ops|
  {
    if ops == [] then (s, []) else
      var (s1, b) := StepRing(s, ops[0]);
      var (s2, bs) := RunRing(s1, ops[1..]);
      (s2, [b] + bs)
  }

  function RunBuffer(q: Buffer, ops: seq<Op>): (Buffer, seq<Option<byte>>)
    decreases |ops|
  {
    if ops == [] then (q, []) else
      var (q1, b) := StepBuffer(q, ops[0]);
      var (q2, bs) := RunBuffer(q1, ops[1..]);
      (q2, [b] + bs)
  }

  function BufferOf(s: Reading): Buffer
    requires |s.region.data| == CAP
  {
    Buffer(s.ahead, s.region.View())
  }

  lemma StepRefines(s: Reading, op: Op)
    requires s.region.Sane() && (op.Write? ==> |op.buf| <= CAP && s.region.head + |op.buf| < TWO_32)
    ensures var (s', b) := StepRing(s, op);
            && s'.region.Sane() && (BufferOf(s'), b) == StepBuffer(BufferOf(s), op)
            && s'.region.head == s.region.head + if op.Write? then |op.buf| else 0
  {
    if op.Write? {
      WriteKeepsTheNewest(s.region, op.buf);
    } else {
      assert s.region.Used() == s.region.head - s.region.tail;
      if s.ahead == [] && s.region.Used() > 0 {
        FetchMovesTheOldest(s);
      }
    }
  }

  /** From zeroed counters, every run of writes and reads that carries fewer than
      2^32 bytes gives exactly the answers of the abstract buffer and reaches a sane
      region in its state: one in which neither repair branch is taken. */
  lemma {:induction false} RunRefines(s: Reading, ops: seq<Op>)
    requires s.region.Sane() && Legal(ops) && s.region.head + BytesWritten(ops) < TWO_32
    ensures var (s', bs) := RunRing(s, ops);
            && s'.region.Sane() && s'.region.Used() <= CAP
            && (BufferOf(s'), bs) == RunBuffer(BufferOf(s), ops)
    decreases |ops|
  {
    if ops != [] {
      assert ops[0] in ops;
      StepRefines(s, ops[0]);
      assert forall op :: op in ops[1..] ==> op in ops;
      RunRefines(StepRing(s, ops[0]).0, ops[1..]);
    }
  }

  /** No write of the run finds the ring too full. */
  predicate NeverFull(q: Buffer, ops: seq<Op>)
    decreases |ops|
  {
    ops == [] ||
    ((ops[0].Write? ==> |q.ring| + |ops[0].buf| <= CAP) && NeverFull(StepBuffer(q, ops[0]).0, ops[1..]))
  }

  function Input(ops: seq<Op>): seq<byte> {
    if ops == [] then [] else (if ops[0].Write? then ops[0].buf else []) + Input(ops[1..])
  }

  function Output(bs: seq<Option<byte>>): seq<byte> {
    if bs == [] then [] else (if bs[0].Some? then [bs[0].value] else []) + Output(bs[1..])
  }

  lemma {:induction false} BufferIsFifo(q: Buffer, ops: seq<Op>)
    requires NeverFull(q, ops)
    ensures var (q', bs) := RunBuffer(q, ops);
            Output(bs) + (q'.ahead + q'.ring) == (q.ahead + q.ring) + Input(ops)
    decreases |ops|
  {
    if ops == [] {
    } else {
      var (q1, b) := StepBuffer(q, ops[0]);
      var (q2, bs) := RunBuffer(q1, ops[1..]);
      BufferIsFifo(q1, ops[1..]);
      StepIsFifo(q, ops[0]);
      assert ([b] + bs)[1..] == bs;
      var now := if b.Some? then [b.value] else [];
      var fed := if ops[0].Write? then ops[0].buf else [];
      Regroup(now, Output(bs), q2.ahead + q2.ring, q1.ahead + q1.ring, Input(ops[1..]), q.ahead + q.ring, fed);
    }
  }

  lemma StepIsFifo(q: Buffer, op: Op)
    requires op.Write? ==> |q.ring| + |op.buf| <= CAP
    ensures var (q', b) := StepBuffer(q, op);
            (if b.Some? then [b.value] else []) + (q'.ahead + q'.ring) ==
            (q.ahead + q.ring) + if op.Write? then op.buf else []
  {
  }

  lemma Regroup(a: seq<byte>, b: seq<byte>, c: seq<byte>, d: seq<byte>, e: seq<byte>, f: seq<byte>, g: seq<byte>)
    requires b + c == d + e && a + d == f + g
    ensures (a + b) + c == f + (g + e)
  {
    assert (a + b) + c == a + (b + c) == (a + d) + e;
  }

  /** First in, first out: in a run that never overflows, the bytes read and the
      bytes still queued are exactly the bytes written, in order. */
  lemma RunIsFifo(s: Reading, ops: seq<Op>)
    requires s.region.Sane() && Legal(ops) && s.region.head + BytesWritten(ops) < TWO_32
    requires NeverFull(BufferOf(s), ops)
    ensures var (s', bs) := RunRing(s, ops);
            Output(bs) + s'.Queue() == s.Queue() + Input(ops)
  {
    RunRefines(s, ops);
    BufferIsFifo(BufferOf(s), ops);
  }

  /** 65520 does not divide 2^32, so a slot number jumps when a counter wraps. Once
      the head has wrapped past the tail a write no longer appends: it appends every
      buffer that fits if and only if the head counter is not below the tail. */
  lemma AppendsUnlessHeadWrapped(r: Region)
    requires r.Valid() && r.Used() < CAP
    ensures (forall buf: seq<byte> :: 1 <= |buf| <= CAP - r.Used() ==>
               Written(r, buf).View() == r.View() + buf)
            <==> r.tail <= r.head
  {
    if r.tail <= r.head {
      forall buf: seq<byte> | 1 <= |buf| <= CAP - r.Used()
        ensures Written(r, buf).View() == r.View() + buf
      {
        AppendWithinOneEpoch(r, buf);
      }
    } else {
      var k := r.tail + r.Used();
      var buf: seq<byte> := [if r.data[k % CAP] == 0 then 1 else 0];
      assert k == r.head + TWO_32;
      assert (k - r.head) % CAP == 256;
      ModShift(k, r.head);
      assert Written(r, buf).Used() == r.Used() + 1;
      assert Written(r, buf).View()[r.Used()] == r.data[k % CAP];
      assert (r.View() + buf)[r.Used()] == buf[0];
    }
  }

  lemma AppendWithinOneEpoch(r: Region, buf: seq<byte>)
    requires r.Valid() && r.tail <= r.head && 1 <= |buf| <= CAP - r.Used()
    ensures Written(r, buf).View() == r.View() + buf
  {
    var w := Written(r, buf);
    assert r.Used() == r.head - r.tail;
    assert w.Used() == r.Used() + |buf|;
    forall k | 0 <= k < w.Used()
      ensures w.View()[k] == (r.View() + buf)[k]
    {
      OverlaidSlot(r.data, r.head, buf, r.tail + k);
    }
  }
}
