/** The language of host commands as a grammar over whole byte strings, and the
    proof that the byte-at-a-time parser accepts exactly that language. */
module CommandGrammar {
  import opened Bytes
  import opened CommandParser

  // ----- sequences -----

  lemma Cut(a: seq<byte>, b: seq<byte>)
    ensures (a + b)[..|a|] == a && (a + b)[|a|..] == b
  {
  }

  lemma CutMiddle(x: seq<byte>, i: nat, n: nat)
    requires i + n <= |x|
    ensures x[i..][..n] == x[i..i + n] && x[i..][n..] == x[i + n..]
  {
  }

  lemma SliceOfTake(x: seq<byte>, n: nat, i: nat, j: nat)
    requires i <= j <= n <= |x|
    ensures x[..n][i..j] == x[i..j]
  {
  }

  // ----- the grammar -----

  function Drop(s: seq<byte>, n: nat): (r: seq<byte>)
    ensures |r| <= |s|
  {
    if |s| <= n then [] else s[n..]
  }

  /** What the front of a byte string stands for, and the bytes after it. */
  datatype Front = Front(events: seq<Event>, rest: seq<byte>)

  /** An unfinished command at the end of the string yields nothing. */
  const UNFINISHED := Front([], [])

  /** A frame after its magic: length and payload. */
  function FrameFront(s: seq<byte>): Front {
    if |s| < 2 then UNFINISHED else
      var n := FromLe16(s[..2]);
      if n == 0 || n > MAX_TOTAL_PAYLOAD then Front([BadTxLen], Drop(s[2..], n))
      else if |s| < 2 + n then UNFINISHED
      else Front([Transmit(s[2..2 + n])], s[2 + n..])
  }

  function ConfigFront(s: seq<byte>): Front {
    if |s| < 2 then UNFINISHED else
      var n := FromLe16(s[..2]);
      if n != 15 && n != 17 then Front([BadConfigLen], s[2..])
      else if |s| < 2 + n then UNFINISHED
      else Front([Configure(s[2..2 + n])], s[2 + n..])
  }

  function WindowFront(s: seq<byte>): Front {
    if |s| < 8 then UNFINISHED
    else Front([SetWindow(FromLe32(s[..4]), FromLe32(s[4..8]))], s[8..])
  }

  function ScanFront(s: seq<byte>): Front {
    if |s| < 1 then UNFINISHED
    else if s[0] == 0 || s[0] > 16 then Front([], s[1..])
    else
      var n := 5 + 4 * s[0] as nat;
      if |s| < n then UNFINISHED
      else Front([Scan(FromLe32(s[1..5]), Words(s[5..n]))], s[n..])
  }

  function CommandFront(s: seq<byte>): (f: Front)
    requires s != []
    ensures |f.rest| < |s|
  {
    if s[0] == T then
      if |s| < 2 then UNFINISHED else if s[1] == X then FrameFront(s[2..]) else Front([], s[2..])
    else if s[0] == C then ConfigFront(s[1..])
    else if s[0] == W then WindowFront(s[1..])
    else if s[0] == Q then ScanFront(s[1..])
    else if s[0] == S then Front([StatsRequest], s[1..])
    else if s[0] == X then Front([Reset], s[1..])
    else Front([], s[1..])
  }

  /** The commands and length errors of a whole byte string. */
  function Parse(s: seq<byte>): seq<Event>
    decreases |s|
  {
    if s == [] then [] else CommandFront(s).events + Parse(CommandFront(s).rest)
  }

  /** The commands a host can send. */
  predicate Sendable(c: Event) {
    match c
    case Transmit(p) => 1 <= |p| <= MAX_TOTAL_PAYLOAD
    case Configure(b) => |b| == 15 || |b| == 17
    case Scan(_, freqs) => 1 <= |freqs| <= 16
    case BadTxLen => false
    case BadConfigLen => false
    case _ => true
  }

  function WordBytes(ws: seq<u32>): (s: seq<byte>)
    ensures |s| == 4 * |ws|
  {
    if ws == [] then [] else Le32(ws[0]) + WordBytes(ws[1..])
  }

  /** A command's bytes on the wire: its tag, then its fields. */
  function Lead(c: Event): seq<byte>
    requires Sendable(c)
  {
    match c
    case Transmit(_) => [T, X]
    case Configure(_) => [C]
    case SetWindow(_, _) => [W]
    case Scan(_, _) => [Q]
    case StatsRequest => [S]
    case Reset => [X]
  }

  function Fields(c: Event): seq<byte>
    requires Sendable(c)
  {
    match c
    case Transmit(p) => Le16(|p|) + p
    case Configure(b) => Le16(|b|) + b
    case SetWindow(o, p) => Le32(o) + Le32(p)
    case Scan(d, freqs) => [|freqs|] + Le32(d) + WordBytes(freqs)
    case StatsRequest => []
    case Reset => []
  }

  function Encode(c: Event): seq<byte>
    requires Sendable(c)
  {
    Lead(c) + Fields(c)
  }

  predicate AllSendable(cs: seq<Event>) {
    forall c :: c in cs ==> Sendable(c)
  }

  function EncodeAll(cs: seq<Event>): seq<byte>
    requires AllSendable(cs)
  {
    if cs == [] then [] else Encode(cs[0]) + EncodeAll(cs[1..])
  }

  lemma {:induction false} WordsRoundTrip(ws: seq<u32>)
    ensures Words(WordBytes(ws)) == ws
  {
    if ws != [] {
      var s := WordBytes(ws);
      assert s[..4] == Le32(ws[0]) && s[4..] == WordBytes(ws[1..]);
      Le32RoundTrip(ws[0]);
      WordsRoundTrip(ws[1..]);
    }
  }

  lemma FrameOfEncoding(p: seq<byte>, rest: seq<byte>)
    requires 1 <= |p| <= MAX_TOTAL_PAYLOAD
    ensures FrameFront(Le16(|p|) + p + rest) == Front([Transmit(p)], rest)
  {
  }

  lemma ConfigOfEncoding(b: seq<byte>, rest: seq<byte>)
    requires |b| == 15 || |b| == 17
    ensures ConfigFront(Le16(|b|) + b + rest) == Front([Configure(b)], rest)
  {
  }

  lemma WindowOfEncoding(o: u32, p: u32, rest: seq<byte>)
    ensures WindowFront(Le32(o) + Le32(p) + rest) == Front([SetWindow(o, p)], rest)
  {
    var s := Le32(o) + Le32(p) + rest;
    Le32RoundTrip(o);
    Le32RoundTrip(p);
    assert s[..4] == Le32(o) && s[4..8] == Le32(p) && s[8..] == rest;
  }

  lemma ScanSlices(c: byte, d: seq<byte>, w: seq<byte>, rest: seq<byte>)
    requires |d| == 4
    ensures var s := [c] + d + w + rest;
            s[0] == c && s[1..5] == d && s[5..5 + |w|] == w && s[5 + |w|..] == rest
  {
  }

  lemma ScanOfParts(c: byte, d: seq<byte>, w: seq<byte>, rest: seq<byte>)
    requires 1 <= c <= 16 && |d| == 4 && |w| == 4 * c
    ensures ScanFront([c] + d + w + rest) == Front([Scan(FromLe32(d), Words(w))], rest)
  {
    hide Words, FromLe32;
    ScanSlices(c, d, w, rest);
  }

  lemma ScanOfEncoding(d: u32, freqs: seq<u32>, rest: seq<byte>)
    requires 1 <= |freqs| <= 16
    ensures ScanFront([|freqs|] + Le32(d) + WordBytes(freqs) + rest) == Front([Scan(d, freqs)], rest)
  {
    hide Words, WordBytes, Le32, FromLe32, ScanFront;
    Le32RoundTrip(d);
    WordsRoundTrip(freqs);
    ScanOfParts(|freqs|, Le32(d), WordBytes(freqs), rest);
  }

  /** The grammar reads a command's encoding back, whatever follows it. */
  lemma FrontOfEncoding(c: Event, rest: seq<byte>)
    requires Sendable(c)
    ensures Encode(c) + rest != []
    ensures CommandFront(Encode(c) + rest) == Front([c], rest)
  {
    hide FrameFront, ConfigFront, WindowFront, ScanFront, Le16, Le32, WordBytes, Words;
    var s := Encode(c) + rest;
    assert s == Lead(c) + (Fields(c) + rest);
    Cut(Lead(c), Fields(c) + rest);
    match c
    case Transmit(p) => FrameOfEncoding(p, rest);
    case Configure(b) => ConfigOfEncoding(b, rest);
    case SetWindow(o, p) => WindowOfEncoding(o, p, rest);
    case Scan(d, freqs) => ScanOfEncoding(d, freqs, rest);
    case StatsRequest => assert Fields(c) + rest == rest;
    case Reset => assert Fields(c) + rest == rest;
  }

  lemma {:induction false} ParseEncodeAll(cs: seq<Event>)
    requires AllSendable(cs)
    ensures Parse(EncodeAll(cs)) == cs
  {
    if cs != [] {
      assert cs[0] in cs && forall c :: c in cs[1..] ==> c in cs;
      FrontOfEncoding(cs[0], EncodeAll(cs[1..]));
      ParseEncodeAll(cs[1..]);
    }
  }

  /** An oversized frame is reported once and swallows exactly its announced length. */
  lemma OversizedFrameIsDrained(n: u16, junk: seq<byte>, rest: seq<byte>)
    requires MAX_TOTAL_PAYLOAD < n && |junk| == n
    ensures Parse([T, X] + Le16(n) + junk + rest) == [BadTxLen] + Parse(rest)
  {
  }

  // ----- the parser on a whole string -----

  function Feed(s: Parser, x: seq<byte>): (r: (Parser, seq<Event>))
    requires s.Valid()
    ensures r.0.Valid() && r.0.last == s.last && r.0.killed == s.killed
    decreases |x|
  {
    if x == [] then (s, []) else
      var (t, e) := Consume(s, x[0]);
      var (u, es) := Feed(t, x[1..]);
      (u, e + es)
  }

  /** Between commands. */
  ghost predicate Resting(s: Parser) {
    s.Valid() && s.phase == Tag && s.skip == 0
  }

  lemma {:induction false} FeedConcat(s: Parser, x: seq<byte>, y: seq<byte>)
    requires s.Valid()
    ensures Feed(s, x + y).0 == Feed(Feed(s, x).0, y).0
    ensures Feed(s, x + y).1 == Feed(s, x).1 + Feed(Feed(s, x).0, y).1
    decreases |x|
  {
    hide Consume;
    if x == [] {
      assert x + y == y;
    } else {
      assert (x + y)[1..] == x[1..] + y;
      FeedConcat(Consume(s, x[0]).0, x[1..], y);
    }
  }

  lemma {:induction false} CollectPart(s: Parser, x: seq<byte>)
    requires s.Valid() && s.InBody() && |s.body| + |x| < s.Need()
    ensures Feed(s, x).0 == s.(body := s.body + x) && Feed(s, x).1 == []
    decreases |x|
  {
    if x == [] {
      assert s.body + x == s.body;
    } else {
      var u := s.(body := s.body + [x[0]]);
      assert Consume(s, x[0]) == (u, []);
      hide Consume;
      CollectPart(u, x[1..]);
      assert u.body + x[1..] == s.body + x;
      assert Feed(s, x).1 == [] + Feed(u, x[1..]).1;
    }
  }

  /** A body is collected byte by byte and dispatched by its last byte, which brings
      the parser to rest in `t`. */
  lemma Collect(s: Parser, x: seq<byte>) returns (t: Parser)
    requires s.Valid() && s.InBody()
    ensures Resting(t)
    ensures var k := s.Need() - |s.body|;
            Feed(s, x).1 == if |x| < k then [] else [Finish(s.phase, s.body + x[..k])] + Feed(t, x[k..]).1
  {
    hide FromLe32, Words, Finish;
    t := INITIAL;
    var k := s.Need() - |s.body|;
    if |x| < k {
      CollectPart(s, x);
    } else {
      CollectPart(s, x[..k - 1]);
      var u := s.(body := s.body + x[..k - 1]);
      t := Consume(u, x[k - 1]).0;
      assert x == x[..k - 1] + x[k - 1..] && x[k - 1..][1..] == x[k..];
      FeedConcat(s, x[..k - 1], x[k - 1..]);
      assert u.body + [x[k - 1]] == s.body + x[..k];
    }
  }

  lemma {:induction false} Drain(s: Parser, x: seq<byte>)
    requires s.Valid() && s.phase == Tag
    ensures Feed(s, x).1 == Feed(s.(skip := 0), Drop(x, s.skip)).1
    decreases |x|
  {
    if s.skip > 0 && x != [] {
      Drain(s.(skip := s.skip - 1), x[1..]);
      assert Drop(x[1..], s.skip - 1) == Drop(x, s.skip);
    }
  }

  /** The two length bytes lead to the state `t`, with the event `e` if they are bad. */
  lemma LengthBytes(s: Parser, x: seq<byte>) returns (t: Parser, e: seq<Event>)
    requires s.Valid() && s.phase == LenLo
    ensures |x| < 2 ==> Feed(s, x).1 == []
    ensures |x| >= 2 ==>
              var n := FromLe16(x[..2]);
              && t.Valid() && t.body == [] && t.frameLen == n && Feed(s, x).1 == e + Feed(t, x[2..]).1
              && (if s.tag == C then
                    if n != 15 && n != 17 then t.phase == Tag && t.skip == 0 && e == [BadConfigLen]
                    else t.phase == Config && e == []
                  else
                    if n == 0 || n > MAX_TOTAL_PAYLOAD then t.phase == Tag && t.skip == n && e == [BadTxLen]
                    else t.phase == Payload && e == [])
  {
    t, e := s, [];
    if |x| >= 1 {
      var u := Consume(s, x[0]).0;
      assert Feed(s, x).1 == Feed(u, x[1..]).1;
      if |x| >= 2 {
        t, e := Consume(u, x[1]).0, Consume(u, x[1]).1;
        assert x[1..][1..] == x[2..];
      }
    }
  }

  lemma FeedFrame(s: Parser, x: seq<byte>) returns (t: Parser)
    requires s.Valid() && s.phase == LenLo && s.tag == T
    ensures Resting(t) && Feed(s, x).1 == FrameFront(x).events + Feed(t, FrameFront(x).rest).1
  {
    hide Consume, Feed, FromLe16;
    var u, e := LengthBytes(s, x);
    t := INITIAL;
    FeedNothing(t);
    if |x| >= 2 {
      var n, y := FromLe16(x[..2]), x[2..];
      if 1 <= n <= MAX_TOTAL_PAYLOAD {
        t := Collect(u, y);
        FeedNothing(t);
        if |y| >= n {
          CutMiddle(x, 2, n);
          assert u.body + y[..n] == y[..n];
        }
      } else {
        Drain(u, y);
        t := u.(skip := 0);
      }
    }
  }

  lemma FeedNothing(s: Parser)
    requires s.Valid()
    ensures Feed(s, []) == (s, [])
  {
  }

  lemma FeedConfig(s: Parser, x: seq<byte>) returns (t: Parser)
    requires s.Valid() && s.phase == LenLo && s.tag == C
    ensures Resting(t) && Feed(s, x).1 == ConfigFront(x).events + Feed(t, ConfigFront(x).rest).1
  {
    hide Consume, Feed, FromLe16;
    var u, e := LengthBytes(s, x);
    t := INITIAL;
    FeedNothing(t);
    if |x| >= 2 {
      var n, y := FromLe16(x[..2]), x[2..];
      if n == 15 || n == 17 {
        t := Collect(u, y);
        FeedNothing(t);
        if |y| >= n {
          CutMiddle(x, 2, n);
          assert u.body + y[..n] == y[..n];
        }
      } else {
        t := u;
      }
    }
  }

  lemma FeedWindow(s: Parser, x: seq<byte>) returns (t: Parser)
    requires s.Valid() && s.phase == Window && s.body == []
    ensures Resting(t) && Feed(s, x).1 == WindowFront(x).events + Feed(t, WindowFront(x).rest).1
  {
    hide Consume, Feed, FromLe32;
    t := Collect(s, x);
    FeedNothing(t);
    if |x| >= 8 {
      assert s.body + x[..8] == x[..8];
      SliceOfTake(x, 8, 0, 4);
      SliceOfTake(x, 8, 4, 8);
    }
  }

  lemma FeedScanBody(s: Parser, x: seq<byte>) returns (t: Parser)
    requires s.Valid() && s.phase == ScanBody && s.body == [] && x != [] && s.scanCount == x[0]
    ensures Resting(t) && Feed(s, x[1..]).1 == ScanFront(x).events + Feed(t, ScanFront(x).rest).1
  {
    hide Consume, Feed, FromLe32, Words;
    var y, n := x[1..], 4 + 4 * x[0] as nat;
    t := Collect(s, y);
    FeedNothing(t);
    if |y| >= n {
      assert s.body + y[..n] == y[..n];
      SliceOfTake(y, n, 0, 4);
      SliceOfTake(y, n, 4, n);
      assert y[0..4] == x[1..5] && y[4..n] == x[5..n + 1] && y[n..] == x[n + 1..];
    }
  }

  lemma FeedScan(s: Parser, x: seq<byte>) returns (t: Parser)
    requires s.Valid() && s.phase == ScanCount
    ensures Resting(t) && Feed(s, x).1 == ScanFront(x).events + Feed(t, ScanFront(x).rest).1
  {
    hide FromLe32, Words;
    t := INITIAL;
    if |x| >= 1 {
      var u := Consume(s, x[0]).0;
      assert Feed(s, x).1 == Feed(u, x[1..]).1;
      if 1 <= x[0] <= 16 {
        t := FeedScanBody(u, x);
      } else {
        t := u;
      }
    }
  }

  lemma FeedCommand(s: Parser, x: seq<byte>) returns (t: Parser)
    requires Resting(s) && x != []
    ensures Resting(t) && Feed(s, x).1 == CommandFront(x).events + Feed(t, CommandFront(x).rest).1
  {
    var (u, e) := Consume(s, x[0]);
    assert Feed(s, x).1 == e + Feed(u, x[1..]).1;
    t := u;
    if x[0] == T {
      t := INITIAL;
      if |x| >= 2 {
        var v := Consume(u, x[1]).0;
        assert x[1..][1..] == x[2..];
        assert Feed(u, x[1..]).1 == Feed(v, x[2..]).1;
        t := v;
        if x[1] == X {
          t := FeedFrame(v, x[2..]);
        }
      }
    } else if x[0] == C {
      t := FeedConfig(u, x[1..]);
    } else if x[0] == W {
      t := FeedWindow(u, x[1..]);
    } else if x[0] == Q {
      t := FeedScan(u, x[1..]);
    }
  }

  /** From rest, the parser yields exactly what the grammar yields, on any bytes. */
  lemma {:induction false} FeedMeetsGrammar(s: Parser, x: seq<byte>)
    requires Resting(s)
    ensures Feed(s, x).1 == Parse(x)
    decreases |x|
  {
    if x != [] {
      var t := FeedCommand(s, x);
      FeedMeetsGrammar(t, CommandFront(x).rest);
    }
  }

  lemma {:induction false} EncodeAllThenStats(cs: seq<Event>)
    requires AllSendable(cs)
    ensures AllSendable(cs + [StatsRequest])
    ensures EncodeAll(cs + [StatsRequest]) == EncodeAll(cs) + [S]
  {
    if cs == [] {
      assert cs + [StatsRequest] == [StatsRequest];
      assert EncodeAll([StatsRequest]) == Encode(StatsRequest) + EncodeAll([]);
    } else {
      assert cs[0] in cs && forall c :: c in cs[1..] ==> c in cs;
      EncodeAllThenStats(cs[1..]);
      assert (cs + [StatsRequest])[1..] == cs[1..] + [StatsRequest];
    }
  }

  /** Any list of commands sent back to back is dispatched command by command, and
      leaves the parser at rest. */
  lemma CommandListIsDispatched(s: Parser, cs: seq<Event>)
    requires Resting(s) && AllSendable(cs)
    ensures Feed(s, EncodeAll(cs)).1 == cs && Resting(Feed(s, EncodeAll(cs)).0)
  {
    var x := EncodeAll(cs);
    FeedMeetsGrammar(s, x);
    ParseEncodeAll(cs);
    // A parser that answers a following stats request was at rest.
    EncodeAllThenStats(cs);
    FeedMeetsGrammar(s, x + [S]);
    ParseEncodeAll(cs + [StatsRequest]);
    FeedConcat(s, x, [S]);
    var t := Feed(s, x).0;
    assert cs + Feed(t, [S]).1 == cs + [StatsRequest];
    assert Feed(t, [S]).1 == (cs + Feed(t, [S]).1)[|cs|..] == [StatsRequest];
    OnlyRestAnswersStats(t);
  }

  lemma OnlyRestAnswersStats(t: Parser)
    requires t.Valid() && Feed(t, [S]).1 == [StatsRequest]
    ensures Resting(t)
  {
    hide Words, FromLe32;
    StepOne(t);
    StatsEventNeedsRest(t);
  }

  lemma StepOne(t: Parser)
    requires t.Valid()
    ensures Feed(t, [S]).1 == Consume(t, S).1
  {
  }

  lemma StatsEventNeedsRest(t: Parser)
    requires t.Valid() && Consume(t, S).1 == [StatsRequest]
    ensures Resting(t)
  {
  }

  // ----- arrival times -----

  /** A byte and the (unbounded) millisecond at which it arrives. */
  datatype Arrival = Arrival(value: byte, at: nat)

  function Values(a: seq<Arrival>): seq<byte> {
    if a == [] then [] else [a[0].value] + Values(a[1..])
  }

  /** Each byte comes at most 100 ms after the one before, the first after `last`. */
  ghost predicate Steady(last: nat, a: seq<Arrival>)
    decreases |a|
  {
    a == [] || (last <= a[0].at <= last + IDLE_MS && Steady(a[0].at, a[1..]))
  }

  /** The parser on timed bytes; the code sees each time modulo 2^32. */
  function Run(s: Parser, a: seq<Arrival>): (r: (Parser, seq<Event>))
    requires s.Valid()
    ensures r.0.Valid()
    decreases |a|
  {
    if a == [] then (s, []) else
      var (t, e) := Step(s, a[0].value, U32(a[0].at));
      var (u, es) := Run(t, a[1..]);
      (u, e + es)
  }

  /** Every reachable state keeps each write index inside its buffer. */
  lemma ReachableStatesAreValid(a: seq<Arrival>)
    ensures var s := Run(INITIAL, a).0;
            && (s.phase == Window ==> |s.body| < 8)
            && (s.phase == Config ==> |s.body| < 17)
            && (s.phase == Payload ==> |s.body| < MAX_TOTAL_PAYLOAD)
            && (s.phase == ScanBody ==> |s.body| < 68)
            && (s.phase == LenLo || s.phase == LenHi ==> s.tag == C || s.tag == T)
  {
  }

  lemma {:induction false} FeedIgnoresClock(s: Parser, n: u32, k: u32, x: seq<byte>)
    requires s.Valid()
    ensures s.(last := n, killed := k).Valid()
    ensures Feed(s.(last := n, killed := k), x).0 == Feed(s, x).0.(last := n, killed := k)
    ensures Feed(s.(last := n, killed := k), x).1 == Feed(s, x).1
    decreases |x|
  {
    if x != [] {
      ConsumeIgnoresClock(s, n, k, x[0]);
      hide Consume;
      FeedIgnoresClock(Consume(s, x[0]).0, n, k, x[1..]);
    }
  }

  lemma ConsumeIgnoresClock(s: Parser, n: u32, k: u32, b: byte)
    requires s.Valid()
    ensures s.(last := n, killed := k).Valid()
    ensures Consume(s.(last := n, killed := k), b).0 == Consume(s, b).0.(last := n, killed := k)
    ensures Consume(s.(last := n, killed := k), b).1 == Consume(s, b).1
  {
  }

  /** Without gaps the clock does not matter, wherever it wraps. */
  lemma {:induction false} SteadyRunIsFeed(s: Parser, a: seq<Arrival>, last: nat)
    requires s.Valid() && s.last == U32(last) && Steady(last, a)
    ensures Run(s, a).1 == Feed(s, Values(a)).1
    ensures Run(s, a).0 == Feed(s, Values(a)).0.(last := Run(s, a).0.last)
    decreases |a|
  {
    hide Consume;
    if a != [] {
      var n := U32(a[0].at);
      assert U32(n - s.last) == a[0].at - last by { GapIsReal(a[0].at, last); }
      var t := s.(last := n);
      FeedIgnoresClock(s, n, s.killed, Values(a));
      SteadyRunIsFeed(Consume(t, a[0].value).0, a[1..], a[0].at);
      assert Values(a)[1..] == Values(a[1..]);
    }
  }

  lemma GapIsReal(now: nat, last: nat)
    requires 0 <= now - last < TWO_32
    ensures U32(U32(now) - U32(last)) == now - last
  {
  }

  /** On any byte string without a gap, garbage included, the timed parser yields
      exactly the commands and errors of the grammar. */
  lemma StreamMeetsGrammar(s: Parser, a: seq<Arrival>)
    requires Resting(s) && a != [] && Steady(a[0].at, a[1..])
    ensures Run(s, a).1 == Parse(Values(a)) && Run(s, a).0.killed == s.killed
  {
    hide Consume;
    var t := s.(last := U32(a[0].at));
    assert Run(s, a) == Run(t, a);
    SteadyRunIsFeed(t, a, a[0].at);
    FeedMeetsGrammar(t, Values(a));
  }

  /** Bytes written at the times `written` are read in order, each at most `delay` ms later. */
  ghost predicate ReadWithin(a: seq<Arrival>, written: seq<nat>, delay: nat) {
    && |a| == |written|
    && (forall i :: 0 <= i < |a| ==> written[i] <= a[i].at <= written[i] + delay)
    && forall i, j :: 0 <= i < j < |a| ==> a[i].at <= a[j].at
  }

  /** The host leaves at most `gap` ms between two bytes. */
  ghost predicate Spaced(written: seq<nat>, gap: nat) {
    forall i, j :: 0 <= i && j == i + 1 < |written| ==> written[i] <= written[j] <= written[i] + gap
  }

  lemma {:induction false} SteadyByPairs(a: seq<Arrival>)
    requires a != [] && forall i, j :: 0 <= i && j == i + 1 < |a| ==> a[i].at <= a[j].at <= a[i].at + IDLE_MS
    ensures Steady(a[0].at, a[1..])
    decreases |a|
  {
    if |a| > 1 {
      SteadyByPairs(a[1..]);
      assert a[1..][0] == a[1];
    }
  }

  /** Whatever bytes the host writes and whenever the server looks, no gap is seen, if and
      only if the host's longest gap and the longest time a byte may lie unread add up to
      at most 100 ms. In the thermal cutoff the service sleeps 250 ms a turn, so no host is
      steady enough then. */
  lemma SteadyIfPolledInTime(gap: nat, delay: nat)
    ensures (forall a: seq<Arrival>, written: seq<nat> ::
               a != [] && Spaced(written, gap) && ReadWithin(a, written, delay) ==> Steady(a[0].at, a[1..]))
            <==> gap + delay <= IDLE_MS
  {
    if gap + delay <= IDLE_MS {
      forall a: seq<Arrival>, written: seq<nat> | a != [] && Spaced(written, gap) && ReadWithin(a, written, delay)
        ensures Steady(a[0].at, a[1..])
      {
        SteadyByPairs(a);
      }
    } else {
      var a, written := [Arrival(0, 0), Arrival(0, gap + delay)], [0, gap];
      assert Spaced(written, gap) && ReadWithin(a, written, delay);
      assert a[1..] == [Arrival(0, gap + delay)];
      assert !Steady(a[0].at, a[1..]);
    }
  }

  /** From any valid state a gap of more than 100 ms (and less than 2^32 ms) puts the
      parser back in step: what follows is read by the grammar alone, and the killed
      counter rises by one exactly when a length or a body was cut short. */
  lemma GapResynchronises(s: Parser, a: seq<Arrival>, last: nat)
    requires s.Valid() && s.last == U32(last)
    requires a != [] && IDLE_MS < a[0].at - last < TWO_32 && Steady(a[0].at, a[1..])
    ensures Run(s, a).1 == Parse(Values(a))
    ensures Run(s, a).0.killed ==
            if s.phase == Payload || s.phase == Config || s.phase == Window || s.phase == LenHi
            then U32(s.killed + 1) else s.killed
  {
    hide Consume;
    GapIsReal(a[0].at, last);
    var t := Resync(s, U32(a[0].at)).(last := U32(a[0].at));
    assert Run(s, a) == Run(t, a);
    StreamMeetsGrammar(t, a);
  }

  /** In particular a well-formed command after the gap is dispatched. */
  lemma GapThenCommandIsDispatched(s: Parser, a: seq<Arrival>, last: nat, c: Event)
    requires s.Valid() && s.last == U32(last) && Sendable(c)
    requires a != [] && IDLE_MS < a[0].at - last < TWO_32 && Steady(a[0].at, a[1..])
    requires Values(a) == Encode(c)
    ensures Run(s, a).1 == [c]
  {
    GapResynchronises(s, a, last);
    FrontOfEncoding(c, []);
    assert Encode(c) + [] == Encode(c);
  }
}
