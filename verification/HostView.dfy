/** What a host that reads the documented frame formats makes of the service's bytes, the
    bare 'G' of a reset included. */
module HostView {
  import opened Bytes
  import opened DeviceFrames
  import opened ServiceSpec

  /** The frames of the notes. */
  function FramesTold(notes: seq<Note>): seq<Frame> {
    if notes == [] then [] else
      var n := |notes| - 1;
      FramesTold(notes[..n]) + if notes[n].Told? then [notes[n].frame] else []
  }

  // ----- resets -----

  const DOUBLE_G: u16 := 0x4747

  function Resets(notes: seq<Note>): nat {
    if notes == [] then 0 else Resets(notes[..|notes| - 1]) + if notes[|notes| - 1].BareReset? then 1 else 0
  }

  /** At most two resets, and after the first nothing but resets and frames that look like
      three of them. */
  ghost predicate ResetsLast(notes: seq<Note>) {
    && Resets(notes) <= 2
    && forall i, j :: 0 <= i < j < |notes| && notes[i].BareReset? && notes[j].Told? ==>
         notes[j].frame == Ready(DOUBLE_G)
  }

  ghost predicate OnlyDoubleG(notes: seq<Note>) {
    forall i :: 0 <= i < |notes| && notes[i].Told? ==> notes[i].frame == Ready(DOUBLE_G)
  }

  function Gs(n: nat): (s: seq<byte>)
    ensures |s| == n
  {
    seq(n, _ => G)
  }

  lemma {:induction false} ResetsConcat(a: seq<Note>, b: seq<Note>)
    ensures Resets(a + b) == Resets(a) + Resets(b)
    ensures FramesTold(a + b) == FramesTold(a) + FramesTold(b)
  {
    if b == [] {
      assert a + b == a;
    } else {
      LastOfConcat(a, b);
      ResetsConcat(a, b[..|b| - 1]);
    }
  }

  /** The first note, apart from the rest. */
  lemma FirstNote(notes: seq<Note>)
    requires notes != [] && AllTellable(notes)
    ensures AllTellable(notes[1..]) && Stream(notes) == NoteBytes(notes[0]) + Stream(notes[1..])
    ensures Resets(notes) == Resets(notes[1..]) + if notes[0].BareReset? then 1 else 0
    ensures FramesTold(notes) == (if notes[0].Told? then [notes[0].frame] else []) + FramesTold(notes[1..])
  {
    hide NoteBytes, Tellable;
    assert notes == notes[..1] + notes[1..];
    ResetsConcat(notes[..1], notes[1..]);
    assert AllTellable(notes[..1]) && AllTellable(notes[1..]);
    StreamConcat(notes[..1], notes[1..]);
    assert notes[..1] == [notes[0]];
    StreamOfOne(notes[0]);
    OneNote(notes[0]);
  }

  lemma OneNote(n: Note)
    ensures Resets([n]) == (if n.BareReset? then 1 else 0)
    ensures FramesTold([n]) == (if n.Told? then [n.frame] else [])
  {
    assert [n][..0] == [];
  }

  /** After `k` stray 'G' bytes another frame is misread. */
  lemma StrayGMisreads(k: nat, f: Frame, rest: seq<byte>)
    requires k > 0 && Writable(f) && f != Ready(DOUBLE_G)
    ensures var r := ReadFront(Gs(k) + (DeviceFrames.Encode(f) + rest));
            r.Some? && r.value.frame != f
  {
    var e := DeviceFrames.Encode(f);
    assert |e| >= 3;
    var s := Gs(k) + (e + rest);
    assert s[0] == G;
    assert s[1] == (if k == 1 then e[0] else G) && s[2] == (if k == 1 then e[1] else if k == 2 then e[0] else G);
  }

  /** Stray 'G' bytes before a frame of 'G' bytes are as good as after it. */
  lemma StrayGPasses(k: nat, rest: seq<byte>)
    ensures ReadAll(Gs(k) + (DeviceFrames.Encode(Ready(DOUBLE_G)) + rest)) == [Ready(DOUBLE_G)] + ReadAll(Gs(k) + rest)
  {
    var e := DeviceFrames.Encode(Ready(DOUBLE_G));
    assert e == [G, G, G];
    assert Gs(k) + (e + rest) == e + (Gs(k) + rest);
    hide ReadFront, DeviceFrames.Encode;
    FrontReadsBack(Ready(DOUBLE_G), Gs(k) + rest);
  }

  lemma StrayGsAlone(k: nat)
    ensures ReadAll(Gs(k)) == [] <==> k <= 2
  {
  }

  /** What follows a reset, `k` stray 'G' bytes being unread, is read back if and only if it
      adds up to at most two of them and no other frame follows. */
  lemma {:induction false} AfterReset(k: nat, notes: seq<Note>)
    requires k > 0 && AllTellable(notes)
    ensures ReadAll(Gs(k) + Stream(notes)) == FramesTold(notes) <==> k + Resets(notes) <= 2 && OnlyDoubleG(notes)
    decreases |notes|
  {
    hide ReadAll, Tellable, Writable, DeviceFrames.Encode;
    if notes == [] {
      StrayGsAlone(k);
      assert Gs(k) + Stream([]) == Gs(k);
    } else {
      FirstNote(notes);
      var n, rest := notes[0], notes[1..];
      hide Stream, FramesTold, Resets;
      assert OnlyDoubleG(notes) <==> (n.Told? ==> n.frame == Ready(DOUBLE_G)) && OnlyDoubleG(rest) by {
        assert forall i :: 0 < i < |notes| ==> notes[i] == rest[i - 1];
        assert forall i :: 0 <= i < |rest| ==> rest[i] == notes[i + 1];
      }
      if n.BareReset? {
        assert Gs(k) + ([G] + Stream(rest)) == Gs(k + 1) + Stream(rest);
        AfterReset(k + 1, rest);
        assert [] + FramesTold(rest) == FramesTold(rest);
      } else if n.frame == Ready(DOUBLE_G) {
        StrayGPasses(k, Stream(rest));
        AfterReset(k, rest);
        SameTail(n.frame, ReadAll(Gs(k) + Stream(rest)), FramesTold(rest));
      } else {
        FirstFrameDiffers(k, n, rest, FramesTold(rest));
      }
    }
  }

  lemma SameTail<A>(x: A, a: seq<A>, b: seq<A>)
    ensures [x] + a == [x] + b <==> a == b
  {
    assert ([x] + a)[1..] == a && ([x] + b)[1..] == b;
  }

  lemma FirstFrameDiffers(k: nat, n: Note, rest: seq<Note>, fs: seq<Frame>)
    requires k > 0 && n.Told? && Tellable(n) && n.frame != Ready(DOUBLE_G) && AllTellable(rest)
    ensures ReadAll(Gs(k) + (NoteBytes(n) + Stream(rest))) != [n.frame] + fs
  {
    hide ReadFront, DeviceFrames.Encode, Stream;
    StrayGMisreads(k, n.frame, Stream(rest));
    var s := Gs(k) + (NoteBytes(n) + Stream(rest));
    assert ReadAll(s)[0] == ReadFront(s).value.frame;
    assert ([n.frame] + fs)[0] == n.frame;
  }

  /** A reader of the documented formats recovers exactly the frames told, if and only if
      there are at most two resets and nothing but the likes of them after the first. */
  lemma {:induction false} StreamIsReadExactly(notes: seq<Note>)
    requires AllTellable(notes)
    ensures ReadAll(Stream(notes)) == FramesTold(notes) <==> ResetsLast(notes)
    decreases |notes|
  {
    hide ReadAll, Tellable, Writable, DeviceFrames.Encode, ReadFront, OnlyDoubleG;
    if notes == [] {
      StrayGsAlone(0);
      assert Gs(0) == [];
    } else {
      FirstNote(notes);
      var n, rest := notes[0], notes[1..];
      hide Stream, FramesTold, Resets;
      ResetsLastFirst(notes);
      if n.BareReset? {
        assert Gs(1) == [G];
        AfterReset(1, rest);
        assert [] + FramesTold(rest) == FramesTold(rest);
      } else {
        FrameFirstRead(n, Stream(rest));
        StreamIsReadExactly(rest);
        SameTail(n.frame, ReadAll(Stream(rest)), FramesTold(rest));
      }
    }
  }

  lemma FrameFirstRead(n: Note, rest: seq<byte>)
    requires n.Told? && Tellable(n)
    ensures ReadAll(NoteBytes(n) + rest) == [n.frame] + ReadAll(rest)
  {
    hide ReadFront, DeviceFrames.Encode;
    FrontReadsBack(n.frame, rest);
  }

  lemma ResetsLastFirst(notes: seq<Note>)
    requires notes != []
    requires Resets(notes) == Resets(notes[1..]) + if notes[0].BareReset? then 1 else 0
    ensures notes[0].BareReset? ==> (ResetsLast(notes) <==> 1 + Resets(notes[1..]) <= 2 && OnlyDoubleG(notes[1..]))
    ensures notes[0].Told? ==> (ResetsLast(notes) <==> ResetsLast(notes[1..]))
  {
    hide Resets;
    var rest := notes[1..];
    assert forall i :: 0 < i < |notes| ==> notes[i] == rest[i - 1];
    assert forall i :: 0 <= i < |rest| ==> rest[i] == notes[i + 1];
  }
}
