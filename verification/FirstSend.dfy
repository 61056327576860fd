/**
 * Exactly when the whole first image is right. Which bytes a send copies depends on what the FPGA writes in between, so
 * the answer is given for an interleaving over all contents of its writes.
 */
module FirstSend {
  import opened RingGeometry
  import opened RingProtocol
  import opened BoundedQueue
  import opened Station
  import opened StationTheorems
  import opened FirstImages

  /** The main thread does nothing but copy. */
  predicate OnlyCopies(es: seq<Event>) {
    forall e :: e in es && IsMain(e) ==> e == CopyByte
  }

  /** The same interleaving, but for what is written. */
  predicate SameShape(g: Geometry, es: seq<Event>, fs: seq<Event>) {
    && |fs| == |es|
    && forall i :: 0 <= i < |es| ==>
         if es[i].Write? then fs[i].Write? && |fs[i].contents| == g.dataSize else fs[i] == es[i]
  }

  /** The FPGA writes to the slot being sent and a byte is copied after that. */
  predicate Disturbed(g: Geometry, s: State, es: seq<Event>)
    requires SlotsInRange(g, s)
    decreases |es|
  {
    && es != []
    && Next(g, s, es[0]).Some?
    && (|| (es[0].Write? && s.ring.fpgaSlot == s.ring.position && CopyByte in es[1..])
        || Disturbed(g, Next(g, s, es[0]).value, es[1..]))
  }

  /** The copy goes on to the end of the interleaving and is an initial part of the frame. */
  predicate CopiesRight(g: Geometry, s: State, es: seq<Event>, frame: Frame)
    requires SlotsInRange(g, s)
  {
    var out := Exec(g, s, es);
    out.Some? && out.value.phase.Copying? && out.value.phase.copied <= frame
  }

  lemma RestOnlyCopies(es: seq<Event>)
    requires OnlyCopies(es) && es != []
    ensures OnlyCopies(es[1..]) && (IsMain(es[0]) ==> es[0] == CopyByte)
    ensures CopyByte in es[1..] ==> CopyByte in es
    ensures es[0] != CopyByte && CopyByte in es ==> CopyByte in es[1..]
  {
    assert es[0] in es && forall e :: e in es[1..] ==> e in es;
  }

  // ----- undisturbed -----

  lemma CopyStep(g: Geometry, s: State, e: Event, s': State)
    requires SlotsInRange(g, s) && s.phase.Copying? && (IsMain(e) ==> e == CopyByte) && Next(g, s, e) == Some(s')
    ensures s'.phase.Copying? && s'.ring.position == s.ring.position
    ensures if e == CopyByte then |s.phase.copied| < |s.ring.slots[s.ring.position]|
                && s'.phase.copied == s.phase.copied + [s.ring.slots[s.ring.position][|s.phase.copied|]]
            else s'.phase.copied == s.phase.copied
    ensures s'.ring.slots[s.ring.position] ==
            if e.Write? && s.ring.fpgaSlot == s.ring.position then e.contents else s.ring.slots[s.ring.position]
  {
  }

  lemma {:induction false} UndisturbedIsRight(g: Geometry, s: State, es: seq<Event>, frame: Frame)
    requires SlotsInRange(g, s) && s.phase.Copying? && OnlyCopies(es) && Exec(g, s, es).Some? && !Disturbed(g, s, es)
    requires s.phase.copied <= frame && (CopyByte in es ==> s.ring.slots[s.ring.position] == frame)
    ensures CopiesRight(g, s, es, frame)
    decreases |es|
  {
    if es != [] {
      var s' := Next(g, s, es[0]).value;
      RestOnlyCopies(es);
      CopyStep(g, s, es[0], s');
      UndisturbedIsRight(g, s', es[1..], frame);
    }
  }

  // ----- disturbed -----

  /** Two states of a send that differ in nothing but contents. */
  ghost predicate Alike(g: Geometry, s: State, t: State) {
    && SlotsInRange(g, s) && SlotsInRange(g, t)
    && s.phase.Copying? && t.phase.Copying? && |s.phase.copied| == |t.phase.copied|
    && s.ring.fpgaSlot == t.ring.fpgaSlot && s.ring.position == t.ring.position
    && s.ring.linuxPointer == t.ring.linuxPointer && s.acceptPending == t.acceptPending
    && (forall k :: 0 <= k < g.length ==> |s.ring.slots[k]| == |t.ring.slots[k]| == g.dataSize)
  }

  lemma StepAlike(g: Geometry, s: State, e: Event, t: State, f: Event)
    requires Alike(g, s, t) && (IsMain(e) ==> e == CopyByte) && Next(g, s, e).Some?
    requires if e.Write? then f.Write? && |f.contents| == g.dataSize else f == e
    ensures Next(g, t, f).Some? && Alike(g, Next(g, s, e).value, Next(g, t, f).value)
  {
  }

  lemma RestSameShape(g: Geometry, es: seq<Event>, fs: seq<Event>)
    requires SameShape(g, es, fs) && es != []
    ensures SameShape(g, es[1..], fs[1..])
    ensures CopyByte in es[1..] <==> CopyByte in fs[1..]
  {
    var n := |es| - 1;
    assert forall i :: 0 <= i < n ==> (es[1..][i] == CopyByte <==> fs[1..][i] == CopyByte);
  }

  /** Whether an interleaving can happen and is disturbed does not depend on the contents. */
  lemma {:induction false} RunAlike(g: Geometry, s: State, es: seq<Event>, t: State, fs: seq<Event>)
    requires Alike(g, s, t) && OnlyCopies(es) && Exec(g, s, es).Some? && SameShape(g, es, fs)
    ensures Exec(g, t, fs).Some? && Alike(g, Exec(g, s, es).value, Exec(g, t, fs).value)
    ensures Disturbed(g, t, fs) <==> Disturbed(g, s, es)
    decreases |es|
  {
    if es != [] {
      RestOnlyCopies(es);
      RestSameShape(g, es, fs);
      StepAlike(g, s, es[0], t, fs[0]);
      RunAlike(g, Next(g, s, es[0]).value, es[1..], Next(g, t, fs[0]).value, fs[1..]);
    }
  }

  lemma SameShapeOnlyCopies(g: Geometry, es: seq<Event>, fs: seq<Event>)
    requires SameShape(g, es, fs) && OnlyCopies(es)
    ensures OnlyCopies(fs)
  {
    forall f | f in fs && IsMain(f)
      ensures f == CopyByte
    {
      var i :| 0 <= i < |fs| && fs[i] == f;
      assert es[i] in es;
    }
  }

  predicate WritesOnly(es: seq<Event>, w: Frame) {
    forall e :: e in es && e.Write? ==> e.contents == w
  }

  /** Differs from the frame in every byte. */
  predicate Opposed(w: Frame, frame: Frame) {
    |w| == |frame| && forall k :: 0 <= k < |frame| ==> w[k] != frame[k]
  }

  lemma {:induction false} WrongStaysWrong(g: Geometry, s: State, es: seq<Event>, frame: Frame)
    requires SlotsInRange(g, s) && s.phase.Copying? && OnlyCopies(es) && Exec(g, s, es).Some?
    requires !(s.phase.copied <= frame)
    ensures !CopiesRight(g, s, es, frame)
    decreases |es|
  {
    if es != [] {
      RestOnlyCopies(es);
      CopyStep(g, s, es[0], Next(g, s, es[0]).value);
      WrongStaysWrong(g, Next(g, s, es[0]).value, es[1..], frame);
    }
  }

  lemma {:induction false} SpoiledIsWrong(g: Geometry, s: State, es: seq<Event>, frame: Frame, w: Frame)
    requires SlotsInRange(g, s) && s.phase.Copying? && OnlyCopies(es) && Exec(g, s, es).Some?
    requires WritesOnly(es, w) && Opposed(w, frame) && s.ring.slots[s.ring.position] == w && CopyByte in es
    ensures !CopiesRight(g, s, es, frame)
    decreases |es|
  {
    var s' := Next(g, s, es[0]).value;
    RestOnlyCopies(es);
    assert es[0] in es && forall e :: e in es[1..] ==> e in es;
    CopyStep(g, s, es[0], s');
    if es[0] == CopyByte {
      assert s'.phase.copied[|s.phase.copied|] == w[|s.phase.copied|];
      WrongStaysWrong(g, s', es[1..], frame);
    } else {
      SpoiledIsWrong(g, s', es[1..], frame, w);
    }
  }

  lemma {:induction false} DisturbedIsWrong(g: Geometry, s: State, es: seq<Event>, frame: Frame, w: Frame)
    requires SlotsInRange(g, s) && s.phase.Copying? && OnlyCopies(es) && Exec(g, s, es).Some?
    requires WritesOnly(es, w) && Opposed(w, frame) && Disturbed(g, s, es)
    ensures !CopiesRight(g, s, es, frame)
    decreases |es|
  {
    var s' := Next(g, s, es[0]).value;
    RestOnlyCopies(es);
    assert es[0] in es && forall e :: e in es[1..] ==> e in es;
    CopyStep(g, s, es[0], s');
    if es[0].Write? && s.ring.fpgaSlot == s.ring.position && CopyByte in es[1..] {
      SpoiledIsWrong(g, s', es[1..], frame, w);
    } else {
      DisturbedIsWrong(g, s', es[1..], frame, w);
    }
  }

  function Opposite(frame: Frame): (w: Frame)
    ensures Opposed(w, frame)
  {
    seq(|frame|, k requires 0 <= k < |frame| => Other(frame[k]))
  }

  function Refilled(es: seq<Event>, w: Frame): (fs: seq<Event>)
    ensures WritesOnly(fs, w)
  {
    seq(|es|, i requires 0 <= i < |es| => if es[i].Write? then Write(w) else es[i])
  }

  // ----- exactly when -----

  lemma FirstSendState(g: Geometry, boot: Boot, before: seq<Event>, s: State)
    requires Reaches(g, boot, before, s) && s.ring.releases == 0 && s.phase.Copying?
    requires |s.ring.produced| < s.ring.lap + g.length
    ensures Alike(g, s, s) && 0 <= s.ring.lap < |s.ring.produced| && |s.ring.produced[s.ring.lap]| == g.dataSize
    ensures s.ring.slots[s.ring.position] == s.ring.produced[s.ring.lap] && s.phase.copied <= s.ring.produced[s.ring.lap]
  {
    RunInvariant(g, boot, before);
    LapIsStable(g, s.ring);
  }

  /**
   * From any state of the first send in which the FPGA has not come back to the slot: over all contents of its writes,
   * what an interleaving copies is right if and only if no write to the slot is followed by a copy.
   */
  lemma {:induction false} FirstSendIsRightIff(g: Geometry, boot: Boot, before: seq<Event>, s: State, es: seq<Event>)
    requires Reaches(g, boot, before, s) && s.ring.releases == 0 && s.phase.Copying?
    requires |s.ring.produced| < s.ring.lap + g.length
    requires SlotsInRange(g, s) && OnlyCopies(es) && Exec(g, s, es).Some?
    ensures 0 <= s.ring.lap < |s.ring.produced|
    ensures (forall fs :: SameShape(g, es, fs) ==> CopiesRight(g, s, fs, s.ring.produced[s.ring.lap]))
            <==> !Disturbed(g, s, es)
  {
    FirstSendState(g, boot, before, s);
    var frame := s.ring.produced[s.ring.lap];
    if Disturbed(g, s, es) {
      var fs := Refilled(es, Opposite(frame));
      assert SameShape(g, es, fs);
      RunAlike(g, s, es, s, fs);
      SameShapeOnlyCopies(g, es, fs);
      DisturbedIsWrong(g, s, fs, frame, Opposite(frame));
    } else {
      forall fs | SameShape(g, es, fs)
        ensures CopiesRight(g, s, fs, frame)
      {
        RunAlike(g, s, es, s, fs);
        SameShapeOnlyCopies(g, es, fs);
        UndisturbedIsRight(g, s, fs, frame);
      }
    }
  }

  /** The first send begins with a true test, goes on as `es` says, returns, and its payload is the frame. */
  predicate SendsFrame(g: Geometry, s: State, es: seq<Event>, frame: Frame)
    requires SlotsInRange(g, s)
  {
    var out := Exec(g, s, [Test] + es + [SendDone]);
    && out.Some? && out.value.connections != [] && Current(out.value).payloads != []
    && Current(out.value).payloads[|Current(out.value).payloads| - 1] == frame
  }

  lemma FirstTest(g: Geometry, boot: Boot, before: seq<Event>, s: State) returns (s': State)
    requires Reaches(g, boot, before, s) && s.phase.TestData? && s.attempts == 0
    requires DataAvailable(g, s.ring.position, FpgaPointer(g, s.ring))
    ensures SlotsInRange(g, s) && Next(g, s, Test) == Some(s') && Reaches(g, boot, before + [Test], s')
    ensures s'.phase == Copying([]) && s'.ring.releases == 0 && s'.ring == s.ring.(lap := LapStart(g, s.ring))
    ensures |s'.ring.produced| < s'.ring.lap + g.length
  {
    RunInvariant(g, boot, before);
    TestExact(g, s.ring);
    BegunHolds(g, s.ring);
    ReachesNext(g, boot, before, s, Test);
    s' := Next(g, s, Test).value;
  }

  /** A send that has copied everything returns, and its payload is what was copied. */
  lemma {:induction false} SendReturnsCopied(g: Geometry, boot: Boot, before: seq<Event>, s: State, s1: State, es: seq<Event>, t: State, frame: Frame)
    requires SlotsInRange(g, s) && Reaches(g, boot, before, s) && Next(g, s, Test) == Some(s1)
    requires Exec(g, s1, es) == Some(t) && t.phase.Copying? && |t.phase.copied| == g.dataSize
    ensures SendsFrame(g, s, es, frame) <==> t.phase.copied == frame
  {
    ReachesNext(g, boot, before, s, Test);
    ExecConcat(g, Init(g, boot), before + [Test], es);
    var out := ReturnFrom(g, boot, before + [Test] + es, t);
    assert [Test][1..] == [] && ([Test] + es)[1..] == es;
    assert Exec(g, s, [Test] + es) == Some(t);
    ExecConcat(g, s, [Test] + es, [SendDone]);
    ReachesNext(g, boot, before + [Test] + es, t, SendDone);
    assert [SendDone][1..] == [];
  }

  lemma {:induction false} NotCopyingStays(g: Geometry, s: State, es: seq<Event>)
    requires SlotsInRange(g, s) && !s.phase.Copying? && OnlyCopies(es) && Exec(g, s, es).Some?
    ensures !Exec(g, s, es).value.phase.Copying?
    decreases |es|
  {
    if es != [] {
      RestOnlyCopies(es);
      NotCopyingStays(g, Next(g, s, es[0]).value, es[1..]);
    }
  }

  /** A first send that runs to its return: its test was true, and it copied a whole slot. */
  lemma SendParts(g: Geometry, s: State, es: seq<Event>) returns (t: State)
    requires SlotsInRange(g, s) && OnlyCopies(es) && Exec(g, s, [Test] + es + [SendDone]).Some?
    ensures Next(g, s, Test).Some? && Exec(g, Next(g, s, Test).value, es) == Some(t)
    ensures t.phase.Copying? && |t.phase.copied| == g.dataSize
    ensures DataAvailable(g, s.ring.position, FpgaPointer(g, s.ring))
  {
    LastEvent(g, s, [Test] + es, SendDone);
    assert ([Test] + es)[1..] == es;
    var s1 := Next(g, s, Test).value;
    t := Exec(g, s1, es).value;
    if !s1.phase.Copying? {
      NotCopyingStays(g, s1, es);
    }
  }

  /**
   * The whole first image: over all contents of the FPGA's writes, the payload of the first send is the frame it
   * started on if and only if no write to its slot comes before one of its copies.
   */
  lemma {:induction false} FirstImageIsRightIff(g: Geometry, boot: Boot, before: seq<Event>, s: State, es: seq<Event>)
    requires Reaches(g, boot, before, s) && s.phase.TestData? && s.attempts == 0
    requires SlotsInRange(g, s) && OnlyCopies(es) && Exec(g, s, [Test] + es + [SendDone]).Some?
    ensures Next(g, s, Test).Some? && 0 <= LapStart(g, s.ring) < |s.ring.produced|
    ensures (forall fs :: SameShape(g, es, fs) ==> SendsFrame(g, s, fs, s.ring.produced[LapStart(g, s.ring)]))
            <==> !Disturbed(g, Next(g, s, Test).value, es)
  {
    var t := SendParts(g, s, es);
    var s1 := FirstTest(g, boot, before, s);
    FirstSendState(g, boot, before + [Test], s1);
    FirstSendIsRightIff(g, boot, before + [Test], s1, es);
    var frame := s.ring.produced[LapStart(g, s.ring)];
    forall fs | SameShape(g, es, fs)
      ensures SendsFrame(g, s, fs, frame) <==> CopiesRight(g, s1, fs, frame)
    {
      RunAlike(g, s1, es, s1, fs);
      SendReturnsCopied(g, boot, before, s, s1, fs, Exec(g, s1, fs).value, frame);
    }
  }
}
