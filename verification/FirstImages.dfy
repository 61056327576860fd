/**
 * What the first images are: frames the FPGA completed or what the memory held at the start, and for the very first
 * one, which no Linux pointer protects, exactly when it is whole.
 */
module FirstImages {
  import opened Machine
  import opened RingGeometry
  import opened RingProtocol
  import opened BoundedQueue
  import opened Station
  import opened StationTheorems
  import SharedRing

  // ----- which images are frames of this run -----

  /** The frames the FPGA completes during an interleaving. */
  function Completed(g: Geometry, s: State, es: seq<Event>): seq<Frame>
    requires SlotsInRange(g, s)
    decreases |es|
  {
    if es == [] || Next(g, s, es[0]).None? then []
    else
      (if es[0].Advance? then [s.ring.slots[s.ring.fpgaSlot]] else [])
      + Completed(g, Next(g, s, es[0]).value, es[1..])
  }

  lemma StepProduces(g: Geometry, s: State, e: Event)
    requires SlotsInRange(g, s) && Next(g, s, e).Some?
    ensures Next(g, s, e).value.ring.produced
         == s.ring.produced + (if e.Advance? then [s.ring.slots[s.ring.fpgaSlot]] else [])
  {
  }

  lemma {:induction false} RunProduces(g: Geometry, s: State, es: seq<Event>)
    requires SlotsInRange(g, s) && Exec(g, s, es).Some?
    ensures Exec(g, s, es).value.ring.produced == s.ring.produced + Completed(g, s, es)
    decreases |es|
  {
    if es == [] {
      assert s.ring.produced + [] == s.ring.produced;
    } else {
      var s' := Next(g, s, es[0]).value;
      StepProduces(g, s, es[0]);
      RunProduces(g, s', es[1..]);
      ConcatAssoc(s.ring.produced, if es[0].Advance? then [s.ring.slots[s.ring.fpgaSlot]] else [], Completed(g, s', es[1..]));
    }
  }

  /** Every frame counted as produced was in memory at the start or completed since. */
  lemma {:induction false} FramesOfRun(g: Geometry, boot: Boot, es: seq<Event>, s: State)
    requires Reaches(g, boot, es, s)
    ensures s.ring.produced == boot.memory[..boot.fpgaSlot] + Completed(g, Init(g, boot), es)
  {
    RunProduces(g, Init(g, boot), es);
  }

  lemma ImageCarries(g: Geometry, boot: Boot, es: seq<Event>, s: State, c: nat, n: nat)
    requires Reaches(g, boot, es, s) && c < |s.connections| && n < |s.connections[c].payloads|
    requires Guarded(s.ring, s.connections[c].first + n)
    ensures Carries(s.ring, s.connections[c].first + n, s.connections[c].payloads[n])
    ensures s.ring.releases > 0 ==> s.ring.origin >= 0
  {
    RunInvariant(g, boot, es);
    ConnectionKept(g, s, c);
  }

  /**
   * Which images are frames of this run: those whose frame number is at least the FPGA's slot at the start; the
   * others are what the memory held then. All sends numbered from that slot on are of the first kind, so if the
   * FPGA starts in slot 0 every image is.
   */
  lemma {:induction false} WhichImagesAreFrames(g: Geometry, boot: Boot, es: seq<Event>, s: State, c: nat, n: nat)
    requires Reaches(g, boot, es, s) && c < |s.connections| && n < |s.connections[c].payloads|
    requires Guarded(s.ring, s.connections[c].first + n)
    ensures var number, completed := FrameNumber(s, c, n), Completed(g, Init(g, boot), es);
            && 0 <= number < boot.fpgaSlot + |completed|
            && (s.connections[c].first + n >= boot.fpgaSlot ==> number >= boot.fpgaSlot)
            && s.connections[c].payloads[n]
               == if number < boot.fpgaSlot then boot.memory[number] else completed[number - boot.fpgaSlot]
  {
    ImageCarries(g, boot, es, s, c, n);
    FramesOfRun(g, boot, es, s);
  }

  // ----- the very first image -----

  /** During the first send: the bytes copied are right as long as the FPGA has not come back to the slot. */
  lemma FirstImageIsWholeUntilLapped(g: Geometry, boot: Boot, es: seq<Event>, s: State)
    requires Reaches(g, boot, es, s) && s.ring.releases == 0 && s.phase.Copying?
    ensures s.ring.position == 0 && s.ring.lap % g.length == 0 && 0 <= s.ring.lap < |s.ring.produced|
    ensures |s.ring.produced| < s.ring.lap + g.length ==> s.phase.copied <= s.ring.produced[s.ring.lap]
  {
    RunInvariant(g, boot, es);
  }

  /** So a first send that returns before the FPGA is back sends that frame, and counts as guarded from then on. */
  lemma FirstImageInTime(g: Geometry, boot: Boot, es: seq<Event>, s: State)
    requires Reaches(g, boot, es, s) && s.ring.releases == 0 && s.phase.Copying? && |s.phase.copied| == g.dataSize
    requires |s.ring.produced| < s.ring.lap + g.length
    ensures SlotsInRange(g, s) && 0 <= s.ring.lap < |s.ring.produced|
    ensures Next(g, s, SendDone).Some?
    ensures var s' := Next(g, s, SendDone).value;
            && Guarded(s'.ring, 0) && s'.connections != [] && Current(s').payloads != []
            && Current(s').payloads[|Current(s').payloads| - 1] == s.ring.produced[s.ring.lap]
  {
    FirstImageIsWholeUntilLapped(g, boot, es, s);
    RunInvariant(g, boot, es);
    assert |s.ring.produced[s.ring.lap]| == g.dataSize;
  }

  /** The next byte copied is right if the FPGA writes w first. */
  predicate NextByteRight(g: Geometry, s: State, w: Frame)
    requires SlotsInRange(g, s) && 0 <= s.ring.lap < |s.ring.produced|
  {
    var out := Exec(g, s, [Write(w), CopyByte]);
    out.Some? && out.value.phase.Copying? && out.value.phase.copied <= s.ring.produced[s.ring.lap]
  }

  lemma {:induction false} WriteThenCopy(g: Geometry, s: State, w: Frame)
    requires Inv(g, s) && s.phase.Copying? && |s.phase.copied| < g.dataSize == |w|
    ensures var slots := s.ring.slots[s.ring.fpgaSlot := w];
            && |slots[s.ring.position]| == g.dataSize
            && Exec(g, s, [Write(w), CopyByte])
               == Some(s.(ring := s.ring.(slots := slots),
                          phase := Copying(s.phase.copied + [slots[s.ring.position][|s.phase.copied|]])))
  {
    var s' := Next(g, s, Write(w)).value;
    assert [Write(w), CopyByte][1..] == [CopyByte] && [CopyByte][1..] == [];
    assert Exec(g, s', [CopyByte]) == Next(g, s', CopyByte);
  }

  /**
   * Exactly when the very first image is safe: until the FPGA has come back, the next byte is right whatever the FPGA
   * writes before it is copied if and only if the FPGA is not in the consumer's slot.
   */
  lemma NextByteIsSafeIffFpgaIsElsewhere(g: Geometry, boot: Boot, es: seq<Event>, s: State)
    requires Reaches(g, boot, es, s) && s.ring.releases == 0 && s.phase.Copying? && |s.phase.copied| < g.dataSize
    requires |s.ring.produced| <= s.ring.lap + g.length
    ensures SlotsInRange(g, s) && 0 <= s.ring.lap < |s.ring.produced|
    ensures (forall w: Frame :: |w| == g.dataSize ==> NextByteRight(g, s, w)) <==> s.ring.fpgaSlot != s.ring.position
  {
    RunInvariant(g, boot, es);
    LapIsStable(g, s.ring);
    var frame, k := s.ring.produced[s.ring.lap], |s.phase.copied|;
    if s.ring.fpgaSlot == s.ring.position {
      var w := frame[k := Other(frame[k])];
      WriteThenCopy(g, s, w);
      var out := Exec(g, s, [Write(w), CopyByte]).value;
      assert out.phase.copied[k] != frame[k];
      assert !NextByteRight(g, s, w);
    } else {
      forall w: Frame | |w| == g.dataSize
        ensures NextByteRight(g, s, w)
      {
        WriteThenCopy(g, s, w);
      }
    }
  }

  function Other(b: Byte): Byte {
    if b == 0 then 1 else 0
  }

  // ----- a torn first image -----

  function Plain(g: Geometry, b: Byte): Frame
    requires Fits(g)
  {
    seq(g.dataSize, _ => b)
  }

  /** The FPGA writes and completes n frames of zeros. */
  function Laps(g: Geometry, n: nat): seq<Event>
    requires Fits(g)
  {
    if n == 0 then [] else Laps(g, n - 1) + [Write(Plain(g, 0))] + [Advance]
  }

  lemma OneLap(g: Geometry, boot: Boot, es: seq<Event>, s: State) returns (s': State)
    requires Reaches(g, boot, es, s) && s.ring.releases == 0
    ensures Reaches(g, boot, es + [Write(Plain(g, 0))] + [Advance], s')
    ensures s' == s.(ring := s.ring.(slots := s'.ring.slots, fpgaSlot := s'.ring.fpgaSlot,
                                     produced := s.ring.produced + [Plain(g, 0)]))
  {
    RunInvariant(g, boot, es);
    ReachesNext(g, boot, es, s, Write(Plain(g, 0)));
    var t := Next(g, s, Write(Plain(g, 0))).value;
    RunInvariant(g, boot, es + [Write(Plain(g, 0))]);
    BlockedIffFull(g, t.ring);
    ReachesNext(g, boot, es + [Write(Plain(g, 0))], t, Advance);
    s' := Next(g, t, Advance).value;
  }

  lemma LapsRun(g: Geometry, boot: Boot, es: seq<Event>, s: State, n: nat) returns (s': State)
    requires Reaches(g, boot, es, s) && s.ring.releases == 0
    ensures Reaches(g, boot, es + Laps(g, n), s')
    ensures s' == s.(ring := s.ring.(slots := s'.ring.slots, fpgaSlot := s'.ring.fpgaSlot,
                                     produced := s.ring.produced + seq(n, _ => Plain(g, 0))))
    decreases n
  {
    if n == 0 {
      s' := s;
      assert es + [] == es && s.ring.produced + [] == s.ring.produced;
    } else {
      var t := LapsRun(g, boot, es, s, n - 1);
      s' := OneLap(g, boot, es + Laps(g, n - 1), t);
      assert es + Laps(g, n) == es + Laps(g, n - 1) + [Write(Plain(g, 0))] + [Advance];
      assert seq(n, _ => Plain(g, 0)) == seq(n - 1, _ => Plain(g, 0)) + [Plain(g, 0)];
      ConcatAssoc(s.ring.produced, seq(n - 1, _ => Plain(g, 0)), [Plain(g, 0)]);
    }
  }

  lemma OneCopy(g: Geometry, boot: Boot, es: seq<Event>, s: State) returns (s': State)
    requires Reaches(g, boot, es, s) && s.phase.Copying? && |s.phase.copied| < g.dataSize
    ensures SlotsInRange(g, s) && |s.ring.slots[s.ring.position]| == g.dataSize
    ensures s' == s.(phase := Copying(s.phase.copied + [s.ring.slots[s.ring.position][|s.phase.copied|]]))
    ensures Reaches(g, boot, es + [CopyByte], s')
  {
    RunInvariant(g, boot, es);
    ReachesNext(g, boot, es, s, CopyByte);
    s' := Next(g, s, CopyByte).value;
  }

  /** The consumer's slot is whole, and so the copy can go on to its end. */
  lemma SlotIsWhole(g: Geometry, boot: Boot, es: seq<Event>, s: State)
    requires Reaches(g, boot, es, s)
    ensures SlotsInRange(g, s) && |s.ring.slots[s.ring.position]| == g.dataSize
  {
    RunInvariant(g, boot, es);
  }

  lemma CopiesRun(g: Geometry, boot: Boot, es: seq<Event>, s: State, n: nat) returns (s': State)
    requires Reaches(g, boot, es, s) && s.phase.Copying? && |s.phase.copied| + n <= g.dataSize
    ensures SlotsInRange(g, s) && |s.ring.slots[s.ring.position]| == g.dataSize
    ensures s' == s.(phase := Copying(s.phase.copied + s.ring.slots[s.ring.position][|s.phase.copied|..|s.phase.copied| + n]))
    ensures Reaches(g, boot, es + Copies(n), s')
    decreases n
  {
    SlotIsWhole(g, boot, es, s);
    if n == 0 {
      s' := s;
      assert es + Copies(0) == es;
      assert s.phase.copied + [] == s.phase.copied;
    } else {
      var t := CopiesRun(g, boot, es, s, n - 1);
      s' := OneCopy(g, boot, es + Copies(n - 1), t);
      assert es + Copies(n) == es + Copies(n - 1) + [CopyByte];
      CopyGrows(s.phase.copied, s.ring.slots[s.ring.position], n - 1);
    }
  }

  lemma CopyGrows(copied: Frame, slot: Frame, n: nat)
    requires |copied| + n < |slot|
    ensures (copied + slot[|copied|..|copied| + n]) + [slot[|copied| + n]] == copied + slot[|copied|..|copied| + n + 1]
  {
  }

  /** Frames until the FPGA is in slot 0. */
  function ToSlotZero(g: Geometry, r: Ring): nat
    requires 0 <= r.fpgaSlot < g.length
  {
    if r.fpgaSlot == 0 then 0 else g.length - r.fpgaSlot
  }

  lemma UpToMultiple(t: nat, n: int)
    requires 0 < n
    ensures (t + if t % n == 0 then 0 else n - t % n) % n == 0
  {
    var q, f := t / n, t % n;
    assert t == n * q + f;
    if f != 0 {
      assert t + (n - f) == n * (q + 1) + 0;
      ModOfMultiple(n, q + 1, 0);
    }
  }

  lemma FpgaComesBack(g: Geometry, boot: Boot, es: seq<Event>, s: State) returns (s': State)
    requires Reaches(g, boot, es, s) && s.ring.releases == 0
    ensures SlotsInRange(g, s) && Reaches(g, boot, es + Laps(g, ToSlotZero(g, s.ring)), s')
    ensures s'.ring.fpgaSlot == s'.ring.position == 0
    ensures s' == s.(ring := s.ring.(slots := s'.ring.slots, fpgaSlot := 0,
                                     produced := s.ring.produced + seq(ToSlotZero(g, s.ring), _ => Plain(g, 0))))
  {
    RunInvariant(g, boot, es);
    var n := ToSlotZero(g, s.ring);
    s' := LapsRun(g, boot, es, s, n);
    RunInvariant(g, boot, es + Laps(g, n));
    UpToMultiple(|s.ring.produced|, g.length);
  }

  /** With the FPGA in the consumer's slot it writes w there, and the rest of w is copied. */
  lemma CopyOver(g: Geometry, boot: Boot, es: seq<Event>, s: State, w: Frame) returns (s': State)
    requires Reaches(g, boot, es, s) && s.phase.Copying? && s.ring.fpgaSlot == s.ring.position && |w| == g.dataSize
    requires |s.phase.copied| <= g.dataSize
    ensures Reaches(g, boot, es + [Write(w)] + Copies(g.dataSize - |s.phase.copied|), s')
    ensures s' == s.(ring := s.ring.(slots := s'.ring.slots), phase := Copying(s.phase.copied + w[|s.phase.copied|..]))
  {
    ReachesNext(g, boot, es, s, Write(w));
    var t := Next(g, s, Write(w)).value;
    s' := CopiesRun(g, boot, es + [Write(w)], t, g.dataSize - |s.phase.copied|);
    assert w[|s.phase.copied|..] == w[|s.phase.copied|..g.dataSize];
  }

  lemma ReturnFrom(g: Geometry, boot: Boot, es: seq<Event>, s: State) returns (s': State)
    requires Reaches(g, boot, es, s) && s.phase.Copying? && |s.phase.copied| == g.dataSize
    ensures Reaches(g, boot, es + [SendDone], s')
    ensures s.connections != [] && |s'.connections| == |s.connections|
    ensures Current(s').payloads == Current(s).payloads + [s.phase.copied]
    ensures s'.ring.produced == s.ring.produced && s'.ring.lap == s.ring.lap
  {
    RunInvariant(g, boot, es);
    ReachesNext(g, boot, es, s, SendDone);
    s' := Next(g, s, SendDone).value;
  }

  lemma SendHasConnection(g: Geometry, boot: Boot, es: seq<Event>, s: State)
    requires Reaches(g, boot, es, s) && s.phase.Copying?
    ensures SlotsInRange(g, s) && s.connections != [] && |s.phase.copied| <= g.dataSize
  {
    RunInvariant(g, boot, es);
  }

  /** How a first image is torn: the FPGA laps the ring during the send and the rest is copied out of what it writes next. */
  lemma Tear(g: Geometry, boot: Boot, es: seq<Event>, s: State, w: Frame) returns (more: seq<Event>, s': State)
    requires Reaches(g, boot, es, s) && s.ring.releases == 0 && s.phase.Copying? && |w| == g.dataSize
    ensures |s.phase.copied| <= g.dataSize && s.connections != []
    ensures Reaches(g, boot, es + more, s') && |s'.connections| == |s.connections|
    ensures Current(s').payloads == Current(s).payloads + [s.phase.copied + w[|s.phase.copied|..]]
    ensures SlotsInRange(g, s) && s'.ring.produced == s.ring.produced + seq(ToSlotZero(g, s.ring), _ => Plain(g, 0))
    ensures s'.ring.lap == s.ring.lap
  {
    SendHasConnection(g, boot, es, s);
    var n := ToSlotZero(g, s.ring);
    var t := FpgaComesBack(g, boot, es, s);
    var copies := Copies(g.dataSize - |s.phase.copied|);
    var u := CopyOver(g, boot, es + Laps(g, n), t, w);
    s' := ReturnFrom(g, boot, es + Laps(g, n) + [Write(w)] + copies, u);
    more := Laps(g, n) + [Write(w)] + copies + [SendDone];
    assert es + more == es + Laps(g, n) + [Write(w)] + copies + [SendDone];
  }

  /** As long as a byte of the very first image is left to copy, that image can still go wrong. */
  lemma FirstImageCanStillBeTorn(g: Geometry, boot: Boot, es: seq<Event>, s: State)
    returns (more: seq<Event>, s': State)
    requires Reaches(g, boot, es, s) && s.ring.releases == 0 && s.phase.Copying? && |s.phase.copied| < g.dataSize
    ensures Reaches(g, boot, es + more, s') && s'.connections != [] && Current(s').payloads != []
    ensures s'.ring.lap == s.ring.lap && 0 <= s'.ring.lap < |s'.ring.produced|
    ensures Current(s').payloads[|Current(s').payloads| - 1] != s'.ring.produced[s'.ring.lap]
  {
    FirstImageIsWholeUntilLapped(g, boot, es, s);
    RunInvariant(g, boot, es);
    var frame, k := s.ring.produced[s.ring.lap], |s.phase.copied|;
    var w := frame[k := Other(frame[k])];
    more, s' := Tear(g, boot, es, s, w);
    assert (s.phase.copied + w[k..])[k] == w[k] != frame[k];
  }

  // ----- from the start -----

  /** A client connects, the FPGA completes n frames of zeros, and the consumer's test is true: the first send begins. */
  lemma FirstSendBegins(g: Geometry, boot: Boot, n: nat) returns (es: seq<Event>, s: State)
    requires Bootable(g, boot) && (boot.fpgaSlot + n) % g.length != 0
    ensures Reaches(g, boot, es, s)
    ensures s.phase == Copying([]) && s.ring.releases == 0 && s.connections == [Connection(0, [], [])]
    ensures s.ring.produced == boot.memory[..boot.fpgaSlot] + seq(n, _ => Plain(g, 0))
    ensures s.ring.lap == LapStart(g, s.ring)
    ensures n == 0 ==> s.ring.slots == boot.memory
  {
    var init := Init(g, boot);
    assert Reaches(g, boot, [], init);
    ReachesNext(g, boot, [], init, AcceptOk);
    var t := Next(g, init, AcceptOk).value;
    var u := LapsRun(g, boot, [] + [AcceptOk], t, n);
    es := [] + [AcceptOk] + Laps(g, n);
    if n == 0 {
      LapsNone(g, boot, [] + [AcceptOk], t, u);
    }
    s := TestSucceeds(g, boot, es, u);
    es := es + [Check] + [Test];
  }

  lemma {:induction false} LapsNone(g: Geometry, boot: Boot, es: seq<Event>, s: State, s': State)
    requires Reaches(g, boot, es, s) && Reaches(g, boot, es + Laps(g, 0), s')
    ensures s' == s
  {
    assert es + [] == es;
  }

  lemma TestSucceeds(g: Geometry, boot: Boot, es: seq<Event>, s: State) returns (s': State)
    requires Reaches(g, boot, es, s) && s.phase.CheckConnection? && s.hasConnection && s.attempts == 0
    requires 0 < g.length && |s.ring.produced| % g.length != 0
    ensures Reaches(g, boot, es + [Check] + [Test], s')
    ensures s' == s.(phase := Copying([]), attempts := 1, ring := s.ring.(lap := LapStart(g, s.ring)))
  {
    RunInvariant(g, boot, es);
    ReachesNext(g, boot, es, s, Check);
    var t := Next(g, s, Check).value;
    TestComparesSlots(g, t.ring.position, t.ring.fpgaSlot);
    ReachesNext(g, boot, es + [Check], t, Test);
    s' := Next(g, t, Test).value;
  }

  /**
   * For every ring of two slots or more, wherever the FPGA starts and after any number k of bytes, the first image
   * can change from one frame to another: k bytes of a frame of zeros, then ones, though every frame completed
   * in the run is all zeros.
   */
  lemma FirstImageCanBeTorn(g: Geometry, boot: Boot, k: nat) returns (es: seq<Event>, s: State)
    requires Bootable(g, boot) && 2 <= g.length && k < g.dataSize
    ensures Reaches(g, boot, es, s)
    ensures |s.connections| == 1 && s.connections[0].payloads == [Plain(g, 0)[..k] + Plain(g, 1)[k..]]
    ensures forall frame :: frame in Completed(g, Init(g, boot), es) ==> frame == Plain(g, 0)
    ensures s.connections[0].payloads[0] !in Completed(g, Init(g, boot), es)
  {
    var n := g.length - boot.fpgaSlot + 1;
    ModOfMultiple(g.length, 1, 1);
    var es0, s0 := FirstSendBegins(g, boot, n);
    RunInvariant(g, boot, es0);
    LapIsStable(g, s0.ring);
    assert s0.ring.slots[0] == Plain(g, 0);
    var s1 := CopiesRun(g, boot, es0, s0, k);
    assert s1.phase.copied == Plain(g, 0)[..k];
    var more;
    more, s := Tear(g, boot, es0 + Copies(k), s1, Plain(g, 1));
    es := es0 + Copies(k) + more;
    FramesOfRun(g, boot, es, s);
    ZerosOnly(g, boot, s.ring.produced, Completed(g, Init(g, boot), es), n + ToSlotZero(g, s1.ring));
    assert s.connections[0].payloads[0][g.dataSize - 1] == 1;
  }

  lemma ZerosOnly(g: Geometry, boot: Boot, produced: seq<Frame>, completed: seq<Frame>, n: nat)
    requires Fits(g) && boot.fpgaSlot <= |boot.memory|
    requires produced == boot.memory[..boot.fpgaSlot] + completed
    requires |produced| == boot.fpgaSlot + n && forall i :: boot.fpgaSlot <= i < |produced| ==> produced[i] == Plain(g, 0)
    ensures forall frame :: frame in completed ==> frame == Plain(g, 0)
  {
    forall frame | frame in completed
      ensures frame == Plain(g, 0)
    {
      var i :| 0 <= i < |completed| && completed[i] == frame;
      assert produced[boot.fpgaSlot + i] == frame;
    }
  }

  /** So in the camera's own ring, at any address, the first image can be torn after any byte. */
  lemma CameraImageCanBeTorn(base: int, boot: Boot, k: nat)
    requires k < IMAGE_SIZE && Bootable(Geometry(base, IMAGE_SIZE, SharedRing.BUFFER_LENGTH), boot)
    ensures var g := Geometry(base, IMAGE_SIZE, SharedRing.BUFFER_LENGTH);
            exists es, s :: Reaches(g, boot, es, s) && |s.connections| == 1 && |s.connections[0].payloads| == 1
                            && s.connections[0].payloads[0] !in Completed(g, Init(g, boot), es)
  {
    var es, s := FirstImageCanBeTorn(Geometry(base, IMAGE_SIZE, SharedRing.BUFFER_LENGTH), boot, k);
  }

  /** If the FPGA is not in slot 0 at the start, what the memory held there can be sent as the first image. */
  lemma LeftoverCanBeSent(g: Geometry, boot: Boot) returns (es: seq<Event>, s: State)
    requires Bootable(g, boot) && boot.fpgaSlot > 0
    ensures Reaches(g, boot, es, s)
    ensures |s.connections| == 1 && s.connections[0].payloads == [boot.memory[0]]
    ensures Completed(g, Init(g, boot), es) == []
  {
    ModOfMultiple(g.length, 0, boot.fpgaSlot);
    var es0, s0 := FirstSendBegins(g, boot, 0);
    RunInvariant(g, boot, es0);
    var s1 := CopiesRun(g, boot, es0, s0, g.dataSize);
    assert s1.phase.copied == boot.memory[0];
    s := ReturnFrom(g, boot, es0 + Copies(g.dataSize), s1);
    es := es0 + Copies(g.dataSize) + [SendDone];
    FramesOfRun(g, boot, es, s);
  }
}
