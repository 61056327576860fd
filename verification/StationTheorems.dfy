/** What the station guarantees over whole runs, under every interleaving. */
module StationTheorems {
  import opened Machine
  import opened RingGeometry
  import opened RingProtocol
  import opened TcpFraming
  import opened BoundedQueue
  import opened Station
  import TcpClient

  /** State s is reached by interleaving es from power-up. */
  ghost predicate Reaches(g: Geometry, boot: Boot, es: seq<Event>, s: State) {
    Bootable(g, boot) && Exec(g, Init(g, boot), es) == Some(s)
  }

  lemma ReachesNext(g: Geometry, boot: Boot, es: seq<Event>, s: State, e: Event)
    requires Reaches(g, boot, es, s)
    ensures SlotsInRange(g, s)
    ensures Next(g, s, e).Some? ==> Reaches(g, boot, es + [e], Next(g, s, e).value)
  {
    if Next(g, s, e).Some? {
      ExecConcat(g, Init(g, boot), es, [e]);
      assert [e][1..] == [];
    }
  }

  // ----- the ring is a bounded queue -----

  /** The queue operations an interleaving performs, with the frames read out of the slots. */
  function Ops(g: Geometry, s: State, es: seq<Event>): seq<Op<Frame>>
    requires SlotsInRange(g, s)
    decreases |es|
  {
    if es == [] || Next(g, s, es[0]).None? then []
    else
      (match es[0]
       case Advance => [Enqueue(s.ring.slots[s.ring.fpgaSlot])]
       case Move => [Dequeue(s.ring.slots[s.ring.position])]
       case _ => [])
      + Ops(g, Next(g, s, es[0]).value, es[1..])
  }

  lemma AdvanceEnqueues(g: Geometry, r: Ring)
    requires RingInv(g, r) && r.releases > 0 && !FpgaBlocked(g, r)
    ensures 0 <= Index(r) <= |r.produced|
    ensures Apply(g.length - 1, Pending(r), Enqueue(r.slots[r.fpgaSlot])) == Some(Pending(FpgaAdvance(g, r)))
  {
    BlockedIffFull(g, r);
    SuffixGrows(r.produced, Index(r), r.slots[r.fpgaSlot]);
  }

  lemma ReleaseDequeues(g: Geometry, r: Ring)
    requires RingInv(g, r) && r.releases > 0 && Held(r)
    ensures 0 <= Index(r) <= |r.produced| && Index(Release(g, r)) == Index(r) + 1 <= |r.produced|
    ensures Apply(g.length - 1, Pending(r), Dequeue(r.slots[r.position])) == Some(Pending(Release(g, r)))
  {
    HeldSlotIsStable(g, r);
    assert Pending(r)[0] == r.produced[Index(r)];
    assert Pending(Release(g, r)) == Pending(r)[1..];
  }

  lemma OthersKeepPending(g: Geometry, s: State, e: Event, s': State)
    requires SlotsInRange(g, s) && s.ring.releases > 0 && Next(g, s, e) == Some(s') && !e.Advance? && !e.Move?
    ensures s'.ring.produced == s.ring.produced && s'.ring.releases == s.ring.releases && s'.ring.origin == s.ring.origin
  {
  }

  lemma MoveHolds(g: Geometry, s: State)
    requires Inv(g, s)
    ensures RingInv(g, s.ring) && (s.phase.MovePointer? ==> Held(s.ring))
    ensures s.ring.releases > 0 ==> 0 <= Index(s.ring) <= |s.ring.produced|
  {
  }

  /** One event is one queue operation or none, on the pending frames. */
  lemma StepRefines(g: Geometry, s: State, e: Event)
    requires Inv(g, s) && s.ring.releases > 0 && Next(g, s, e).Some?
    ensures var r' := Next(g, s, e).value.ring;
            && r'.releases > 0 && 0 <= Index(r') <= |r'.produced|
            && (if e.Advance? then
                  Apply(g.length - 1, Pending(s.ring), Enqueue(s.ring.slots[s.ring.fpgaSlot])) == Some(Pending(r'))
                else if e.Move? then
                  Apply(g.length - 1, Pending(s.ring), Dequeue(s.ring.slots[s.ring.position])) == Some(Pending(r'))
                else Pending(r') == Pending(s.ring))
  {
    MoveHolds(g, s);
    if e.Advance? {
      AdvanceEnqueues(g, s.ring);
    } else if e.Move? {
      ReleaseDequeues(g, s.ring);
    } else {
      OthersKeepPending(g, s, e, Next(g, s, e).value);
    }
  }

  lemma SuffixGrows(produced: seq<Frame>, from: nat, x: Frame)
    requires from <= |produced|
    ensures (produced + [x])[from..] == produced[from..] + [x]
  {
  }

  lemma {:induction false} RunRefines(g: Geometry, s: State, es: seq<Event>)
    requires Inv(g, s) && s.ring.releases > 0 && Exec(g, s, es).Some?
    ensures var r' := Exec(g, s, es).value.ring;
            && r'.releases > 0 && 0 <= Index(r') <= |r'.produced|
            && Run(g.length - 1, Pending(s.ring), Ops(g, s, es)) == Some(Pending(r'))
    decreases |es|
  {
    if es != [] {
      var s' := Next(g, s, es[0]).value;
      StepRefines(g, s, es[0]);
      NextKeepsInv(g, s, es[0]);
      RunRefines(g, s', es[1..]);
      var later := Ops(g, s', es[1..]);
      if es[0].Advance? {
        assert Ops(g, s, es) == [Enqueue(s.ring.slots[s.ring.fpgaSlot])] + later;
        assert Ops(g, s, es)[1..] == later;
      } else if es[0].Move? {
        assert Ops(g, s, es) == [Dequeue(s.ring.slots[s.ring.position])] + later;
        assert Ops(g, s, es)[1..] == later;
      } else {
        assert Ops(g, s, es) == [] + later == later;
      }
    }
  }

  /**
   * From any state after the first release, over every further interleaving, the ring behaves as a queue of
   * length-1 frames: what is released is what was pending and produced, in order, with nothing lost,
   * repeated or changed, and never more than length-1 frames are pending.
   */
  lemma {:induction false} RingIsFifo(g: Geometry, boot: Boot, es: seq<Event>, s: State, more: seq<Event>, s': State)
    requires Reaches(g, boot, es, s) && s.ring.releases > 0
    requires Reaches(g, boot, es + more, s')
    ensures 0 <= Index(s.ring) <= |s.ring.produced|
    ensures s'.ring.releases > 0 && 0 <= Index(s'.ring) <= |s'.ring.produced|
    ensures |Pending(s'.ring)| <= g.length - 1
    ensures SlotsInRange(g, s)
    ensures Run(g.length - 1, Pending(s.ring), Ops(g, s, more)) == Some(Pending(s'.ring))
    ensures Pending(s.ring) + Enqueued(Ops(g, s, more)) == Dequeued(Ops(g, s, more)) + Pending(s'.ring)
  {
    RunInvariant(g, boot, es);
    ExecConcat(g, Init(g, boot), es, more);
    RunRefines(g, s, more);
    Fifo(g.length - 1, Pending(s.ring), Ops(g, s, more));
  }

  /** Conservation in every reachable state after the first release: produced = released + pending. */
  lemma ProducedIsReleasedPlusPending(g: Geometry, boot: Boot, es: seq<Event>, s: State)
    requires Reaches(g, boot, es, s) && s.ring.releases > 0
    ensures 1 <= Index(s.ring) <= |s.ring.produced|
    ensures |s.ring.produced| == Index(s.ring) + |Pending(s.ring)|
    ensures |Pending(s.ring)| <= g.length - 1
    ensures s.ring.fpgaSlot == (Index(s.ring) + |Pending(s.ring)|) % g.length
    ensures s.ring.position == Index(s.ring) % g.length
    ensures forall k :: 0 <= k < |Pending(s.ring)| ==> Pending(s.ring)[k] == s.ring.slots[(Index(s.ring) + k) % g.length]
  {
    RunInvariant(g, boot, es);
    forall k | 0 <= k < |Pending(s.ring)|
      ensures Pending(s.ring)[k] == s.ring.slots[(Index(s.ring) + k) % g.length]
    {
      PendingInSlots(g, s.ring, k);
    }
  }

  /**
   * Start-up. However often the FPGA laps the ring before the first release, it is never blocked; and the first
   * release establishes the running invariant, with the slots from the consumer's up to the FPGA's holding
   * consecutive completed frames (the previous lemma).
   */
  lemma FirstReleaseStartsProtocol(g: Geometry, boot: Boot, es: seq<Event>, s: State, s': State)
    requires Reaches(g, boot, es, s) && s.ring.releases == 0
    requires SlotsInRange(g, s) && Next(g, s, Move) == Some(s')
    ensures !FpgaBlocked(g, s.ring)
    ensures RunningInv(g, s'.ring) && s'.ring.linuxPointer == SlotAddress(g, s'.ring.position)
    ensures Index(s'.ring) <= |s.ring.produced| < Index(s'.ring) + g.length
    ensures Reaches(g, boot, es + [Move], s')
  {
    RunInvariant(g, boot, es);
    NextKeepsInv(g, s, Move);
    BlockedIffFull(g, s.ring);
    ReachesNext(g, boot, es, s, Move);
  }

  /** The availability test is exact in every reachable state after the first release. */
  lemma AvailableIffPending(g: Geometry, boot: Boot, es: seq<Event>, s: State)
    requires Reaches(g, boot, es, s) && s.ring.releases > 0
    ensures 0 <= Index(s.ring) <= |s.ring.produced|
    ensures DataAvailable(g, s.ring.position, FpgaPointer(g, s.ring)) <==> Pending(s.ring) != []
    ensures s.ring.position + 1 < g.length + 1
  {
    RunInvariant(g, boot, es);
    TestExact(g, s.ring);
  }

  // ----- exclusive access -----

  lemma StepKeepsHeldSlot(g: Geometry, s: State, e: Event)
    requires Inv(g, s) && s.ring.releases > 0 && InFlight(s.phase)
    requires Next(g, s, e).Some? && e != Move
    ensures Inv(g, Next(g, s, e).value)
    ensures var s' := Next(g, s, e).value;
            && s'.ring.releases > 0 && InFlight(s'.phase)
            && s'.ring.position == s.ring.position && s'.ring.origin == s.ring.origin && s'.ring.releases == s.ring.releases
            && s'.ring.slots[s.ring.position] == s.ring.slots[s.ring.position]
  {
    HeldSlotIsStable(g, s.ring);
    NextKeepsInv(g, s, e);
  }

  /**
   * From a true test until the matching release, whatever happens in between, the FPGA is never in the
   * consumer's slot and the slot's contents do not change.
   */
  lemma {:induction false} SlotIsExclusive(g: Geometry, s: State, es: seq<Event>)
    requires Inv(g, s) && s.ring.releases > 0 && InFlight(s.phase)
    requires Exec(g, s, es).Some? && Move !in es
    ensures var r' := Exec(g, s, es).value.ring;
            && r'.position == s.ring.position && r'.fpgaSlot != r'.position
            && r'.slots[r'.position] == s.ring.slots[s.ring.position]
    ensures 0 <= Index(s.ring) < |s.ring.produced| && s.ring.slots[s.ring.position] == s.ring.produced[Index(s.ring)]
    decreases |es|
  {
    HeldSlotIsStable(g, s.ring);
    if es != [] {
      assert es[0] in es && es[0] != Move;
      StepKeepsHeldSlot(g, s, es[0]);
      SlotIsExclusive(g, Next(g, s, es[0]).value, es[1..]);
    }
  }

  lemma {:induction false} ExclusiveFromTestToRelease(g: Geometry, boot: Boot, es: seq<Event>, s: State, more: seq<Event>, s': State)
    requires Reaches(g, boot, es, s) && s.ring.releases > 0
    requires SlotsInRange(g, s) && s.phase.TestData? && DataAvailable(g, s.ring.position, FpgaPointer(g, s.ring))
    requires Exec(g, s, [Test] + more) == Some(s') && Move !in more
    ensures s'.ring.position == s.ring.position && s'.ring.fpgaSlot != s.ring.position
    ensures SlotsInRange(g, s') && 0 <= Index(s.ring) < |s.ring.produced|
    ensures s'.ring.slots[s.ring.position] == s.ring.slots[s.ring.position] == s.ring.produced[Index(s.ring)]
  {
    RunInvariant(g, boot, es);
    TestExact(g, s.ring);
    NextKeepsInv(g, s, Test);
    assert ([Test] + more)[1..] == more;
    SlotIsExclusive(g, Next(g, s, Test).value, more);
  }

  // ----- progress -----

  lemma OneSlotStep(g: Geometry, s: State, e: Event)
    requires Inv(g, s) && g.length == 1 && s.attempts == 0 && Next(g, s, e).Some?
    ensures Next(g, s, e).value.attempts == 0
  {
    TestComparesSlots(g, s.ring.position, s.ring.fpgaSlot);
  }

  lemma {:induction false} OneSlotStaysIdle(g: Geometry, s: State, es: seq<Event>)
    requires Inv(g, s) && g.length == 1 && s.attempts == 0 && Exec(g, s, es).Some?
    ensures Exec(g, s, es).value.attempts == 0
    decreases |es|
  {
    if es != [] {
      OneSlotStep(g, s, es[0]);
      NextKeepsInv(g, s, es[0]);
      OneSlotStaysIdle(g, Next(g, s, es[0]).value, es[1..]);
    }
  }

  /** In a ring of one slot the test is never true: no send is ever begun and nothing is ever released. */
  lemma OneSlotNeverReleases(g: Geometry, boot: Boot, es: seq<Event>, s: State)
    requires Reaches(g, boot, es, s) && g.length == 1
    ensures s.attempts == 0 && s.ring.releases == 0
    ensures !DataAvailable(g, s.ring.position, FpgaPointer(g, s.ring))
  {
    RunInvariant(g, boot, []);
    OneSlotStaysIdle(g, Init(g, boot), es);
    RunInvariant(g, boot, es);
    NeverBothStuck(g, s.ring);
  }

  /** A blocked FPGA implies available data: it and a connected consumer are never both stuck, however many slots there are. */
  lemma NeverDeadlocked(g: Geometry, boot: Boot, es: seq<Event>, s: State)
    requires Reaches(g, boot, es, s)
    ensures !FpgaBlocked(g, s.ring) || DataAvailable(g, s.ring.position, FpgaPointer(g, s.ring))
  {
    RunInvariant(g, boot, es);
    NeverBothStuck(g, s.ring);
    if g.length == 1 {
      OneSlotNeverReleases(g, boot, es, s);
    }
  }

  // ----- end to end -----

  /** The number of the frame the n-th image on connection c is to carry. */
  function FrameNumber(s: State, c: int, n: nat): int
    requires 0 <= c < |s.connections|
  {
    FrameOf(s.ring, s.connections[c].first + n)
  }

  /**
   * What a client completes from connection c: an initial part of the images sent on it, byte for byte. Each is the
   * produced frame of its number, except the very first of all if its send ended after the FPGA was back in its slot.
   */
  ghost predicate AreImagesOf(g: Geometry, r: Ring, c: Connection, got: seq<TcpClient.Delivery>) {
    && |got| <= |c.payloads|
    && forall n :: 0 <= n < |got| ==>
         && got[n] == TcpClient.Delivery(ImageHeader(g), c.payloads[n])
         && (Guarded(r, c.first + n) ==>
               0 <= FrameOf(r, c.first + n) < |r.produced| && got[n].payload == r.produced[FrameOf(r, c.first + n)])
  }

  /** At most one delivery, behind the complete ones, was cut short, and what was read of it is part of the next frame. */
  ghost predicate ShortReadOf(r: Ring, c: Connection, ds: seq<TcpClient.Delivery>) {
    var n := |TcpClient.Complete(ds)|;
    && n <= |ds| <= n + 1
    && (|ds| == n + 1 && Guarded(r, c.first + n) ==>
          0 <= FrameOf(r, c.first + n) < |r.produced| && ds[n].payload < r.produced[FrameOf(r, c.first + n)])
  }

  /** From send 1 on, consecutive images carry consecutive frames; the frame of send 0 is an earlier one. */
  lemma FrameNumbersAreConsecutive(g: Geometry, boot: Boot, es: seq<Event>, s: State, c: nat, n: nat)
    requires Reaches(g, boot, es, s) && c < |s.connections| && n + 1 < |s.connections[c].payloads|
    ensures FrameNumber(s, c, n) < FrameNumber(s, c, n + 1)
    ensures s.connections[c].first + n >= 1 ==> FrameNumber(s, c, n + 1) == FrameNumber(s, c, n) + 1
  {
    RunInvariant(g, boot, es);
    BeforeFirstRelease(g, s, c);
  }

  /** A client's bytes are a prefix of the images sent and the next one; what that one is, if any of it was sent. */
  lemma StreamIsPrefix(g: Geometry, r: Ring, c: Connection, k: nat) returns (next: Frame)
    requires Fits(g) && StreamInv(g, r, c) && k <= |c.stream|
    ensures |next| == g.dataSize
    ensures k < |Serialize(Messages(g, c.payloads + [next]))|
    ensures c.stream[..k] == Serialize(Messages(g, c.payloads + [next]))[..k]
    ensures k > |Serialize(Messages(g, c.payloads))| && Guarded(r, Upcoming(c)) ==> Carries(r, Upcoming(c), next)
  {
    next :| Explains(g, r, c, next);
    MessagesSnoc(g, c.payloads, next);
  }

  lemma MessagesDecoded(g: Geometry, payloads: seq<Frame>)
    requires Fits(g) && g.dataSize <= IMAGE_SIZE && forall p :: p in payloads ==> |p| == g.dataSize
    ensures TcpClient.AllWellFormed(Messages(g, payloads))
    ensures |TcpClient.Decoded(Messages(g, payloads))| == |payloads|
    ensures forall i :: 0 <= i < |payloads| ==>
              TcpClient.Decoded(Messages(g, payloads))[i] == TcpClient.Delivery(ImageHeader(g), payloads[i])
  {
    HeaderSize(g);
    var ms := Messages(g, payloads);
    forall m | m in ms
      ensures TcpClient.WellFormed(m) && TcpClient.KnownId(m.header.dataId)
    {
      var i :| 0 <= i < |ms| && ms[i] == m;
      assert payloads[i] in payloads;
    }
    TcpClient.DecodedAll(ms);
  }

  /** The complete deliveries of any prefix of a connection's bytes are an initial part of its images. */
  lemma CompleteOfStream(g: Geometry, r: Ring, c: Connection, k: nat) returns (w: nat)
    requires Fits(g) && g.dataSize <= IMAGE_SIZE
    requires PayloadInv(g, r, c) && StreamInv(g, r, c) && k <= |c.stream|
    ensures w <= |c.payloads|
    ensures TcpClient.Complete(TcpClient.Parse(c.stream[..k]))
         == TcpClient.Decoded(Messages(g, c.payloads[..w]))
  {
    var next := StreamIsPrefix(g, r, c, k);
    SizesKnown(g, r, c, next);
    w := CompleteOfMessages(g, c.payloads, next, k);
  }

  lemma CompleteOfMessages(g: Geometry, payloads: seq<Frame>, next: Frame, k: nat) returns (w: nat)
    requires Fits(g) && g.dataSize <= IMAGE_SIZE
    requires (forall p :: p in payloads + [next] ==> |p| == g.dataSize)
    requires k < |Serialize(Messages(g, payloads + [next]))|
    ensures w <= |payloads|
    ensures TcpClient.Complete(TcpClient.Parse(Serialize(Messages(g, payloads + [next]))[..k]))
         == TcpClient.Decoded(Messages(g, payloads[..w]))
  {
    var ms := Messages(g, payloads + [next]);
    MessagesDecoded(g, payloads + [next]);
    TcpClient.CompleteOfPrefix(ms, k);
    TcpClient.CutBeforeEnd(ms, k);
    w := TcpClient.CutAt(ms, k).whole;
    DecodedBefore(g, payloads, next, w);
  }

  /**
   * End to end. Whatever prefix of a connection's bytes its client receives, the complete images it decodes are
   * an initial part of those sent on that connection, and they are produced frames, byte for byte.
   */
  lemma ClientSeesProducedFrames(g: Geometry, boot: Boot, es: seq<Event>, s: State, c: nat, k: nat)
    requires Reaches(g, boot, es, s) && g.dataSize <= IMAGE_SIZE
    requires c < |s.connections| && k <= |s.connections[c].stream|
    ensures AreImagesOf(g, s.ring, s.connections[c], TcpClient.Complete(TcpClient.Parse(s.connections[c].stream[..k])))
  {
    RunInvariant(g, boot, es);
    ConnectionKept(g, s, c);
    ImagesOfStream(g, s.ring, s.connections[c], k);
  }

  lemma ConnectionKept(g: Geometry, s: State, c: nat)
    requires Inv(g, s) && c < |s.connections|
    ensures PayloadInv(g, s.ring, s.connections[c]) && StreamInv(g, s.ring, s.connections[c])
  {
  }

  lemma ImagesOfFront(g: Geometry, r: Ring, c: Connection, w: nat)
    requires Fits(g) && g.dataSize <= IMAGE_SIZE && PayloadInv(g, r, c) && w <= |c.payloads|
    ensures |TcpClient.Decoded(Messages(g, c.payloads[..w]))| == w
    ensures forall n :: 0 <= n < w ==>
              && TcpClient.Decoded(Messages(g, c.payloads[..w]))[n] == TcpClient.Delivery(ImageHeader(g), c.payloads[n])
              && (Guarded(r, c.first + n) ==> Carries(r, c.first + n, c.payloads[n]))
  {
    SizesKnown(g, r, c, seq(g.dataSize, _ => 0));
    var front := c.payloads[..w];
    assert forall p :: p in front ==> p in c.payloads;
    MessagesDecoded(g, front);
  }

  lemma ImagesOfStream(g: Geometry, r: Ring, c: Connection, k: nat)
    requires Fits(g) && g.dataSize <= IMAGE_SIZE
    requires PayloadInv(g, r, c) && StreamInv(g, r, c) && k <= |c.stream|
    ensures AreImagesOf(g, r, c, TcpClient.Complete(TcpClient.Parse(c.stream[..k])))
  {
    var w := CompleteOfStream(g, r, c, k);
    ImagesOfFront(g, r, c, w);
  }

  /** What is read of the image cut short, if any, is an initial part of the next one. */
  lemma ShortOfMessages(g: Geometry, payloads: seq<Frame>, next: Frame, k: nat)
    requires Fits(g) && g.dataSize <= IMAGE_SIZE
    requires (forall p :: p in payloads + [next] ==> |p| == g.dataSize)
    requires k < |Serialize(Messages(g, payloads + [next]))|
    ensures var ds := TcpClient.Parse(Serialize(Messages(g, payloads + [next]))[..k]);
            var n := |TcpClient.Complete(ds)|;
            n <= |ds| <= n + 1 && n <= |payloads|
            && (|ds| == n + 1 ==> ds[n].payload < (payloads + [next])[n])
            && (|ds| == n + 1 && n == |payloads| ==> k > |Serialize(Messages(g, payloads))|)
  {
    var ms := Messages(g, payloads + [next]);
    MessagesDecoded(g, payloads + [next]);
    TcpClient.CutBeforeEnd(ms, k);
    TcpClient.CutSplits(ms, k);
    TcpClient.ParsePrefix(ms, k);
    TcpClient.CompleteOfPrefix(ms, k);
    var cut := TcpClient.CutAt(ms, k);
    DecodedBefore(g, payloads, next, cut.whole);
    assert |Serialize(ms)[..k]| == k;
  }

  lemma DecodedBefore(g: Geometry, payloads: seq<Frame>, next: Frame, w: nat)
    requires Fits(g) && g.dataSize <= IMAGE_SIZE && w <= |payloads|
    requires (forall p :: p in payloads + [next] ==> |p| == g.dataSize)
    ensures Messages(g, payloads + [next])[..w] == Messages(g, payloads[..w])
    ensures |TcpClient.Decoded(Messages(g, payloads + [next])[..w])| == w
    ensures w == |payloads| ==> Messages(g, payloads[..w]) == Messages(g, payloads)
  {
    assert Messages(g, payloads + [next])[..w] == Messages(g, payloads[..w]);
    assert forall p :: p in payloads[..w] ==> p in payloads + [next];
    MessagesDecoded(g, payloads[..w]);
    if w == |payloads| {
      assert payloads[..w] == payloads;
    }
  }

  lemma {:induction false} ShortAt(g: Geometry, r: Ring, c: Connection, next: Frame, ds: seq<TcpClient.Delivery>, k: nat)
    requires PayloadInv(g, r, c)
    requires k > |Serialize(Messages(g, c.payloads))| && Guarded(r, Upcoming(c)) ==> Carries(r, Upcoming(c), next)
    requires |TcpClient.Complete(ds)| <= |ds| <= |TcpClient.Complete(ds)| + 1 && |TcpClient.Complete(ds)| <= |c.payloads|
    requires |ds| == |TcpClient.Complete(ds)| + 1 ==>
               ds[|TcpClient.Complete(ds)|].payload < (c.payloads + [next])[|TcpClient.Complete(ds)|]
    requires |ds| == |TcpClient.Complete(ds)| + 1 && |TcpClient.Complete(ds)| == |c.payloads| ==>
               k > |Serialize(Messages(g, c.payloads))|
    ensures ShortReadOf(r, c, ds)
  {
    var n := |TcpClient.Complete(ds)|;
    if |ds| == n + 1 && Guarded(r, c.first + n) {
      ImageAt(g, r, c, next, n, k);
    }
  }

  lemma ShortOfConnection(g: Geometry, r: Ring, c: Connection, next: Frame, k: nat)
    requires Fits(g) && g.dataSize <= IMAGE_SIZE && PayloadInv(g, r, c) && |next| == g.dataSize
    requires k < |Serialize(Messages(g, c.payloads + [next]))|
    ensures var ds := TcpClient.Parse(Serialize(Messages(g, c.payloads + [next]))[..k]);
            var n := |TcpClient.Complete(ds)|;
            n <= |ds| <= n + 1 && n <= |c.payloads|
            && (|ds| == n + 1 ==> ds[n].payload < (c.payloads + [next])[n])
            && (|ds| == n + 1 && n == |c.payloads| ==> k > |Serialize(Messages(g, c.payloads))|)
  {
    SizesKnown(g, r, c, next);
    ShortOfMessages(g, c.payloads, next, k);
  }

  lemma ShortOfStream(g: Geometry, r: Ring, c: Connection, k: nat)
    requires Fits(g) && g.dataSize <= IMAGE_SIZE
    requires PayloadInv(g, r, c) && StreamInv(g, r, c) && k <= |c.stream|
    ensures ShortReadOf(r, c, TcpClient.Parse(c.stream[..k]))
  {
    var next := StreamIsPrefix(g, r, c, k);
    ShortOfConnection(g, r, c, next, k);
    ShortAt(g, r, c, next, TcpClient.Parse(c.stream[..k]), k);
  }

  /** The n-th of a connection's images, or the one after them if part of it was sent, is a produced frame. */
  lemma ImageAt(g: Geometry, r: Ring, c: Connection, next: Frame, n: nat, k: nat)
    requires PayloadInv(g, r, c) && n <= |c.payloads| && Guarded(r, c.first + n)
    requires k > |Serialize(Messages(g, c.payloads))| && Guarded(r, Upcoming(c)) ==> Carries(r, Upcoming(c), next)
    requires n == |c.payloads| ==> k > |Serialize(Messages(g, c.payloads))|
    ensures Carries(r, c.first + n, (c.payloads + [next])[n])
  {
  }

  lemma SizesKnown(g: Geometry, r: Ring, c: Connection, next: Frame)
    requires PayloadInv(g, r, c) && |next| == g.dataSize
    ensures forall p :: p in c.payloads + [next] ==> |p| == g.dataSize
    ensures forall p :: p in c.payloads ==> |p| == g.dataSize
  {
  }

  /** So every image byte a client reads, even of an image cut short, is the right byte of the right frame. */
  lemma ShortReadIsNextFrame(g: Geometry, boot: Boot, es: seq<Event>, s: State, c: nat, k: nat)
    requires Reaches(g, boot, es, s) && g.dataSize <= IMAGE_SIZE
    requires c < |s.connections| && k <= |s.connections[c].stream|
    ensures ShortReadOf(s.ring, s.connections[c], TcpClient.Parse(s.connections[c].stream[..k]))
  {
    RunInvariant(g, boot, es);
    ConnectionKept(g, s, c);
    ShortOfStream(g, s.ring, s.connections[c], k);
  }

  /** Every delivery a client makes of image messages leads to a picture, and the complete ones come first. */
  lemma PicturesOfMessages(g: Geometry, payloads: seq<Frame>, next: Frame, k: nat)
    requires Fits(g) && g.dataSize <= IMAGE_SIZE
    requires (forall p :: p in payloads + [next] ==> |p| == g.dataSize)
    requires k < |Serialize(Messages(g, payloads + [next]))|
    ensures var ds := TcpClient.Parse(Serialize(Messages(g, payloads + [next]))[..k]);
            TcpClient.Images(ds) == ds && TcpClient.Complete(ds) <= ds
  {
    var ms := Messages(g, payloads + [next]);
    MessagesDecoded(g, payloads + [next]);
    TcpClient.PrefixIsShown(ms, k);
  }

  /**
   * What the screen of a client shows of the camera's images: of each complete one exactly the image sent, whatever
   * the buffer held before; behind them at most one picture that begins with what was read of the next image.
   */
  lemma PicturesAreImages(g: Geometry, boot: Boot, es: seq<Event>, s: State, c: nat, k: nat, shown: seq<Bytes>)
    requires Reaches(g, boot, es, s) && g.dataSize == IMAGE_SIZE
    requires c < |s.connections| && k <= |s.connections[c].stream|
    requires TcpClient.Shows(TcpClient.Parse(s.connections[c].stream[..k]), shown)
    ensures var ds := TcpClient.Parse(s.connections[c].stream[..k]);
            var n := |TcpClient.Complete(ds)|;
            && n <= |ds| == |shown| <= n + 1 && n <= |s.connections[c].payloads|
            && shown[..n] == s.connections[c].payloads[..n]
            && (|shown| == n + 1 ==> ds[n].payload <= shown[n])
  {
    RunInvariant(g, boot, es);
    ConnectionKept(g, s, c);
    var conn := s.connections[c];
    var next := StreamIsPrefix(g, s.ring, conn, k);
    SizesKnown(g, s.ring, conn, next);
    PicturesOfMessages(g, conn.payloads, next, k);
    ImagesOfStream(g, s.ring, conn, k);
    ShortOfStream(g, s.ring, conn, k);
    PicturesMatch(g, s.ring, conn, TcpClient.Parse(conn.stream[..k]), shown);
  }

  lemma {:induction false} PicturesMatch(g: Geometry, r: Ring, c: Connection, ds: seq<TcpClient.Delivery>, shown: seq<Bytes>)
    requires TcpClient.Images(ds) == ds && TcpClient.Complete(ds) <= ds && TcpClient.Shows(ds, shown)
    requires AreImagesOf(g, r, c, TcpClient.Complete(ds)) && ShortReadOf(r, c, ds)
    requires forall p :: p in c.payloads ==> |p| == IMAGE_SIZE
    ensures var n := |TcpClient.Complete(ds)|;
            && n <= |ds| == |shown| <= n + 1 && n <= |c.payloads|
            && shown[..n] == c.payloads[..n]
            && (|shown| == n + 1 ==> ds[n].payload <= shown[n])
  {
    forall i | 0 <= i < |TcpClient.Complete(ds)|
      ensures shown[i] == c.payloads[i]
    {
      assert TcpClient.Complete(ds)[i] == ds[i];
      assert c.payloads[i] in c.payloads;
      assert TcpClient.Images(ds)[i].payload <= shown[i];
    }
  }

  function Current(s: State): Connection
    requires s.connections != []
  {
    s.connections[|s.connections| - 1]
  }

  /** With nothing cut off and no send failed, the client decodes every image sent so far. */
  lemma ClientSeesAllSent(g: Geometry, boot: Boot, es: seq<Event>, s: State)
    requires Reaches(g, boot, es, s) && g.dataSize <= IMAGE_SIZE
    requires s.hasConnection && !s.phase.ClearFlag?
    ensures s.connections != []
    ensures |TcpClient.Decoded(Messages(g, Current(s).payloads))| == |Current(s).payloads|
    ensures TcpClient.Parse(Current(s).stream)
         == TcpClient.Decoded(Messages(g, Current(s).payloads))
    ensures forall i :: 0 <= i < |Current(s).payloads| ==>
              TcpClient.Decoded(Messages(g, Current(s).payloads))[i]
              == TcpClient.Delivery(ImageHeader(g), Current(s).payloads[i])
  {
    RunInvariant(g, boot, es);
    var c := s.connections[|s.connections| - 1];
    assert PayloadInv(g, s.ring, c);
    assert forall p :: p in c.payloads ==> |p| == g.dataSize;
    MessagesDecoded(g, c.payloads);
    TcpClient.RoundTrip(Messages(g, c.payloads));
  }

  // ----- what becomes of every frame -----

  /** Send a was made on connection c: it returned, or it is the one that threw or is under way. */
  predicate Covers(c: Connection, a: nat) {
    c.first <= a <= Upcoming(c)
  }

  /** Send a put the frame on connection c whole. */
  predicate SentWhole(c: Connection, a: nat, frame: Frame) {
    c.first <= a < Upcoming(c) && c.payloads[a - c.first] == frame
  }

  /** Send a ended connection c by throwing. */
  predicate EndedBy(s: State, c: nat, a: nat)
    requires c < |s.connections|
  {
    a == Upcoming(s.connections[c]) && (c + 1 < |s.connections| || !s.hasConnection || s.phase.ClearFlag?)
  }

  /** Send a is under way on connection c. */
  predicate UnderWay(s: State, c: nat, a: nat)
    requires c < |s.connections|
  {
    a == Upcoming(s.connections[c]) && c + 1 == |s.connections| && s.phase.Copying?
  }

  lemma FindConnection(cs: seq<Connection>, a: nat, n: nat) returns (c: nat)
    requires Chained(cs) && n < |cs| && a <= Upcoming(cs[n])
    ensures c < |cs| && Covers(cs[c], a)
    decreases n
  {
    if cs[n].first <= a {
      c := n;
    } else {
      c := FindConnection(cs, a, n - 1);
    }
  }

  lemma CoveredOnce(cs: seq<Connection>, a: nat, c: nat)
    requires Chained(cs) && c < |cs| && Covers(cs[c], a)
    ensures forall d :: 0 <= d < |cs| && Covers(cs[d], a) ==> d == c
  {
    forall d | 0 <= d < |cs| && Covers(cs[d], a)
      ensures d == c
    {
      if c < d {
        ChainedApart(cs, c, d);
      } else if d < c {
        ChainedApart(cs, d, c);
      }
    }
  }

  /** The sends of the connections, with the failed one at the end of each, tile all sends made so far. */
  lemma SendsTile(g: Geometry, boot: Boot, es: seq<Event>, s: State, a: nat) returns (c: nat)
    requires Reaches(g, boot, es, s) && a < s.attempts
    ensures c < |s.connections| && Covers(s.connections[c], a)
    ensures forall d :: 0 <= d < |s.connections| && Covers(s.connections[d], a) ==> d == c
  {
    RunInvariant(g, boot, es);
    c := FindConnection(s.connections, a, |s.connections| - 1);
    CoveredOnce(s.connections, a, c);
  }

  lemma AttemptsAndReleases(g: Geometry, boot: Boot, es: seq<Event>, s: State)
    requires Reaches(g, boot, es, s)
    ensures s.attempts == s.ring.releases + (if InFlight(s.phase) then 1 else 0)
  {
    RunInvariant(g, boot, es);
  }

  lemma SentCarries(g: Geometry, boot: Boot, es: seq<Event>, s: State, c: nat, a: nat)
    requires Reaches(g, boot, es, s) && c < |s.connections| && s.connections[c].first <= a < Upcoming(s.connections[c])
    requires Guarded(s.ring, a)
    ensures Carries(s.ring, a, s.connections[c].payloads[a - s.connections[c].first])
  {
    RunInvariant(g, boot, es);
    ConnectionKept(g, s, c);
  }

  lemma EndedOrUnderWay(g: Geometry, boot: Boot, es: seq<Event>, s: State, c: nat)
    requires Reaches(g, boot, es, s) && c < |s.connections| && Upcoming(s.connections[c]) < s.attempts
    ensures EndedBy(s, c, Upcoming(s.connections[c])) || UnderWay(s, c, Upcoming(s.connections[c]))
  {
    RunInvariant(g, boot, es);
  }

  /**
   * From send 1 on no frame gets lost but those whose send threw, one per connection that ended: every frame behind
   * `origin` has not come up for sending yet, or came up on exactly one connection, where it was sent whole, or ended
   * the connection, or is under way.
   */
  lemma FateOfEveryFrame(g: Geometry, boot: Boot, es: seq<Event>, s: State, f: nat)
    requires Reaches(g, boot, es, s) && s.ring.releases > 0 && s.ring.origin < f < |s.ring.produced|
    ensures f - s.ring.origin >= s.attempts ==> Index(s.ring) <= f
    ensures f - s.ring.origin < s.attempts ==>
              exists c :: 0 <= c < |s.connections| && Covers(s.connections[c], f - s.ring.origin)
                && (forall d :: 0 <= d < |s.connections| && Covers(s.connections[d], f - s.ring.origin) ==> d == c)
                && (|| SentWhole(s.connections[c], f - s.ring.origin, s.ring.produced[f])
                    || EndedBy(s, c, f - s.ring.origin)
                    || UnderWay(s, c, f - s.ring.origin))
  {
    var a := f - s.ring.origin;
    AttemptsAndReleases(g, boot, es, s);
    if a < s.attempts {
      var c := SendsTile(g, boot, es, s, a);
      if a < Upcoming(s.connections[c]) {
        SentCarries(g, boot, es, s, c, a);
      } else {
        EndedOrUnderWay(g, boot, es, s, c);
      }
    }
  }

  /**
   * A reconnect loses exactly one frame: the next connection begins with the frame after the one whose send threw,
   * which was released all the same. So from send 1 on, its first frame number is the last one before plus 2.
   */
  lemma ReconnectLosesOneFrame(g: Geometry, boot: Boot, es: seq<Event>, s: State, c: nat)
    requires Reaches(g, boot, es, s) && c + 1 < |s.connections|
    ensures s.connections[c + 1].first == Upcoming(s.connections[c]) + 1
    ensures Upcoming(s.connections[c]) >= 2 && s.connections[c].payloads != [] ==>
              FrameNumber(s, c + 1, 0) == FrameNumber(s, c, |s.connections[c].payloads| - 1) + 2
  {
    RunInvariant(g, boot, es);
  }

  /** Over any number of reconnects frame numbers strictly increase, with a gap of at least one frame for each. */
  lemma NumbersIncreaseAcrossConnections(g: Geometry, boot: Boot, es: seq<Event>, s: State,
                                         c: nat, m: nat, d: nat, n: nat)
    requires Reaches(g, boot, es, s) && c < d < |s.connections|
    requires m < |s.connections[c].payloads| && n < |s.connections[d].payloads|
    ensures FrameNumber(s, c, m) + 1 < FrameNumber(s, d, n)
  {
    RunInvariant(g, boot, es);
    BeforeFirstRelease(g, s, d);
    ChainedApart(s.connections, c, d);
  }

  // ----- the connection flag -----

  /** The flag read off the history alone: an accept succeeded and no clear came after it. */
  ghost predicate AcceptedSinceClear(es: seq<Event>) {
    exists i :: 0 <= i < |es| && es[i] == AcceptOk && forall j :: i < j < |es| ==> es[j] != Clear
  }

  lemma AcceptedSinceClearSnoc(es: seq<Event>, e: Event)
    ensures AcceptedSinceClear(es + [e]) <==> e == AcceptOk || (e != Clear && AcceptedSinceClear(es))
  {
    var all := es + [e];
    if e == AcceptOk {
      assert all[|es|] == AcceptOk;
    }
    if e != Clear && AcceptedSinceClear(es) {
      var i :| 0 <= i < |es| && es[i] == AcceptOk && forall j :: i < j < |es| ==> es[j] != Clear;
      assert all[i] == AcceptOk && forall j :: i < j < |all| ==> all[j] != Clear;
    }
    if AcceptedSinceClear(all) && e != AcceptOk {
      var i :| 0 <= i < |all| && all[i] == AcceptOk && forall j :: i < j < |all| ==> all[j] != Clear;
      assert all[|es|] == e;
      assert es[i] == AcceptOk;
      forall j | i < j < |es|
        ensures es[j] != Clear
      {
        assert all[j] == es[j];
      }
    }
  }

  /** The flag is set exactly when an accept succeeded since the latest accept_connection. */
  lemma FlagIffAccepted(g: Geometry, boot: Boot, es: seq<Event>, s: State)
    requires Reaches(g, boot, es, s)
    ensures s.hasConnection <==> AcceptedSinceClear(es)
    decreases |es|
  {
    if es != [] {
      var front, e := es[..|es| - 1], es[|es| - 1];
      assert es == front + [e];
      LastEvent(g, Init(g, boot), front, e);
      var before := Exec(g, Init(g, boot), front).value;
      FlagIffAccepted(g, boot, front, before);
      AcceptedSinceClearSnoc(front, e);
    }
  }

  lemma {:induction false} LastEvent(g: Geometry, s: State, front: seq<Event>, e: Event)
    requires SlotsInRange(g, s) && Exec(g, s, front + [e]).Some?
    ensures Exec(g, s, front).Some?
    ensures Next(g, Exec(g, s, front).value, e) == Exec(g, s, front + [e])
    decreases |front|
  {
    var all := front + [e];
    if front == [] {
      assert all == [e] && all[1..] == [];
    } else {
      assert all[1..] == front[1..] + [e];
      LastEvent(g, Next(g, s, front[0]).value, front[1..], e);
    }
  }

  /**
   * A completed accept is cleared only by the failure of a later send: never by the call of accept_connection
   * that registered it.
   */
  lemma ClearNeedsFailedSend(g: Geometry, boot: Boot, before: seq<Event>, es: seq<Event>, s: State)
    requires Reaches(g, boot, before + [AcceptOk] + es + [Clear], s)
    ensures exists k :: 0 <= k < |es| && es[k].SendThrows?
  {
    var init := Init(g, boot);
    LastEvent(g, init, before + [AcceptOk] + es, Clear);
    SplitRun(g, init, before + [AcceptOk], es);
    LastEvent(g, init, before, AcceptOk);
    RunInvariant(g, boot, before);
    OnlySendThrowsClears(g, Exec(g, init, before + [AcceptOk]).value, es);
  }

  lemma {:induction false} SplitRun(g: Geometry, s: State, a: seq<Event>, b: seq<Event>)
    requires SlotsInRange(g, s) && Exec(g, s, a + b).Some?
    ensures Exec(g, s, a).Some? && Exec(g, Exec(g, s, a).value, b) == Exec(g, s, a + b)
    decreases |a|
  {
    if a == [] {
      assert a + b == b;
    } else {
      assert (a + b)[1..] == a[1..] + b;
      SplitRun(g, Next(g, s, a[0]).value, a[1..], b);
    }
  }

  lemma {:induction false} OnlySendThrowsClears(g: Geometry, s: State, es: seq<Event>)
    requires SlotsInRange(g, s) && s.phase != ClearFlag
    requires Exec(g, s, es).Some? && Exec(g, s, es).value.phase == ClearFlag
    ensures exists k :: 0 <= k < |es| && es[k].SendThrows?
    decreases |es|
  {
    if es != [] && !es[0].SendThrows? {
      OnlySendThrowsClears(g, Next(g, s, es[0]).value, es[1..]);
      var k :| 0 <= k < |es[1..]| && es[1..][k].SendThrows?;
      assert es[k + 1].SendThrows?;
    }
  }
}
