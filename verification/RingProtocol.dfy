/**
 * The ring as a two-party protocol on two pointer registers.
 *
 * The producer is the FPGA, which is not part of the repository. The assumption made about it is
 * confined to FpgaPointer, FpgaBlocked, FpgaWrite and FpgaAdvance: while it writes slot w its register holds the
 * end address of w, it writes only there, and it moves on to slot (w+1) mod length, which completes
 * the frame in w, unless the start of the new slot equals the Linux pointer. Which slot it is in when the program
 * starts, and what the memory then holds, is arbitrary.
 */
module RingProtocol {
  import opened Machine
  import opened RingGeometry

  type Frame = Bytes

  /** What the program finds when it starts: the contents of the slots and the slot the FPGA is in. */
  datatype Boot = Boot(memory: seq<Frame>, fpgaSlot: nat)

  /**
   * slots, fpgaSlot, linuxPointer and position are the real state. The rest is history: every
   * completed frame, the number of releases, and the frame index counted back from the first release; and of the
   * first send, which is made before any release, the frame number it started on and whether it ended before the
   * FPGA was back in its slot.
   */
  datatype Ring = Ring(slots: seq<Frame>, fpgaSlot: int, linuxPointer: int, position: int,
                       produced: seq<Frame>, releases: nat, origin: int, lap: int, intact: bool)

  /** What the slots before the FPGA's hold at the start counts as the first frames. */
  function Start(g: Geometry, boot: Boot): Ring
    requires boot.fpgaSlot <= |boot.memory|
  {
    Ring(boot.memory, boot.fpgaSlot, Sentinel(g), 0, boot.memory[..boot.fpgaSlot], 0, 0, 0, false)
  }

  /** A geometry and a start state the program can find. */
  predicate Bootable(g: Geometry, boot: Boot) {
    Fits(g) && boot.fpgaSlot < g.length == |boot.memory| && forall k :: 0 <= k < |boot.memory| ==> |boot.memory[k]| == g.dataSize
  }

  // ----- assumed producer -----

  function FpgaPointer(g: Geometry, r: Ring): int {
    SlotEnd(g, r.fpgaSlot)
  }

  /** Said without slot addresses: the end of its slot, as a 32-bit value. */
  lemma FpgaPointerMeans(g: Geometry, r: Ring)
    ensures -0x8000_0000 <= FpgaPointer(g, r) < 0x8000_0000
    ensures (FpgaPointer(g, r) - (g.base + g.dataSize * (r.fpgaSlot + 1))) % 0x1_0000_0000 == 0
  {
    SlotAddressMeans(g, r.fpgaSlot + 1, FpgaPointer(g, r));
  }

  function FpgaNext(g: Geometry, r: Ring): int {
    if r.fpgaSlot + 1 == g.length then 0 else r.fpgaSlot + 1
  }

  predicate FpgaBlocked(g: Geometry, r: Ring) {
    SlotAddress(g, FpgaNext(g, r)) == r.linuxPointer
  }

  function FpgaWrite(r: Ring, contents: Frame): Ring
    requires 0 <= r.fpgaSlot < |r.slots|
  {
    r.(slots := r.slots[r.fpgaSlot := contents])
  }

  function FpgaAdvance(g: Geometry, r: Ring): Ring
    requires 0 <= r.fpgaSlot < |r.slots|
  {
    r.(fpgaSlot := FpgaNext(g, r), produced := r.produced + [r.slots[r.fpgaSlot]])
  }

  // ----- the consumer's release, movePointer -----

  /** The consumer's logical index: the number of the frame in its slot. Meaningful after a release. */
  function Index(r: Ring): int {
    r.origin + r.releases
  }

  /** The newest index not beyond the producer that lives in slot p. */
  function NewestIndexAt(g: Geometry, r: Ring, p: int): int
    requires 0 < g.length
  {
    |r.produced| - (|r.produced| - p) % g.length
  }

  function Release(g: Geometry, r: Ring): Ring
    requires 0 < g.length
  {
    var p := NextPosition(g, r.position);
    r.(position := p, linuxPointer := SlotAddress(g, p), releases := r.releases + 1,
       origin := if r.releases == 0 then NewestIndexAt(g, r, p) - 1 else r.origin)
  }

  // ----- the first send -----

  /** The newest frame of slot 0, where the consumer starts. */
  function LapStart(g: Geometry, r: Ring): int
    requires 0 < g.length
  {
    |r.produced| - |r.produced| % g.length
  }

  /** A send begins. */
  function Begun(g: Geometry, r: Ring, attempts: nat): Ring
    requires 0 < g.length
  {
    if attempts == 0 then r.(lap := LapStart(g, r)) else r
  }

  /** A send ends. */
  function Ended(g: Geometry, r: Ring): Ring {
    if r.releases == 0 then r.(intact := |r.produced| < r.lap + g.length) else r
  }

  // ----- invariants -----

  /** The last length-1 completed frames are intact in their slots. */
  ghost predicate Window(g: Geometry, r: Ring)
    requires 0 < g.length == |r.slots|
  {
    forall k :: 0 <= k < |r.produced| && |r.produced| < k + g.length ==> r.slots[k % g.length] == r.produced[k]
  }

  ghost predicate RingInv(g: Geometry, r: Ring) {
    && Fits(g)
    && |r.slots| == g.length
    && (forall k :: 0 <= k < |r.slots| ==> |r.slots[k]| == g.dataSize)
    && (forall k :: 0 <= k < |r.produced| ==> |r.produced[k]| == g.dataSize)
    && r.fpgaSlot == |r.produced| % g.length
    && 0 <= r.position < g.length
    && Window(g, r)
    && (r.releases == 0 ==> r.position == 0 && r.linuxPointer == Sentinel(g))
    && (r.releases > 0 ==> RunningInv(g, r))
  }

  /** From the first release on: the consumer owns its slot's index and is less than one lap behind. */
  ghost predicate RunningInv(g: Geometry, r: Ring) {
    && Fits(g)
    && r.linuxPointer == SlotAddress(g, r.position)
    && 0 <= r.origin
    && 1 <= Index(r) <= |r.produced| < Index(r) + g.length
    && Index(r) % g.length == r.position
  }

  /** The consumer may read its slot: a test was true and no release happened since. */
  ghost predicate Held(r: Ring) {
    if r.releases == 0 then 0 < |r.produced| else Index(r) < |r.produced|
  }

  /** From the first send on: the first send started on a completed frame of slot 0, before those released later. */
  ghost predicate LapInv(g: Geometry, r: Ring)
    requires 0 < g.length
  {
    && r.lap % g.length == 0
    && 0 <= r.lap < |r.produced|
    && (r.releases > 0 ==> r.lap <= r.origin)
  }

  lemma StartHolds(g: Geometry, boot: Boot)
    requires Bootable(g, boot)
    ensures RingInv(g, Start(g, boot))
  {
    var r := Start(g, boot);
    ModOfMultiple(g.length, 0, boot.fpgaSlot);
    forall k | 0 <= k < |r.produced|
      ensures r.slots[k % g.length] == r.produced[k]
    {
      ModOfMultiple(g.length, 0, k);
    }
  }

  /** The Linux pointer, said likewise: one slot behind the end of the ring until the first release, then the consumer's slot. */
  lemma LinuxPointerMeans(g: Geometry, r: Ring)
    requires RingInv(g, r)
    ensures -0x8000_0000 <= r.linuxPointer < 0x8000_0000
    ensures (r.linuxPointer - (g.base + g.dataSize * if r.releases == 0 then g.length + 1 else r.position)) % 0x1_0000_0000 == 0
  {
    SlotAddressMeans(g, if r.releases == 0 then g.length + 1 else r.position, r.linuxPointer);
  }

  /** Two indices of one window occupy different slots. */
  lemma SlotsDiffer(g: Geometry, j: int, k: int)
    requires 0 < g.length && j != k && -g.length < j - k < g.length
    ensures j % g.length != k % g.length
  {
    if j < k {
      ModSeparates(k, j, g.length);
    } else {
      ModSeparates(j, k, g.length);
    }
  }

  lemma WriteKeepsInv(g: Geometry, r: Ring, contents: Frame)
    requires RingInv(g, r) && |contents| == g.dataSize
    ensures RingInv(g, FpgaWrite(r, contents))
    ensures Held(r) ==> Held(FpgaWrite(r, contents))
  {
    var r' := FpgaWrite(r, contents);
    forall k | 0 <= k < |r.produced| && |r.produced| < k + g.length
      ensures r'.slots[k % g.length] == r.produced[k]
    {
      SlotsDiffer(g, k, |r.produced|);
    }
  }

  /** After the first release the producer is blocked exactly when it is one slot behind the consumer. */
  lemma BlockedIffFull(g: Geometry, r: Ring)
    requires RingInv(g, r)
    ensures r.releases == 0 ==> !FpgaBlocked(g, r)
    ensures r.releases > 0 ==> (FpgaBlocked(g, r) <==> |r.produced| - Index(r) == g.length - 1)
  {
    var t := |r.produced|;
    ModSuccessor(t, g.length);
    assert FpgaNext(g, r) == (t + 1) % g.length;
    if r.releases == 0 {
      SentinelIsNoSlot(g, FpgaNext(g, r));
    } else {
      SlotAddressInjective(g, FpgaNext(g, r), r.position);
      if t - Index(r) == g.length - 1 {
        ModOfSum(Index(r), g.length);
      } else {
        SlotsDiffer(g, t + 1, Index(r));
      }
    }
  }

  lemma ModOfSum(a: int, n: int)
    requires 0 < n
    ensures (a + n) % n == a % n
  {
    ModOfMultiple(n, a / n + 1, a % n);
    assert a + n == n * (a / n + 1) + a % n;
  }

  lemma AdvanceKeepsInv(g: Geometry, r: Ring)
    requires RingInv(g, r) && !FpgaBlocked(g, r)
    ensures RingInv(g, FpgaAdvance(g, r))
    ensures Held(r) ==> Held(FpgaAdvance(g, r))
  {
    var t := |r.produced|;
    ModSuccessor(t, g.length);
    BlockedIffFull(g, r);
  }

  /**
   * Exactness of the pointer test in every reachable state: it compares the two parties' slots, and after
   * the first release it is false exactly when no completed frame is unreleased.
   */
  lemma TestExact(g: Geometry, r: Ring)
    requires RingInv(g, r)
    ensures DataAvailable(g, r.position, FpgaPointer(g, r)) <==> r.fpgaSlot != r.position
    ensures r.releases > 0 ==> (DataAvailable(g, r.position, FpgaPointer(g, r)) <==> Index(r) < |r.produced|)
    ensures DataAvailable(g, r.position, FpgaPointer(g, r)) ==> Held(r)
    // the wrap branch of the test is dead
    ensures r.position + 1 < g.length + 1
  {
    TestComparesSlots(g, r.position, r.fpgaSlot);
    if r.releases > 0 && Index(r) < |r.produced| {
      HeldSlotIsStable(g, r);
    } else if r.releases == 0 && r.fpgaSlot != 0 {
      assert r.produced != [] by {
        if |r.produced| == 0 {
          ModOfMultiple(g.length, 0, 0);
        }
      }
    }
  }

  /**
   * The first release establishes the running invariant, given only that its test was true; every later
   * one preserves it and moves the consumer by exactly one frame.
   */
  lemma ReleaseKeepsInv(g: Geometry, r: Ring)
    requires RingInv(g, r) && Held(r)
    ensures RingInv(g, Release(g, r))
    ensures r.releases > 0 ==> Index(Release(g, r)) == Index(r) + 1
  {
    var r' := Release(g, r);
    if r.releases > 0 {
      ModSuccessor(Index(r), g.length);
    } else {
      NewestIndexFits(g, r, r'.position);
    }
  }

  /** The first send starts on a frame of slot 0 that is complete, and the FPGA is less than one lap ahead. */
  lemma BegunHolds(g: Geometry, r: Ring)
    requires RingInv(g, r) && r.releases == 0 && r.fpgaSlot != 0
    ensures LapInv(g, Begun(g, r, 0))
    ensures |r.produced| < LapStart(g, r) + g.length
  {
    var t := |r.produced|;
    DivBounds(t, g.length);
    assert LapStart(g, r) == g.length * (t / g.length) + 0;
    ModOfMultiple(g.length, t / g.length, 0);
  }

  lemma LapAtMost(lap: int, t: int, n: int)
    requires 0 < n && lap % n == 0 && lap <= t
    ensures lap <= t - t % n
  {
    var a, b := lap / n, t / n;
    assert lap == n * a && t == n * b + t % n;
    if a > b {
      MulMonotone(n, b + 1, a);
    }
  }

  lemma ReleaseKeepsLap(g: Geometry, r: Ring)
    requires RingInv(g, r) && LapInv(g, r) && Held(r)
    ensures LapInv(g, Release(g, r))
  {
    if r.releases == 0 {
      LapAtMost(r.lap, |r.produced| - 1, g.length);
    }
  }

  /** Slot 0 holds the frame the first send started on until the FPGA is back in it. */
  lemma LapIsStable(g: Geometry, r: Ring)
    requires RingInv(g, r) && LapInv(g, r)
    ensures |r.produced| < r.lap + g.length ==> r.slots[0] == r.produced[r.lap]
    ensures |r.produced| <= r.lap + g.length ==> (r.fpgaSlot == 0 <==> |r.produced| == r.lap + g.length)
  {
    ModOfMultiple(g.length, 0, 0);
    if |r.produced| == r.lap + g.length {
      ModOfSum(r.lap, g.length);
    } else if |r.produced| < r.lap + g.length {
      ModSeparates(|r.produced|, r.lap, g.length);
    }
  }

  /** Counting back from the producer finds a frame number for the consumer's slot, never before frame 1. */
  lemma NewestIndexFits(g: Geometry, r: Ring, p: int)
    requires 0 < g.length && p == NextPosition(g, 0) && 0 < |r.produced|
    ensures 1 <= NewestIndexAt(g, r, p) <= |r.produced| < NewestIndexAt(g, r, p) + g.length
    ensures NewestIndexAt(g, r, p) % g.length == p
  {
    var t, n := |r.produced|, g.length;
    var back := (t - p) % n;
    assert t - back == n * ((t - p) / n) + p;
    ModOfMultiple(n, (t - p) / n, p);
    if n == 1 {
      assert back == 0;
    } else {
      ModAtMost(t - 1, n);
    }
  }

  lemma ModAtMost(a: int, n: int)
    requires 0 <= a && 0 < n
    ensures a % n <= a
  {
    if a / n < 0 {
      MulMonotone(n, a / n, -1);
    } else {
      MulMonotone(n, 0, a / n);
    }
    assert a == n * (a / n) + a % n;
  }

  /** Exclusive access: while the consumer holds its slot, the producer is elsewhere and the frame there is final. */
  lemma HeldSlotIsStable(g: Geometry, r: Ring)
    requires RingInv(g, r) && r.releases > 0 && Held(r)
    ensures r.fpgaSlot != r.position
    ensures 0 <= Index(r) < |r.produced| && r.slots[r.position] == r.produced[Index(r)]
  {
    SlotsDiffer(g, Index(r), |r.produced|);
  }

  /** Completed and not yet released frames, oldest first: each is intact in its slot. */
  ghost function Pending(r: Ring): seq<Frame>
    requires r.releases > 0 && 0 <= Index(r) <= |r.produced|
  {
    r.produced[Index(r)..]
  }

  lemma PendingInSlots(g: Geometry, r: Ring, k: int)
    requires RingInv(g, r) && r.releases > 0 && 0 <= k < |Pending(r)|
    ensures Pending(r)[k] == r.slots[(Index(r) + k) % g.length]
    ensures |Pending(r)| <= g.length - 1
  {
    assert Pending(r)[k] == r.produced[Index(r) + k];
  }

  /** Progress: with at least two slots a blocked producer implies available data, so both parties are never stuck. */
  lemma NeverBothStuck(g: Geometry, r: Ring)
    requires RingInv(g, r)
    ensures r.releases > 0 && 2 <= g.length && FpgaBlocked(g, r) ==> DataAvailable(g, r.position, FpgaPointer(g, r))
    ensures r.releases == 0 ==> !FpgaBlocked(g, r)
    ensures g.length == 1 ==> !DataAvailable(g, r.position, FpgaPointer(g, r))
  {
    BlockedIffFull(g, r);
    TestExact(g, r);
  }
}
