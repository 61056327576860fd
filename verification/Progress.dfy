/** Progress of the main thread under any interleaving: it is never stuck, and a pending frame is soon released. */
module Progress {
  import opened RingGeometry
  import opened RingProtocol
  import opened BoundedQueue
  import opened Station
  import opened StationTheorems

  lemma CopyCanGoOn(g: Geometry, boot: Boot, es: seq<Event>, s: State)
    requires Reaches(g, boot, es, s)
    ensures SlotsInRange(g, s)
    ensures s.phase.Copying? ==>
              s.connections != [] && |s.phase.copied| <= g.dataSize == |s.ring.slots[s.ring.position]|
  {
    RunInvariant(g, boot, es);
  }

  /** In every reachable state the main thread has a next event that can happen. */
  lemma MainIsEnabled(g: Geometry, boot: Boot, es: seq<Event>, s: State) returns (e: Event)
    requires Reaches(g, boot, es, s)
    ensures IsMain(e) && SlotsInRange(g, s) && Next(g, s, e).Some?
  {
    CopyCanGoOn(g, boot, es, s);
    match s.phase
    case CheckConnection => e := Check;
    case TestData => e := Test;
    case Copying(copied) => e := if |copied| < g.dataSize then CopyByte else SendDone;
    case ClearFlag => e := Clear;
    case CloseSocket => e := Close;
    case RegisterAccept => e := Register;
    case MovePointer => e := Move;
  }

  /** A frame is pending and the main thread is going to see it: it is connected, or past the test already. */
  ghost predicate Heading(s: State) {
    && s.ring.releases > 0
    && Index(s.ring) < |s.ring.produced|
    && (s.phase.CheckConnection? ==> s.hasConnection)
  }

  /** A bound on the main thread's events before the release. */
  function Rank(g: Geometry, s: State): int {
    match s.phase
    case CheckConnection => g.dataSize + 6
    case TestData => g.dataSize + 5
    case Copying(copied) => g.dataSize - |copied| + 4
    case ClearFlag => 3
    case CloseSocket => 2
    case RegisterAccept => 1
    case MovePointer => 0
  }

  lemma StepLowersRank(g: Geometry, s: State, e: Event, s': State)
    requires Inv(g, s) && Heading(s) && Next(g, s, e) == Some(s') && e != Move
    ensures Heading(s') && Index(s'.ring) == Index(s.ring)
    ensures 0 <= Rank(g, s') <= Rank(g, s) - if IsMain(e) then 1 else 0
  {
    TestExact(g, s.ring);
  }

  lemma {:induction false} RunLowersRank(g: Geometry, boot: Boot, before: seq<Event>, s: State, es: seq<Event>, s': State)
    requires Reaches(g, boot, before, s) && Heading(s)
    requires Reaches(g, boot, before + es, s') && Move !in es
    ensures Heading(s') && Index(s'.ring) == Index(s.ring)
    ensures 0 <= Rank(g, s') <= Rank(g, s) - |Mine(es)|
    decreases |es|
  {
    if es == [] {
      assert before + [] == before;
      RankIsBound(g, boot, before, s);
    } else {
      var front, e := es[..|es| - 1], es[|es| - 1];
      assert es == front + [e] && before + es == before + front + [e] && e in es;
      LastEvent(g, Init(g, boot), before + front, e);
      var t := Exec(g, Init(g, boot), before + front).value;
      RunLowersRank(g, boot, before, s, front, t);
      RunInvariant(g, boot, before + front);
      StepLowersRank(g, t, e, s');
      MineSnoc(front, e);
    }
  }

  lemma RankIsBound(g: Geometry, boot: Boot, es: seq<Event>, s: State)
    requires Reaches(g, boot, es, s)
    ensures 0 <= Rank(g, s) <= g.dataSize + 6
  {
    RunInvariant(g, boot, es);
  }

  /**
   * A pending frame is released, whatever happens in between: from a state that is heading for it, no interleaving
   * without a release has more than dataSize + 6 events of the main thread, of which one can always happen; and
   * the release is that of the oldest pending frame.
   */
  lemma {:induction false} ReleaseComes(g: Geometry, boot: Boot, before: seq<Event>, s: State, es: seq<Event>, s': State)
    requires Reaches(g, boot, before, s) && Heading(s)
    requires Reaches(g, boot, before + es, s') && Move !in es
    ensures |Mine(es)| <= g.dataSize + 6
    ensures SlotsInRange(g, s') && exists e :: IsMain(e) && Next(g, s', e).Some?
    ensures s'.ring.releases > 0
    ensures s'.phase.MovePointer? ==> Index(Next(g, s', Move).value.ring) == Index(s.ring) + 1
  {
    RunLowersRank(g, boot, before, s, es, s');
    RankIsBound(g, boot, before, s);
    var e := MainIsEnabled(g, boot, before + es, s');
    RunInvariant(g, boot, before + es);
    if s'.phase.MovePointer? {
      ReleaseKeepsInv(g, s'.ring);
    }
  }

  lemma BlockedAfterRelease(g: Geometry, r: Ring)
    requires RingInv(g, r)
    ensures FpgaBlocked(g, Release(g, r)) <==> r.fpgaSlot == r.position
  {
    SlotAddressInjective(g, FpgaNext(g, r), NextPosition(g, r.position));
  }

  /**
   * A release leaves the FPGA blocked exactly if the FPGA is in the slot released, which is so only at the first
   * release, when it has come back to slot 0.
   */
  lemma ReleaseUnblocksIff(g: Geometry, boot: Boot, es: seq<Event>, s: State)
    requires Reaches(g, boot, es, s) && s.phase.MovePointer?
    ensures SlotsInRange(g, s)
    ensures FpgaBlocked(g, Next(g, s, Move).value.ring) <==> s.ring.fpgaSlot == s.ring.position
    ensures s.ring.releases > 0 ==> s.ring.fpgaSlot != s.ring.position
  {
    RunInvariant(g, boot, es);
    BlockedAfterRelease(g, s.ring);
    if s.ring.releases > 0 {
      HeldSlotIsStable(g, s.ring);
    }
  }

  lemma BlockedIsHeading(g: Geometry, boot: Boot, es: seq<Event>, s: State)
    requires Reaches(g, boot, es, s) && FpgaBlocked(g, s.ring) && (s.phase.CheckConnection? ==> s.hasConnection)
    ensures Heading(s)
  {
    RunInvariant(g, boot, es);
    NeverDeadlocked(g, boot, es, s);
    TestExact(g, s.ring);
    BlockedIffFull(g, s.ring);
  }

  /**
   * A connected consumer frees a blocked FPGA under every interleaving: after at most dataSize + 6 events of the main
   * thread the next release happens, and it unblocks the FPGA.
   */
  lemma {:induction false} BlockedProducerIsFreed(g: Geometry, boot: Boot, before: seq<Event>, s: State, es: seq<Event>, s': State)
    requires Reaches(g, boot, before, s) && FpgaBlocked(g, s.ring) && (s.phase.CheckConnection? ==> s.hasConnection)
    requires Reaches(g, boot, before + es, s') && Move !in es
    ensures |Mine(es)| <= g.dataSize + 6
    ensures SlotsInRange(g, s') && exists e :: IsMain(e) && Next(g, s', e).Some?
    ensures s'.phase.MovePointer? ==>
              var r := Next(g, s', Move).value.ring;
              !FpgaBlocked(g, r) && Index(r) == Index(s.ring) + 1
  {
    BlockedIsHeading(g, boot, before, s);
    ReleaseComes(g, boot, before, s, es, s');
    if s'.phase.MovePointer? {
      ReleaseUnblocksIff(g, boot, before + es, s');
    }
  }

  // ----- a failed accept -----

  /** No connection, and no accept that could bring one. */
  predicate Deaf(s: State) {
    !s.hasConnection && !s.acceptPending && (s.phase.CheckConnection? || s.phase.MovePointer?)
  }

  lemma StepDeafIff(g: Geometry, s: State, e: Event, s': State)
    requires Inv(g, s) && Next(g, s, e) == Some(s')
    ensures Deaf(s') <==> Deaf(s) || e == AcceptFailed
  {
  }

  /** The server has become deaf exactly if an accept failed: the handler registers no other. */
  lemma DeafIffAcceptFailed(g: Geometry, boot: Boot, es: seq<Event>, s: State)
    requires Reaches(g, boot, es, s)
    ensures Deaf(s) <==> AcceptFailed in es
    decreases |es|
  {
    if es != [] {
      var front, e := es[..|es| - 1], es[|es| - 1];
      assert es == front + [e];
      LastEvent(g, Init(g, boot), front, e);
      var t := Exec(g, Init(g, boot), front).value;
      DeafIffAcceptFailed(g, boot, front, t);
      RunInvariant(g, boot, front);
      StepDeafIff(g, t, e, s);
    }
  }

  lemma NotDeaf(g: Geometry, boot: Boot, es: seq<Event>, s: State)
    requires Reaches(g, boot, es, s) && !Deaf(s)
    ensures s.hasConnection || s.acceptPending || s.phase.CloseSocket? || s.phase.RegisterAccept?
    ensures s.phase.CloseSocket? || s.phase.RegisterAccept? ==> !s.acceptPending
  {
    RunInvariant(g, boot, es);
  }

  /** A server that is not deaf can be connected to: now, or once accept_connection has finished. */
  lemma ListenerCanConnect(g: Geometry, boot: Boot, es: seq<Event>, s: State)
    returns (more: seq<Event>, s': State)
    requires Reaches(g, boot, es, s) && !Deaf(s)
    ensures Reaches(g, boot, es + more, s') && s'.hasConnection
    decreases if s.hasConnection then 0 else if s.phase.CloseSocket? then 3 else if s.phase.RegisterAccept? then 2 else 1
  {
    NotDeaf(g, boot, es, s);
    if s.hasConnection {
      more, s' := [], s;
      assert es + more == es;
    } else {
      var e := if s.phase.CloseSocket? then Close else if s.phase.RegisterAccept? then Register else AcceptOk;
      ReachesNext(g, boot, es, s, e);
      var rest;
      rest, s' := ListenerCanConnect(g, boot, es + [e], Next(g, s, e).value);
      more := [e] + rest;
      assert es + more == es + [e] + rest;
    }
  }

  lemma {:induction false} DeafStays(g: Geometry, s: State, es: seq<Event>)
    requires SlotsInRange(g, s) && Deaf(s) && Exec(g, s, es).Some?
    ensures Deaf(Exec(g, s, es).value) && Exec(g, s, es).value.connections == s.connections
    decreases |es|
  {
    if es != [] {
      DeafStays(g, Next(g, s, es[0]).value, es[1..]);
    }
  }

  /** An accept that fails is the last: no client is ever served afterwards. */
  lemma FailedAcceptIsLast(g: Geometry, boot: Boot, before: seq<Event>, s: State, es: seq<Event>, s': State)
    requires Reaches(g, boot, before, s) && AcceptFailed in before && Reaches(g, boot, before + es, s')
    ensures !s'.hasConnection && s'.connections == s.connections
  {
    DeafIffAcceptFailed(g, boot, before, s);
    SplitRun(g, Init(g, boot), before, es);
    DeafStays(g, s, es);
  }

  /** Exactly when the server can still have a client, now or later: as long as no accept has failed. */
  lemma ServerReachableIff(g: Geometry, boot: Boot, es: seq<Event>, s: State)
    requires Reaches(g, boot, es, s)
    ensures (exists more, s' :: Reaches(g, boot, es + more, s') && s'.hasConnection) <==> AcceptFailed !in es
  {
    if AcceptFailed in es {
      forall more, s' | Reaches(g, boot, es + more, s')
        ensures !s'.hasConnection
      {
        FailedAcceptIsLast(g, boot, es, s, more, s');
      }
    } else {
      DeafIffAcceptFailed(g, boot, es, s);
      var more, s' := ListenerCanConnect(g, boot, es, s);
    }
  }

  /** The shortest run to a deaf server: the first accept fails. */
  lemma FirstAcceptCanFail(g: Geometry, boot: Boot) returns (s: State)
    requires Bootable(g, boot)
    ensures Reaches(g, boot, [AcceptFailed], s) && Deaf(s)
    ensures forall more, s' :: Reaches(g, boot, [AcceptFailed] + more, s') ==> !s'.hasConnection && s'.connections == []
  {
    var init := Init(g, boot);
    assert Reaches(g, boot, [], init);
    ReachesNext(g, boot, [], init, AcceptFailed);
    s := Next(g, init, AcceptFailed).value;
    assert [] + [AcceptFailed] == [AcceptFailed];
    forall more, s' | Reaches(g, boot, [AcceptFailed] + more, s')
      ensures !s'.hasConnection && s'.connections == []
    {
      FailedAcceptIsLast(g, boot, [AcceptFailed], s, more, s');
    }
  }
}
