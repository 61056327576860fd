/**
 * The program itself: the send loop of main over the ring buffer object and the TCP server's fields, run against
 * an arbitrary environment that acts between any two of its statements. The loop is shown to perform only runs
 * of the station, so everything proved about runs holds of the bytes it sends.
 */
module SendLoop {
  import opened Machine
  import opened RingGeometry
  import opened RingProtocol
  import opened SharedRing
  import opened TcpFraming
  import opened BoundedQueue
  import opened Station
  import opened StationTheorems
  import TcpClient

  /** What the FPGA or the accept handler's thread may do at an interleaving point, if it can. */
  datatype Action = FpgaWrites(contents: Frame) | FpgaMoves | AcceptSucceeds | AcceptFails

  /** Whether a send returns, or throws once `copied` image bytes were read and `taken` bytes accepted. */
  datatype Fate = Returns | Throws(copied: nat, taken: nat)

  function Wanted(g: Geometry, fate: Fate): nat
    requires 0 <= g.dataSize
  {
    if fate.Throws? then Min(fate.copied, g.dataSize) else g.dataSize
  }

  function Taken(g: Geometry, fate: Fate): nat
    requires 0 < g.dataSize && fate.Throws?
  {
    Min(fate.taken, Min(HEADER_BYTES + Wanted(g, fate), HEADER_BYTES + g.dataSize - 1))
  }

  /** The main thread's events in one send. */
  function SendEvents(g: Geometry, fate: Fate): seq<Event>
    requires 0 < g.dataSize
  {
    Copies(Wanted(g, fate))
    + if fate.Returns? then [SendDone] else [SendThrows(Taken(g, fate)), Clear, Close, Register]
  }

  /** What one send puts on the stream. */
  function SentBytes(g: Geometry, payload: Frame, fate: Fate): Bytes
    requires 0 < g.dataSize && |payload| == Wanted(g, fate)
  {
    var all := Encode(ImageMessage(g, payload));
    if fate.Returns? then all else all[..Taken(g, fate)]
  }

  /** How far one pass of the loop got. */
  datatype Outcome = NotConnected | NoData | SendMade

  /** The main thread's events in one pass. */
  function PassEvents(g: Geometry, fate: Fate, outcome: Outcome): seq<Event>
    requires 0 < g.dataSize
  {
    match outcome
    case NotConnected => [Check]
    case NoData => [Check, Test]
    case SendMade => [Check, Test] + SendEvents(g, fate) + [Move]
  }

  /** The main thread's events in successive passes. */
  function LoopEvents(g: Geometry, network: nat -> Fate, outcomes: seq<Outcome>): seq<Event>
    requires 0 < g.dataSize
    decreases |outcomes|
  {
    if outcomes == [] then []
    else
      var n := |outcomes| - 1;
      LoopEvents(g, network, outcomes[..n]) + PassEvents(g, network(n), outcomes[n])
  }

  function Sends(outcomes: seq<Outcome>): nat {
    if outcomes == [] then 0
    else Sends(outcomes[..|outcomes| - 1]) + if outcomes[|outcomes| - 1].SendMade? then 1 else 0
  }

  lemma {:induction false} OnePassMore(g: Geometry, network: nat -> Fate, outcomes: seq<Outcome>, outcome: Outcome)
    requires 0 < g.dataSize
    ensures LoopEvents(g, network, outcomes + [outcome])
         == LoopEvents(g, network, outcomes) + PassEvents(g, network(|outcomes|), outcome)
    ensures Sends(outcomes + [outcome]) == Sends(outcomes) + if outcome.SendMade? then 1 else 0
  {
    assert (outcomes + [outcome])[..|outcomes|] == outcomes;
  }

  /** The run went on, and `mine` is what the main thread did in it. */
  ghost predicate Grew(before: seq<Event>, after: seq<Event>, mine: seq<Event>) {
    before <= after && Mine(after) == Mine(before) + mine
  }

  lemma GrewTwice(a: seq<Event>, b: seq<Event>, c: seq<Event>, m: seq<Event>, n: seq<Event>)
    requires Grew(a, b, m) && Grew(b, c, n)
    ensures Grew(a, c, m + n)
  {
    ConcatAssoc(Mine(a), m, n);
  }

  /** The consumer is where it was; the FPGA may have produced. */
  ghost predicate ConsumerStays(a: Ring, b: Ring) {
    b.position == a.position && b.releases == a.releases && b.origin == a.origin && a.produced <= b.produced
  }

  /** What the main thread sees of the others: the FPGA may produce, and a pending accept may complete. */
  ghost predicate OnlyOthers(a: State, b: State) {
    && b.phase == a.phase && b.attempts == a.attempts
    && ConsumerStays(a.ring, b.ring)
    && (a.hasConnection ==> b.hasConnection)
    && (!a.acceptPending ==> !b.acceptPending && b.hasConnection == a.hasConnection && b.connections == a.connections)
  }

  ghost predicate Stepped(g: Geometry, before: State, e: Event, after: State) {
    SlotsInRange(g, before) && Next(g, before, e) == Some(after)
  }

  class SensorServer {
    const g: Geometry
    const registers: FPGARegisters
    const buffer: SharedRingBuffer

    // shared image memory and the FPGA's own slot counter
    var slots: seq<Frame>
    var fpgaSlot: int

    // TcpServer
    var hasConnection: bool
    var acceptPending: bool
    var streams: seq<Bytes>

    // the run performed so far
    ghost const boot: Boot
    ghost var trace: seq<Event>
    ghost var s: State

    ghost predicate Valid()
      reads this, buffer, registers.words
    {
      && buffer.Valid() && buffer.g == g && buffer.registers == registers
      && Reaches(g, boot, trace, s)
      && Matches()
    }

    /** The program's variables and registers hold what the station's state says. */
    ghost predicate Matches()
      requires registers.Valid()
      reads this, buffer, registers.words
    {
      && s.ring.slots == slots && s.ring.fpgaSlot == fpgaSlot
      && s.ring.position == buffer.position
      && registers.Value(BUFFER_LINUX_POINTER) == s.ring.linuxPointer
      && registers.Value(BUFFER_FPGA_POINTER) == FpgaPointer(g, s.ring)
      && s.hasConnection == hasConnection && s.acceptPending == acceptPending
      && |streams| == |s.connections|
      && forall i :: 0 <= i < |streams| ==> streams[i] == s.connections[i].stream
    }

    /** The FPGA's slot and the memory are as they are found. */
    constructor (base: int, dataSize: int, length: int, boot: Boot)
      requires Bootable(Geometry(base, dataSize, length), boot)
      ensures Valid() && trace == [] && s.phase.CheckConnection?
      ensures g == Geometry(base, dataSize, length) && this.boot == boot
      ensures !hasConnection && acceptPending && streams == [] && slots == boot.memory && fpgaSlot == boot.fpgaSlot
      ensures fresh(buffer) && fresh(registers.words)
    {
      var geometry := Geometry(base, dataSize, length);
      var bank := new FPGARegisters(CAM_REGISTER_BYTES);
      var ring := new SharedRingBuffer(base, dataSize, length, bank);
      g, registers, buffer := geometry, bank, ring;
      slots, fpgaSlot := boot.memory, boot.fpgaSlot;
      hasConnection, acceptPending, streams := false, true, [];
      this.boot, trace, s := boot, [], Init(geometry, boot);
      new;
      registers.SetRegisterValue(BUFFER_ADDRESS, base);
      registers.SetRegisterValue(BUFFER_LINUX_POINTER, Sentinel(g));
      registers.SetRegisterValue(BUFFER_FPGA_POINTER, SlotEnd(g, boot.fpgaSlot));
      RunInvariant(g, boot, []);
    }

    /** What the run invariant says where the program relies on it. */
    lemma KnownFacts()
      requires Valid()
      ensures SlotsInRange(g, s) && |slots[buffer.position]| == g.dataSize
      ensures acceptPending ==> !hasConnection
      ensures s.phase.Copying? || s.phase.ClearFlag? ==> s.connections != [] && hasConnection
      ensures Fits(g)
    {
      RunInvariant(g, boot, trace);
    }

    /** Bookkeeping: event e happened. */
    ghost method Did(e: Event)
      requires Reaches(g, boot, trace, s) && SlotsInRange(g, s) && Next(g, s, e).Some?
      modifies `trace, `s
      ensures Grew(old(trace), trace, if IsMain(e) then [e] else [])
      ensures Stepped(g, old(s), e, s)
      ensures Reaches(g, boot, trace, s)
    {
      ReachesNext(g, boot, trace, s, e);
      MineSnoc(trace, e);
      trace := trace + [e];
      s := Next(g, s, e).value;
    }

    // ----- environment -----

    method FpgaStep()
      requires Valid()
      modifies this, registers.words
      ensures Valid() && OnlyOthers(old(s), s) && streams == old(streams)
      ensures if FpgaBlocked(g, old(s).ring) then s == old(s) else Stepped(g, old(s), Advance, s)
      ensures Grew(old(trace), trace, [])
    {
      var next := if fpgaSlot + 1 == g.length then 0 else fpgaSlot + 1;
      var linuxPointer := registers.GetRegisterValue(BUFFER_LINUX_POINTER);
      if SlotAddress(g, next) != linuxPointer {
        fpgaSlot := next;
        registers.SetRegisterValue(BUFFER_FPGA_POINTER, SlotEnd(g, next));
        Did(Advance);
      }
    }

    /** handle_accept: on an error nothing but the end of the pending accept happens. */
    method HandleAccept(error: bool)
      requires Valid() && acceptPending
      modifies this
      ensures Valid() && Stepped(g, old(s), if error then AcceptFailed else AcceptOk, s)
      ensures hasConnection == (old(hasConnection) || !error) && OnlyOthers(old(s), s)
      ensures streams == if error then old(streams) else old(streams) + [[]]
      ensures Grew(old(trace), trace, [])
    {
      KnownFacts();
      acceptPending := false;
      if error {
        Did(AcceptFailed);
        return;
      }
      hasConnection := true;
      streams := streams + [[]];
      Did(AcceptOk);
    }

    method FpgaFill(contents: Frame)
      requires Valid() && |contents| == g.dataSize
      modifies this
      ensures Valid() && Stepped(g, old(s), Write(contents), s)
      ensures OnlyOthers(old(s), s) && streams == old(streams)
      ensures Grew(old(trace), trace, [])
    {
      KnownFacts();
      slots := slots[fpgaSlot := contents];
      Did(Write(contents));
    }

    method Act(action: Action)
      requires Valid()
      modifies this, registers.words
      ensures Valid() && OnlyOthers(old(s), s)
      ensures !old(acceptPending) ==> streams == old(streams)
      ensures Grew(old(trace), trace, [])
    {
      match action
      case FpgaMoves => FpgaStep();
      case AcceptSucceeds => if acceptPending { HandleAccept(false); }
      case AcceptFails => if acceptPending { HandleAccept(true); }
      case FpgaWrites(contents) => if |contents| == g.dataSize { FpgaFill(contents); }
    }

    /** The others act: only a pending accept can change what the TCP server's threads share. */
    method Interfere(actions: seq<Action>)
      requires Valid()
      modifies this, registers.words
      ensures Valid() && OnlyOthers(old(s), s)
      ensures !old(acceptPending) ==> streams == old(streams)
      ensures Grew(old(trace), trace, [])
    {
      for i := 0 to |actions|
        invariant Valid() && OnlyOthers(old(s), s)
        invariant !old(acceptPending) ==> streams == old(streams)
        invariant Grew(old(trace), trace, [])
      {
        Act(actions[i]);
      }
    }

    // ----- TcpServer -----

    /** Between its three statements the other threads run, and change nothing of what they share with it. */
    method AcceptConnection(actions: nat -> seq<Action>)
      requires Valid() && s.phase.ClearFlag?
      modifies this, registers.words
      ensures Valid() && s.phase.MovePointer? && !hasConnection && acceptPending
      ensures streams == old(streams) && s.connections == old(s).connections
      ensures ConsumerStays(old(s).ring, s.ring)
      ensures Grew(old(trace), trace, [Clear, Close, Register])
    {
      ClearConnectionFlag();
      Interfere(actions(0));
      CloseTheSocket();
      Interfere(actions(1));
      RegisterHandler();
      assert [Clear] + [] + [Close] + [] + [Register] == [Clear, Close, Register];
    }

    method ClearConnectionFlag()
      requires Valid() && s.phase.ClearFlag?
      modifies this
      ensures Valid() && s == old(s).(phase := CloseSocket, hasConnection := false)
      ensures !hasConnection && !acceptPending && streams == old(streams)
      ensures Grew(old(trace), trace, [Clear])
    {
      KnownFacts();
      hasConnection := false;
      Did(Clear);
    }

    method CloseTheSocket()
      requires Valid() && s.phase.CloseSocket?
      modifies this
      ensures Valid() && s == old(s).(phase := RegisterAccept)
      ensures hasConnection == old(hasConnection) && acceptPending == old(acceptPending) && streams == old(streams)
      ensures Grew(old(trace), trace, [Close])
    {
      Did(Close);
    }

    method RegisterHandler()
      requires Valid() && s.phase.RegisterAccept?
      modifies this
      ensures Valid() && s == old(s).(phase := MovePointer, acceptPending := true)
      ensures hasConnection == old(hasConnection) && acceptPending && streams == old(streams)
      ensures Grew(old(trace), trace, [Register])
    {
      acceptPending := true;
      Did(Register);
    }

    method CopyNext(copied: Frame) returns (longer: Frame)
      requires Valid() && s.phase == Copying(copied) && |copied| < g.dataSize
      modifies this
      ensures Valid() && s == old(s).(phase := Copying(longer)) && |longer| == |copied| + 1
      ensures hasConnection == old(hasConnection) && acceptPending == old(acceptPending) && streams == old(streams)
      ensures Grew(old(trace), trace, [CopyByte])
    {
      KnownFacts();
      longer := copied + [slots[buffer.position][|copied|]];
      Did(CopyByte);
    }

    /** Appends bytes to the current connection's stream. */
    method Put(bytes: Bytes)
      requires |streams| > 0
      modifies `streams
      ensures streams == old(streams[|streams| - 1 := streams[|streams| - 1] + bytes])
    {
      var last := |streams| - 1;
      streams := streams[last := streams[last] + bytes];
    }

    /** Reads `wanted` bytes out of the slot while the FPGA keeps running. */
    method CopyImage(wanted: nat, actions: nat -> seq<Action>) returns (copied: Frame)
      requires Valid() && s.phase == Copying([]) && wanted <= g.dataSize
      modifies this, registers.words
      ensures Valid() && s.phase == Copying(copied) && |copied| == wanted
      ensures streams == old(streams) && s.connections == old(s).connections && hasConnection
      ensures ConsumerStays(old(s).ring, s.ring)
      ensures Grew(old(trace), trace, Copies(wanted))
    {
      KnownFacts();
      copied := [];
      assert Copies(0) == [];
      while |copied| < wanted
        invariant |copied| <= wanted
        invariant Valid() && s.phase == Copying(copied) && !acceptPending && hasConnection
        invariant streams == old(streams) && s.connections == old(s).connections
        invariant ConsumerStays(old(s).ring, s.ring)
        invariant Grew(old(trace), trace, Copies(|copied|))
      {
        assert Copies(|copied|) + [CopyByte] == Copies(|copied| + 1);
        Interfere(actions(|copied|));
        copied := CopyNext(copied);
      }
      Interfere(actions(wanted));
    }

    /**
     * Header words, then the image. A send that returns has put the whole message on the current stream; one that throws
     * has put an initial part of it there and then waits for a new connection. From the second send on
     * the payload is, or begins, the held frame.
     */
    method SendData(header: Header, fate: Fate, actions: nat -> seq<Action>)
      returns (ghost payload: Frame, ghost sent: Bytes)
      requires Valid() && s.phase == Copying([]) && header == ImageHeader(g)
      modifies this, registers.words
      ensures Valid() && s.phase.MovePointer? && 0 < g.dataSize
      ensures |payload| == Wanted(g, fate) && |old(streams)| > 0
      ensures streams == old(streams)[|old(streams)| - 1 := old(streams[|streams| - 1]) + sent]
      ensures sent == SentBytes(g, payload, fate)
      ensures fate.Returns? ==>
                OnTheWire(g, payload, sent)
      ensures if fate.Returns? then hasConnection else !hasConnection && acceptPending
      ensures |s.connections| == |old(s).connections| == |old(streams)|
      ensures Current(s).payloads == Current(old(s)).payloads + if fate.Returns? then [payload] else []
      ensures s.ring.releases > 0 ==>
                0 <= Index(s.ring) < |s.ring.produced| && payload <= s.ring.produced[Index(s.ring)]
      ensures ConsumerStays(old(s).ring, s.ring)
      ensures Grew(old(trace), trace, SendEvents(g, fate))
    {
      KnownFacts();
      var headerPayload := BuildHeader(header);
      var words := headerPayload[0] + headerPayload[1] + headerPayload[2];
      var wanted := Wanted(g, fate);
      var copied := CopyImage(wanted, actions);
      payload, sent := copied, SentBytes(g, copied, fate);
      ImageOnTheWire(g, payload);
      Transmit(words, copied, fate, (k: nat) => actions(wanted + 1 + k));
    }

    /** The socket's part: the words and the image go out whole, or in part and the exception handler runs. */
    method Transmit(words: Bytes, copied: Frame, fate: Fate, actions: nat -> seq<Action>)
      requires Valid() && s.phase == Copying(copied) && 0 < g.dataSize && |copied| == Wanted(g, fate)
      requires words == EncodeHeader(ImageHeader(g))
      modifies this, registers.words
      ensures Valid() && s.phase.MovePointer? && ConsumerStays(old(s).ring, s.ring)
      ensures if fate.Returns? then hasConnection else !hasConnection && acceptPending
      ensures |old(streams)| == |s.connections| == |old(s).connections| > 0
      ensures Current(s).payloads == Current(old(s)).payloads + if fate.Returns? then [copied] else []
      ensures streams == old(streams)[|old(streams)| - 1 := old(streams[|streams| - 1]) + SentBytes(g, copied, fate)]
      ensures s.ring.releases > 0 ==>
                0 <= Index(s.ring) < |s.ring.produced| && copied <= s.ring.produced[Index(s.ring)]
      ensures Grew(old(trace), trace, if fate.Returns? then [SendDone] else [SendThrows(Taken(g, fate)), Clear, Close, Register])
    {
      if fate.Throws? {
        Failed(words, copied, Taken(g, fate), actions);
        assert Current(s).payloads + [] == Current(s).payloads;
      } else {
        Sent(words, copied);
      }
    }

    method Sent(words: Bytes, copied: Frame)
      requires Valid() && s.phase == Copying(copied) && |copied| == g.dataSize
      requires words == EncodeHeader(ImageHeader(g))
      modifies this
      ensures Valid() && s.phase.MovePointer? && ConsumerStays(old(s).ring, s.ring) && hasConnection
      ensures |old(streams)| == |s.connections| == |old(s).connections| > 0
      ensures Current(s).payloads == Current(old(s)).payloads + [copied]
      ensures streams == old(streams)[|old(streams)| - 1 := old(streams[|streams| - 1]) + Encode(ImageMessage(g, copied))]
      ensures s.ring.releases > 0 ==>
                0 <= Index(s.ring) < |s.ring.produced| && copied <= s.ring.produced[Index(s.ring)]
      ensures Grew(old(trace), trace, [SendDone])
    {
      KnownFacts();
      CopiedIsHeld();
      Put(words + copied);
      Did(SendDone);
    }

    /** The copy under way is of the held frame. */
    lemma CopiedIsHeld()
      requires Valid() && s.phase.Copying?
      ensures s.ring.releases > 0 ==>
                0 <= Index(s.ring) < |s.ring.produced| && s.phase.copied <= s.ring.produced[Index(s.ring)]
    {
      RunInvariant(g, boot, trace);
    }

    /** The handler of the exception: the flag is cleared and a new accept registered. */
    method Failed(words: Bytes, copied: Frame, taken: nat, actions: nat -> seq<Action>)
      requires Valid() && s.phase == Copying(copied)
      requires words == EncodeHeader(ImageHeader(g))
      requires taken <= HEADER_BYTES + |copied| && taken < HEADER_BYTES + g.dataSize
      modifies this, registers.words
      ensures Valid() && s.phase.MovePointer? && ConsumerStays(old(s).ring, s.ring) && !hasConnection && acceptPending
      ensures |old(streams)| == |s.connections| == |old(s).connections| > 0
      ensures Current(s).payloads == Current(old(s)).payloads
      ensures streams == old(streams)[|old(streams)| - 1 := old(streams[|streams| - 1]) + Encode(ImageMessage(g, copied))[..taken]]
      ensures s.ring.releases > 0 ==>
                0 <= Index(s.ring) < |s.ring.produced| && copied <= s.ring.produced[Index(s.ring)]
      ensures Grew(old(trace), trace, [SendThrows(taken), Clear, Close, Register])
    {
      Throw(words, copied, taken);
      Interfere(actions(0));
      AcceptConnection((k: nat) => actions(k + 1));
      assert [SendThrows(taken)] + [Clear, Close, Register] == [SendThrows(taken), Clear, Close, Register];
    }

    method Throw(words: Bytes, copied: Frame, taken: nat)
      requires Valid() && s.phase == Copying(copied)
      requires words == EncodeHeader(ImageHeader(g))
      requires taken <= HEADER_BYTES + |copied| && taken < HEADER_BYTES + g.dataSize
      modifies this
      ensures Valid() && s.phase.ClearFlag? && ConsumerStays(old(s).ring, s.ring)
      ensures |old(streams)| == |s.connections| == |old(s).connections| > 0 && !acceptPending
      ensures Current(s).payloads == Current(old(s)).payloads
      ensures streams == old(streams)[|old(streams)| - 1 := old(streams[|streams| - 1]) + Encode(ImageMessage(g, copied))[..taken]]
      ensures s.ring.releases > 0 ==>
                0 <= Index(s.ring) < |s.ring.produced| && copied <= s.ring.produced[Index(s.ring)]
      ensures Grew(old(trace), trace, [SendThrows(taken)])
    {
      KnownFacts();
      CopiedIsHeld();
      Put((words + copied)[..taken]);
      Did(SendThrows(taken));
    }

    // ----- main -----

    /** The others act, then the flag is read. */
    method CheckForConnection(actions: seq<Action>) returns (connected: bool)
      requires Valid() && s.phase.CheckConnection?
      modifies this, registers.words
      ensures Valid() && s.phase == (if connected then TestData else CheckConnection)
      ensures (old(hasConnection) ==> connected) && ConsumerStays(old(s).ring, s.ring)
      ensures Grew(old(trace), trace, [Check])
    {
      Interfere(actions);
      connected := hasConnection;
      Did(Check);
    }

    /** The others act, then the test is made: after the first release it is true if a frame was pending before. */
    method TestForNewData(actions: seq<Action>) returns (available: bool)
      requires Valid() && s.phase.TestData?
      modifies this, registers.words
      ensures Valid() && s.phase == (if available then Copying([]) else CheckConnection)
      ensures old(s).ring.releases > 0 && Index(old(s).ring) < |old(s).ring.produced| ==> available
      ensures ConsumerStays(old(s).ring, s.ring)
      ensures Grew(old(trace), trace, [Test])
    {
      Interfere(actions);
      KnownTest();
      available := buffer.NewDataAvailable();
      Did(Test);
    }

    lemma KnownTest()
      requires Valid()
      ensures s.ring.releases > 0 ==>
                (DataAvailable(g, s.ring.position, FpgaPointer(g, s.ring)) <==> Index(s.ring) < |s.ring.produced|)
    {
      RunInvariant(g, boot, trace);
      TestExact(g, s.ring);
    }

    method ReleaseSlot()
      requires Valid() && s.phase.MovePointer?
      modifies this, buffer, registers.words
      ensures Valid() && s.phase.CheckConnection?
      ensures s.ring.releases == old(s).ring.releases + 1
      ensures Grew(old(trace), trace, [Move])
    {
      buffer.MovePointer();
      Did(Move);
    }

    /** What the loop does when data is there; the slot is released whether the send returned or threw. */
    method SendAndRelease(fate: Fate, actions: nat -> seq<Action>)
      requires Valid() && s.phase == Copying([])
      modifies this, buffer, registers.words
      ensures Valid() && s.phase.CheckConnection? && 0 < g.dataSize
      ensures s.ring.releases == old(s).ring.releases + 1
      ensures Grew(old(trace), trace, SendEvents(g, fate) + [Move])
    {
      var header := Header(0, g.dataSize % 0x1_0000_0000, 100);
      var _, _ := SendData(header, fate, (k: nat) => actions(k + 1));
      Interfere(actions(0));
      ReleaseSlot();
    }

    /**
     * One pass of the while loop. If the connection is up and a frame pending when it starts, it makes a send and
     * releases the slot.
     */
    method Pass(fate: Fate, actions: nat -> seq<Action>) returns (ghost outcome: Outcome)
      requires Valid() && s.phase.CheckConnection?
      modifies this, buffer, registers.words
      ensures Valid() && s.phase.CheckConnection? && 0 < g.dataSize
      ensures old(hasConnection) ==> !outcome.NotConnected?
      ensures old(hasConnection) && old(s).ring.releases > 0 && Index(old(s).ring) < |old(s).ring.produced| ==>
                outcome.SendMade?
      ensures s.ring.releases == old(s).ring.releases + if outcome.SendMade? then 1 else 0
      ensures Grew(old(trace), trace, PassEvents(g, fate, outcome))
    {
      KnownFacts();
      outcome := NotConnected;
      var connected := CheckForConnection(actions(0));
      if !connected {
        return;
      }
      outcome := NoData;
      var available := TestForNewData(actions(1));
      assert [Check] + [Test] == [Check, Test];
      if !available {
        return;
      }
      outcome := SendMade;
      SendAndRelease(fate, (k: nat) => actions(k + 2));
    }

    /**
     * The send loop, observed after any number of passes, under any interference and any send failures. The main thread
     * made exactly that many passes, one release in each that sent; the program is at a state of the station
     * reached by an interleaving; and for every connection and every number of bytes its client got, the
     * images the client completes are produced frames, unmodified.
     */
    method Serve(passes: nat, network: nat -> Fate, actions: (nat, nat) -> seq<Action>)
      returns (ghost outcomes: seq<Outcome>)
      requires Valid() && s.phase.CheckConnection?
      modifies this, buffer, registers.words
      ensures Valid() && s.phase.CheckConnection? && 0 < g.dataSize
      ensures |outcomes| == passes && Grew(old(trace), trace, LoopEvents(g, network, outcomes))
      ensures s.ring.releases == old(s).ring.releases + Sends(outcomes)
      ensures g.dataSize <= IMAGE_SIZE ==>
                forall c: nat, k: nat :: c < |streams| && k <= |streams[c]| ==>
                  AreImagesOf(g, s.ring, s.connections[c], TcpClient.Complete(TcpClient.Parse(streams[c][..k])))
      ensures hasConnection <==> AcceptedSinceClear(trace)
    {
      KnownFacts();
      outcomes := Passes(passes, network, actions);
      ClientsAreServed();
    }

    method Passes(passes: nat, network: nat -> Fate, actions: (nat, nat) -> seq<Action>)
      returns (ghost outcomes: seq<Outcome>)
      requires Valid() && s.phase.CheckConnection? && 0 < g.dataSize
      modifies this, buffer, registers.words
      ensures Valid() && s.phase.CheckConnection?
      ensures |outcomes| == passes && Grew(old(trace), trace, LoopEvents(g, network, outcomes))
      ensures s.ring.releases == old(s).ring.releases + Sends(outcomes)
    {
      outcomes := [];
      for i := 0 to passes
        invariant Valid() && s.phase.CheckConnection?
        invariant |outcomes| == i && Grew(old(trace), trace, LoopEvents(g, network, outcomes))
        invariant s.ring.releases == old(s).ring.releases + Sends(outcomes)
      {
        ghost var before := trace;
        ghost var outcome := Pass(network(i), (k: nat) => actions(i, k));
        OnePassMore(g, network, outcomes, outcome);
        GrewTwice(old(trace), before, trace, LoopEvents(g, network, outcomes), PassEvents(g, network(i), outcome));
        outcomes := outcomes + [outcome];
      }
    }

    /** What the station's theorems say of the program's own variables. */
    lemma ClientsAreServed()
      requires Valid()
      ensures g.dataSize <= IMAGE_SIZE ==>
                forall c: nat, k: nat :: c < |streams| && k <= |streams[c]| ==>
                  AreImagesOf(g, s.ring, s.connections[c], TcpClient.Complete(TcpClient.Parse(streams[c][..k])))
      ensures hasConnection <==> AcceptedSinceClear(trace)
    {
      FlagIffAccepted(g, boot, trace, s);
      if g.dataSize <= IMAGE_SIZE {
        forall c: nat, k: nat | c < |streams| && k <= |streams[c]|
          ensures AreImagesOf(g, s.ring, s.connections[c], TcpClient.Complete(TcpClient.Parse(streams[c][..k])))
        {
          ClientSeesProducedFrames(g, boot, trace, s, c, k);
        }
      }
    }
  }
}
