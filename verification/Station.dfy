/**
 * The sensor station as one transition system: the send loop of main, the connection flag of the TCP server,
 * and the ring protocol. Every event is one atomic action of the main thread, of the accept handler's thread
 * or of the assumed FPGA, so a sequence of events is one interleaving. Each access to the shared flag
 * and to a pointer register is taken to be atomic.
 */
module Station {
  import opened Machine
  import opened RingGeometry
  import opened RingProtocol
  import opened TcpFraming
  import opened BoundedQueue

  /** Where the main thread is. ClearFlag, CloseSocket and RegisterAccept are the statements of accept_connection. */
  datatype Phase =
    | CheckConnection
    | TestData
    | Copying(copied: Frame)
    | ClearFlag
    | CloseSocket
    | RegisterAccept
    | MovePointer

  /**
   * One accepted connection. `stream` is every byte handed to its socket. `payloads` records the images
   * whose send returned, and `first` how many sends had been attempted before it was accepted.
   */
  datatype Connection = Connection(first: nat, payloads: seq<Frame>, stream: Bytes)

  /** `attempts` is history: the number of sends begun. */
  datatype State = State(ring: Ring, phase: Phase, hasConnection: bool, acceptPending: bool,
                         connections: seq<Connection>, attempts: nat)

  datatype Event =
    | Write(contents: Frame)
    | Advance
    | AcceptOk
    | AcceptFailed
    | Check
    | Test
    | CopyByte
    | SendDone
    | SendThrows(taken: nat)
    | Clear
    | Close
    | Register
    | Move

  function ImageHeader(g: Geometry): Header {
    Header(0, g.dataSize % 0x1_0000_0000, 100)
  }

  function ImageMessage(g: Geometry, payload: Frame): Message {
    Message(ImageHeader(g), payload)
  }

  /** An image on the wire: a zero timestamp, the image's size, the id 100, and the image. */
  predicate OnTheWire(g: Geometry, payload: Frame, bytes: Bytes) {
    && |bytes| == 12 + |payload| && bytes[12..] == payload
    && bytes[0..4] == [0, 0, 0, 0] && DecodeWord(bytes[4..8]) == g.dataSize && bytes[8..12] == [0, 0, 0, 100]
  }

  lemma ImageOnTheWire(g: Geometry, payload: Frame)
    requires Fits(g)
    ensures OnTheWire(g, payload, Encode(ImageMessage(g, payload)))
  {
    FieldsOnTheWire(ImageMessage(g, payload));
    MulMonotone(g.dataSize, 1, g.length + 2);
    var e := Encode(ImageMessage(g, payload));
    assert e[0..4] == EncodeWord(0) && e[8..12] == EncodeWord(100);
  }

  function Messages(g: Geometry, payloads: seq<Frame>): seq<Message> {
    seq(|payloads|, i requires 0 <= i < |payloads| => ImageMessage(g, payloads[i]))
  }

  /** The constructor of the server has registered the first accept when the loop starts. */
  function Init(g: Geometry, boot: Boot): State
    requires boot.fpgaSlot <= |boot.memory|
  {
    State(Start(g, boot), CheckConnection, false, true, [], 0)
  }

  predicate SlotsInRange(g: Geometry, s: State) {
    0 < g.length == |s.ring.slots| && 0 <= s.ring.fpgaSlot < g.length && 0 <= s.ring.position < g.length
  }

  /** The last connection, with more bytes on its stream. */
  function Extend(s: State, more: Bytes, payloads: seq<Frame>): seq<Connection>
    requires s.connections != []
  {
    var last := |s.connections| - 1;
    var c := s.connections[last];
    s.connections[last := Connection(c.first, c.payloads + payloads, c.stream + more)]
  }

  function AcceptCompletes(s: State): Option<State> {
    if !s.acceptPending then None
    else Some(s.(acceptPending := false, hasConnection := true,
                 connections := s.connections + [Connection(s.attempts, [], [])]))
  }

  function TestForData(g: Geometry, s: State): Option<State>
    requires SlotsInRange(g, s)
  {
    if s.phase != TestData then None
    else if DataAvailable(g, s.ring.position, FpgaPointer(g, s.ring)) then
      Some(s.(phase := Copying([]), attempts := s.attempts + 1, ring := Begun(g, s.ring, s.attempts)))
    else Some(s.(phase := CheckConnection))
  }

  function CopyOne(g: Geometry, s: State): Option<State>
    requires SlotsInRange(g, s)
  {
    if s.phase.Copying? && |s.phase.copied| < |s.ring.slots[s.ring.position]| then
      Some(s.(phase := Copying(s.phase.copied + [s.ring.slots[s.ring.position][|s.phase.copied|]])))
    else None
  }

  function SendReturns(g: Geometry, s: State): Option<State> {
    if s.phase.Copying? && |s.phase.copied| == g.dataSize && s.connections != [] then
      Some(s.(phase := MovePointer, ring := Ended(g, s.ring),
              connections := Extend(s, Encode(ImageMessage(g, s.phase.copied)), [s.phase.copied])))
    else None
  }

  function SendFails(g: Geometry, s: State, taken: nat): Option<State> {
    if s.phase.Copying? && taken <= HEADER_BYTES + |s.phase.copied| && taken < HEADER_BYTES + g.dataSize
       && s.connections != [] then
      Some(s.(phase := ClearFlag, ring := Ended(g, s.ring),
              connections := Extend(s, Encode(ImageMessage(g, s.phase.copied))[..taken], [])))
    else None
  }

  /** The effect of one event, or None where it cannot happen. */
  function Next(g: Geometry, s: State, e: Event): (out: Option<State>)
    requires SlotsInRange(g, s)
    ensures out.Some? ==> SlotsInRange(g, out.value)
  {
    match e
    case Write(contents) =>
      if |contents| == g.dataSize then Some(s.(ring := FpgaWrite(s.ring, contents))) else None
    case Advance =>
      if FpgaBlocked(g, s.ring) then None else Some(s.(ring := FpgaAdvance(g, s.ring)))
    case AcceptOk => AcceptCompletes(s)
    case AcceptFailed =>
      if !s.acceptPending then None else Some(s.(acceptPending := false))
    case Check =>
      if s.phase != CheckConnection then None
      else Some(s.(phase := if s.hasConnection then TestData else CheckConnection))
    case Test => TestForData(g, s)
    case CopyByte => CopyOne(g, s)
    case SendDone => SendReturns(g, s)
    case SendThrows(taken) => SendFails(g, s, taken)
    case Clear =>
      if s.phase != ClearFlag then None else Some(s.(phase := CloseSocket, hasConnection := false))
    case Close =>
      if s.phase != CloseSocket then None else Some(s.(phase := RegisterAccept))
    case Register =>
      if s.phase != RegisterAccept then None else Some(s.(phase := MovePointer, acceptPending := true))
    case Move =>
      if s.phase != MovePointer then None
      else Some(s.(phase := CheckConnection, ring := Release(g, s.ring)))
  }

  /** One interleaving. */
  function Exec(g: Geometry, s: State, es: seq<Event>): (out: Option<State>)
    requires SlotsInRange(g, s)
    ensures out.Some? ==> SlotsInRange(g, out.value)
    decreases |es|
  {
    if es == [] then Some(s)
    else
      match Next(g, s, es[0])
      case None => None
      case Some(s') => Exec(g, s', es[1..])
  }

  lemma {:induction false} ExecConcat(g: Geometry, s: State, a: seq<Event>, b: seq<Event>)
    requires SlotsInRange(g, s) && Exec(g, s, a).Some?
    ensures Exec(g, s, a + b) == Exec(g, Exec(g, s, a).value, b)
    decreases |a|
  {
    if a == [] {
      assert a + b == b;
    } else {
      assert (a + b)[1..] == a[1..] + b;
      ExecConcat(g, Next(g, s, a[0]).value, a[1..], b);
    }
  }

  /** The events of the main thread. */
  predicate IsMain(e: Event) {
    !e.Write? && !e.Advance? && !e.AcceptOk? && !e.AcceptFailed?
  }

  /** The main thread's own events in an interleaving. */
  function Mine(es: seq<Event>): seq<Event> {
    if es == [] then [] else Mine(es[..|es| - 1]) + (if IsMain(es[|es| - 1]) then [es[|es| - 1]] else [])
  }

  lemma {:induction false} MineSnoc(es: seq<Event>, e: Event)
    ensures Mine(es + [e]) == if IsMain(e) then Mine(es) + [e] else Mine(es)
  {
    assert (es + [e])[..|es|] == es;
    assert Mine(es) + [] == Mine(es);
  }

  function Copies(n: nat): seq<Event> {
    seq(n, _ => CopyByte)
  }

  // ----- invariant -----

  predicate InFlight(p: Phase) {
    !p.CheckConnection? && !p.TestData?
  }

  /** Phases in which the connection the main thread uses is up. */
  predicate Using(p: Phase) {
    p.TestData? || p.Copying? || p.ClearFlag?
  }

  ghost predicate FlagInv(s: State) {
    && (s.acceptPending ==> !s.hasConnection)
    && (s.hasConnection ==> s.connections != [])
    && (Using(s.phase) ==> s.hasConnection)
    && (s.phase.CloseSocket? || s.phase.RegisterAccept? ==> !s.hasConnection && !s.acceptPending)
  }

  ghost predicate CopyInv(g: Geometry, s: State) {
    s.phase.Copying? ==>
      && |s.phase.copied| <= g.dataSize
      && (s.ring.releases > 0 ==>
            && 0 <= Index(s.ring) < |s.ring.produced|
            && s.phase.copied <= s.ring.produced[Index(s.ring)])
      && (s.ring.releases == 0 ==>
            && 0 <= s.ring.lap < |s.ring.produced|
            && (|s.ring.produced| < s.ring.lap + g.length ==> s.phase.copied <= s.ring.produced[s.ring.lap]))
  }

  /** Number of the next send on connection c. */
  function Upcoming(c: Connection): nat {
    c.first + |c.payloads|
  }

  /** Sends are numbered on across connections: each begins with the send after the one that ended its predecessor. */
  ghost predicate Chained(cs: seq<Connection>) {
    && (cs != [] ==> cs[0].first == 0)
    && (forall i, j :: 0 <= i < |cs| && j == i + 1 < |cs| ==> cs[j].first == Upcoming(cs[i]) + 1)
  }

  /** So a later connection begins behind an earlier one. */
  lemma ChainedApart(cs: seq<Connection>, i: nat, j: nat)
    requires Chained(cs) && i < j < |cs|
    ensures Upcoming(cs[i]) < cs[j].first
    decreases j
  {
    if i + 1 < j {
      ChainedApart(cs, i, j - 1);
    }
    assert cs[j].first == Upcoming(cs[j - 1]) + 1;
  }

  ghost predicate OrderInv(s: State) {
    && Chained(s.connections)
    && if s.connections == [] then s.attempts == 0
       else
         Upcoming(s.connections[|s.connections| - 1])
         == s.attempts - if !s.hasConnection || s.phase.Copying? || s.phase.ClearFlag? then 1 else 0
  }

  /** The frame send number a is to carry: consecutive ones from send 1 on, and for send 0 the one it started on. */
  function FrameOf(r: Ring, a: nat): int {
    if a == 0 then r.lap else r.origin + a
  }

  /** Sends the FPGA cannot have disturbed: all from 1 on, and send 0 if it ended before the FPGA was back in its slot. */
  predicate Guarded(r: Ring, a: nat) {
    a >= 1 || r.intact
  }

  ghost predicate Carries(r: Ring, a: nat, payload: Frame) {
    && (a >= 1 ==> r.releases > 0)
    && 0 <= FrameOf(r, a) < |r.produced|
    && payload == r.produced[FrameOf(r, a)]
  }

  ghost predicate PayloadInv(g: Geometry, r: Ring, c: Connection) {
    forall n :: 0 <= n < |c.payloads| ==>
      |c.payloads[n]| == g.dataSize && (Guarded(r, c.first + n) ==> Carries(r, c.first + n, c.payloads[n]))
  }

  /** The stream holds the sent images whole, then possibly part of the one whose send threw. */
  ghost predicate Explains(g: Geometry, r: Ring, c: Connection, next: Frame) {
    var whole := Serialize(Messages(g, c.payloads));
    && |next| == g.dataSize
    && whole <= c.stream
    && |c.stream| < |whole| + HEADER_BYTES + g.dataSize
    && c.stream <= whole + Encode(ImageMessage(g, next))
    && (c.stream != whole && Guarded(r, Upcoming(c)) ==> Carries(r, Upcoming(c), next))
  }

  ghost predicate StreamInv(g: Geometry, r: Ring, c: Connection) {
    exists next :: Explains(g, r, c, next)
  }

  ghost predicate ConnectionsInv(g: Geometry, s: State) {
    && (forall i :: 0 <= i < |s.connections| ==> PayloadInv(g, s.ring, s.connections[i]) && StreamInv(g, s.ring, s.connections[i]))
    && (s.hasConnection && !s.phase.ClearFlag? && s.connections != [] ==>
          var c := s.connections[|s.connections| - 1];
          c.stream == Serialize(Messages(g, c.payloads)))
  }

  /** The ring and where the main thread is in its use of it. */
  ghost predicate SlotInv(g: Geometry, s: State) {
    && RingInv(g, s.ring)
    && s.attempts == s.ring.releases + (if InFlight(s.phase) then 1 else 0)
    && (InFlight(s.phase) ==> Held(s.ring))
    && (s.attempts > 0 ==> LapInv(g, s.ring))
  }

  ghost predicate Inv(g: Geometry, s: State) {
    && SlotInv(g, s)
    && CopyInv(g, s)
    && FlagInv(s)
    && OrderInv(s)
    && ConnectionsInv(g, s)
    && SlotsInRange(g, s)
  }

  lemma HeaderSize(g: Geometry)
    requires Fits(g)
    ensures ImageHeader(g).dataSize == g.dataSize
  {
    MulMonotone(g.dataSize, 1, g.length + 2);
  }

  lemma FreshStream(g: Geometry, r: Ring, first: nat)
    requires Fits(g)
    ensures StreamInv(g, r, Connection(first, [], []))
  {
    WholeStream(g, r, Connection(first, [], []));
  }

  /** A change that keeps or extends the produced frames keeps what connections carry. */
  lemma ConnectionStable(g: Geometry, r: Ring, r': Ring, c: Connection)
    requires PayloadInv(g, r, c) && StreamInv(g, r, c)
    requires r.produced <= r'.produced && r'.lap == r.lap && r'.intact == r.intact
    requires r.releases > 0 ==> r'.releases > 0 && r'.origin == r.origin
    requires r.releases == 0 ==> Upcoming(c) <= 1
    requires r.releases == 0 && Upcoming(c) == 1 ==> c.stream == Serialize(Messages(g, c.payloads))
    ensures PayloadInv(g, r', c) && StreamInv(g, r', c)
  {
    var next :| Explains(g, r, c, next);
    assert Explains(g, r', c, next);
  }

  // ----- every event keeps the invariant -----

  /** Events of the FPGA and the release change only the ring (and, for the release, the phase). */
  lemma RingEventKeepsInv(g: Geometry, s: State, s': State)
    requires Inv(g, s) && RingInv(g, s'.ring)
    requires s' == s.(ring := s'.ring) && s'.ring.releases == s.ring.releases && s'.ring.origin == s.ring.origin
    requires s.ring.produced <= s'.ring.produced && (Held(s.ring) ==> Held(s'.ring))
    requires s'.ring.lap == s.ring.lap && s'.ring.intact == s.ring.intact
    ensures Inv(g, s')
  {
    ConnectionsStable(g, s, s'.ring);
  }

  /** Until the first release at most one send was begun; if it finished, its stream is whole. */
  lemma BeforeFirstRelease(g: Geometry, s: State, i: int)
    requires Inv(g, s) && 0 <= i < |s.connections|
    ensures Upcoming(s.connections[i]) <= s.attempts
    ensures s.ring.releases == 0 ==> Upcoming(s.connections[i]) <= 1
    ensures s.ring.releases == 0 && Upcoming(s.connections[i]) == 1
        ==> s.connections[i].stream == Serialize(Messages(g, s.connections[i].payloads))
  {
    var last := |s.connections| - 1;
    if i < last {
      ChainedApart(s.connections, i, last);
    }
  }

  lemma ConnectionsStable(g: Geometry, s: State, r': Ring)
    requires Inv(g, s) && s.ring.produced <= r'.produced && r'.lap == s.ring.lap && r'.intact == s.ring.intact
    requires s.ring.releases > 0 ==> r'.releases > 0 && r'.origin == s.ring.origin
    ensures forall i :: 0 <= i < |s.connections| ==>
              PayloadInv(g, r', s.connections[i]) && StreamInv(g, r', s.connections[i])
  {
    forall i | 0 <= i < |s.connections|
      ensures PayloadInv(g, r', s.connections[i]) && StreamInv(g, r', s.connections[i])
    {
      BeforeFirstRelease(g, s, i);
      ConnectionStable(g, s.ring, r', s.connections[i]);
    }
  }

  lemma MoveKeepsSlot(g: Geometry, s: State, s': State)
    requires SlotInv(g, s) && s.phase.MovePointer? && s'.phase.CheckConnection?
    requires s'.ring == Release(g, s.ring) && s'.attempts == s.attempts
    ensures SlotInv(g, s') && SlotsInRange(g, s')
    ensures s.ring.releases > 0 ==> s'.ring.releases > 0 && s'.ring.origin == s.ring.origin
  {
    ReleaseKeepsInv(g, s.ring);
    ReleaseKeepsLap(g, s.ring);
  }

  lemma MoveKeepsInv(g: Geometry, s: State)
    requires Inv(g, s) && s.phase.MovePointer?
    ensures Inv(g, Next(g, s, Move).value)
  {
    var s' := Next(g, s, Move).value;
    MoveKeepsSlot(g, s, s');
    ConnectionsStable(g, s, s'.ring);
  }

  lemma CopyByteKeepsInv(g: Geometry, s: State)
    requires Inv(g, s) && Next(g, s, CopyByte).Some?
    ensures Inv(g, Next(g, s, CopyByte).value)
  {
    if s.ring.releases > 0 {
      HeldSlotIsStable(g, s.ring);
    } else {
      LapIsStable(g, s.ring);
    }
  }

  lemma MessagesSnoc(g: Geometry, payloads: seq<Frame>, p: Frame)
    ensures Serialize(Messages(g, payloads + [p])) == Serialize(Messages(g, payloads)) + Encode(ImageMessage(g, p))
  {
    assert Messages(g, payloads + [p]) == Messages(g, payloads) + [ImageMessage(g, p)];
    SerializeSnoc(Messages(g, payloads), ImageMessage(g, p));
  }

  /** The send in flight is number `releases`, on the current connection. */
  lemma InFlightNumber(g: Geometry, s: State)
    requires Inv(g, s) && s.phase.Copying?
    ensures s.connections != [] && s.hasConnection
    ensures Upcoming(s.connections[|s.connections| - 1]) == s.ring.releases
  {
  }

  /** What was copied is an initial part of the frame this send carries, if it is guarded. */
  lemma CopiedIsCarried(g: Geometry, s: State) returns (next: Frame)
    requires Inv(g, s) && s.phase.Copying?
    ensures |next| == g.dataSize && s.phase.copied <= next
    ensures Guarded(Ended(g, s.ring), s.ring.releases) ==> Carries(Ended(g, s.ring), s.ring.releases, next)
  {
    var copied := s.phase.copied;
    if s.ring.releases > 0 {
      next := s.ring.produced[Index(s.ring)];
    } else if Ended(g, s.ring).intact {
      next := s.ring.produced[s.ring.lap];
    } else {
      next := copied + seq(g.dataSize - |copied|, _ => 0);
    }
  }

  lemma WholeStream(g: Geometry, r: Ring, c: Connection)
    requires Fits(g) && c.stream == Serialize(Messages(g, c.payloads))
    ensures StreamInv(g, r, c)
  {
    var next: Frame := seq(g.dataSize, _ => 0);
    assert Explains(g, r, c, next);
  }

  lemma SendDoneKeepsConnection(g: Geometry, r: Ring, copied: Frame, c: Connection, c': Connection)
    requires Fits(g) && |copied| == g.dataSize && PayloadInv(g, r, c) && c.stream == Serialize(Messages(g, c.payloads))
    requires Guarded(r, Upcoming(c)) ==> Carries(r, Upcoming(c), copied)
    requires c' == Connection(c.first, c.payloads + [copied], c.stream + Encode(ImageMessage(g, copied)))
    ensures PayloadInv(g, r, c') && StreamInv(g, r, c')
    ensures c'.stream == Serialize(Messages(g, c'.payloads))
  {
    MessagesSnoc(g, c.payloads, copied);
    WholeStream(g, r, c');
  }

  lemma SendThrowsKeepsConnection(g: Geometry, r: Ring, copied: Frame, next: Frame, taken: nat,
                                  c: Connection, c': Connection)
    requires Fits(g) && |next| == g.dataSize && PayloadInv(g, r, c) && c.stream == Serialize(Messages(g, c.payloads))
    requires copied <= next && (Guarded(r, Upcoming(c)) ==> Carries(r, Upcoming(c), next))
    requires taken <= HEADER_BYTES + |copied| && taken < HEADER_BYTES + g.dataSize
    requires c' == Connection(c.first, c.payloads, c.stream + Encode(ImageMessage(g, copied))[..taken])
    ensures PayloadInv(g, r, c') && StreamInv(g, r, c')
  {
    assert Encode(ImageMessage(g, copied)) <= Encode(ImageMessage(g, next));
    assert Explains(g, r, c', next);
  }

  lemma EarlierAreBelow(s: State)
    requires OrderInv(s) && s.connections != []
    ensures forall i :: 0 <= i < |s.connections| - 1 ==> Upcoming(s.connections[i]) < Upcoming(s.connections[|s.connections| - 1])
  {
    forall i | 0 <= i < |s.connections| - 1
      ensures Upcoming(s.connections[i]) < Upcoming(s.connections[|s.connections| - 1])
    {
      ChainedApart(s.connections, i, |s.connections| - 1);
    }
  }

  /** The first send ends on the only connection there has been, which nothing was sent on before. */
  lemma EndedKeepsConnections(g: Geometry, s: State)
    requires Inv(g, s) && s.phase.Copying?
    ensures forall i :: 0 <= i < |s.connections| ==>
              PayloadInv(g, Ended(g, s.ring), s.connections[i]) && StreamInv(g, Ended(g, s.ring), s.connections[i])
  {
    InFlightNumber(g, s);
    EarlierAreBelow(s);
    if s.ring.releases == 0 {
      WholeStream(g, Ended(g, s.ring), s.connections[0]);
    }
  }

  lemma BegunKeepsRing(g: Geometry, r: Ring)
    requires RingInv(g, r)
    ensures RingInv(g, Begun(g, r, 0)) && RingInv(g, Ended(g, r))
  {
  }

  /** Replacing the last connection by one that keeps its invariants keeps those of all. */
  lemma LastReplaced(g: Geometry, s: State, s': State, c': Connection)
    requires s.connections != [] && s'.connections == s.connections[|s.connections| - 1 := c']
    requires forall i :: 0 <= i < |s.connections| ==>
               PayloadInv(g, s'.ring, s.connections[i]) && StreamInv(g, s'.ring, s.connections[i])
    requires PayloadInv(g, s'.ring, c') && StreamInv(g, s'.ring, c')
    ensures forall i :: 0 <= i < |s'.connections| ==>
              PayloadInv(g, s'.ring, s'.connections[i]) && StreamInv(g, s'.ring, s'.connections[i])
  {
  }

  lemma SendEndKeepsSlot(g: Geometry, s: State, s': State)
    requires SlotInv(g, s) && s.phase.Copying? && s'.ring == Ended(g, s.ring) && s'.attempts == s.attempts
    requires InFlight(s'.phase) && !s'.phase.Copying?
    ensures SlotInv(g, s') && CopyInv(g, s') && SlotsInRange(g, s')
  {
    BegunKeepsRing(g, s.ring);
  }

  /** The current connection's next send has been counted among the attempts, whether it returned or threw. */
  lemma SendEndKeepsOrder(s: State, s': State, c': Connection)
    requires OrderInv(s) && s.connections != [] && s.hasConnection && s'.hasConnection && s.phase.Copying?
    requires s'.connections == s.connections[|s.connections| - 1 := c'] && s'.attempts == s.attempts
    requires c'.first == s.connections[|s.connections| - 1].first
    requires Upcoming(c') == s'.attempts - if s'.phase.ClearFlag? then 1 else 0
    requires s'.phase.ClearFlag? || s'.phase.MovePointer?
    ensures OrderInv(s')
  {
    forall i, j | 0 <= i < |s'.connections| && j == i + 1 < |s'.connections|
      ensures s'.connections[j].first == Upcoming(s'.connections[i]) + 1
    {
      assert s.connections[j].first == Upcoming(s.connections[i]) + 1;
    }
  }

  lemma SendDoneKeepsInv(g: Geometry, s: State)
    requires Inv(g, s) && Next(g, s, SendDone).Some?
    ensures Inv(g, Next(g, s, SendDone).value)
  {
    var s' := Next(g, s, SendDone).value;
    var last := |s.connections| - 1;
    InFlightNumber(g, s);
    SendEndKeepsSlot(g, s, s');
    SendEndKeepsOrder(s, s', s'.connections[last]);
    SendDoneKeepsConnections(g, s, s');
  }

  lemma SendDoneKeepsConnections(g: Geometry, s: State, s': State)
    requires Inv(g, s) && Next(g, s, SendDone) == Some(s')
    ensures ConnectionsInv(g, s')
  {
    var last := |s.connections| - 1;
    InFlightNumber(g, s);
    EndedKeepsConnections(g, s);
    var next := CopiedIsCarried(g, s);
    SendDoneKeepsConnection(g, s'.ring, s.phase.copied, s.connections[last], s'.connections[last]);
    LastReplaced(g, s, s', s'.connections[last]);
  }

  lemma SendThrowsKeepsInv(g: Geometry, s: State, taken: nat)
    requires Inv(g, s) && Next(g, s, SendThrows(taken)).Some?
    ensures Inv(g, Next(g, s, SendThrows(taken)).value)
  {
    var s' := Next(g, s, SendThrows(taken)).value;
    var last := |s.connections| - 1;
    InFlightNumber(g, s);
    SendEndKeepsSlot(g, s, s');
    SendEndKeepsOrder(s, s', s'.connections[last]);
    SendThrowsKeepsConnections(g, s, taken, s');
  }

  lemma SendThrowsKeepsConnections(g: Geometry, s: State, taken: nat, s': State)
    requires Inv(g, s) && Next(g, s, SendThrows(taken)) == Some(s')
    ensures ConnectionsInv(g, s')
  {
    var last := |s.connections| - 1;
    InFlightNumber(g, s);
    EndedKeepsConnections(g, s);
    var next := CopiedIsCarried(g, s);
    assert s.connections[last].payloads + [] == s.connections[last].payloads;
    SendThrowsKeepsConnection(g, s'.ring, s.phase.copied, next, taken, s.connections[last], s'.connections[last]);
    LastReplaced(g, s, s', s'.connections[last]);
  }

  lemma AcceptKeepsOrder(s: State, s': State)
    requires OrderInv(s) && FlagInv(s) && s.acceptPending && AcceptCompletes(s) == Some(s')
    ensures OrderInv(s')
  {
  }

  lemma AcceptKeepsInv(g: Geometry, s: State)
    requires Inv(g, s) && s.acceptPending
    ensures Inv(g, Next(g, s, AcceptOk).value)
  {
    var s' := Next(g, s, AcceptOk).value;
    FreshStream(g, s.ring, s.attempts);
    AcceptKeepsOrder(s, s');
    assert ConnectionsInv(g, s');
  }

  /** Until the first send begins, nothing has been sent. */
  lemma NothingSentYet(g: Geometry, s: State, r': Ring)
    requires Inv(g, s) && s.phase.TestData? && s.attempts == 0
    ensures forall i :: 0 <= i < |s.connections| ==>
              PayloadInv(g, r', s.connections[i]) && StreamInv(g, r', s.connections[i])
  {
    EarlierAreBelow(s);
    forall i | 0 <= i < |s.connections|
      ensures PayloadInv(g, r', s.connections[i]) && StreamInv(g, r', s.connections[i])
    {
      FreshStream(g, r', s.connections[i].first);
    }
  }

  lemma FirstTestKeepsInv(g: Geometry, s: State)
    requires Inv(g, s) && s.phase.TestData? && s.attempts == 0 && s.ring.fpgaSlot != 0 && Held(s.ring)
    requires DataAvailable(g, s.ring.position, FpgaPointer(g, s.ring))
    ensures Inv(g, Next(g, s, Test).value)
  {
    BegunHolds(g, s.ring);
    BegunKeepsRing(g, s.ring);
    NothingSentYet(g, s, Begun(g, s.ring, 0));
  }

  lemma LaterTestKeepsInv(g: Geometry, s: State, s': State)
    requires Inv(g, s) && s.phase.TestData? && s.attempts > 0 && Held(s.ring)
    requires s' == s.(phase := Copying([]), attempts := s.attempts + 1)
    ensures Inv(g, s')
  {
  }

  lemma TestKeepsInv(g: Geometry, s: State)
    requires Inv(g, s) && s.phase.TestData?
    ensures Inv(g, Next(g, s, Test).value)
  {
    TestExact(g, s.ring);
    if !DataAvailable(g, s.ring.position, FpgaPointer(g, s.ring)) {
      assert Inv(g, s.(phase := CheckConnection));
    } else if s.attempts == 0 {
      FirstTestKeepsInv(g, s);
    } else {
      LaterTestKeepsInv(g, s, Next(g, s, Test).value);
    }
  }

  /** An event outside the send that touches neither ring nor streams. */
  lemma ControlKeepsInv(g: Geometry, s: State, s': State)
    requires Inv(g, s) && FlagInv(s') && OrderInv(s')
    requires s' == s.(phase := s'.phase, hasConnection := s'.hasConnection, acceptPending := s'.acceptPending)
    requires InFlight(s'.phase) == InFlight(s.phase) && !s'.phase.Copying?
    requires s'.hasConnection && !s'.phase.ClearFlag? ==> s.hasConnection && !s.phase.ClearFlag?
    ensures Inv(g, s')
  {
  }

  lemma FlagEventKeepsFlags(g: Geometry, s: State, e: Event, s': State)
    requires SlotsInRange(g, s) && FlagInv(s) && OrderInv(s) && Next(g, s, e) == Some(s')
    requires e.AcceptFailed? || e.Check? || e.Clear? || e.Close? || e.Register?
    ensures FlagInv(s') && OrderInv(s')
    ensures s' == s.(phase := s'.phase, hasConnection := s'.hasConnection, acceptPending := s'.acceptPending)
    ensures InFlight(s'.phase) == InFlight(s.phase) && !s'.phase.Copying?
    ensures s'.hasConnection && !s'.phase.ClearFlag? ==> s.hasConnection && !s.phase.ClearFlag?
  {
  }

  lemma FlagEventKeepsInv(g: Geometry, s: State, e: Event)
    requires Inv(g, s) && Next(g, s, e).Some?
    requires e.AcceptFailed? || e.Check? || e.Clear? || e.Close? || e.Register?
    ensures Inv(g, Next(g, s, e).value)
  {
    FlagEventKeepsFlags(g, s, e, Next(g, s, e).value);
    ControlKeepsInv(g, s, Next(g, s, e).value);
  }

  lemma FpgaKeepsInv(g: Geometry, s: State, e: Event)
    requires Inv(g, s) && Next(g, s, e).Some? && (e.Write? || e.Advance?)
    ensures Inv(g, Next(g, s, e).value)
  {
    if e.Write? {
      WriteKeepsInv(g, s.ring, e.contents);
    } else {
      AdvanceKeepsInv(g, s.ring);
    }
    RingEventKeepsInv(g, s, Next(g, s, e).value);
  }

  lemma NextKeepsInv(g: Geometry, s: State, e: Event)
    requires Inv(g, s) && Next(g, s, e).Some?
    ensures Inv(g, Next(g, s, e).value)
  {
    match e
    case Write(_) => FpgaKeepsInv(g, s, e);
    case Advance => FpgaKeepsInv(g, s, e);
    case Move => MoveKeepsInv(g, s);
    case AcceptOk => AcceptKeepsInv(g, s);
    case CopyByte => CopyByteKeepsInv(g, s);
    case SendDone => SendDoneKeepsInv(g, s);
    case SendThrows(taken) => SendThrowsKeepsInv(g, s, taken);
    case Test => TestKeepsInv(g, s);
    case AcceptFailed => FlagEventKeepsInv(g, s, e);
    case Check => FlagEventKeepsInv(g, s, e);
    case Clear => FlagEventKeepsInv(g, s, e);
    case Close => FlagEventKeepsInv(g, s, e);
    case Register => FlagEventKeepsInv(g, s, e);
  }

  lemma {:induction false} ExecKeepsInv(g: Geometry, s: State, es: seq<Event>)
    requires Inv(g, s) && Exec(g, s, es).Some?
    ensures Inv(g, Exec(g, s, es).value)
    decreases |es|
  {
    if es != [] {
      NextKeepsInv(g, s, es[0]);
      ExecKeepsInv(g, Next(g, s, es[0]).value, es[1..]);
    }
  }

  /** Every state reached by any interleaving from power-up satisfies the invariant. */
  lemma {:induction false} RunInvariant(g: Geometry, boot: Boot, es: seq<Event>)
    requires Bootable(g, boot) && Exec(g, Init(g, boot), es).Some?
    ensures Inv(g, Exec(g, Init(g, boot), es).value)
  {
    StartHolds(g, boot);
    ExecKeepsInv(g, Init(g, boot), es);
  }
}
