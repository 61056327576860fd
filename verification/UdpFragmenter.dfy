/** Sending one region of image data as numbered datagrams. */
module UdpFragmenter {
  import opened Machine

  const MAX_PACKET_SIZE: nat := 1500
  const HEADER_BYTES: nat := 8

  /** What reached the wire of one datagram: the two header words and the accepted payload bytes. */
  datatype Packet = Packet(cam: int, number: nat, payload: Bytes)

  /** The socket's answer to one send: an error, or all but `withheld` bytes (always some payload) accepted. */
  datatype Reply = Failed | Accepted(withheld: nat)

  /** The answer to the k-th send of a call. */
  type Network = nat -> Reply

  /** The value send_to returns for a datagram with `sendlen` > 0 payload bytes: -1, or in (8, 8 + sendlen]. */
  function Len(reply: Reply, sendlen: nat): int {
    match reply
    case Failed => -1
    case Accepted(withheld) => HEADER_BYTES + if withheld < sendlen then sendlen - withheld else 1
  }

  /** Every accepted length is the answer of some reply: the environment is not restricted further. */
  lemma EveryLengthPossible(len: int, sendlen: nat)
    requires len == -1 || 8 < len <= 8 + sendlen
    ensures exists reply :: Len(reply, sendlen) == len
  {
    if len == -1 {
      assert Len(Failed, sendlen) == len;
    } else {
      assert Len(Accepted(HEADER_BYTES + sendlen - len), sendlen) == len;
    }
  }

  /** The packets sent from byte `pos` on, the next one numbered `number`. */
  function Fragments(cam: int, data: Bytes, pos: nat, number: nat, net: Network): seq<Packet>
    requires pos <= |data|
    decreases |data| - pos
  {
    if pos == |data| then []
    else
      var sendlen := Min(|data| - pos, MAX_PACKET_SIZE);
      var len := Len(net(number), sendlen);
      if len == -1 then []
      else
        var n := len - HEADER_BYTES;
        [Packet(cam, number, data[pos..pos + n])] + Fragments(cam, data, pos + n, number + 1, net)
  }

  function Joined(ps: seq<Packet>): Bytes {
    if ps == [] then [] else ps[0].payload + Joined(ps[1..])
  }

  lemma {:induction false} JoinedSnoc(ps: seq<Packet>, p: Packet)
    ensures Joined(ps + [p]) == Joined(ps) + p.payload
  {
    if ps == [] {
      assert [p][1..] == [];
    } else {
      assert (ps + [p])[1..] == ps[1..] + [p];
      JoinedSnoc(ps[1..], p);
    }
  }

  /** Numbers count up from 0, and no payload is empty or too long. */
  predicate Numbered(cam: int, ps: seq<Packet>) {
    forall k :: 0 <= k < |ps| ==> ps[k].cam == cam && ps[k].number == k && 0 < |ps[k].payload| <= MAX_PACKET_SIZE
  }

  lemma NumberedSnoc(cam: int, ps: seq<Packet>, p: Packet)
    requires Numbered(cam, ps) && p.cam == cam && p.number == |ps| && 0 < |p.payload| <= MAX_PACKET_SIZE
    ensures Numbered(cam, ps + [p])
  {
  }

  /** What the packets sent so far are, with the data sent up to `pos`. */
  ghost predicate SentUpTo(cam: int, data: Bytes, net: Network, sent: seq<Packet>, pos: nat) {
    && pos <= |data|
    && Fragments(cam, data, 0, 0, net) == sent + Fragments(cam, data, pos, |sent|, net)
    && Joined(sent) == data[..pos]
    && Numbered(cam, sent)
  }

  /** Where the loop ends: behind the last byte, or at a failed send. */
  lemma {:induction false} SendingStops(cam: int, data: Bytes, net: Network, sent: seq<Packet>, pos: nat)
    requires SentUpTo(cam, data, net, sent, pos)
    requires pos < |data| ==> Len(net(|sent|), Min(|data| - pos, MAX_PACKET_SIZE)) == -1
    ensures sent == Fragments(cam, data, 0, 0, net) && Joined(sent) <= data
    ensures Joined(sent) == data <==> pos == |data|
    ensures pos < |data| ==> net(|sent|) == Failed
  {
    assert Fragments(cam, data, pos, |sent|, net) == [];
    assert sent + [] == sent;
  }

  /** The packet the loop sends at `pos`. */
  lemma NextPacket(cam: int, data: Bytes, pos: nat, sent: seq<Packet>, net: Network, next: nat, packet: Packet)
    requires SentUpTo(cam, data, net, sent, pos)
    requires pos < |data| && next - pos + HEADER_BYTES == Len(net(|sent|), Min(|data| - pos, MAX_PACKET_SIZE))
    requires pos <= next <= |data| && packet == Packet(cam, |sent|, data[pos..next])
    ensures SentUpTo(cam, data, net, sent + [packet], next)
  {
    var rest := Fragments(cam, data, next, |sent| + 1, net);
    assert Fragments(cam, data, pos, |sent|, net) == [packet] + rest;
    ConcatAssoc(sent, [packet], rest);
    JoinedSnoc(sent, packet);
    NumberedSnoc(cam, sent, packet);
    assert data[..pos] + packet.payload == data[..next];
  }

  /**
   * send_data. `packets` is what went out. Whatever lengths are accepted, the payloads joined are the data, or the
   * part of it before the first failed send; numbers count up from 0.
   */
  method SendData(cam: int, data: Bytes, net: Network) returns (packets: seq<Packet>, complete: bool)
    ensures packets == Fragments(cam, data, 0, 0, net)
    ensures Joined(packets) <= data
    ensures complete <==> Joined(packets) == data
    ensures !complete ==> net(|packets|) == Failed
    ensures Numbered(cam, packets)
  {
    var sendlen := Min(|data|, MAX_PACKET_SIZE);
    var remlen: nat := |data|;
    var curpos: nat := 0;
    var header := new int[2];
    header[0], header[1] := cam, 0;
    packets := [];
    while remlen > 0
      invariant curpos + remlen == |data|
      invariant sendlen == Min(remlen, MAX_PACKET_SIZE)
      invariant header[0] == cam && header[1] == |packets|
      invariant SentUpTo(cam, data, net, packets, curpos)
      decreases remlen
    {
      var len := Len(net(header[1]), sendlen);
      if len == -1 {
        break;
      }
      assert HEADER_BYTES < len <= HEADER_BYTES + sendlen;
      var next := curpos + (len - HEADER_BYTES);
      var packet := Packet(header[0], header[1], data[curpos..next]);
      NextPacket(cam, data, curpos, packets, net, next, packet);
      packets, curpos, remlen := packets + [packet], next, remlen - (next - curpos);
      sendlen := Min(remlen, MAX_PACKET_SIZE);
      header[1] := header[1] + 1;
    }
    complete := remlen == 0;
    SendingStops(cam, data, net, packets, curpos);
  }

  // ----- whole datagrams -----

  /** Every datagram is sent whole. */
  const Whole: Network := k => Accepted(0)

  function Ceiling(n: nat): nat {
    (n + MAX_PACKET_SIZE - 1) / MAX_PACKET_SIZE
  }

  /** Bytes [1500k, min(1500(k+1), n)). */
  function Piece(data: Bytes, k: nat): Bytes
    requires k < Ceiling(|data|)
  {
    data[MAX_PACKET_SIZE * k..Min(MAX_PACKET_SIZE * (k + 1), |data|)]
  }

  /** Sent whole, packet k carries exactly its 1500-byte piece and there are ceil(n/1500) of them. */
  lemma {:induction false} WholeFragments(cam: int, data: Bytes, number: nat)
    requires MAX_PACKET_SIZE * number <= |data| || number == Ceiling(|data|)
    ensures var pos := Min(MAX_PACKET_SIZE * number, |data|);
            var ps := Fragments(cam, data, pos, number, Whole);
            && number + |ps| == Ceiling(|data|)
            && forall k :: 0 <= k < |ps| ==> ps[k] == Packet(cam, number + k, Piece(data, number + k))
    decreases |data| - MAX_PACKET_SIZE * number
  {
    if MAX_PACKET_SIZE * number < |data| {
      WholeFragments(cam, data, number + 1);
    }
  }

  /** The pieces in bytes: packet k is [1500k, min(1500k + 1500, n)), and there are as many as it takes. */
  lemma PiecesOf1500(cam: int, data: Bytes)
    ensures var ps := Fragments(cam, data, 0, 0, Whole);
            && |data| <= 1500 * |ps|
            && forall k :: 0 <= k < |ps| ==>
                 && 1500 * k < |data|
                 && ps[k] == Packet(cam, k, data[1500 * k..Min(1500 * k + 1500, |data|)])
  {
    WholeFragments(cam, data, 0);
    var ps := Fragments(cam, data, 0, 0, Whole);
    forall k | 0 <= k < |ps|
      ensures 1500 * k < |data| && ps[k] == Packet(cam, k, data[1500 * k..Min(1500 * k + 1500, |data|)])
    {
      PieceOf1500(data, k);
    }
  }

  lemma PieceOf1500(data: Bytes, k: nat)
    requires k < Ceiling(|data|)
    ensures 1500 * k < |data| && Piece(data, k) == data[1500 * k..Min(1500 * k + 1500, |data|)]
  {
  }

  lemma JoinedTake(ps: seq<Packet>, k: nat)
    requires 0 < k <= |ps|
    ensures Joined(ps[..k]) == ps[0].payload + Joined(ps[1..][..k - 1])
  {
    assert ps[..k][0] == ps[0] && ps[..k][1..] == ps[1..][..k - 1];
  }

  lemma FirstFragment(cam: int, data: Bytes, pos: nat, number: nat, net: Network) returns (n: nat)
    requires pos <= |data| && Fragments(cam, data, pos, number, net) != []
    ensures pos < |data| && 8 + n == Len(net(number), Min(|data| - pos, 1500)) && pos + n <= |data|
    ensures Fragments(cam, data, pos, number, net)
         == [Packet(cam, number, data[pos..pos + n])] + Fragments(cam, data, pos + n, number + 1, net)
  {
    n := Len(net(number), Min(|data| - pos, MAX_PACKET_SIZE)) - HEADER_BYTES;
  }

  /** Packet k carries what the socket accepted of the next 1500 bytes or of what is left behind the packets before it. */
  predicate AcceptedAt(ps: seq<Packet>, k: nat, data: Bytes, pos: nat, number: nat, net: Network)
    requires k < |ps|
  {
    var at := pos + |Joined(ps[..k])|;
    && at + |ps[k].payload| <= |data| && at < |data|
    && 8 + |ps[k].payload| == Len(net(number + k), Min(|data| - at, 1500))
    && ps[k].payload == data[at..at + |ps[k].payload|]
  }

  lemma AcceptedLater(p: Packet, rest: seq<Packet>, k: nat, data: Bytes, pos: nat, number: nat, net: Network)
    requires k < |rest| && AcceptedAt(rest, k, data, pos + |p.payload|, number + 1, net)
    ensures AcceptedAt([p] + rest, k + 1, data, pos, number, net)
  {
    JoinedTake([p] + rest, k + 1);
    assert ([p] + rest)[1..] == rest;
  }

  /** Under any network, for every packet. */
  lemma {:induction false} AcceptedSizes(cam: int, data: Bytes, pos: nat, number: nat, net: Network, k: nat)
    requires pos <= |data| && k < |Fragments(cam, data, pos, number, net)|
    ensures AcceptedAt(Fragments(cam, data, pos, number, net), k, data, pos, number, net)
    decreases k
  {
    var n := FirstFragment(cam, data, pos, number, net);
    if k > 0 {
      AcceptedSizes(cam, data, pos + n, number + 1, net, k - 1);
      AcceptedLater(Packet(cam, number, data[pos..pos + n]), Fragments(cam, data, pos + n, number + 1, net), k - 1,
                    data, pos, number, net);
    }
  }

  /** The loss detector's image gives exactly the numbers 0..240. */
  lemma {:induction false} ImageHas241Packets(cam: int, image: Bytes)
    requires |image| == 360960
    ensures var ps := Fragments(cam, image, 0, 0, Whole);
            |ps| == 241 && forall k :: 0 <= k < 241 ==> ps[k].number == k
  {
    WholeFragments(cam, image, 0);
  }

  // ----- recovering the data from the packets -----

  function Store(buf: Bytes, at: nat, payload: Bytes): (out: Bytes)
    ensures |out| == |buf|
  {
    if at + |payload| <= |buf| then buf[..at] + payload + buf[at + |payload|..] else buf
  }

  lemma StoreAt(buf: Bytes, at: nat, payload: Bytes, j: nat)
    requires at + |payload| <= |buf| && j < |buf|
    ensures Store(buf, at, payload)[j] == if at <= j < at + |payload| then payload[j - at] else buf[j]
  {
  }

  /** A receiver that stores each payload at 1500 times its number, in order of arrival. */
  function Place(buf: Bytes, ps: seq<Packet>): (out: Bytes)
    ensures |out| == |buf|
  {
    if ps == [] then buf
    else
      var p := ps[|ps| - 1];
      Store(Place(buf, ps[..|ps| - 1]), MAX_PACKET_SIZE * p.number, p.payload)
  }

  /** Packet k of the data, as sent whole. */
  predicate IsFragment(cam: int, data: Bytes, p: Packet) {
    p.number < Ceiling(|data|) && p == Packet(cam, p.number, Piece(data, p.number))
  }

  /** Byte j is in packet j/1500. */
  predicate Covered(ps: seq<Packet>, j: nat) {
    exists p :: p in ps && p.number == j / MAX_PACKET_SIZE
  }

  /** Exactly what a lossy, reordering, duplicating network recovers: the bytes of the packets that arrived. */
  lemma {:induction false} PlaceRecovers(cam: int, data: Bytes, buf: Bytes, ps: seq<Packet>, j: nat)
    requires |buf| == |data| && j < |data|
    requires forall p :: p in ps ==> IsFragment(cam, data, p)
    ensures Place(buf, ps)[j] == if Covered(ps, j) then data[j] else buf[j]
    decreases |ps|
  {
    if ps != [] {
      var front, p := ps[..|ps| - 1], ps[|ps| - 1];
      assert p in ps && forall q :: q in front ==> q in ps;
      PlaceRecovers(cam, data, buf, front, j);
      CoveredSnoc(ps, j);
      StorePiece(data, Place(buf, front), p.number, j);
    }
  }

  lemma CoveredSnoc(ps: seq<Packet>, j: nat)
    requires ps != []
    ensures Covered(ps, j) <==> Covered(ps[..|ps| - 1], j) || ps[|ps| - 1].number == j / MAX_PACKET_SIZE
  {
    var front, p := ps[..|ps| - 1], ps[|ps| - 1];
    assert ps == front + [p];
    assert p in ps;
  }

  /** Storing a piece changes the bytes it covers and no other. */
  lemma StorePiece(data: Bytes, before: Bytes, k: nat, j: nat)
    requires |before| == |data| && j < |data| && k < Ceiling(|data|)
    ensures Store(before, MAX_PACKET_SIZE * k, Piece(data, k))[j] == if k == j / MAX_PACKET_SIZE then data[j] else before[j]
  {
    PieceBounds(data, k, j);
    var piece, at := Piece(data, k), MAX_PACKET_SIZE * k;
    StoreAt(before, at, piece, j);
    if at <= j < at + |piece| {
      assert piece[j - at] == data[j];
    }
  }

  lemma PieceBounds(data: Bytes, k: nat, j: nat)
    requires k < Ceiling(|data|) && j < |data|
    ensures MAX_PACKET_SIZE * k + |Piece(data, k)| <= |data|
    ensures MAX_PACKET_SIZE * k <= j < MAX_PACKET_SIZE * k + |Piece(data, k)| <==> k == j / MAX_PACKET_SIZE
  {
  }

  /**
   * The data is recoverable from any arrival order, with any duplicates, provided no packet was lost:
   * whatever the buffer held before.
   */
  lemma {:induction false} OrderIndependentRecovery(cam: int, data: Bytes, buf: Bytes, ps: seq<Packet>)
    requires |buf| == |data|
    requires forall p :: p in ps <==> p in Fragments(cam, data, 0, 0, Whole)
    ensures Place(buf, ps) == data
  {
    var all := Fragments(cam, data, 0, 0, Whole);
    WholeFragments(cam, data, 0);
    forall j | 0 <= j < |data|
      ensures Place(buf, ps)[j] == data[j]
    {
      assert all[j / MAX_PACKET_SIZE] in all;
      PlaceRecovers(cam, data, buf, ps, j);
    }
  }
}
