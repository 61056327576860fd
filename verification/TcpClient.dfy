/** The receiving client: header decode, dispatch on data_id, payload read into a fixed image buffer. */
module TcpClient {
  import opened Machine
  import opened TcpFraming

  /**
   * What one dispatch read: the header and the bytes stored in the image buffer. The client ignores the error
   * of the payload read, so at the end of the stream there may be fewer than announced, and the read
   * is limited to the buffer, so of a larger payload only the first IMAGE_SIZE bytes are among them.
   */
  datatype Delivery = Delivery(header: Header, payload: Bytes)

  const IMAGE_ID: UInt32 := 100

  predicate KnownId(id: UInt32) {
    id == 10 || 100 <= id <= 103
  }

  /** The whole run of the receive loop on the bytes of one connection. */
  function Parse(s: Bytes): seq<Delivery>
    decreases |s|
  {
    if |s| < HEADER_BYTES then []
    else
      var h := DecodeHeader(s[..HEADER_BYTES]);
      var rest := s[HEADER_BYTES..];
      if !KnownId(h.dataId) then Parse(rest)
      else
        var n := Min(Min(h.dataSize, IMAGE_SIZE), |rest|);
        [Delivery(h, rest[..n])] + Parse(rest[n..])
  }

  /** boost::asio::read of n bytes: blocks for all of them, gives fewer only at the end of the stream. */
  method ReadInto(s: Bytes, pos: nat, n: nat, buf: array<Byte>) returns (len: nat)
    requires pos <= |s| && n <= buf.Length
    modifies buf
    ensures len == Min(n, |s| - pos)
    ensures buf[..len] == s[pos..pos + len]
  {
    len := 0;
    while len < n && pos + len < |s|
      invariant len <= n && pos + len <= |s|
      invariant buf[..len] == s[pos..pos + len]
    {
      buf[len] := s[pos + len];
      len := len + 1;
    }
  }

  /** The same run, from a position of the stream on. */
  function ParseFrom(s: Bytes, pos: nat): seq<Delivery>
    requires pos <= |s|
    decreases |s| - pos
  {
    if |s| < pos + HEADER_BYTES then []
    else
      var h, at := DecodeHeader(s[pos..pos + HEADER_BYTES]), pos + HEADER_BYTES;
      if !KnownId(h.dataId) then ParseFrom(s, at)
      else
        var n := Min(Min(h.dataSize, IMAGE_SIZE), |s| - at);
        [Delivery(h, s[at..at + n])] + ParseFrom(s, at + n)
  }

  lemma {:induction false} ParseFromIsParse(s: Bytes, pos: nat)
    requires pos <= |s|
    ensures ParseFrom(s, pos) == Parse(s[pos..])
    decreases |s| - pos
  {
    if pos + HEADER_BYTES <= |s| {
      var h, at := DecodeHeader(s[pos..pos + HEADER_BYTES]), pos + HEADER_BYTES;
      assert s[pos..][..HEADER_BYTES] == s[pos..at] && s[pos..][HEADER_BYTES..] == s[at..];
      if !KnownId(h.dataId) {
        ParseFromIsParse(s, at);
      } else {
        var n := Min(Min(h.dataSize, IMAGE_SIZE), |s| - at);
        assert s[at..][..n] == s[at..at + n] && s[at..][n..] == s[at + n..];
        ParseFromIsParse(s, at + n);
      }
    }
  }

  /** The three header words, converted from network byte order; eof if the stream ends before or within them. */
  method ReadHeader(s: Bytes, pos: nat) returns (eof: bool, header: Header)
    requires pos <= |s|
    ensures eof <==> |s| < pos + 12
    ensures !eof ==> header.timestamp == DecodeWord(s[pos..pos + 4])
    ensures !eof ==> header.dataSize == DecodeWord(s[pos + 4..pos + 8])
    ensures !eof ==> header.dataId == DecodeWord(s[pos + 8..pos + 12])
    ensures !eof ==> header == DecodeHeader(s[pos..pos + HEADER_BYTES])
  {
    var headerPayload := new Byte[HEADER_BYTES];
    var len := ReadInto(s, pos, HEADER_BYTES, headerPayload);
    if len < HEADER_BYTES {
      return true, Header(0, 0, 0);
    }
    var raw := headerPayload[..];
    assert raw == headerPayload[..len] == s[pos..pos + 12];
    assert raw[0..4] == s[pos..pos + 4] && raw[4..8] == s[pos + 4..pos + 8] && raw[8..12] == s[pos + 8..pos + 12];
    return false, Header(DecodeWord(raw[0..4]), DecodeWord(raw[4..8]), DecodeWord(raw[8..12]));
  }

  // ----- what is shown -----

  function IfImage(d: Delivery): seq<Delivery> {
    if d.header.dataId == IMAGE_ID then [d] else []
  }

  /** The deliveries that lead to a picture on the screen. */
  function Images(ds: seq<Delivery>): seq<Delivery> {
    if ds == [] then [] else IfImage(ds[0]) + Images(ds[1..])
  }

  lemma {:induction false} ImagesSnoc(ds: seq<Delivery>, d: Delivery)
    ensures Images(ds + [d]) == Images(ds) + IfImage(d)
  {
    if ds == [] {
      assert [d][1..] == [];
    } else {
      assert (ds + [d])[1..] == ds[1..] + [d];
      ImagesSnoc(ds[1..], d);
      ConcatAssoc(IfImage(ds[0]), Images(ds[1..]), IfImage(d));
    }
  }

  lemma {:induction false} AllImages(ds: seq<Delivery>)
    requires forall d :: d in ds ==> d.header.dataId == IMAGE_ID
    ensures Images(ds) == ds
  {
    if ds != [] {
      assert ds[0] in ds && forall d :: d in ds[1..] ==> d in ds;
      AllImages(ds[1..]);
    }
  }

  /** A picture is the whole buffer: the bytes read, then whatever the buffer held behind them. */
  ghost predicate Shows(ds: seq<Delivery>, shown: seq<Bytes>) {
    && |shown| == |Images(ds)|
    && forall i :: 0 <= i < |shown| ==> |shown[i]| == 360960 && Images(ds)[i].payload <= shown[i]
  }

  /** Only the branch for images shows the buffer. */
  function Pictures(h: Header, buffer: Bytes): seq<Bytes> {
    if h.dataId == IMAGE_ID then [buffer] else []
  }

  lemma ShowsSnoc(ds: seq<Delivery>, d: Delivery, shown: seq<Bytes>, picture: Bytes)
    requires Shows(ds, shown) && |picture| == IMAGE_SIZE && d.payload <= picture
    ensures Shows(ds + [d], shown + Pictures(d.header, picture))
  {
    ImagesSnoc(ds, d);
    assert Images(ds) + [] == Images(ds) && shown + [] == shown;
  }

  /** The payload read into the image buffer: at most its size, and less than asked for only at the end of the stream. */
  method ReadPayload(s: Bytes, pos: nat, n: nat) returns (payload: Bytes, picture: Bytes)
    requires pos <= |s|
    ensures |payload| == Min(Min(n, IMAGE_SIZE), |s| - pos)
    ensures payload == s[pos..pos + |payload|]
    ensures |picture| == IMAGE_SIZE && payload <= picture
  {
    var buf := new Byte[IMAGE_SIZE];
    var len := ReadInto(s, pos, Min(n, buf.Length), buf);
    payload, picture := buf[..len], buf[..];
  }

  /** A run that has read up to `pos`, made these deliveries and shown these pictures. */
  ghost predicate ReadUpTo(s: Bytes, pos: nat, ds: seq<Delivery>, shown: seq<Bytes>) {
    pos <= |s| && ParseFrom(s, 0) == ds + ParseFrom(s, pos) && Shows(ds, shown)
  }

  lemma ParseNext(s: Bytes, pos: nat, ds: seq<Delivery>, d: Delivery)
    requires pos + HEADER_BYTES <= |s|
    requires d.header == DecodeHeader(s[pos..pos + HEADER_BYTES]) && KnownId(d.header.dataId)
    requires |d.payload| == Min(Min(d.header.dataSize, IMAGE_SIZE), |s| - pos - HEADER_BYTES)
    requires d.payload == s[pos + HEADER_BYTES..pos + HEADER_BYTES + |d.payload|]
    ensures ds + ParseFrom(s, pos) == (ds + [d]) + ParseFrom(s, pos + HEADER_BYTES + |d.payload|)
  {
    ConcatAssoc(ds, [d], ParseFrom(s, pos + HEADER_BYTES + |d.payload|));
  }

  lemma ReadNext(s: Bytes, pos: nat, ds: seq<Delivery>, shown: seq<Bytes>, d: Delivery, picture: Bytes)
    requires ReadUpTo(s, pos, ds, shown) && pos + HEADER_BYTES <= |s|
    requires d.header == DecodeHeader(s[pos..pos + HEADER_BYTES]) && KnownId(d.header.dataId)
    requires |d.payload| == Min(Min(d.header.dataSize, IMAGE_SIZE), |s| - pos - HEADER_BYTES)
    requires d.payload == s[pos + HEADER_BYTES..pos + HEADER_BYTES + |d.payload|] && |picture| == IMAGE_SIZE && d.payload <= picture
    ensures ReadUpTo(s, pos + HEADER_BYTES + |d.payload|, ds + [d], shown + Pictures(d.header, picture))
  {
    ShowsSnoc(ds, d, shown, picture);
    ParseNext(s, pos, ds, d);
  }

  lemma ReadSkip(s: Bytes, pos: nat, ds: seq<Delivery>, shown: seq<Bytes>)
    requires ReadUpTo(s, pos, ds, shown) && pos + HEADER_BYTES <= |s|
    requires !KnownId(DecodeHeader(s[pos..pos + HEADER_BYTES]).dataId)
    ensures ReadUpTo(s, pos + HEADER_BYTES, ds + [], shown + [])
  {
    assert ds + [] == ds && shown + [] == shown;
  }

  lemma {:induction false} ReadAll(s: Bytes, pos: nat, ds: seq<Delivery>, shown: seq<Bytes>)
    requires ReadUpTo(s, pos, ds, shown) && |s| < pos + HEADER_BYTES
    ensures ds == Parse(s) && Shows(ds, shown)
  {
    ParseFromIsParse(s, 0);
    assert ds + [] == ds && s[0..] == s;
  }

  /** The switch on data_id: a payload is read into the buffer for a known id, and the buffer shown for an image. */
  method Dispatch(s: Bytes, pos: nat, header: Header, ghost ds: seq<Delivery>, shown: seq<Bytes>)
    returns (delivered: seq<Delivery>, pictures: seq<Bytes>, next: nat)
    requires ReadUpTo(s, pos, ds, shown) && pos + HEADER_BYTES <= |s|
    requires header == DecodeHeader(s[pos..pos + HEADER_BYTES])
    ensures pos < next && ReadUpTo(s, next, ds + delivered, shown + pictures)
  {
    if !KnownId(header.dataId) {
      ReadSkip(s, pos, ds, shown);
      return [], [], pos + HEADER_BYTES;
    }
    var payload, picture := ReadPayload(s, pos + HEADER_BYTES, header.dataSize);
    ReadNext(s, pos, ds, shown, Delivery(header, payload), picture);
    delivered, pictures := [Delivery(header, payload)], Pictures(header, picture);
    next := pos + HEADER_BYTES + |payload|;
  }

  /** The loop reads what Parse says, and shows the buffer after each image. */
  method ReceiveLoop(s: Bytes) returns (deliveries: seq<Delivery>, shown: seq<Bytes>)
    ensures deliveries == Parse(s)
    ensures Shows(deliveries, shown)
  {
    var pos := 0;
    deliveries, shown := [], [];
    while true
      invariant ReadUpTo(s, pos, deliveries, shown)
      decreases |s| - pos
    {
      var eof, header := ReadHeader(s, pos);
      if eof {
        break;
      }
      var delivered, pictures, next := Dispatch(s, pos, header, deliveries, shown);
      deliveries, shown, pos := deliveries + delivered, shown + pictures, next;
    }
    ReadAll(s, pos, deliveries, shown);
  }

  function Padded(ds: seq<Delivery>, filler: Byte): (shown: seq<Bytes>)
    requires forall d :: d in Images(ds) ==> |d.payload| <= IMAGE_SIZE
    ensures Shows(ds, shown)
    ensures forall i :: 0 <= i < |shown| && |Images(ds)[i].payload| < IMAGE_SIZE ==> shown[i][IMAGE_SIZE - 1] == filler
  {
    seq(|Images(ds)|, i requires 0 <= i < |Images(ds)| =>
      Images(ds)[i].payload + seq(IMAGE_SIZE - |Images(ds)[i].payload|, _ => filler))
  }

  lemma {:induction false} PayloadsFit(s: Bytes)
    ensures forall d :: d in Images(Parse(s)) ==> |d.payload| <= IMAGE_SIZE
    decreases |s|
  {
    if |s| >= HEADER_BYTES {
      var h := DecodeHeader(s[..HEADER_BYTES]);
      var rest := s[HEADER_BYTES..];
      if !KnownId(h.dataId) {
        PayloadsFit(rest);
      } else {
        var n := Min(Min(h.dataSize, IMAGE_SIZE), |rest|);
        PayloadsFit(rest[n..]);
        assert Parse(s)[1..] == Parse(rest[n..]);
      }
    }
  }

  /** What is shown depends on nothing but the bytes read exactly if those fill the buffer. */
  lemma {:induction false} ShownIsDeterminedIffFull(s: Bytes, i: nat)
    requires i < |Images(Parse(s))|
    ensures var full := |Images(Parse(s))[i].payload| == IMAGE_SIZE;
            && ((forall a, b :: Shows(Parse(s), a) && Shows(Parse(s), b) ==> a[i] == b[i]) <==> full)
            && (full ==> forall a :: Shows(Parse(s), a) ==> a[i] == Images(Parse(s))[i].payload)
  {
    var ds := Parse(s);
    PayloadsFit(s);
    if |Images(ds)[i].payload| != IMAGE_SIZE {
      var zeros, ones := Padded(ds, 0), Padded(ds, 1);
      assert Shows(ds, zeros) && Shows(ds, ones);
      assert zeros[i][IMAGE_SIZE - 1] != ones[i][IMAGE_SIZE - 1];
    }
  }

  // ----- what the stream means -----

  /** Messages the format is defined for: the size field is the payload length and fits the client's buffer. */
  predicate WellFormed(m: Message) {
    && |m.payload| == m.header.dataSize <= IMAGE_SIZE
    && (!KnownId(m.header.dataId) ==> m.payload == [])
  }

  predicate AllWellFormed(ms: seq<Message>) {
    forall m :: m in ms ==> WellFormed(m)
  }

  /** What the client makes of one whole message; an empty one with an unknown id is only reported. */
  function DecodedOf(m: Message): seq<Delivery> {
    if KnownId(m.header.dataId) then [Delivery(m.header, m.payload)] else []
  }

  /** The deliveries a faultless run makes. */
  function Decoded(ms: seq<Message>): seq<Delivery> {
    if ms == [] then [] else DecodedOf(ms[0]) + Decoded(ms[1..])
  }

  lemma {:induction false} DecodedConcat(a: seq<Message>, b: seq<Message>)
    ensures Decoded(a + b) == Decoded(a) + Decoded(b)
  {
    if a == [] {
      assert a + b == b;
    } else {
      assert (a + b)[1..] == a[1..] + b;
      DecodedConcat(a[1..], b);
      ConcatAssoc(DecodedOf(a[0]), Decoded(a[1..]), Decoded(b));
    }
  }

  lemma {:induction false} DecodedAll(ms: seq<Message>)
    requires forall m :: m in ms ==> KnownId(m.header.dataId)
    ensures |Decoded(ms)| == |ms|
    ensures forall i :: 0 <= i < |ms| ==> Decoded(ms)[i] == Delivery(ms[i].header, ms[i].payload)
  {
    if ms != [] {
      assert ms[0] in ms && forall m :: m in ms[1..] ==> m in ms;
      DecodedAll(ms[1..]);
      assert Decoded(ms) == [Delivery(ms[0].header, ms[0].payload)] + Decoded(ms[1..]);
    }
  }

  lemma {:induction false} ParseOne(m: Message, later: Bytes)
    requires WellFormed(m)
    ensures Parse(Encode(m) + later)
         == DecodedOf(m) + Parse(later)
  {
    var s := Encode(m) + later;
    var h := EncodeHeader(m.header);
    assert s == h + (m.payload + later);
    assert s[..HEADER_BYTES] == h && s[HEADER_BYTES..] == m.payload + later;
    HeaderCodec(m.header, h);
    if KnownId(m.header.dataId) {
      var rest := m.payload + later;
      assert rest[..|m.payload|] == m.payload && rest[|m.payload|..] == later;
    } else {
      assert m.payload + later == later;
    }
  }

  /** The ids the client reads a payload for, one by one: images, and four kinds it reads and drops. */
  lemma ParseKnown(m: Message, later: Bytes)
    requires m.header.dataId == 10 || m.header.dataId == 100 || m.header.dataId == 101
             || m.header.dataId == 102 || m.header.dataId == 103
    requires |m.payload| == m.header.dataSize <= 360960
    ensures Parse(Encode(m) + later) == [Delivery(m.header, m.payload)] + Parse(later)
  {
    ParseOne(m, later);
  }

  /** Of a message with any other id only the 12 header bytes are consumed, whatever size it announces. */
  lemma ParseUnknown(h: Header, later: Bytes)
    requires h.dataId != 10 && h.dataId != 100 && h.dataId != 101 && h.dataId != 102 && h.dataId != 103
    ensures Parse(EncodeHeader(h) + later) == Parse(later)
  {
    var s := EncodeHeader(h) + later;
    assert s[..HEADER_BYTES] == EncodeHeader(h) && s[HEADER_BYTES..] == later;
    HeaderCodec(h, s[..HEADER_BYTES]);
  }

  /** Exactly the deliveries with id 100 lead to a picture. */
  lemma {:induction false} ImagesHaveId100(ds: seq<Delivery>)
    ensures multiset(Images(ds)) <= multiset(ds)
    ensures forall d :: d in ds ==> multiset(Images(ds))[d] == if d.header.dataId == 100 then multiset(ds)[d] else 0
  {
    if ds != [] {
      ImagesHaveId100(ds[1..]);
      assert ds == [ds[0]] + ds[1..];
      assert Images(ds) == IfImage(ds[0]) + Images(ds[1..]);
      forall d | d in ds
        ensures multiset(Images(ds))[d] == if d.header.dataId == 100 then multiset(ds)[d] else 0
      {
        if d !in ds[1..] {
          assert multiset(Images(ds[1..]))[d] <= multiset(ds[1..])[d] == 0;
        }
      }
    }
  }

  /** Parsing resumes exactly behind any sequence of whole messages. */
  lemma {:induction false} ParseMessages(ms: seq<Message>, tail: Bytes)
    requires AllWellFormed(ms)
    ensures Parse(Serialize(ms) + tail)
         == Decoded(ms) + Parse(tail)
  {
    if ms == [] {
      assert Serialize(ms) + tail == tail;
    } else {
      var m, later := ms[0], Serialize(ms[1..]) + tail;
      assert m in ms;
      ParseMessages(ms[1..], tail);
      ParseOne(m, later);
      ConcatAssoc(Encode(m), Serialize(ms[1..]), tail);
      ConcatAssoc(DecodedOf(m), Decoded(ms[1..]), Parse(tail));
    }
  }

  /** Round trip: parsing a serialised sequence gives back its messages, in order and unmodified. */
  lemma {:induction false} RoundTrip(ms: seq<Message>)
    requires AllWellFormed(ms)
    ensures Parse(Serialize(ms)) == Decoded(ms)
  {
    ParseMessages(ms, []);
    assert Serialize(ms) + [] == Serialize(ms);
    assert Decoded(ms) + [] == Decoded(ms);
  }

  /** Messages as a sender means them: any length, announced truly; nothing behind an unknown id. */
  predicate Honest(m: Message) {
    && |m.payload| == m.header.dataSize
    && (!KnownId(m.header.dataId) ==> m.payload == [])
  }

  /** Of a payload larger than the buffer the client reads what fits, and takes the rest for headers and payloads. */
  lemma {:induction false} ParseOversized(m: Message, later: Bytes)
    requires Honest(m) && |m.payload| > 360960
    ensures Parse(Encode(m) + later)
         == [Delivery(m.header, m.payload[..360960])] + Parse(m.payload[360960..] + later)
  {
    var s := Encode(m) + later;
    var h := EncodeHeader(m.header);
    assert s == h + (m.payload + later);
    assert s[..HEADER_BYTES] == h && s[HEADER_BYTES..] == m.payload + later;
    HeaderCodec(m.header, h);
    var rest := m.payload + later;
    assert rest[..IMAGE_SIZE] == m.payload[..IMAGE_SIZE] && rest[IMAGE_SIZE..] == m.payload[IMAGE_SIZE..] + later;
  }

  lemma SameFront(front: seq<Delivery>, a: seq<Delivery>, b: seq<Delivery>)
    ensures front + a == front + b <==> a == b
  {
    assert (front + a)[|front|..] == a && (front + b)[|front|..] == b;
  }

  /** The round trip succeeds exactly if every payload fits the client's buffer. */
  lemma {:induction false} RoundTripIffFits(ms: seq<Message>)
    requires forall m :: m in ms ==> Honest(m)
    ensures Parse(Serialize(ms)) == Decoded(ms) <==> forall m :: m in ms ==> |m.payload| <= 360960
  {
    if ms != [] {
      var m, later := ms[0], Serialize(ms[1..]);
      assert m in ms;
      assert forall x :: x in ms <==> x == m || x in ms[1..];
      if |m.payload| <= IMAGE_SIZE {
        ParseOne(m, later);
        RoundTripIffFits(ms[1..]);
        SameFront(DecodedOf(m), Parse(later), Decoded(ms[1..]));
      } else {
        ParseOversized(m, later);
        assert Decoded(ms)[0] == Delivery(m.header, m.payload);
      }
    }
  }

  /** Where a cut after k bytes falls: c whole messages and r bytes of the next one. */
  datatype Cut = Cut(whole: nat, into: nat)

  function CutAt(ms: seq<Message>, k: nat): (cut: Cut)
    requires k <= |Serialize(ms)|
    ensures cut.whole <= |ms|
    ensures if cut.whole == |ms| then cut.into == 0 else cut.into < |Encode(ms[cut.whole])|
  {
    if ms == [] then Cut(0, 0)
    else if k < |Encode(ms[0])| then Cut(0, k)
    else
      var cut := CutAt(ms[1..], k - |Encode(ms[0])|);
      Cut(cut.whole + 1, cut.into)
  }

  /** The bytes of the message a cut falls into that lie before it. */
  function PartBefore(ms: seq<Message>, cut: Cut): Bytes
    requires cut.whole <= |ms|
    requires cut.whole < |ms| ==> cut.into <= |Encode(ms[cut.whole])|
  {
    if cut.whole == |ms| then [] else Encode(ms[cut.whole])[..cut.into]
  }

  lemma TakeBehind(a: Bytes, b: Bytes, j: nat)
    requires j <= |b|
    ensures (a + b)[..j + |a|] == a + b[..j]
  {
  }

  lemma {:induction false} CutSplits(ms: seq<Message>, k: nat)
    requires k <= |Serialize(ms)|
    ensures Serialize(ms)[..k] == Serialize(ms[..CutAt(ms, k).whole]) + PartBefore(ms, CutAt(ms, k))
  {
    if ms == [] {
    } else if k < |Encode(ms[0])| {
      assert ms[..0] == [];
    } else {
      var j := k - |Encode(ms[0])|;
      var cut := CutAt(ms[1..], j);
      CutSplits(ms[1..], j);
      var front := ms[..cut.whole + 1];
      assert front[0] == ms[0] && front[1..] == ms[1..][..cut.whole];
      TakeBehind(Encode(ms[0]), Serialize(ms[1..]), j);
      ConcatAssoc(Encode(ms[0]), Serialize(ms[1..][..cut.whole]), PartBefore(ms[1..], cut));
    }
  }

  lemma {:induction false} CutBeforeEnd(ms: seq<Message>, k: nat)
    requires k < |Serialize(ms)|
    ensures CutAt(ms, k).whole < |ms|
  {
    CutSplits(ms, k);
    assert ms[..|ms|] == ms;
  }

  /** Parsing what a cut leaves of one message: nothing before the payload starts, a short delivery after. */
  lemma ParsePartial(m: Message, r: nat)
    requires WellFormed(m) && r < |Encode(m)|
    ensures Parse(Encode(m)[..r])
         == if r < HEADER_BYTES then [] else [Delivery(m.header, m.payload[..r - HEADER_BYTES])]
  {
    if r >= HEADER_BYTES {
      var s := Encode(m)[..r];
      assert s[..HEADER_BYTES] == EncodeHeader(m.header) && s[HEADER_BYTES..] == m.payload[..r - HEADER_BYTES];
      HeaderCodec(m.header, s[..HEADER_BYTES]);
      var rest := s[HEADER_BYTES..];
      assert rest[..|rest|] == rest && rest[|rest|..] == [];
    }
  }

  /** The delivery made of a message cut inside its payload. */
  function ShortDelivery(ms: seq<Message>, cut: Cut): seq<Delivery>
    requires cut.whole <= |ms|
    requires if cut.whole == |ms| then cut.into == 0 else cut.into < |Encode(ms[cut.whole])|
  {
    if cut.into < HEADER_BYTES then []
    else [Delivery(ms[cut.whole].header, ms[cut.whole].payload[..cut.into - HEADER_BYTES])]
  }

  /** Parsing any byte prefix: the messages that are whole in it, then at most one short delivery. */
  lemma {:induction false} ParsePrefix(ms: seq<Message>, k: nat)
    requires AllWellFormed(ms) && k <= |Serialize(ms)|
    ensures Parse(Serialize(ms)[..k])
         == Decoded(ms[..CutAt(ms, k).whole]) + ShortDelivery(ms, CutAt(ms, k))
  {
    var cut := CutAt(ms, k);
    CutSplits(ms, k);
    if cut.whole == |ms| {
      ParseMessages(ms[..cut.whole], []);
    } else {
      assert ms[cut.whole] in ms;
      ParseMessages(ms[..cut.whole], Encode(ms[cut.whole])[..cut.into]);
      ParsePartial(ms[cut.whole], cut.into);
    }
  }

  /** A sequence whose delivery behind `front` differs from the expected one is no prefix of it. */
  lemma DiffersAfter(front: seq<Delivery>, x: Delivery, y: Delivery, later: seq<Delivery>)
    requires x != y
    ensures !(front + [x] <= front + ([y] + later))
  {
    assert (front + [x])[|front|] == x && (front + ([y] + later))[|front|] == y;
  }

  lemma {:induction false} DecodedAround(ms: seq<Message>, c: nat)
    requires c < |ms|
    ensures Decoded(ms) == Decoded(ms[..c]) + (DecodedOf(ms[c]) + Decoded(ms[c + 1..]))
  {
    assert ms == ms[..c] + ms[c..] && ms[c..][1..] == ms[c + 1..];
    DecodedConcat(ms[..c], ms[c..]);
  }

  /**
   * Parsing a byte prefix yields a prefix of the messages exactly when the cut is not inside a payload.
   * A caller can check the right-hand side from the message lengths alone.
   */
  lemma {:induction false} PrefixIffNotInsidePayload(ms: seq<Message>, k: nat)
    requires AllWellFormed(ms) && k <= |Serialize(ms)|
    ensures Parse(Serialize(ms)[..k]) <= Decoded(ms) <==> CutAt(ms, k).into < HEADER_BYTES
  {
    var cut := CutAt(ms, k);
    ParsePrefix(ms, k);
    if cut.whole == |ms| {
      assert ms[..cut.whole] == ms;
    } else {
      DecodedAround(ms, cut.whole);
      if cut.into >= HEADER_BYTES {
        var m := ms[cut.whole];
        assert m in ms;
        var short := Delivery(m.header, m.payload[..cut.into - HEADER_BYTES]);
        DiffersAfter(Decoded(ms[..cut.whole]), short, Delivery(m.header, m.payload), Decoded(ms[cut.whole + 1..]));
      }
    }
  }

  /** Of a stream cut one byte into a payload, one byte is read as the image. */
  lemma ShortDeliveryExample()
    ensures var m := Message(Header(0, 2, 100), [7, 8]);
            AllWellFormed([m]) && Parse(Serialize([m])[..13]) == [Delivery(m.header, [7])]
            && !(Parse(Serialize([m])[..13]) <= Decoded([m]))
  {
    var m := Message(Header(0, 2, 100), [7, 8]);
    assert Serialize([m]) == Encode(m) + Serialize([m][1..]) == Encode(m);
    assert Encode(m)[..13] == EncodeHeader(m.header) + [7];
    ParsePartial(m, 13);
    assert m.payload[..1] == [7];
    assert Decoded([m])[0] == Delivery(m.header, [7, 8]);
  }

  function IfComplete(d: Delivery): seq<Delivery> {
    if |d.payload| == d.header.dataSize then [d] else []
  }

  /** The deliveries whose payload has the announced length. */
  function Complete(ds: seq<Delivery>): seq<Delivery> {
    if ds == [] then [] else IfComplete(ds[0]) + Complete(ds[1..])
  }

  lemma {:induction false} CompleteConcat(a: seq<Delivery>, b: seq<Delivery>)
    ensures Complete(a + b) == Complete(a) + Complete(b)
  {
    if a == [] {
      assert a + b == b;
    } else {
      assert (a + b)[1..] == a[1..] + b;
      CompleteConcat(a[1..], b);
      ConcatAssoc(IfComplete(a[0]), Complete(a[1..]), Complete(b));
    }
  }

  lemma {:induction false} DecodedIsComplete(ms: seq<Message>)
    requires AllWellFormed(ms)
    ensures Complete(Decoded(ms)) == Decoded(ms)
  {
    if ms != [] {
      assert ms[0] in ms;
      DecodedIsComplete(ms[1..]);
      CompleteConcat(DecodedOf(ms[0]), Decoded(ms[1..]));
      if DecodedOf(ms[0]) != [] {
        assert DecodedOf(ms[0])[1..] == [];
      }
    }
  }

  /** However the stream is cut, the complete deliveries are exactly the messages whole in the prefix. */
  lemma {:induction false} CompleteOfPrefix(ms: seq<Message>, k: nat)
    requires AllWellFormed(ms) && k <= |Serialize(ms)|
    ensures Complete(Parse(Serialize(ms)[..k])) == Decoded(ms[..CutAt(ms, k).whole])
  {
    var cut := CutAt(ms, k);
    ParsePrefix(ms, k);
    DecodedIsComplete(ms[..cut.whole]);
    CompleteConcat(Decoded(ms[..cut.whole]), ShortDelivery(ms, cut));
    if cut.into >= HEADER_BYTES {
      assert ms[cut.whole] in ms;
      assert ShortDelivery(ms, cut)[1..] == [];
    }
  }

  /** Of a prefix of image messages every delivery leads to a picture, and the complete ones come first. */
  lemma PrefixIsShown(ms: seq<Message>, k: nat)
    requires AllWellFormed(ms) && (forall m :: m in ms ==> m.header.dataId == IMAGE_ID) && k <= |Serialize(ms)|
    ensures Images(Parse(Serialize(ms)[..k])) == Parse(Serialize(ms)[..k])
    ensures Complete(Parse(Serialize(ms)[..k])) <= Parse(Serialize(ms)[..k])
  {
    var cut := CutAt(ms, k);
    var front, ds := ms[..cut.whole], Parse(Serialize(ms)[..k]);
    ParsePrefix(ms, k);
    CompleteOfPrefix(ms, k);
    assert forall m :: m in front ==> m in ms;
    DecodedAll(front);
    forall d | d in ds
      ensures d.header.dataId == IMAGE_ID
    {
      var i :| 0 <= i < |ds| && ds[i] == d;
      assert ms[i] in ms;
    }
    AllImages(ds);
  }
}
