/** The message format of the image stream: a 12-byte header in network byte order, then the payload. */
module TcpFraming {
  import opened Machine

  const HEADER_BYTES: nat := 12

  datatype Header = Header(timestamp: UInt32, dataSize: UInt32, dataId: UInt32)

  datatype Message = Message(header: Header, payload: Bytes)

  /** Network byte order: most significant octet first (Appendix B of RFC 791). */
  function EncodeWord(x: UInt32): Bytes {
    [x / 0x100_0000, x / 0x1_0000 % 0x100, x / 0x100 % 0x100, x % 0x100]
  }

  function DecodeWord(b: Bytes): UInt32
    requires |b| == 4
  {
    b[0] as int * 0x100_0000 + b[1] as int * 0x1_0000 + b[2] as int * 0x100 + b[3] as int
  }

  function EncodeHeader(h: Header): (b: Bytes)
    ensures |b| == HEADER_BYTES
  {
    EncodeWord(h.timestamp) + EncodeWord(h.dataSize) + EncodeWord(h.dataId)
  }

  function DecodeHeader(b: Bytes): Header
    requires |b| == HEADER_BYTES
  {
    Header(DecodeWord(b[0..4]), DecodeWord(b[4..8]), DecodeWord(b[8..12]))
  }

  function Encode(m: Message): Bytes {
    EncodeHeader(m.header) + m.payload
  }

  function Serialize(ms: seq<Message>): Bytes {
    if ms == [] then [] else Encode(ms[0]) + Serialize(ms[1..])
  }

  lemma WordDecodes(x: UInt32)
    ensures DecodeWord(EncodeWord(x)) == x
  {
    assert x / 0x1_0000 == x / 0x100 / 0x100 && x / 0x100_0000 == x / 0x100 / 0x100 / 0x100;
  }

  lemma WordEncodes(b: Bytes)
    requires |b| == 4
    ensures EncodeWord(DecodeWord(b)) == b
  {
    var w := DecodeWord(b);
    assert w / 0x100 == b[0] as int * 0x1_0000 + b[1] as int * 0x100 + b[2] as int;
    assert w / 0x1_0000 == b[0] as int * 0x100 + b[1] as int;
  }

  /** The word codec is a bijection between 32-bit words and 4-byte strings. */
  lemma WordCodec(x: UInt32, b: Bytes)
    requires |b| == 4
    ensures DecodeWord(EncodeWord(x)) == x
    ensures EncodeWord(DecodeWord(b)) == b
  {
    WordDecodes(x);
    WordEncodes(b);
  }

  /** The first byte in which two words differ decides. */
  predicate BytesLess(a: Bytes, b: Bytes)
    requires |a| == |b|
  {
    |a| > 0 && (a[0] < b[0] || (a[0] == b[0] && BytesLess(a[1..], b[1..])))
  }

  /** What makes the order network order: words compare as their bytes do, from the first sent on. */
  lemma WordsOrderedAsSent(x: UInt32, y: UInt32)
    ensures x < y <==> BytesLess(EncodeWord(x), EncodeWord(y))
  {
    var a, b := EncodeWord(x), EncodeWord(y);
    WordCodec(x, a);
    WordCodec(y, b);
    assert a[1..][0] == a[1] && b[1..][0] == b[1];
    assert a[1..][1..] == a[2..] && b[1..][1..] == b[2..];
    assert a[2..][1..] == a[3..] && b[2..][1..] == b[3..];
    assert a[3..][1..] == [] && b[3..][1..] == [];
    assert BytesLess(a[3..], b[3..]) <==> a[3] < b[3];
    assert BytesLess(a[2..], b[2..]) <==> a[2] < b[2] || (a[2] == b[2] && BytesLess(a[3..], b[3..]));
    assert BytesLess(a[1..], b[1..]) <==> a[1] < b[1] || (a[1] == b[1] && BytesLess(a[2..], b[2..]));
  }

  lemma HeaderCodec(h: Header, b: Bytes)
    requires |b| == HEADER_BYTES
    ensures DecodeHeader(EncodeHeader(h)) == h
    ensures EncodeHeader(DecodeHeader(b)) == b
  {
    var e := EncodeHeader(h);
    assert e[0..4] == EncodeWord(h.timestamp) && e[4..8] == EncodeWord(h.dataSize) && e[8..12] == EncodeWord(h.dataId);
    WordCodec(h.timestamp, b[0..4]);
    WordCodec(h.dataSize, b[4..8]);
    WordCodec(h.dataId, b[8..12]);
    assert b == b[0..4] + b[4..8] + b[8..12];
  }

  /** Which field is where on the wire, and what the bytes of a word are worth, said without the codec of headers. */
  lemma FieldsOnTheWire(m: Message)
    ensures |Encode(m)| == 12 + |m.payload| && Encode(m)[12..] == m.payload
    ensures DecodeWord(Encode(m)[0..4]) == m.header.timestamp
    ensures DecodeWord(Encode(m)[4..8]) == m.header.dataSize
    ensures DecodeWord(Encode(m)[8..12]) == m.header.dataId
  {
    var e, h := Encode(m), EncodeHeader(m.header);
    assert e[0..4] == EncodeWord(m.header.timestamp);
    assert e[4..8] == EncodeWord(m.header.dataSize);
    assert e[8..12] == EncodeWord(m.header.dataId);
    WordDecodes(m.header.timestamp);
    WordDecodes(m.header.dataSize);
    WordDecodes(m.header.dataId);
  }

  /** The header of a camera image, byte by byte. */
  lemma CameraHeaderOnTheWire()
    ensures EncodeHeader(Header(0, 360960, 100)) == [0, 0, 0, 0, 0x00, 0x05, 0x82, 0x00, 0, 0, 0, 100]
  {
  }

  lemma {:induction false} SerializeConcat(a: seq<Message>, b: seq<Message>)
    ensures Serialize(a + b) == Serialize(a) + Serialize(b)
  {
    if a == [] {
      assert a + b == b;
    } else {
      assert (a + b)[1..] == a[1..] + b;
      SerializeConcat(a[1..], b);
      assert Encode(a[0]) + (Serialize(a[1..]) + Serialize(b)) == (Encode(a[0]) + Serialize(a[1..])) + Serialize(b);
    }
  }

  lemma {:induction false} SerializeSnoc(a: seq<Message>, m: Message)
    ensures Serialize(a + [m]) == Serialize(a) + Encode(m)
  {
    SerializeConcat(a, [m]);
    assert [m][1..] == [];
    assert Serialize([m]) == Encode(m) + [];
  }

  /** The server's header vector: three words, filled with htonl of the fields and sent as they lie in memory. */
  method BuildHeader(h: Header) returns (headerPayload: array<Bytes>)
    ensures headerPayload.Length == 3
    ensures headerPayload[0] == EncodeWord(h.timestamp)
    ensures headerPayload[1] == EncodeWord(h.dataSize)
    ensures headerPayload[2] == EncodeWord(h.dataId)
    ensures headerPayload[0] + headerPayload[1] + headerPayload[2] == EncodeHeader(h)
    ensures fresh(headerPayload)
  {
    headerPayload := new Bytes[3](_ => [0, 0, 0, 0]);
    headerPayload[0] := EncodeWord(h.timestamp);
    headerPayload[1] := EncodeWord(h.dataSize);
    headerPayload[2] := EncodeWord(h.dataId);
  }
}
