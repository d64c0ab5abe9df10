/** The envelope of the binary protocol of src/Protocol.cpp: header, checksum and payload. */
module Protocol {
  import opened Bytes
  import Crc32

  // MessageType and ErrorCode are uint8_t enumerations; any byte can be cast to one.
  const PEER_LIST_REQUEST: bv8 := 1
  const PEER_LIST_RESPONSE: bv8 := 2
  const FILE_LIST_REQUEST: bv8 := 3
  const FILE_LIST_RESPONSE: bv8 := 4
  const FILE_REQUEST: bv8 := 5
  const FILE_CHUNK: bv8 := 6
  const FILE_COMPLETE: bv8 := 7
  const ERROR_MESSAGE: bv8 := 8
  const PING: bv8 := 9
  const PONG: bv8 := 10

  // ---------------------------------------------------------------------------------------------
  // The envelope
  // ---------------------------------------------------------------------------------------------

  const MAGIC_NUMBER: nat := 0x5032_5032
  const PROTOCOL_VERSION: nat := 1
  const HEADER_SIZE: nat := 17

  datatype MessageHeader = MessageHeader(magic: nat, version: nat, kind: bv8, payloadSize: nat, checksum: bv32)
  {
    predicate InRange() {
      magic < TWO_32 && version < TWO_32 && payloadSize < TWO_32
    }

    predicate IsValid() {
      magic == MAGIC_NUMBER && version == PROTOCOL_VERSION
    }
  }

  /** The packed struct in memory, on a little-endian host. */
  function Layout(h: MessageHeader): (r: seq<bv8>)
    requires h.InRange()
    ensures |r| == HEADER_SIZE
  {
    LittleEndian(h.magic) + LittleEndian(h.version) + [h.kind]
    + LittleEndian(h.payloadSize) + WordBytes(h.checksum)
  }

  function ReadHeader(b: seq<bv8>): (h: MessageHeader)
    requires |b| == HEADER_SIZE
    ensures h.InRange()
  {
    MessageHeader(FromLittleEndian(b[0..4]), FromLittleEndian(b[4..8]), b[8],
                  FromLittleEndian(b[9..13]), FromWordBytes(b[13..17]))
  }

  lemma FiveParts(a: seq<bv8>, b: seq<bv8>, k: bv8, c: seq<bv8>, d: seq<bv8>)
    requires |a| == |b| == |c| == |d| == 4
    ensures var s := a + b + [k] + c + d;
            s[0..4] == a && s[4..8] == b && s[8] == k && s[9..13] == c && s[13..17] == d
  {
  }

  lemma ReadLayout(h: MessageHeader)
    requires h.InRange()
    ensures ReadHeader(Layout(h)) == h
  {
    hide LittleEndian, FromLittleEndian, WordBytes, FromWordBytes;
    var zeros: seq<bv8> := [0, 0, 0, 0];
    FiveParts(LittleEndian(h.magic), LittleEndian(h.version), h.kind,
              LittleEndian(h.payloadSize), WordBytes(h.checksum));
    LittleEndianInverse(h.magic, zeros);
    LittleEndianInverse(h.version, zeros);
    LittleEndianInverse(h.payloadSize, zeros);
    FromToWordBytes(h.checksum);
  }

  lemma LayoutRead(b: seq<bv8>)
    requires |b| == HEADER_SIZE
    ensures Layout(ReadHeader(b)) == b
  {
    hide LittleEndian, FromLittleEndian, WordBytes, FromWordBytes;
    LittleEndianInverse(0, b[0..4]);
    LittleEndianInverse(0, b[4..8]);
    LittleEndianInverse(0, b[9..13]);
    ToFromWordBytes(b[13..17]);
    assert b == b[0..4] + b[4..8] + [b[8]] + b[9..13] + b[13..17];
  }

  function HeaderFor(kind: bv8, payload: seq<bv8>): (h: MessageHeader)
    ensures h.InRange()
  {
    MessageHeader(MAGIC_NUMBER, PROTOCOL_VERSION, kind, Trunc32(|payload|), Crc32.Checksum(payload))
  }

  function Message(kind: bv8, payload: seq<bv8>): (r: seq<bv8>)
    ensures |r| == HEADER_SIZE + |payload|
  {
    Layout(HeaderFor(kind, payload)) + payload
  }

  lemma ByteLiterals()
    ensures NatOf(0) == 0 && NatOf(1) == 1 && NatOf(0x32) == 0x32 && NatOf(0x50) == 0x50
    ensures ByteOf(0) == 0 && ByteOf(1) == 1 && ByteOf(0x32) == 0x32 && ByteOf(0x50) == 0x50
  {
  }

  lemma FixedFields()
    ensures LittleEndian(MAGIC_NUMBER) == [0x32, 0x50, 0x32, 0x50] && LittleEndian(PROTOCOL_VERSION) == [1, 0, 0, 0]
  {
    ByteLiterals();
    hide ByteOf;
  }

  /** A message byte by byte: magic, version, type, then size and checksum with the low byte first. */
  lemma MessageBytes(kind: bv8, payload: seq<bv8>)
    ensures var m := Message(kind, payload);
            && |m| == 17 + |payload|
            && m[0..4] == [0x32, 0x50, 0x32, 0x50] && m[4..8] == [1, 0, 0, 0] && m[8] == kind
            && NatOf(m[9]) + NatOf(m[10]) * 0x100 + NatOf(m[11]) * 0x1_0000 + NatOf(m[12]) * 0x100_0000
               == |payload| % TWO_32
            && (m[13] as bv32) | ((m[14] as bv32) << 8) | ((m[15] as bv32) << 16) | ((m[16] as bv32) << 24)
               == Crc32.Checksum(payload)
            && m[17..] == payload
  {
    hide LittleEndian, WordBytes, Crc32.Checksum, NatOf;
    var g := HeaderFor(kind, payload);
    var a, b, c, d := LittleEndian(g.magic), LittleEndian(g.version), LittleEndian(g.payloadSize), WordBytes(g.checksum);
    FixedFields();
    LittleEndianPlaces(g.payloadSize);
    FromToWordBytes(g.checksum);
    FiveParts(a, b, g.kind, c, d);
    hide FromWordBytes;
    var m := Message(kind, payload);
    assert m[..17] == Layout(g) && m[17..] == payload;
    assert m[0..4] == a && m[4..8] == b && m[8] == kind && m[9..13] == c && m[13..17] == d;
    assert m[9] == c[0] && m[10] == c[1] && m[11] == c[2] && m[12] == c[3];
    FromWordBytesAt(m[13..17]);
  }

  lemma FromWordBytesAt(d: seq<bv8>)
    requires |d| == 4
    ensures FromWordBytes(d) == (d[0] as bv32) | ((d[1] as bv32) << 8) | ((d[2] as bv32) << 16) | ((d[3] as bv32) << 24)
  {
  }

  method CreateMessage(kind: bv8, payload: seq<bv8>) returns (message: seq<bv8>)
    ensures message == Message(kind, payload)
  {
    var checksum := Crc32.CalculateCRC32(payload);
    var header := MessageHeader(MAGIC_NUMBER, PROTOCOL_VERSION, kind, Trunc32(|payload|), checksum);
    message := Layout(header);
    if payload != [] {
      message := message + payload;
    }
  }

  /** What parseMessage accepts, said without parsing: exactly the messages createMessage writes for
      payloads below 4 GiB, save that the checksum field of an empty payload may hold anything. */
  ghost predicate Accepts(data: seq<bv8>, kind: bv8, payload: seq<bv8>) {
    && |payload| < TWO_32
    && |data| == HEADER_SIZE + |payload|
    && if payload == [] then data[..13] == Message(kind, payload)[..13] else data == Message(kind, payload)
  }

  lemma HeaderDecides(data: seq<bv8>, kind: bv8, payload: seq<bv8>)
    requires |data| >= HEADER_SIZE
    ensures Accepts(data, kind, payload) <==>
            var h := ReadHeader(data[..17]);
            && h.IsValid() && h.kind == kind && payload == data[17..] && |payload| == h.payloadSize
            && (payload != [] ==> h.checksum == Crc32.Checksum(payload))
  {
    hide Layout, ReadHeader, Crc32.Checksum;
    var h := ReadHeader(data[..17]);
    var g := HeaderFor(kind, payload);
    assert data == data[..17] + data[17..];
    LayoutRead(data[..17]);
    ReadLayout(g);
    assert Message(kind, payload)[..17] == Layout(g) && Message(kind, payload)[17..] == payload;
    if |payload| == 0 {
      FrontDecides(h, g);
      assert Message(kind, payload)[..13] == Layout(g)[..13];
      assert data[..13] == data[..17][..13];
    }
  }

  lemma FrontDecides(h: MessageHeader, g: MessageHeader)
    requires h.InRange() && g.InRange()
    ensures Layout(h)[..13] == Layout(g)[..13] <==> h.(checksum := g.checksum) == g
  {
    var front := Layout(h)[..13];
    var g' := h.(checksum := g.checksum);
    assert Layout(h) == front + WordBytes(h.checksum);
    assert Layout(g') == front + WordBytes(g.checksum) by {
      hide LittleEndian, WordBytes;
      assert Layout(g')[..13] == front;
    }
    assert Layout(g) == Layout(g)[..13] + WordBytes(g.checksum);
    ReadLayout(g);
    ReadLayout(g');
  }

  method ParseMessage(data: seq<bv8>) returns (ok: bool, kind: bv8, payload: seq<bv8>)
    ensures ok <==> exists k, p :: Accepts(data, k, p)
    ensures ok ==> Accepts(data, kind, payload)
  {
    hide Layout, ReadHeader, Crc32.Checksum, Accepts;
    kind, payload := 0, [];
    if |data| < HEADER_SIZE {
      NothingShort(data);
      return false, kind, payload;
    }
    var header := ReadHeader(data[..HEADER_SIZE]);
    forall k, p {
      HeaderDecides(data, k, p);
    }
    if !header.IsValid() {
      return false, kind, payload;
    }
    if |data| != HEADER_SIZE + header.payloadSize {
      return false, kind, payload;
    }
    if header.payloadSize > 0 {
      payload := data[HEADER_SIZE..];
      var checksum := Crc32.CalculateCRC32(payload);
      if checksum != header.checksum {
        return false, kind, payload;
      }
    }
    kind := header.kind;
    assert Accepts(data, kind, payload);
    return true, kind, payload;
  }

  lemma NothingShort(data: seq<bv8>)
    requires |data| < HEADER_SIZE
    ensures !exists k, p :: Accepts(data, k, p)
  {
  }

  /** A message is accepted as at most one type and payload. */
  lemma AcceptsUnique(data: seq<bv8>, k1: bv8, p1: seq<bv8>, k2: bv8, p2: seq<bv8>)
    requires Accepts(data, k1, p1) && Accepts(data, k2, p2)
    ensures k1 == k2 && p1 == p2
  {
    HeaderDecides(data, k1, p1);
    HeaderDecides(data, k2, p2);
  }

  /** What createMessage wrote is read back as exactly that, if and only if the payload is below 4 GiB;
      a larger one is not read back as anything. */
  lemma EnvelopeRoundTrip(kind: bv8, payload: seq<bv8>, k: bv8, p: seq<bv8>)
    ensures Accepts(Message(kind, payload), k, p) <==> |payload| < TWO_32 && k == kind && p == payload
  {
    hide Layout, ReadHeader, Crc32.Checksum, Accepts;
    var m := Message(kind, payload);
    HeaderDecides(m, k, p);
    assert m[..17] == Layout(HeaderFor(kind, payload)) && m[17..] == payload;
    ReadLayout(HeaderFor(kind, payload));
  }

  /** Payload bytes changed within 32 consecutive bits, anywhere in a payload of any length,
      make parseMessage reject the message. */
  lemma BurstRejected(kind: bv8, payload: seq<bv8>, changed: seq<bv8>, start: nat, k: bv8, p: seq<bv8>)
    requires |changed| == |payload| && changed != payload
    requires forall j | 0 <= j < 8 * |payload| && !(start <= j < start + 32) ::
               Crc32.Bits(payload)[j] == Crc32.Bits(changed)[j]
    ensures !Accepts(Message(kind, payload)[..HEADER_SIZE] + changed, k, p)
  {
    Crc32.BurstDetected(payload, changed, start);
    ChangedPayload(kind, payload, changed, k, p);
  }

  /** The same for up to four consecutive bytes. */
  lemma FourByteBurstRejected(kind: bv8, payload: seq<bv8>, changed: seq<bv8>, start: nat, k: bv8, p: seq<bv8>)
    requires |changed| == |payload| && changed != payload
    requires forall j | 0 <= j < |payload| && !(start <= j < start + 4) :: payload[j] == changed[j]
    ensures !Accepts(Message(kind, payload)[..HEADER_SIZE] + changed, k, p)
  {
    Crc32.FourByteBurstDetected(payload, changed, start);
    ChangedPayload(kind, payload, changed, k, p);
  }

  /** A payload replaced by another of its length is accepted if and only if it has the same checksum, and then
      as what it is: Crc32.SameChecksum says which ones those are. */
  lemma ChangedPayload(kind: bv8, payload: seq<bv8>, changed: seq<bv8>, k: bv8, p: seq<bv8>)
    requires |changed| == |payload|
    ensures Accepts(Message(kind, payload)[..HEADER_SIZE] + changed, k, p) <==>
            |payload| < TWO_32 && k == kind && p == changed && Crc32.Checksum(changed) == Crc32.Checksum(payload)
  {
    hide Layout, ReadHeader, Crc32.Checksum, Accepts;
    var g := HeaderFor(kind, payload);
    var m := Message(kind, payload)[..HEADER_SIZE] + changed;
    assert m[..17] == Layout(g) && m[17..] == changed;
    ReadLayout(g);
    HeaderDecides(m, k, p);
    assert payload == [] ==> changed == payload;
  }

  /** The checksum field itself is protected if and only if there is a payload: a message whose
      checksum field was changed is still accepted exactly when its payload is empty. */
  lemma ChecksumFieldChange(kind: bv8, payload: seq<bv8>, word: bv32)
    requires |payload| < TWO_32 && word != Crc32.Checksum(payload)
    ensures var m := Message(kind, payload)[..13] + WordBytes(word) + payload;
            (exists k, p :: Accepts(m, k, p)) <==> payload == []
  {
    hide ReadHeader, Crc32.Checksum, Accepts, LittleEndian, WordBytes;
    var g := HeaderFor(kind, payload);
    var m := Message(kind, payload)[..13] + WordBytes(word) + payload;
    var g' := g.(checksum := word);
    assert m[..17] == Layout(g') && m[17..] == payload;
    hide Layout;
    ReadLayout(g');
    forall k, p {
      HeaderDecides(m, k, p);
    }
    if payload == [] {
      assert Accepts(m, kind, payload);
    }
  }
}
