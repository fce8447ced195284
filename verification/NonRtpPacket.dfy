/** The packet that travels on the wire: a 7-byte header and a payload (packetizer/non_rtp_packet.cc). */
module NonRtpPackets {
  import opened H264

  const HEADER_SIZE := 7
  const DEFAULT_PACKET_SIZE := 1500

  datatype Header = Header(payloadType: byte, timestamp: nat, groupId: byte, packetsPerFrame: byte)

  /** A header the wire format can carry: 7 bits of payload type and 32 of timestamp. */
  predicate Encodable(h: Header) {
    h.payloadType < 128 && h.timestamp < 0x1_0000_0000
  }

  /** The first header byte: the payload type, joined to the top bit that the buffer held before. */
  function TypeByte(payloadType: byte, topBit: bool): byte {
    if topBit && payloadType < 128 then 128 + payloadType else payloadType
  }

  /** Seven bits of it show the payload type and the eighth what was there before; a type of 8 bits stays as it is. */
  lemma TypeByteExactly(payloadType: byte, topBit: bool)
    ensures payloadType < 128 ==>
              TypeByte(payloadType, topBit) % 128 == payloadType && (TypeByte(payloadType, topBit) >= 128 <==> topBit)
    ensures payloadType >= 128 ==> TypeByte(payloadType, topBit) == payloadType
  {
  }

  function HeaderBytes(h: Header, topBit: bool): (data: Bytes)
    ensures |data| == HEADER_SIZE
  {
    [TypeByte(h.payloadType, topBit)] + WriteUint32(h.timestamp) + [h.groupId, h.packetsPerFrame]
  }

  datatype Parsed = Parsed(header: Header, payload: Bytes) | TooShort

  /** What a receiver reads from a datagram. */
  function ParseWire(wire: Bytes): (p: Parsed)
    ensures p.TooShort? <==> |wire| < HEADER_SIZE
  {
    if |wire| < HEADER_SIZE then TooShort
    else Parsed(Header(wire[0] % 128, ReadUint32(wire[1..5]), wire[5], wire[6]), wire[HEADER_SIZE..])
  }

  /** Whatever the stale top bit, a header and a payload are read back unchanged, if the payload type has 7 bits. */
  lemma WireRoundTrip(h: Header, topBit: bool, payload: Bytes)
    requires h.timestamp < 0x1_0000_0000
    ensures ParseWire(HeaderBytes(h, topBit) + payload) == Parsed(h, payload) <==> Encodable(h)
  {
    var wire := HeaderBytes(h, topBit) + payload;
    assert wire[1..5] == WriteUint32(h.timestamp);
    Uint32RoundTrip(h.timestamp);
    assert wire[HEADER_SIZE..] == payload;
  }

  class NonRtpPacket {
    var payloadType: byte
    var timestamp: nat
    var groupId: byte
    var packetsPerFrame: byte
    var buffer: array<byte>
    var payloadOffset: nat
    var payloadSize: nat

    ghost predicate Valid()
      reads this
    {
      buffer.Length >= HEADER_SIZE && payloadOffset + payloadSize <= buffer.Length
    }

    function Size(): nat
      reads this
    {
      payloadOffset + payloadSize
    }

    function FreeCapacity(): nat
      reads this
      requires Valid()
    {
      buffer.Length - Size()
    }

    function Payload(): Bytes
      reads this, buffer
      requires Valid()
    {
      buffer[payloadOffset..payloadOffset + payloadSize]
    }

    /** The bytes that are sent: everything up to the end of the payload. */
    function Wire(): Bytes
      reads this, buffer
      requires Valid()
    {
      buffer[..Size()]
    }

    /** The header space and the first n payload bytes. */
    function Upto(n: nat): Bytes
      reads this, buffer
      requires Valid() && n <= payloadSize
    {
      buffer[..payloadOffset + n]
    }

    constructor ()
      ensures Valid() && fresh(buffer)
      ensures buffer.Length == 1500 && payloadOffset == 0 && payloadSize == 0
    {
      payloadType, timestamp, groupId, packetsPerFrame := 0, 0, 0, 0;
      buffer := new byte[DEFAULT_PACKET_SIZE];
      payloadOffset, payloadSize := 0, 0;
    }

    method ReserveHeaderSpace()
      requires Valid() && payloadSize == 0
      modifies this`payloadOffset
      ensures Valid() && payloadOffset == HEADER_SIZE
    {
      payloadOffset := HEADER_SIZE;
    }

    method SetPayloadType(value: byte)
      requires Valid()
      modifies this`payloadType, buffer
      ensures payloadType == value
      ensures buffer[..] == old(buffer[..])[0 := TypeByte(value, TopBit(old(buffer[0])))]
    {
      payloadType := value;
      buffer[0] := if value < 128 then buffer[0] / 128 * 128 + value else value;
    }

    method SetTimestamp(value: nat)
      requires Valid() && value < 0x1_0000_0000
      modifies this`timestamp, buffer
      ensures timestamp == value
      ensures buffer[..] == old(buffer[..1]) + WriteUint32(value) + old(buffer[5..])
    {
      timestamp := value;
      var data := WriteUint32(value);
      buffer[1], buffer[2], buffer[3], buffer[4] := data[0], data[1], data[2], data[3];
    }

    method SetGroupId(value: byte)
      requires Valid()
      modifies this`groupId, buffer
      ensures groupId == value
      ensures buffer[..] == old(buffer[..])[5 := value]
    {
      groupId := value;
      buffer[5] := value;
    }

    method SetPacketsPerFrame(value: byte)
      requires Valid()
      modifies this`packetsPerFrame, buffer
      ensures packetsPerFrame == value
      ensures buffer[..] == old(buffer[..])[6 := value]
    {
      packetsPerFrame := value;
      buffer[6] := value;
    }

    /** Writes the whole header: what the sender does before it asks for a payload. */
    method WriteHeader(h: Header)
      requires Valid() && payloadSize == 0 && h.timestamp < 0x1_0000_0000
      modifies this`payloadOffset, this`payloadType, this`timestamp, this`groupId, this`packetsPerFrame, buffer
      ensures Valid() && payloadOffset == HEADER_SIZE
      ensures buffer[..HEADER_SIZE] == HeaderBytes(h, TopBit(old(buffer[0])))
      ensures buffer[HEADER_SIZE..] == old(buffer[HEADER_SIZE..])
    {
      ReserveHeaderSpace();
      ghost var topBit := TopBit(buffer[0]);
      SetPayloadType(h.payloadType);
      ghost var first := buffer[..][0];
      SetTimestamp(h.timestamp);
      SetGroupId(h.groupId);
      SetPacketsPerFrame(h.packetsPerFrame);
      assert buffer[..][0] == first;
      assert buffer[..HEADER_SIZE] == buffer[..][..HEADER_SIZE];
      assert buffer[..HEADER_SIZE] == HeaderBytes(h, topBit);
    }

    /** Sets the payload size; fails, changing nothing, when the buffer is too small. */
    method SetPayloadSize(sizeBytes: nat) returns (ok: bool)
      requires Valid()
      modifies this`payloadSize
      ensures Valid()
      ensures ok <==> payloadOffset + sizeBytes <= buffer.Length
      ensures payloadSize == if ok then sizeBytes else old(payloadSize)
    {
      if payloadOffset + sizeBytes > buffer.Length {
        return false;
      }
      payloadSize := sizeBytes;
      return true;
    }

    /** A failed allocation leaves an empty payload behind. */
    method AllocatePayload(sizeBytes: nat) returns (ok: bool)
      requires Valid()
      modifies this`payloadSize
      ensures Valid()
      ensures ok <==> payloadOffset + sizeBytes <= buffer.Length
      ensures payloadSize == if ok then sizeBytes else 0
    {
      var _ := SetPayloadSize(0);
      ok := SetPayloadSize(sizeBytes);
    }

    /** Copies data into the payload, from position index on. */
    method CopyToPayload(index: nat, data: Bytes)
      requires Valid() && index + |data| <= payloadSize
      modifies buffer
      ensures Upto(index + |data|) == old(Upto(index)) + data
      ensures buffer[payloadOffset + index + |data|..] == old(buffer[payloadOffset + index + |data|..])
    {
      forall i | 0 <= i < |data| {
        buffer[payloadOffset + index + i] := data[i];
      }
    }

    /** Takes over a received datagram. */
    method Parse(wire: Bytes) returns (ok: bool)
      requires Valid()
      modifies this
      ensures ok <==> ParseWire(wire).Parsed?
      ensures ok ==> Valid() && fresh(buffer) && Wire() == wire
      ensures ok ==> ParseWire(wire) == Parsed(Header(payloadType, timestamp, groupId, packetsPerFrame), Payload())
      ensures !ok ==> payloadSize == 0 && payloadOffset == HEADER_SIZE
      ensures !ok ==> payloadType == 0 && timestamp == 0 && groupId == 0 && packetsPerFrame == 0
    {
      if |wire| < HEADER_SIZE {
        payloadType, timestamp, groupId, packetsPerFrame := 0, 0, 0, 0;
        payloadOffset, payloadSize := HEADER_SIZE, 0;
        return false;
      }
      payloadType := wire[0] % 128;
      timestamp := ReadUint32(wire[1..5]);
      groupId := wire[5];
      packetsPerFrame := wire[6];
      payloadOffset := HEADER_SIZE;
      payloadSize := |wire| - HEADER_SIZE;
      buffer := new byte[|wire|](i requires 0 <= i < |wire| => wire[i]);
      assert Wire() == wire;
      return true;
    }
  }
}
