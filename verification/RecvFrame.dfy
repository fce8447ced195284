/** A frame under reception: its packets, kept by stream offset (stream/rtc_recv_stream.cc, class RecvFrame). */
module RecvFrames {
  import opened H264
  import opened NonRtpPackets
  import opened Reassembly

  datatype Received = Received(length: nat, header: Header, payload: Bytes)

  // ---------- Ordered maps ----------

  /** k is the least key: where an iteration of an ordered map starts. */
  ghost predicate IsLeast<T>(m: map<nat, T>, k: nat) {
    k in m && forall j :: j in m ==> k <= j
  }

  lemma {:induction false} LeastExists<T>(m: map<nat, T>)
    requires m != map[]
    ensures exists k :: IsLeast(m, k)
    decreases |m|
  {
    var k :| k in m;
    var rest := m - {k};
    assert forall j :: j in m ==> j == k || j in rest;
    if rest == map[] {
      assert IsLeast(m, k);
    } else {
      LeastExists(rest);
      var l :| IsLeast(rest, l);
      assert IsLeast(m, if k < l then k else l);
    }
  }

  ghost function LeastKey<T>(m: map<nat, T>): (k: nat)
    requires m != map[]
    ensures IsLeast(m, k)
  {
    LeastExists(m);
    var k :| IsLeast(m, k);
    k
  }

  /** The values of an ordered map, in the order of its keys. */
  ghost function InOrder<T>(m: map<nat, T>): seq<T>
    decreases |m|
  {
    if m == map[] then []
    else
      var k := LeastKey(m);
      assert k in m;
      [m[k]] + InOrder(m - {k})
  }

  /** m maps the strictly increasing keys to the values, and nothing else. */
  ghost predicate Lists<T>(m: map<nat, T>, keys: seq<nat>, values: seq<T>) {
    && |keys| == |values|
    && (forall i, j :: 0 <= i < j < |keys| ==> keys[i] < keys[j])
    && (forall k :: k in m ==> k in keys)
    && (forall i :: 0 <= i < |keys| ==> keys[i] in m && m[keys[i]] == values[i])
  }

  lemma ListsStep<T>(m: map<nat, T>, keys: seq<nat>, values: seq<T>)
    requires Lists(m, keys, values) && keys != []
    ensures m != map[] && LeastKey(m) == keys[0]
    ensures Lists(m - {keys[0]}, keys[1..], values[1..])
  {
    assert keys[0] in m;
    var rest, ks := m - {keys[0]}, keys[1..];
    forall k | k in rest
      ensures k in ks
    {
      var i :| 0 <= i < |keys| && keys[i] == k;
      assert ks[i - 1] == k;
    }
    forall i | 0 <= i < |ks|
      ensures ks[i] in rest && rest[ks[i]] == values[1..][i]
    {
      assert ks[i] == keys[i + 1];
    }
    var least := LeastKey(m);
    assert least in keys;
  }

  lemma InOrderStep<T>(m: map<nat, T>)
    requires m != map[]
    ensures var k := LeastKey(m);
            k in m && InOrder(m) == [m[k]] + InOrder(m - {k})
  {
  }

  /** Such a map lists its values in the order of the keys, however it was filled. */
  lemma {:induction false} InOrderOf<T>(m: map<nat, T>, keys: seq<nat>, values: seq<T>)
    requires Lists(m, keys, values)
    ensures InOrder(m) == values
    decreases |keys|
  {
    if keys == [] {
      assert m.Keys == {};
    } else {
      ListsStep(m, keys, values);
      InOrderStep(m);
      InOrderOf(m - {keys[0]}, keys[1..], values[1..]);
      assert values == [values[0]] + values[1..];
    }
  }

  // ---------- The frame ----------

  /** A frame's fields; the NAL units are only filled in when it is delivered. */
  datatype FrameState = FrameState(
    frameType: byte,
    received: byte,
    packetsOfFrame: byte,
    captureTs: nat,
    packets: map<nat, Received>)

  const EMPTY_FRAME := FrameState(0, 0, 0, 0, map[])

  /** A packet at an offset already present is counted but not stored. */
  function AddPacket(frame: FrameState, offset: nat, packet: Received): FrameState {
    var base :=
      if frame.packetsOfFrame == 0 then
        frame.(frameType := packet.header.payloadType, packetsOfFrame := packet.header.packetsPerFrame,
               captureTs := packet.header.timestamp)
      else frame;
    base.(packets := if offset in base.packets then base.packets else base.packets[offset := packet],
          received := (base.received + 1) % 256)
  }

  lemma AddNewPacket(frame: FrameState, offset: nat, packet: Received)
    requires offset !in frame.packets && frame.received < 255
    ensures var after := AddPacket(frame, offset, packet);
            && after.packets == frame.packets[offset := packet]
            && after.received == frame.received + 1
            && after.packetsOfFrame ==
                 (if frame.packetsOfFrame == 0 then packet.header.packetsPerFrame else frame.packetsOfFrame)
  {
  }

  /** The packet that comes first at an offset stays, and each one counts. */
  lemma AddOldPacket(frame: FrameState, offset: nat, packet: Received)
    requires offset in frame.packets
    ensures var after := AddPacket(frame, offset, packet);
            && after.packets == frame.packets
            && after.received == if frame.received == 255 then 0 else frame.received + 1
  {
  }

  /** Type, count and time are those of the first packet; one without a count leaves them to the next. */
  lemma FirstPacketDecides(frame: FrameState, offset: nat, packet: Received)
    ensures var after := AddPacket(frame, offset, packet);
            if frame.packetsOfFrame == 0 then
              && after.frameType == packet.header.payloadType && after.captureTs == packet.header.timestamp
              && after.packetsOfFrame == packet.header.packetsPerFrame
            else
              && after.frameType == frame.frameType && after.captureTs == frame.captureTs
              && after.packetsOfFrame == frame.packetsOfFrame
  {
  }

  /** A frame whose packets show no count is never full, however many there are. */
  lemma NoCountNeverFull(frame: FrameState, offset: nat, packet: Received)
    requires frame.packetsOfFrame == 0 && packet.header.packetsPerFrame == 0
    ensures !IsFull(AddPacket(frame, offset, packet)) && AddPacket(frame, offset, packet).packetsOfFrame == 0
  {
  }

  predicate IsFull(frame: FrameState) {
    frame.packetsOfFrame != 0 && frame.packetsOfFrame == frame.received
  }

  /** All packets of a frame carry the same timestamp: frames are kept by timestamp. */
  ghost predicate SameTimestamp(packets: map<nat, Received>, timestamp: nat) {
    forall offset :: offset in packets ==> packets[offset].header.timestamp == timestamp
  }

  ghost function PayloadsInOrder(packets: map<nat, Received>): seq<Bytes> {
    var ordered := InOrder(packets);
    seq(|ordered|, i requires 0 <= i < |ordered| => ordered[i].payload)
  }

  lemma PayloadsOfRest(packets: map<nat, Received>)
    requires packets != map[]
    ensures var k := LeastKey(packets);
            k in packets && PayloadsInOrder(packets) == [packets[k].payload] + PayloadsInOrder(packets - {k})
  {
    assert LeastKey(packets) in packets;
  }

  class RecvFrame {
    var frameType: byte
    var received: byte
    var packetsOfFrame: byte
    var captureTs: nat
    var packets: map<nat, Received>
    var nalus: seq<RecvNalu>

    function State(): FrameState
      reads this
    {
      FrameState(frameType, received, packetsOfFrame, captureTs, packets)
    }

    constructor ()
      ensures State() == EMPTY_FRAME && nalus == []
    {
      frameType, received, packetsOfFrame, captureTs := 0, 0, 0, 0;
      packets := map[];
      nalus := [];
    }

    method OnNewPacket(offset: nat, packet: Received)
      modifies this
      ensures State() == AddPacket(old(State()), offset, packet) && nalus == old(nalus)
    {
      if packetsOfFrame == 0 {
        frameType := packet.header.payloadType;
        packetsOfFrame := packet.header.packetsPerFrame;
        captureTs := packet.header.timestamp;
      }
      if offset !in packets {
        packets := packets[offset := packet];
      }
      received := (received + 1) % 256;
    }

    predicate IsFullFrame()
      reads this
      ensures IsFullFrame() == IsFull(State())
    {
      if packetsOfFrame != 0 then packetsOfFrame == received else false
    }

    /** Parses the packets in offset order; the size is 0 unless all of them are accepted. */
    method GetDelivableSize(ghost timestamp: nat) returns (size: nat, outcome: Outcome)
      requires SameTimestamp(packets, timestamp)
      modifies this`nalus
      ensures Result(outcome, nalus) == ParsePackets(PayloadsInOrder(packets), timestamp, old(nalus))
      ensures size == if outcome == Accepted then DeliverableSize(nalus) else 0
    {
      outcome := Accepted;
      var rest := packets;
      while rest != map[]
        invariant forall k :: k in rest ==> k in packets && rest[k] == packets[k]
        invariant outcome == Accepted
        invariant ParsePackets(PayloadsInOrder(packets), timestamp, old(nalus))
                  == ParsePackets(PayloadsInOrder(rest), timestamp, nalus)
        decreases |rest|
      {
        LeastExists(rest);
        var it :| it in rest && forall j :: j in rest ==> it <= j;
        assert IsLeast(rest, it) && it == LeastKey(rest);
        PayloadsOfRest(rest);
        assert (PayloadsInOrder(rest))[1..] == PayloadsInOrder(rest - {it});
        outcome := ParserPacketToRecvNalu(rest[it]);
        if outcome != Accepted {
          return 0, outcome;
        }
        rest := rest - {it};
      }
      size := SumDeliverable();
    }

    /** The second loop of GetDelivableSize. */
    method SumDeliverable() returns (size: nat)
      ensures size == DeliverableSize(nalus)
    {
      size := 0;
      for i := 0 to |nalus|
        invariant size + DeliverableSize(nalus[i..]) == DeliverableSize(nalus)
      {
        var addon := if nalus[i].packetizerMode == FU_A then 1 else 0;
        assert nalus[i..][1..] == nalus[i + 1..];
        size := size + (nalus[i].startCodeLen + nalus[i].totalLength + addon);
      }
    }

    method ParserPacketToRecvNalu(packet: Received) returns (outcome: Outcome)
      modifies this`nalus
      ensures Result(outcome, nalus) == ParsePacket(packet.payload, packet.header.timestamp, old(nalus))
    {
      if packet.payload == [] {
        return Overread;
      }
      var packetType := TypeBits(packet.payload[0]);
      if packetType == STAP_A {
        outcome := ParserStapAToRecvNalu(packet.payload, packet.header.timestamp);
      } else if packetType == FU_A {
        outcome := ParserFuAToRecvNalu(packet.payload, packet.header.timestamp);
      } else {
        outcome := Rejected;
      }
    }

    method ParserStapAToRecvNalu(data: Bytes, timestamp: nat) returns (outcome: Outcome)
      requires data != []
      modifies this`nalus
      ensures Result(outcome, nalus) == ParseStapAFrom(data, 1, timestamp, old(nalus))
    {
      var offset := 1;
      while offset < |data|
        invariant 1 <= offset
        invariant ParseStapAFrom(data, 1, timestamp, old(nalus)) == ParseStapAFrom(data, offset, timestamp, nalus)
      {
        if offset + 2 >= |data| {
          return Overread;
        }
        var length := ReadUint16(data[offset..offset + 2]);
        offset := offset + 2;
        var end := if offset + length < |data| then offset + length else |data|;
        var naluType := TypeBits(data[offset]);
        var startCodeLen := 3;
        if naluType == SPS || naluType == PPS {
          startCodeLen := 4;
        }
        nalus := nalus + [RecvNalu(STAP_A, naluType, startCodeLen, timestamp, length, [data[offset..end]])];
        offset := offset + length;
      }
      return Accepted;
    }

    method ParserFuAToRecvNalu(data: Bytes, timestamp: nat) returns (outcome: Outcome)
      modifies this`nalus
      ensures Result(outcome, nalus) == ParseFuA(data, timestamp, old(nalus))
    {
      if |data| < 2 {
        return Overread;
      }
      var fuHeader := data[1];
      var naluType := TypeBits(fuHeader);
      if TopBit(fuHeader) {
        var startCodeLen := 4;
        if nalus != [] {
          var last := nalus[|nalus| - 1];
          if timestamp == last.timestamp {
            if last.startCodeLen == 4 || last.startCodeLen == 3 {
              startCodeLen := 3;
            }
            if last.naluType == SPS || last.naluType == PPS || last.naluType == SEI {
              startCodeLen := 3;
            }
          }
        }
        if naluType == SEI {
          startCodeLen := 3;
        }
        nalus := nalus + [RecvNalu(FU_A, naluType, startCodeLen, timestamp, |data| - 2, [data[2..]])];
      } else {
        if nalus == [] {
          return Overread;
        }
        var last := nalus[|nalus| - 1];
        if timestamp != last.timestamp {
          return Rejected;
        }
        nalus := nalus[|nalus| - 1 := last.OnNewPacket(data[2..])];
      }
      return Accepted;
    }
  }
}
