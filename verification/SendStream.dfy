/**
 The sending end: frames are parsed, packetized, numbered by stream offset, queued and sent
 (stream/rtc_send_stream.cc).
 */
module SendStreams {
  import opened H264
  import opened Splitter
  import opened NonRtpPackets
  import opened PacketPlan
  import opened PacketPayload
  import opened Packetizer
  import opened AnnexB
  import opened StreamRun

  const PT_H264_KEY: byte := 96
  const PT_H264_DELTA: byte := 97

  datatype Image = Image(data: Bytes, captureTs: nat, keyFrame: bool)

  function NalusOf(data: Bytes): (nalus: seq<Nalu>)
    ensures |nalus| == |Parse(data)|
  {
    var parsed := Parse(data);
    seq(|parsed|, i requires 0 <= i < |parsed| => parsed[i].data)
  }

  function PlanOf(data: Bytes): Plan
    requires NonEmpty(NalusOf(data))
  {
    PlanFrom(DEFAULT_LIMITS, NonInterleaved, NalusOf(data), 0)
  }

  /** An image the sender gets through without a failing CHECK: no empty NAL unit, and none of 1197 to 1200 bytes. */
  ghost predicate Sendable(image: Image) {
    && image.captureTs < 0x1_0000_0000
    && NalusOf(image.data) != []
    && forall i :: 0 <= i < |NalusOf(image.data)| ==>
         var size := |NalusOf(image.data)[i]|;
         0 < size && !(1197 <= size <= 1200)
  }

  lemma SendableIsGenerated(image: Image)
    requires Sendable(image)
    ensures NonEmpty(NalusOf(image.data)) && PlanOf(image.data).outcome == Generated
    ensures AllWellFormed(PlanOf(image.data).packets) && PlanOf(image.data).packets != []
    ensures AllFit(DEFAULT_LIMITS, NalusOf(image.data), PlanOf(image.data).packets, 0, |NalusOf(image.data)|)
  {
    var nalus := NalusOf(image.data);
    assert NonEmpty(nalus) by {
      forall i | 0 <= i < |nalus|
        ensures nalus[i] != []
      {
        assert |nalus[i]| > 0;
      }
    }
    DeployedOutcome(nalus);
    PlanFits(DEFAULT_LIMITS, NonInterleaved, nalus, 0);
  }

  /** Header of the packets of an image; the counters are cut to one byte. */
  function HeaderFor(image: Image, groupId: nat, numPackets: nat): Header {
    Header(if image.keyFrame then PT_H264_KEY else PT_H264_DELTA, image.captureTs, groupId % 256, numPackets % 256)
  }

  // ---------- Datagrams at consecutive offsets ----------

  /** The datagrams lie behind one another from offset `from` to offset `to`. */
  ghost predicate Tile(datagrams: seq<Datagram>, from: nat, to: nat) {
    if datagrams == [] then from == to
    else
      && datagrams[0].offset == from && |datagrams[0].wire| > 0
      && Tile(datagrams[1..], from + |datagrams[0].wire|, to)
  }

  lemma {:induction false} TileBounds(datagrams: seq<Datagram>, from: nat, to: nat)
    requires Tile(datagrams, from, to)
    ensures from <= to && (datagrams == [] <==> from == to)
    ensures forall k :: 0 <= k < |datagrams| ==> from <= datagrams[k].offset < to
    ensures forall j, k :: 0 <= j < k < |datagrams| ==> datagrams[j].offset < datagrams[k].offset
    decreases |datagrams|
  {
    if datagrams == [] {
    } else {
      var rest := datagrams[1..];
      TileBounds(rest, from + |datagrams[0].wire|, to);
      assert forall k :: 0 < k < |datagrams| ==> datagrams[k] == rest[k - 1];
    }
  }

  lemma TileEmpty(offset: nat)
    ensures Tile([], offset, offset)
  {
  }

  lemma {:induction false} TileSnoc(datagrams: seq<Datagram>, from: nat, to: nat, wire: Bytes)
    requires Tile(datagrams, from, to) && wire != []
    ensures Tile(datagrams + [Datagram(to, wire)], from, to + |wire|)
    decreases |datagrams|
  {
    if datagrams == [] {
      assert [Datagram(to, wire)][1..] == [];
    } else {
      TileSnoc(datagrams[1..], from + |datagrams[0].wire|, to, wire);
      assert (datagrams + [Datagram(to, wire)])[1..] == datagrams[1..] + [Datagram(to, wire)];
    }
  }

  /** The datagrams carry these packets of one frame, all under the same header. */
  ghost predicate Carry(datagrams: seq<Datagram>, h: Header, packets: seq<WirePacket>)
    requires AllWellFormed(packets)
  {
    |datagrams| == |packets|
    && forall k :: 0 <= k < |datagrams| ==> ParseWire(datagrams[k].wire) == Parsed(h, Payload(packets[k]))
  }

  lemma CarrySnoc(datagrams: seq<Datagram>, h: Header, planned: seq<WirePacket>, i: nat)
    requires i < |planned| && AllWellFormed(planned) && Carry(datagrams, h, planned[..i])
    ensures WellFormed(planned[i]) && AllWellFormed(planned[..i + 1])
    ensures planned[i..][0] == planned[i] && planned[i..][1..] == planned[i + 1..]
    ensures forall d: Datagram :: ParseWire(d.wire) == Parsed(h, Payload(planned[i])) ==>
        Carry(datagrams + [d], h, planned[..i + 1])
  {
    assert planned[..i + 1] == planned[..i] + [planned[i]];
  }

  /** What PacketizeImage promises about the datagrams it queues for an image. */
  ghost predicate SentAs(image: Image, groupId: nat, datagrams: seq<Datagram>, from: nat, to: nat)
    requires Sendable(image)
  {
    SendableIsGenerated(image);
    var planned := PlanOf(image.data).packets;
    Tile(datagrams, from, to) && Carry(datagrams, HeaderFor(image, groupId, |planned|), planned)
  }

  ghost predicate HasOffset(datagrams: seq<Datagram>, o: nat) {
    exists k :: 0 <= k < |datagrams| && datagrams[k].offset == o
  }

  /** The packet map holds exactly the datagrams, by offset. */
  ghost predicate Indexes(packets: map<nat, Bytes>, datagrams: seq<Datagram>) {
    && (forall o :: o in packets ==> HasOffset(datagrams, o))
    && (forall k :: 0 <= k < |datagrams| ==>
          datagrams[k].offset in packets && packets[datagrams[k].offset] == datagrams[k].wire)
  }

  lemma IndexesEmpty(packets: map<nat, Bytes>, datagrams: seq<Datagram>)
    requires Indexes(packets, datagrams)
    ensures packets == map[] <==> datagrams == []
  {
    if datagrams != [] {
      assert datagrams[0].offset in packets;
    } else {
      assert packets.Keys == {};
    }
  }

  lemma IndexesSnoc(packets: map<nat, Bytes>, datagrams: seq<Datagram>, from: nat, to: nat, wire: Bytes)
    requires Tile(datagrams, from, to) && Indexes(packets, datagrams)
    ensures Indexes(packets[to := wire], datagrams + [Datagram(to, wire)])
  {
    TileBounds(datagrams, from, to);
    var after := datagrams + [Datagram(to, wire)];
    forall o | o in packets[to := wire]
      ensures HasOffset(after, o)
    {
      if o == to {
        assert after[|datagrams|].offset == o;
      } else {
        var k :| 0 <= k < |datagrams| && datagrams[k].offset == o;
        assert after[k].offset == o;
      }
    }
  }

  /** The least offset in the map is that of the first datagram. */
  lemma IndexesFirst(packets: map<nat, Bytes>, datagrams: seq<Datagram>, from: nat, to: nat)
    requires Tile(datagrams, from, to) && Indexes(packets, datagrams) && datagrams != []
    ensures datagrams[0].offset in packets && forall o :: o in packets ==> datagrams[0].offset <= o
    ensures Indexes(packets - {datagrams[0].offset}, datagrams[1..])
  {
    TileBounds(datagrams, from, to);
    var first, rest := datagrams[0].offset, datagrams[1..];
    forall o | o in packets
      ensures first <= o && (o != first ==> HasOffset(rest, o))
    {
      var k :| 0 <= k < |datagrams| && datagrams[k].offset == o;
      if k > 0 { assert rest[k - 1].offset == o; }
    }
    assert forall k :: 0 <= k < |rest| ==> rest[k] == datagrams[k + 1];
  }

  /** The least entry of the map is the first datagram. */
  lemma FirstOfQueue(packets: map<nat, Bytes>, datagrams: seq<Datagram>, from: nat, to: nat)
    requires Tile(datagrams, from, to) && Indexes(packets, datagrams) && datagrams != []
    ensures var first := datagrams[0].offset;
            && first in packets && (forall o :: o in packets ==> first <= o)
            && packets[first] == datagrams[0].wire
            && Tile(datagrams[1..], from + |packets[first]|, to)
            && Indexes(packets - {first}, datagrams[1..]) && |packets - {first}| < |packets|
  {
    IndexesFirst(packets, datagrams, from, to);
  }

  // ---------- The sender ----------

  class RTCSendStream {
    var firstFrame: bool
    var frameId: nat
    var groupId: nat
    var offset: nat
    var waitSendOffset: nat
    var packets: map<nat, Bytes>
    /** The datagrams waiting to be sent, in order. */
    ghost var queue: seq<Datagram>

    /** The queued packets tile the part of the stream that is still to be sent. */
    ghost predicate Stored()
      reads this
    {
      Tile(queue, waitSendOffset, offset) && Indexes(packets, queue)
    }

    ghost predicate Valid()
      reads this
    {
      Stored() && (firstFrame <==> frameId == 0) && groupId < 65536
    }

    constructor ()
      ensures Valid() && queue == [] && offset == 0 && frameId == 0 && groupId == 0
    {
      firstFrame, frameId, groupId, offset, waitSendOffset := true, 0, 0, 0, 0;
      packets, queue := map[], [];
    }

    /** There is something to send exactly when a packet is queued. */
    method HasDataToSend() returns (pending: bool)
      requires Valid()
      ensures pending <==> packets != map[]
      ensures pending <==> queue != []
    {
      pending := offset > 0 && offset > waitSendOffset;
      TileBounds(queue, waitSendOffset, offset);
      IndexesEmpty(packets, queue);
    }

    method PacketizeImage(image: Image)
      requires Valid() && Sendable(image)
      modifies this
      ensures Valid() && frameId == old(frameId) + 1
      ensures groupId == if !old(firstFrame) && image.keyFrame then (old(groupId) + 1) % 65536 else old(groupId)
      ensures !firstFrame && waitSendOffset == old(waitSendOffset)
      ensures old(queue) <= queue && SentAs(image, old(groupId), queue[|old(queue)|..], old(offset), offset)
    {
      hide ParseWire, Payload, Tile, Indexes, WellFormed, PlanFrom, Parse;
      SendableIsGenerated(image);
      var nalus := ParseAll(image.data);
      var fragments := seq(|nalus|, i requires 0 <= i < |nalus| => nalus[i].data);
      assert fragments == NalusOf(image.data);
      frameId := frameId + 1;
      var packetizer := new NonRtpPacketizerH264(fragments, DEFAULT_LIMITS, NonInterleaved);
      QueuePackets(packetizer, HeaderFor(image, groupId, packetizer.numPacketsLeft));
      if !firstFrame && image.keyFrame {
        groupId := (groupId + 1) % 65536;
      }
      firstFrame := false;
    }

    /** Queues every packet of a frame; afterwards the packetizer has nothing left. */
    method QueuePackets(packetizer: NonRtpPacketizerH264, h: Header)
      requires Stored() && packetizer.Valid() && Encodable(h)
      requires forall k :: 0 <= k < |packetizer.pending| ==>
        |Payload(packetizer.pending[k])| <= DEFAULT_PACKET_SIZE - HEADER_SIZE
      modifies this`offset, this`packets, this`queue, packetizer
      ensures Stored() && old(queue) <= queue
      ensures Tile(queue[|old(queue)|..], old(offset), offset)
      ensures Carry(queue[|old(queue)|..], h, old(packetizer.pending))
      ensures packetizer.numPacketsLeft == 0 && packetizer.packets == [] && packetizer.inputFragments == []
    {
      hide ParseWire, Payload, Tile, Indexes, WellFormed;
      TileEmpty(offset);
      var numPackets := packetizer.numPacketsLeft;
      ghost var planned, start, before := packetizer.pending, offset, queue;
      ghost var added: seq<Datagram> := [];
      for i := 0 to numPackets
        invariant Stored() && packetizer.Valid() && packetizer.pending == planned[i..]
        invariant queue == before + added && Tile(added, start, offset)
        invariant Carry(added, h, planned[..i])
      {
        CarrySnoc(added, h, planned, i);
        ghost var to := offset;
        ghost var wire := QueueNext(packetizer, h);
        TileSnoc(added, start, to, wire);
        Associative(before, added, [Datagram(to, wire)]);
        added := added + [Datagram(to, wire)];
      }
      assert planned[..numPackets] == planned;
      DropPrefix(before, added);
    }

    method QueueNext(packetizer: NonRtpPacketizerH264, h: Header) returns (ghost queued: Bytes)
      requires Stored() && packetizer.Valid() && packetizer.pending != [] && Encodable(h)
      requires |Payload(packetizer.pending[0])| <= DEFAULT_PACKET_SIZE - HEADER_SIZE
      modifies this`offset, this`packets, this`queue, packetizer
      ensures Stored() && queue == old(queue) + [Datagram(old(offset), queued)] && offset == old(offset) + |queued|
      ensures packetizer.Valid() && packetizer.pending == old(packetizer.pending)[1..]
      ensures queued != [] && ParseWire(queued) == Parsed(h, Payload(old(packetizer.pending)[0]))
    {
      var wire := NextWire(packetizer, h);
      Enqueue(wire);
      queued := wire;
    }

    /** A fresh packet with its header, filled by the packetizer. */
    static method NextWire(packetizer: NonRtpPacketizerH264, h: Header) returns (wire: Bytes)
      requires packetizer.Valid() && packetizer.pending != [] && Encodable(h)
      requires |Payload(packetizer.pending[0])| <= DEFAULT_PACKET_SIZE - HEADER_SIZE
      modifies packetizer
      ensures packetizer.Valid() && packetizer.pending == old(packetizer.pending)[1..]
      ensures wire != [] && ParseWire(wire) == Parsed(h, Payload(old(packetizer.pending)[0]))
    {
      var packet := new NonRtpPacket();
      ghost var topBit := TopBit(packet.buffer[0]);
      packet.WriteHeader(h);
      assert packet.Wire() == HeaderBytes(h, topBit);
      ghost var payload := Payload(packetizer.pending[0]);
      var _ := packetizer.NextPacket(packet);
      WireRoundTrip(h, topBit, payload);
      wire := packet.buffer[..packet.Size()];
    }

    method Enqueue(wire: Bytes)
      requires Stored() && wire != []
      modifies this`offset, this`packets, this`queue
      ensures Stored() && queue == old(queue) + [Datagram(old(offset), wire)] && offset == old(offset) + |wire|
    {
      TileSnoc(queue, waitSendOffset, offset, wire);
      IndexesSnoc(packets, queue, waitSendOffset, offset, wire);
      packets := packets[offset := wire];
      queue := queue + [Datagram(offset, wire)];
      offset := offset + |wire|;
    }

    lemma EmptyQueue()
      requires Stored()
      ensures packets == map[] ==> queue == [] && waitSendOffset == offset
    {
      IndexesEmpty(packets, queue);
    }

    /** Sends everything queued, in stream order; after the sixth frame nothing is sent any more. */
    method SendPacket() returns (sent: seq<Datagram>)
      requires Valid()
      modifies this`waitSendOffset, this`packets, this`queue
      ensures Valid()
      ensures if frameId > 5 then sent == [] && queue == old(queue)
              else sent == old(queue) && queue == [] && waitSendOffset == offset
    {
      hide Tile, Indexes;
      sent := [];
      if frameId > 5 {
        return;
      }
      while packets != map[]
        invariant Stored()
        invariant sent + queue == old(queue)
        decreases |packets|
      {
        var datagram := SendFirst();
        sent := sent + [datagram];
      }
      EmptyQueue();
    }

    /** Sends the packet with the least offset, which is the next one of the stream. */
    method SendFirst() returns (datagram: Datagram)
      requires Stored() && packets != map[]
      modifies this`waitSendOffset, this`packets, this`queue
      ensures Stored() && old(queue) == [datagram] + queue
      ensures |packets| < |old(packets)|
    {
      hide Tile, Indexes;
      IndexesEmpty(packets, queue);
      FirstOfQueue(packets, queue, waitSendOffset, offset);
      var first := Least(packets);
      datagram := Datagram(first, packets[first]);
      waitSendOffset := waitSendOffset + |packets[first]|;
      packets := packets - {first};
      queue := queue[1..];
    }

    /** The first entry of an ordered map. */
    static method Least(m: map<nat, Bytes>) returns (first: nat)
      requires exists k :: k in m && forall p :: p in m ==> k <= p
      ensures first in m && forall p :: p in m ==> first <= p
    {
      first :| first in m && forall p :: p in m ==> first <= p;
    }
  }
}
