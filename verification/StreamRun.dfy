/** Whole runs of the receiver: any interleaving of the packets of any number of frames. */
module StreamRun {
  import opened H264
  import opened NonRtpPackets
  import opened Reassembly
  import opened RecvFrames
  import opened RecvStreams

  datatype Datagram = Datagram(offset: nat, wire: Bytes)

  datatype SentFrame = SentFrame(timestamp: nat, packets: seq<Datagram>)

  /** The packet count is one byte on the wire; offsets grow from packet to packet. */
  ghost predicate ValidFrame(f: SentFrame) {
    && 1 <= |f.packets| <= 255
    && (forall k :: 0 <= k < |f.packets| ==> CarriesFrame(f, f.packets[k].wire))
    && (forall j, k :: 0 <= j < k < |f.packets| ==> f.packets[j].offset < f.packets[k].offset)
  }

  ghost predicate CarriesFrame(f: SentFrame, wire: Bytes) {
    var p := ParseWire(wire);
    p.Parsed? && p.header.timestamp == f.timestamp && p.header.packetsPerFrame == |f.packets|
  }

  ghost predicate ValidSent(sent: seq<SentFrame>) {
    && (forall f :: 0 <= f < |sent| ==> ValidFrame(sent[f]))
    && (forall f, g :: 0 <= f < |sent| && 0 <= g < |sent| && f != g ==> sent[f].timestamp != sent[g].timestamp)
  }

  /** Packet number `packet` of frame number `frame` reaches the receiver. */
  datatype Arrival = Arrival(frame: nat, packet: nat)

  predicate InRange(sent: seq<SentFrame>, a: Arrival) {
    a.frame < |sent| && a.packet < |sent[a.frame].packets|
  }

  /** Arrivals in any order, some perhaps more than once. */
  ghost predicate Arriving(sent: seq<SentFrame>, arrivals: seq<Arrival>) {
    forall i :: 0 <= i < |arrivals| ==> InRange(sent, arrivals[i])
  }

  /** Arrivals in any order, without duplicates. */
  ghost predicate Schedule(sent: seq<SentFrame>, arrivals: seq<Arrival>) {
    && Arriving(sent, arrivals)
    && (forall i, j :: 0 <= i < j < |arrivals| ==> arrivals[i] != arrivals[j])
  }

  ghost predicate CompleteSchedule(sent: seq<SentFrame>, arrivals: seq<Arrival>) {
    && Schedule(sent, arrivals)
    && forall a :: InRange(sent, a) ==> a in arrivals
  }

  function DatagramOf(sent: seq<SentFrame>, a: Arrival): Datagram
    requires InRange(sent, a)
  {
    sent[a.frame].packets[a.packet]
  }

  // ---------- The run ----------

  ghost function RunFrames(sent: seq<SentFrame>, arrivals: seq<Arrival>): Frames
    requires Arriving(sent, arrivals)
    decreases |arrivals|, 1
  {
    if arrivals == [] then map[]
    else Remaining(LastAccepted(sent, arrivals))
  }

  /** The frames when the last arrival has been added, before anything is delivered. */
  ghost function LastAccepted(sent: seq<SentFrame>, arrivals: seq<Arrival>): Frames
    requires Arriving(sent, arrivals) && arrivals != []
    decreases |arrivals|, 0
  {
    var n := |arrivals| - 1;
    var d := DatagramOf(sent, arrivals[n]);
    Accept(RunFrames(sent, arrivals[..n]), d.offset, d.wire)
  }

  ghost function RunDelivered(sent: seq<SentFrame>, arrivals: seq<Arrival>): seq<Delivery>
    requires Arriving(sent, arrivals)
  {
    if arrivals == [] then []
    else RunDelivered(sent, arrivals[..|arrivals| - 1]) + Delivered(LastAccepted(sent, arrivals))
  }

  /** Feeding datagrams to the receiver, one by one; the arrivals tell which packets of which frames they are. */
  method Receive(stream: RTCRecvStream, datagrams: seq<Datagram>, ghost sent: seq<SentFrame>,
                 ghost arrivals: seq<Arrival>)
    requires stream.Valid() && stream.state == map[] && stream.delivered == [] && Arriving(sent, arrivals)
    requires |datagrams| == |arrivals|
    requires forall i :: 0 <= i < |datagrams| ==> datagrams[i] == DatagramOf(sent, arrivals[i])
    modifies stream, stream.frames.Values
    ensures stream.Valid()
    ensures stream.state == RunFrames(sent, arrivals)
    ensures stream.delivered == RunDelivered(sent, arrivals)
  {
    for i := 0 to |datagrams|
      invariant stream.Valid() && fresh(stream.frames.Values - old(stream.frames.Values))
      invariant stream.state == RunFrames(sent, arrivals[..i])
      invariant stream.delivered == RunDelivered(sent, arrivals[..i])
    {
      var d := datagrams[i];
      assert arrivals[..i + 1][..i] == arrivals[..i];
      stream.OnNewData(d.offset, d.wire);
    }
    assert arrivals[..|arrivals|] == arrivals;
  }

  // ---------- What a frame looks like on the way ----------

  function ReceivedAs(d: Datagram): Received
    requires ParseWire(d.wire).Parsed?
  {
    Received(|d.wire|, ParseWire(d.wire).header, ParseWire(d.wire).payload)
  }

  function PayloadsOf(f: SentFrame): (payloads: seq<Bytes>)
    requires forall k :: 0 <= k < |f.packets| ==> ParseWire(f.packets[k].wire).Parsed?
    ensures |payloads| == |f.packets|
  {
    seq(|f.packets|, k requires 0 <= k < |f.packets| => ParseWire(f.packets[k].wire).payload)
  }

  /** What delivering the whole frame, with its packets in order, amounts to. */
  function ExpectedDelivery(f: SentFrame): Delivery
    requires forall k :: 0 <= k < |f.packets| ==> ParseWire(f.packets[k].wire).Parsed?
  {
    var result := ParsePackets(PayloadsOf(f), f.timestamp, []);
    Delivery(f.timestamp, result.outcome, result.nalus)
  }

  /** The packets of frame f that have arrived. */
  function Arrived(sent: seq<SentFrame>, arrivals: seq<Arrival>, f: nat): set<nat>
    requires f < |sent|
  {
    set k | 0 <= k < |sent[f].packets| && Arrival(f, k) in arrivals
  }

  /** The frame state holds exactly the packets in `got`. */
  ghost predicate FrameHolds(f: SentFrame, got: set<nat>, state: FrameState)
    requires ValidFrame(f)
  {
    && got != {} && state.packetsOfFrame == |f.packets| && state.received == |got|
    && PacketsAre(f, got, state.packets)
  }

  ghost predicate DeliveredAt(delivered: seq<Delivery>, timestamp: nat) {
    exists i :: 0 <= i < |delivered| && delivered[i].timestamp == timestamp
  }

  /** Where frame f stands: delivered as a whole, not heard of, or held with what has arrived of it. */
  ghost predicate FrameStands(f: SentFrame, got: set<nat>, frames: Frames, delivered: seq<Delivery>)
    requires ValidFrame(f)
  {
    if DeliveredAt(delivered, f.timestamp) then f.timestamp !in frames && forall k :: 0 <= k < |f.packets| ==> k in got
    else if got == {} then f.timestamp !in frames
    else f.timestamp in frames && FrameHolds(f, got, frames[f.timestamp])
  }

  /** Deliveries so far: each is a sent frame, complete and in order, and none comes twice. */
  ghost predicate DeliveriesRight(sent: seq<SentFrame>, delivered: seq<Delivery>)
    requires ValidSent(sent)
  {
    && (forall i :: 0 <= i < |delivered| ==> exists f :: 0 <= f < |sent| && delivered[i] == ExpectedDelivery(sent[f]))
    && (forall i, j :: 0 <= i < j < |delivered| ==> delivered[i].timestamp != delivered[j].timestamp)
  }

  ghost predicate OnlySent(sent: seq<SentFrame>, frames: Frames) {
    forall t :: t in frames ==> exists f :: 0 <= f < |sent| && sent[f].timestamp == t
  }

  ghost predicate Inv(sent: seq<SentFrame>, arrivals: seq<Arrival>, frames: Frames, delivered: seq<Delivery>)
    requires ValidSent(sent)
  {
    && (forall f :: 0 <= f < |sent| ==> FrameStands(sent[f], Arrived(sent, arrivals, f), frames, delivered))
    && DeliveriesRight(sent, delivered)
    && OnlySent(sent, frames)
  }

  // ---------- An arrival ----------

  /** A set of indices below n has at most n elements, and n only if it has them all. */
  lemma {:induction false} IndexSetSize(s: set<nat>, n: nat)
    requires forall k :: k in s ==> k < n
    ensures |s| <= n
    ensures |s| == n <==> forall k :: 0 <= k < n ==> k in s
    decreases n
  {
    if n == 0 {
      assert s == {};
    } else {
      var rest := s - {n - 1};
      IndexSetSize(rest, n - 1);
      assert forall k :: 0 <= k < n - 1 ==> (k in rest <==> k in s);
      if n - 1 in s {
        assert |rest| == |s| - 1;
      } else {
        assert rest == s;
      }
    }
  }

  lemma OffsetsDiffer(f: SentFrame, j: nat, k: nat)
    requires ValidFrame(f) && j < |f.packets| && k < |f.packets| && j != k
    ensures f.packets[j].offset != f.packets[k].offset
  {
    assert j < k || k < j;
  }

  lemma AddPacketHolds(f: SentFrame, got: set<nat>, k: nat, state: FrameState)
    requires ValidFrame(f) && k < |f.packets| && k !in got
    requires forall j :: j in got ==> j < |f.packets|
    requires PacketsAre(f, got, state.packets) && state.received == |got|
    requires state.packetsOfFrame == if got == {} then 0 else |f.packets|
    ensures CarriesFrame(f, f.packets[k].wire)
    ensures FrameHolds(f, got + {k}, AddPacket(state, f.packets[k].offset, ReceivedAs(f.packets[k])))
  {
    assert CarriesFrame(f, f.packets[k].wire);
    var o, packet := f.packets[k].offset, ReceivedAs(f.packets[k]);
    NewOffset(f, got, k, state.packets);
    AddedPackets(f, got, k, state.packets);
    GrowIndexSet(got, k, |f.packets|);
    AddNewPacket(state, o, packet);
    assert k in got + {k};
  }

  lemma GrowIndexSet(s: set<nat>, k: nat, n: nat)
    requires k !in s && k < n && forall j :: j in s ==> j < n
    ensures |s + {k}| == |s| + 1 <= n
  {
    IndexSetSize(s + {k}, n);
  }

  /** The packets of f numbered by `got`, by offset. */
  ghost predicate PacketsAre(f: SentFrame, got: set<nat>, packets: map<nat, Received>)
    requires ValidFrame(f)
  {
    && (forall k :: k in got ==> HasPacket(f, k, packets))
    && (forall o :: o in packets ==> exists k :: k in got && OffsetIs(f, k, o))
  }

  ghost predicate HasPacket(f: SentFrame, k: nat, packets: map<nat, Received>)
    requires ValidFrame(f)
  {
    k < |f.packets| && CarriesFrame(f, f.packets[k].wire)
    && f.packets[k].offset in packets && packets[f.packets[k].offset] == ReceivedAs(f.packets[k])
  }

  predicate OffsetIs(f: SentFrame, k: nat, o: nat) {
    k < |f.packets| && f.packets[k].offset == o
  }

  lemma NewOffset(f: SentFrame, got: set<nat>, k: nat, packets: map<nat, Received>)
    requires ValidFrame(f) && k < |f.packets| && k !in got && PacketsAre(f, got, packets)
    ensures f.packets[k].offset !in packets
  {
    if f.packets[k].offset in packets {
      var j :| j in got && OffsetIs(f, j, f.packets[k].offset);
      OffsetsDiffer(f, j, k);
      assert false;
    }
  }

  lemma AddedPackets(f: SentFrame, got: set<nat>, k: nat, packets: map<nat, Received>)
    requires ValidFrame(f) && k < |f.packets| && k !in got && PacketsAre(f, got, packets)
    requires CarriesFrame(f, f.packets[k].wire)
    ensures PacketsAre(f, got + {k}, packets[f.packets[k].offset := ReceivedAs(f.packets[k])])
  {
    var o := f.packets[k].offset;
    var after := packets[o := ReceivedAs(f.packets[k])];
    forall j | j in got + {k}
      ensures HasPacket(f, j, after)
    {
      if j != k {
        assert HasPacket(f, j, packets);
        OffsetsDiffer(f, j, k);
      }
    }
    forall p | p in after
      ensures exists j :: j in got + {k} && OffsetIs(f, j, p)
    {
      if p == o {
        assert k in got + {k} && OffsetIs(f, k, o);
      } else {
        var j :| j in got && OffsetIs(f, j, p);
        assert j in got + {k};
      }
    }
  }

  lemma ArrivedStep(sent: seq<SentFrame>, arrivals: seq<Arrival>, a: Arrival, f: nat)
    requires InRange(sent, a) && f < |sent|
    ensures Arrived(sent, arrivals + [a], f)
            == if f == a.frame then Arrived(sent, arrivals, f) + {a.packet} else Arrived(sent, arrivals, f)
  {
  }

  lemma AcceptKeepsInv(sent: seq<SentFrame>, arrivals: seq<Arrival>, a: Arrival, frames: Frames,
      delivered: seq<Delivery>)
    requires ValidSent(sent) && InRange(sent, a) && a !in arrivals
    requires Inv(sent, arrivals, frames, delivered)
    ensures var d := DatagramOf(sent, a);
            Inv(sent, arrivals + [a], Accept(frames, d.offset, d.wire), delivered)
  {
    hide FrameStands, ValidFrame, CarriesFrame, Accept, DeliveriesRight;
    var d, g := DatagramOf(sent, a), a.frame;
    var after := Accept(frames, d.offset, d.wire);
    AcceptKeepsOwn(sent[g], Arrived(sent, arrivals, g), a.packet, frames, delivered);
    ArrivedStep(sent, arrivals, a, g);
    forall f | 0 <= f < |sent| && f != g
      ensures FrameStands(sent[f], Arrived(sent, arrivals + [a], f), after, delivered)
    {
      ArrivedStep(sent, arrivals, a, f);
      assert sent[f].timestamp != sent[g].timestamp;
      AcceptKeepsOther(sent[f], Arrived(sent, arrivals, f), sent[g], a.packet, frames, delivered);
    }
  }

  /** What filing packet k of f does to f itself. */
  lemma AcceptKeepsOwn(f: SentFrame, got: set<nat>, k: nat, frames: Frames, delivered: seq<Delivery>)
    requires ValidFrame(f) && k < |f.packets| && k !in got && forall j :: j in got ==> j < |f.packets|
    requires FrameStands(f, got, frames, delivered)
    ensures var after := Accept(frames, f.packets[k].offset, f.packets[k].wire);
            && FrameStands(f, got + {k}, after, delivered)
            && f.timestamp in after && after == frames[f.timestamp := after[f.timestamp]]
  {
    assert CarriesFrame(f, f.packets[k].wire);
    assert PacketsAre(f, {}, map[]);
    AddPacketHolds(f, got, k, if f.timestamp in frames then frames[f.timestamp] else EMPTY_FRAME);
  }

  lemma AcceptKeepsOther(f: SentFrame, got: set<nat>, g: SentFrame, k: nat, frames: Frames, delivered: seq<Delivery>)
    requires ValidFrame(f) && ValidFrame(g) && k < |g.packets| && f.timestamp != g.timestamp
    requires FrameStands(f, got, frames, delivered)
    ensures FrameStands(f, got, Accept(frames, g.packets[k].offset, g.packets[k].wire), delivered)
  {
    assert CarriesFrame(g, g.packets[k].wire);
  }

  // ---------- A delivery ----------

  function OffsetsOf(f: SentFrame): (offsets: seq<nat>)
    ensures |offsets| == |f.packets|
  {
    seq(|f.packets|, k requires 0 <= k < |f.packets| => f.packets[k].offset)
  }

  function ReceivedOf(f: SentFrame): (received: seq<Received>)
    requires forall k :: 0 <= k < |f.packets| ==> ParseWire(f.packets[k].wire).Parsed?
    ensures |received| == |f.packets|
  {
    seq(|f.packets|, k requires 0 <= k < |f.packets| => ReceivedAs(f.packets[k]))
  }

  lemma AllPacketsListed(f: SentFrame, got: set<nat>, packets: map<nat, Received>)
    requires ValidFrame(f) && PacketsAre(f, got, packets)
    requires forall k :: 0 <= k < |f.packets| ==> k in got && CarriesFrame(f, f.packets[k].wire)
    ensures Lists(packets, OffsetsOf(f), ReceivedOf(f))
  {
    var keys, values := OffsetsOf(f), ReceivedOf(f);
    forall o | o in packets
      ensures o in keys
    {
      var k :| k in got && OffsetIs(f, k, o);
      assert keys[k] == o;
    }
    forall k | 0 <= k < |keys|
      ensures keys[k] in packets && packets[keys[k]] == values[k]
    {
      assert HasPacket(f, k, packets);
    }
  }

  /** Whatever the order of arrival, the packets of a full frame come out in order. */
  lemma AllPacketsInOrder(f: SentFrame, got: set<nat>, packets: map<nat, Received>)
    requires ValidFrame(f) && PacketsAre(f, got, packets)
    requires forall k :: 0 <= k < |f.packets| ==> k in got
    ensures forall k :: 0 <= k < |f.packets| ==> CarriesFrame(f, f.packets[k].wire)
    ensures PayloadsInOrder(packets) == PayloadsOf(f)
  {
    forall k | 0 <= k < |f.packets|
      ensures CarriesFrame(f, f.packets[k].wire)
    {
    }
    AllPacketsListed(f, got, packets);
    InOrderOf(packets, OffsetsOf(f), ReceivedOf(f));
  }

  /** A full frame is delivered whole. */
  lemma FullFrameDelivers(f: SentFrame, got: set<nat>, state: FrameState)
    requires ValidFrame(f) && FrameHolds(f, got, state) && forall k :: k in got ==> k < |f.packets|
    ensures forall k :: 0 <= k < |f.packets| ==> CarriesFrame(f, f.packets[k].wire)
    ensures IsFull(state) <==> forall k :: 0 <= k < |f.packets| ==> k in got
    ensures IsFull(state) ==> DeliveryOf(f.timestamp, state) == ExpectedDelivery(f)
  {
    IndexSetSize(got, |f.packets|);
    if IsFull(state) { AllPacketsInOrder(f, got, state.packets); }
  }

  lemma DeliveredAtSnoc(delivered: seq<Delivery>, d: Delivery, s: nat)
    ensures DeliveredAt(delivered + [d], s) <==> s == d.timestamp || DeliveredAt(delivered, s)
  {
    var after := delivered + [d];
    assert after[|delivered|] == d;
    if DeliveredAt(delivered, s) {
      var i :| 0 <= i < |delivered| && delivered[i].timestamp == s;
      assert after[i].timestamp == s;
    }
  }

  lemma DeliveriesRightSnoc(sent: seq<SentFrame>, delivered: seq<Delivery>, f: nat)
    requires ValidSent(sent) && DeliveriesRight(sent, delivered) && f < |sent| && ValidFrame(sent[f])
    requires forall k :: 0 <= k < |sent[f].packets| ==> CarriesFrame(sent[f], sent[f].packets[k].wire)
    requires !DeliveredAt(delivered, sent[f].timestamp)
    ensures DeliveriesRight(sent, delivered + [ExpectedDelivery(sent[f])])
  {
  }

  lemma DeliveryKeepsInv(sent: seq<SentFrame>, arrivals: seq<Arrival>, frames: Frames, delivered: seq<Delivery>, t: nat)
    requires ValidSent(sent) && Inv(sent, arrivals, frames, delivered)
    requires t in frames && IsFull(frames[t])
    ensures Inv(sent, arrivals, frames - {t}, delivered + [DeliveryOf(t, frames[t])])
  {
    var g :| 0 <= g < |sent| && sent[g].timestamp == t;
    var d := DeliveryOf(t, frames[t]);
    assert FrameStands(sent[g], Arrived(sent, arrivals, g), frames, delivered);
    FullFrameDelivers(sent[g], Arrived(sent, arrivals, g), frames[t]);
    DeliveriesRightSnoc(sent, delivered, g);
    forall f | 0 <= f < |sent|
      ensures FrameStands(sent[f], Arrived(sent, arrivals, f), frames - {t}, delivered + [d])
    {
      assert FrameStands(sent[f], Arrived(sent, arrivals, f), frames, delivered);
      DeliveredAtSnoc(delivered, d, sent[f].timestamp);
      if f != g { OtherFrameStands(sent[f], Arrived(sent, arrivals, f), frames, delivered, d); }
    }
  }

  lemma OtherFrameStands(f: SentFrame, got: set<nat>, frames: Frames, delivered: seq<Delivery>, d: Delivery)
    requires ValidFrame(f) && FrameStands(f, got, frames, delivered) && f.timestamp != d.timestamp
    ensures FrameStands(f, got, frames - {d.timestamp}, delivered + [d])
  {
    DeliveredAtSnoc(delivered, d, f.timestamp);
  }

  lemma {:induction false} DeliveriesKeepInv(sent: seq<SentFrame>, arrivals: seq<Arrival>, frames: Frames,
      delivered: seq<Delivery>)
    requires ValidSent(sent) && Inv(sent, arrivals, frames, delivered)
    ensures Inv(sent, arrivals, Remaining(frames), delivered + Delivered(frames))
    decreases |frames|
  {
    if frames == map[] {
      assert delivered + [] == delivered;
    } else {
      var t := LeastKey(frames);
      DeliveryStep(frames, t);
      if IsFull(frames[t]) {
        var d, rest := DeliveryOf(t, frames[t]), frames - {t};
        DeliveryKeepsInv(sent, arrivals, frames, delivered, t);
        RemoveKey(frames, t);
        DeliveriesKeepInv(sent, arrivals, rest, delivered + [d]);
        Associative(delivered, [d], Delivered(rest));
      } else {
        assert delivered + [] == delivered;
      }
    }
  }

  lemma RemoveKey<T>(m: map<nat, T>, k: nat)
    requires k in m
    ensures |m - {k}| < |m|
  {
  }

  /** Delivery stops only where the least frame is not full. */
  lemma {:induction false} DeliveryStops(frames: Frames)
    ensures var rest := Remaining(frames);
            rest != map[] ==> exists t :: IsLeast(rest, t) && !IsFull(rest[t])
    decreases |frames|
  {
    if frames == map[] {
    } else {
      var t := LeastKey(frames);
      DeliveryStep(frames, t);
      if IsFull(frames[t]) {
        RemoveKey(frames, t);
        DeliveryStops(frames - {t});
      }
    }
  }

  // ---------- Runs ----------

  lemma {:induction false} RunKeepsInv(sent: seq<SentFrame>, arrivals: seq<Arrival>)
    requires ValidSent(sent) && Schedule(sent, arrivals)
    ensures Inv(sent, arrivals, RunFrames(sent, arrivals), RunDelivered(sent, arrivals))
  {
    if arrivals == [] {
    } else {
      var n := |arrivals| - 1;
      var before, a := arrivals[..n], arrivals[n];
      assert before + [a] == arrivals;
      RunKeepsInv(sent, before);
      assert a !in before;
      AcceptKeepsInv(sent, before, a, RunFrames(sent, before), RunDelivered(sent, before));
      DeliveriesKeepInv(sent, arrivals, LastAccepted(sent, arrivals), RunDelivered(sent, before));
    }
  }

  /** At the end of a complete schedule a frame is not left behind, and was delivered. */
  lemma FrameIsThrough(sent: seq<SentFrame>, arrivals: seq<Arrival>, frames: Frames, delivered: seq<Delivery>, f: nat)
    requires ValidSent(sent) && CompleteSchedule(sent, arrivals) && Inv(sent, arrivals, frames, delivered)
    requires f < |sent| && (frames != map[] ==> exists t :: IsLeast(frames, t) && !IsFull(frames[t]))
    ensures frames == map[] && DeliveredAt(delivered, sent[f].timestamp)
  {
    if frames != map[] {
      var t :| IsLeast(frames, t) && !IsFull(frames[t]);
      var g :| 0 <= g < |sent| && sent[g].timestamp == t;
      AllArrived(sent, arrivals, g);
      assert FrameStands(sent[g], Arrived(sent, arrivals, g), frames, delivered);
      FullFrameDelivers(sent[g], Arrived(sent, arrivals, g), frames[t]);
      assert false;
    }
    AllArrived(sent, arrivals, f);
    assert FrameStands(sent[f], Arrived(sent, arrivals, f), frames, delivered);
    assert 0 in Arrived(sent, arrivals, f);
  }

  lemma AllArrived(sent: seq<SentFrame>, arrivals: seq<Arrival>, f: nat)
    requires CompleteSchedule(sent, arrivals) && f < |sent|
    ensures forall k :: 0 <= k < |sent[f].packets| ==> k in Arrived(sent, arrivals, f)
  {
    forall k | 0 <= k < |sent[f].packets|
      ensures k in Arrived(sent, arrivals, f)
    {
      assert InRange(sent, Arrival(f, k));
    }
  }

  lemma NothingLeft(sent: seq<SentFrame>, arrivals: seq<Arrival>)
    requires ValidSent(sent) && CompleteSchedule(sent, arrivals)
    ensures RunFrames(sent, arrivals) == map[]
  {
    RunKeepsInv(sent, arrivals);
    var frames := RunFrames(sent, arrivals);
    if frames != map[] {
      DeliveryStops(LastAccepted(sent, arrivals));
      var t :| t in frames;
      var f :| 0 <= f < |sent| && sent[f].timestamp == t;
      FrameIsThrough(sent, arrivals, frames, RunDelivered(sent, arrivals), f);
      assert false;
    }
  }

  lemma DeliveredAsExpected(sent: seq<SentFrame>, delivered: seq<Delivery>, f: nat)
    requires ValidSent(sent) && DeliveriesRight(sent, delivered)
    requires f < |sent| && DeliveredAt(delivered, sent[f].timestamp)
    requires ValidFrame(sent[f])
        && forall k :: 0 <= k < |sent[f].packets| ==> CarriesFrame(sent[f], sent[f].packets[k].wire)
    ensures ExpectedDelivery(sent[f]) in delivered
  {
    var i :| 0 <= i < |delivered| && delivered[i].timestamp == sent[f].timestamp;
    var g :| 0 <= g < |sent| && delivered[i] == ExpectedDelivery(sent[g]);
    assert f == g;
  }

  /**
   Once every packet has arrived, in whatever order, no frame is left behind, and the deliveries are the
   sent frames, each exactly once and with its packets in order.
   */
  lemma CompleteRun(sent: seq<SentFrame>, arrivals: seq<Arrival>)
    requires ValidSent(sent) && CompleteSchedule(sent, arrivals)
    ensures RunFrames(sent, arrivals) == map[]
    ensures var delivered := RunDelivered(sent, arrivals);
            && DeliveriesRight(sent, delivered)
            && forall f :: 0 <= f < |sent| ==> ExpectedDelivery(sent[f]) in delivered
  {
    RunKeepsInv(sent, arrivals);
    NothingLeft(sent, arrivals);
    var delivered := RunDelivered(sent, arrivals);
    forall f | 0 <= f < |sent|
      ensures ExpectedDelivery(sent[f]) in delivered
    {
      FrameIsThrough(sent, arrivals, map[], delivered, f);
      DeliveredAsExpected(sent, delivered, f);
    }
  }
}
