/** From the sender's images to the receiver's NAL units, over a network that reorders packets at will. */
module EndToEnd {
  import opened H264
  import opened Splitter
  import opened NonRtpPackets
  import opened PacketPlan
  import opened PacketPayload
  import opened FrameRoundTrip
  import opened AnnexB
  import opened Reassembly
  import opened RecvStreams
  import opened StreamRun
  import opened SenderRuns
  import opened SendStreams

  /** The packet count of a frame is one byte on the wire. */
  ghost predicate Receivable(image: Image)
    requires Sendable(image)
  {
    SendableIsGenerated(image);
    |PlanOf(image.data).packets| <= 255
  }

  lemma SentFrameIsValid(image: Image, groupId: nat, datagrams: seq<Datagram>, from: nat, to: nat)
    requires Sendable(image) && Receivable(image) && SentAs(image, groupId, datagrams, from, to)
    ensures ValidFrame(SentFrame(image.captureTs, datagrams))
  {
    hide ParseWire, Payload, Parse, PlanFrom;
    SendableIsGenerated(image);
    TileBounds(datagrams, from, to);
    var f := SentFrame(image.captureTs, datagrams);
    forall k | 0 <= k < |f.packets|
      ensures CarriesFrame(f, f.packets[k].wire)
    {
    }
  }

  /** Some NAL unit of the image stays alone in its aggregation group: the lengths tell, before anything is sent. */
  predicate HasLoneNalu(image: Image) {
    LoneFrom(DEFAULT_LIMITS, NalusOf(image.data), 0)
  }

  /** Delivering the frame of an image yields its NAL units. */
  ghost predicate DeliversImage(d: Delivery, image: Image) {
    d.timestamp == image.captureTs && d.outcome == Accepted && HoldAll(d.nalus, NalusOf(image.data), image.captureTs)
  }

  ghost predicate Arrives(image: Image, delivered: seq<Delivery>) {
    exists d :: d in delivered && DeliversImage(d, image)
  }

  /** The delivery is that of the image, and yields its NAL units unless one of them stays alone. */
  ghost predicate Reports(d: Delivery, image: Image) {
    d.timestamp == image.captureTs && (DeliversImage(d, image) <==> !HasLoneNalu(image))
  }

  ghost predicate IsAnImage(d: Delivery, images: seq<Image>) {
    exists f :: 0 <= f < |images| && Reports(d, images[f])
  }

  lemma ExpectedReports(image: Image, groupId: nat, datagrams: seq<Datagram>, from: nat, to: nat)
    requires Sendable(image) && Receivable(image) && SentAs(image, groupId, datagrams, from, to)
    ensures forall k :: 0 <= k < |datagrams| ==> ParseWire(datagrams[k].wire).Parsed?
    ensures Reports(ExpectedDelivery(SentFrame(image.captureTs, datagrams)), image)
  {
    hide ParseWire, Payload, Parse, PlanFrom, Tile, Tiles, HoldAll, LoneFrom;
    SendableIsGenerated(image);
    var f := SentFrame(image.captureTs, datagrams);
    var planned := PlanOf(image.data).packets;
    assert PayloadsOf(f) == Payloads(planned);
    ArrivesExactly(DEFAULT_LIMITS, NalusOf(image.data), image.captureTs);
  }

  /** The frames on the wire are those of the images, each sent by one call of PacketizeImage. */
  ghost predicate Transmission(images: seq<Image>, sent: seq<SentFrame>) {
    && |sent| == |images|
    && (forall f :: 0 <= f < |images| ==> TransmittedAs(images[f], sent[f]))
    && Timely(images)
  }

  /** No two images are captured at the same time. */
  ghost predicate Timely(images: seq<Image>) {
    forall f, g :: 0 <= f < |images| && 0 <= g < |images| && f != g ==> images[f].captureTs != images[g].captureTs
  }

  ghost predicate TransmittedAs(image: Image, frame: SentFrame) {
    FrameOf(image, frame.packets) && Receivable(image) && frame.timestamp == image.captureTs
  }

  lemma TransmittedFrame(image: Image, frame: SentFrame)
    requires TransmittedAs(image, frame)
    ensures ValidFrame(frame)
    ensures forall k :: 0 <= k < |frame.packets| ==> ParseWire(frame.packets[k].wire).Parsed?
    ensures Reports(ExpectedDelivery(frame), image)
  {
    hide ParseWire, Payload, Parse, PlanFrom, Tile, Tiles, ExpectedDelivery, Reports;
    var groupId: nat, from: nat, to: nat :| SentAs(image, groupId, frame.packets, from, to);
    SentFrameIsValid(image, groupId, frame.packets, from, to);
    ExpectedReports(image, groupId, frame.packets, from, to);
    assert frame == SentFrame(image.captureTs, frame.packets);
  }

  /** The bytes of encoded NAL units, without their start codes. */
  function Datas(nalus: seq<AnnexBNalu>): (datas: seq<Nalu>)
    ensures |datas| == |nalus|
  {
    seq(|nalus|, i requires 0 <= i < |nalus| => nalus[i].data)
  }

  /** Some delivery holds exactly these NAL units. */
  ghost predicate ArriveAs(nalus: seq<AnnexBNalu>, timestamp: nat, delivered: seq<Delivery>) {
    exists d ::
      d in delivered && d.timestamp == timestamp && d.outcome == Accepted && HoldAll(d.nalus, Datas(nalus), timestamp)
  }

  /** Whatever canonical list of NAL units the image was written from: they arrive unless one of them stays alone. */
  ghost predicate EncodedArrives(image: Image, delivered: seq<Delivery>) {
    forall nalus :: Canonical(nalus) && image.data == Write(nalus) ==>
      (ArriveAs(nalus, image.captureTs, delivered) <==> !LoneFrom(DEFAULT_LIMITS, Datas(nalus), 0))
  }

  lemma EncodedFrameArrives(image: Image, delivered: seq<Delivery>)
    requires Arrives(image, delivered) <==> !HasLoneNalu(image)
    ensures EncodedArrives(image, delivered)
  {
    forall nalus | Canonical(nalus) && image.data == Write(nalus)
      ensures ArriveAs(nalus, image.captureTs, delivered) <==> !LoneFrom(DEFAULT_LIMITS, Datas(nalus), 0)
    {
      CanonicalCodes(nalus);
      hide Canonical, Write, HoldAll, LoneFrom, Parse;
      WriteThenParse(nalus);
      assert NalusOf(image.data) == Datas(nalus);
    }
  }

  lemma CanonicalCodes(nalus: seq<AnnexBNalu>)
    requires Canonical(nalus)
    ensures forall k :: 0 <= k < |nalus| ==> nalus[k].startCodeSize == 3 || nalus[k].startCodeSize == 4
  {
  }

  lemma EncodedFramesArrive(images: seq<Image>, delivered: seq<Delivery>)
    requires forall f :: 0 <= f < |images| ==> (Arrives(images[f], delivered) <==> !HasLoneNalu(images[f]))
    ensures forall f :: 0 <= f < |images| ==> EncodedArrives(images[f], delivered)
  {
    hide Arrives, HasLoneNalu, EncodedArrives;
    forall f | 0 <= f < |images|
      ensures EncodedArrives(images[f], delivered)
    {
      EncodedFrameArrives(images[f], delivered);
    }
  }

  /**
   The transport round trip: however the packets of the images are interleaved and reordered on the way, once all
   have arrived the receiver holds no frame back and has made one delivery for each image and no other. An image
   arrives, its NAL units in order with their types and bytes, exactly if none of them stays alone in its group.
   */
  lemma TransportRoundTrip(images: seq<Image>, sent: seq<SentFrame>, arrivals: seq<Arrival>)
    requires Transmission(images, sent) && CompleteSchedule(sent, arrivals)
    ensures RunFrames(sent, arrivals) == map[]
    ensures var delivered := RunDelivered(sent, arrivals);
            && |delivered| == |images|
            && (forall f :: 0 <= f < |images| ==> (Arrives(images[f], delivered) <==> !HasLoneNalu(images[f])))
            && (forall i :: 0 <= i < |delivered| ==> IsAnImage(delivered[i], images))
            && (forall f :: 0 <= f < |images| ==> EncodedArrives(images[f], delivered))
  {
    hide ParseWire, Payload, Parse, PlanFrom, Tile, Tiles, ExpectedDelivery, HoldAll, NalusOf, Arriving, RunFrames,
        RunDelivered, HasLoneNalu, FrameOf, EncodedArrives;
    forall f | 0 <= f < |images|
      ensures ValidFrame(sent[f]) && sent[f].timestamp == images[f].captureTs
      ensures forall k :: 0 <= k < |sent[f].packets| ==> ParseWire(sent[f].packets[k].wire).Parsed?
      ensures Reports(ExpectedDelivery(sent[f]), images[f])
    {
      TransmittedFrame(images[f], sent[f]);
    }
    assert ValidSent(sent);
    CompleteRun(sent, arrivals);
    DeliveredOnce(sent, RunDelivered(sent, arrivals));
    DeliveriesAreImages(images, sent, RunDelivered(sent, arrivals));
    EncodedFramesArrive(images, RunDelivered(sent, arrivals));
  }

  lemma DeliveriesAreImages(images: seq<Image>, sent: seq<SentFrame>, delivered: seq<Delivery>)
    requires |sent| == |images| && ValidSent(sent) && DeliveriesRight(sent, delivered)
    requires forall f :: 0 <= f < |sent| ==>
      (forall k :: 0 <= k < |sent[f].packets| ==> ParseWire(sent[f].packets[k].wire).Parsed?)
      && sent[f].timestamp == images[f].captureTs
      && ExpectedDelivery(sent[f]) in delivered && Reports(ExpectedDelivery(sent[f]), images[f])
    ensures forall f :: 0 <= f < |images| ==> (Arrives(images[f], delivered) <==> !HasLoneNalu(images[f]))
    ensures forall i :: 0 <= i < |delivered| ==> IsAnImage(delivered[i], images)
  {
    hide HasLoneNalu, HoldAll, ParsePackets, ParseWire, ValidFrame;
    forall f | 0 <= f < |images|
      ensures Arrives(images[f], delivered) <==> !HasLoneNalu(images[f])
    {
      var expected := ExpectedDelivery(sent[f]);
      if Arrives(images[f], delivered) {
        var d :| d in delivered && DeliversImage(d, images[f]);
        var g :| 0 <= g < |sent| && d == ExpectedDelivery(sent[g]);
        assert g == f;
      }
      if !HasLoneNalu(images[f]) { assert expected in delivered && DeliversImage(expected, images[f]); }
    }
    forall i | 0 <= i < |delivered|
      ensures IsAnImage(delivered[i], images)
    {
      var f :| 0 <= f < |sent| && delivered[i] == ExpectedDelivery(sent[f]);
      assert Reports(delivered[i], images[f]);
    }
  }

  /** As many deliveries as frames: each frame is delivered, and none twice. */
  lemma DeliveredOnce(sent: seq<SentFrame>, delivered: seq<Delivery>)
    requires ValidSent(sent) && DeliveriesRight(sent, delivered)
    requires forall f :: 0 <= f < |sent| ==>
      ValidFrame(sent[f]) && (forall k :: 0 <= k < |sent[f].packets| ==> ParseWire(sent[f].packets[k].wire).Parsed?)
      && ExpectedDelivery(sent[f]) in delivered
    ensures |delivered| == |sent|
  {
    hide ParseWire, ParsePackets, PayloadsOf, ValidFrame;
    var ts, ds := seq(|sent|, f requires 0 <= f < |sent| => sent[f].timestamp),
                  seq(|delivered|, i requires 0 <= i < |delivered| => delivered[i].timestamp);
    forall t | t in ts
      ensures t in ds
    {
      var f :| 0 <= f < |sent| && sent[f].timestamp == t;
      var i :| 0 <= i < |delivered| && delivered[i] == ExpectedDelivery(sent[f]);
      assert ds[i] == t;
    }
    forall t | t in ds
      ensures t in ts
    {
      var i :| 0 <= i < |delivered| && delivered[i].timestamp == t;
      var f :| 0 <= f < |sent| && delivered[i] == ExpectedDelivery(sent[f]);
      assert ts[f] == t;
    }
    SameElements(ts, ds);
  }

  /** Two lists without duplicates and with the same elements are equally long. */
  lemma {:induction false} SameElements(xs: seq<nat>, ys: seq<nat>)
    requires forall i, j :: 0 <= i < j < |xs| ==> xs[i] != xs[j]
    requires forall i, j :: 0 <= i < j < |ys| ==> ys[i] != ys[j]
    requires forall x :: x in xs <==> x in ys
    ensures |xs| == |ys|
  {
    DistinctSize(xs);
    DistinctSize(ys);
    assert Elements(xs) == Elements(ys);
  }

  lemma {:induction false} DistinctSize(xs: seq<nat>)
    requires forall i, j :: 0 <= i < j < |xs| ==> xs[i] != xs[j]
    ensures |Elements(xs)| == |xs|
  {
    if xs == [] {
    } else {
      var n := |xs| - 1;
      var init, last := xs[..n], xs[n];
      DistinctSize(init);
      assert last !in init;
      assert xs == init + [last];
      assert Elements(xs) == Elements(init) + {last};
    }
  }

  ghost function Elements(xs: seq<nat>): set<nat> {
    set x | x in xs
  }

  // ---------- From one end to the other ----------

  /** Where packet k of frame f is in the stream of all. */
  function Position(frames: seq<seq<Datagram>>, f: nat, k: nat): nat
    requires f < |frames|
  {
    |Flat(frames[..f])| + k
  }

  lemma {:induction false} FlatAt(frames: seq<seq<Datagram>>, f: nat, k: nat)
    requires f < |frames| && k < |frames[f]|
    ensures |Flat(frames[..f])| + |frames[f]| <= |Flat(frames)|
    ensures Flat(frames)[Position(frames, f, k)] == frames[f][k]
    decreases |frames|
  {
    var n := |frames| - 1;
    if f == n {
    } else {
      FlatAt(frames[..n], f, k);
      assert frames[..n][..f] == frames[..f];
    }
  }

  lemma {:induction false} FlatWithin(frames: seq<seq<Datagram>>, f: nat, g: nat)
    requires f < g <= |frames|
    ensures |Flat(frames[..f])| + |frames[f]| <= |Flat(frames[..g])|
    decreases g
  {
    assert frames[..g][..g - 1] == frames[..g - 1];
    if f == g - 1 {
    } else {
      FlatWithin(frames, f, g - 1);
    }
  }

  lemma {:induction false} FlatMember(frames: seq<seq<Datagram>>, d: Datagram) returns (f: nat, k: nat)
    requires d in Flat(frames)
    ensures f < |frames| && k < |frames[f]| && frames[f][k] == d
  {
    var n := |frames| - 1;
    if d in frames[n] {
      f := n;
      k :| 0 <= k < |frames[n]| && frames[n][k] == d;
    } else {
      f, k := FlatMember(frames[..n], d);
    }
  }

  /** Different packets lie at different offsets. */
  lemma SamePacket(frames: seq<seq<Datagram>>, start: nat, end: nat, f: nat, k: nat, g: nat, l: nat)
    requires Tile(Flat(frames), start, end)
    requires f < |frames| && k < |frames[f]| && g < |frames| && l < |frames[g]| && frames[f][k] == frames[g][l]
    ensures f == g && k == l
  {
    TileBounds(Flat(frames), start, end);
    FlatAt(frames, f, k);
    FlatAt(frames, g, l);
    if f < g { FlatWithin(frames, f, g); }
    if g < f { FlatWithin(frames, g, f); }
  }

  function SentFrames(images: seq<Image>, frames: seq<seq<Datagram>>): (sent: seq<SentFrame>)
    requires |images| == |frames|
    ensures |sent| == |images|
  {
    seq(|images|, f requires 0 <= f < |images| => SentFrame(images[f].captureTs, frames[f]))
  }

  /** A list without duplicates stays so under reordering. */
  lemma StaysDistinct<T>(xs: seq<T>, ys: seq<T>)
    requires multiset(xs) == multiset(ys)
    requires forall i, j :: 0 <= i < j < |xs| ==> xs[i] != xs[j]
    ensures forall i, j :: 0 <= i < j < |ys| ==> ys[i] != ys[j]
  {
    forall i, j | 0 <= i < j < |ys|
      ensures ys[i] != ys[j]
    {
      if ys[i] == ys[j] {
        OccursTwice(ys, i, j);
        OccursOnce(xs, ys[i]);
        assert false;
      }
    }
  }

  lemma OccursTwice<T>(ys: seq<T>, i: nat, j: nat)
    requires i < j < |ys| && ys[i] == ys[j]
    ensures multiset(ys)[ys[i]] >= 2
  {
    assert ys == ys[..j] + [ys[j]] + ys[j + 1..];
    assert ys[i] in ys[..j];
  }

  lemma {:induction false} OccursOnce<T>(xs: seq<T>, x: T)
    requires forall i, j :: 0 <= i < j < |xs| ==> xs[i] != xs[j]
    ensures multiset(xs)[x] <= 1
    decreases |xs|
  {
    if xs == [] {
    } else {
      var n := |xs| - 1;
      OccursOnce(xs[..n], x);
      assert xs == xs[..n] + [xs[n]];
      if xs[n] == x { assert x !in xs[..n]; }
    }
  }

  /** Any order in which the datagrams arrive, each once, is a complete schedule of the packets. */
  lemma OrderIsSchedule(images: seq<Image>, frames: seq<seq<Datagram>>, start: nat, end: nat, order: seq<Datagram>)
    returns (arrivals: seq<Arrival>)
    requires |images| == |frames| && Tile(Flat(frames), start, end) && multiset(order) == multiset(Flat(frames))
    ensures CompleteSchedule(SentFrames(images, frames), arrivals) && |arrivals| == |order|
    ensures forall i :: 0 <= i < |order| ==> order[i] == DatagramOf(SentFrames(images, frames), arrivals[i])
  {
    hide Tile, Flat;
    var sent := SentFrames(images, frames);
    TileBounds(Flat(frames), start, end);
    StaysDistinct(Flat(frames), order);
    arrivals := LocateAll(images, frames, order);
    forall a | InRange(sent, a)
      ensures a in arrivals
    {
      var d := frames[a.frame][a.packet];
      FlatAt(frames, a.frame, a.packet);
      assert d in multiset(Flat(frames));
      assert d in multiset(order);
      var i :| 0 <= i < |order| && order[i] == d;
      SamePacket(frames, start, end, a.frame, a.packet, arrivals[i].frame, arrivals[i].packet);
      assert arrivals[i] == a;
    }
  }

  lemma {:induction false} LocateAll(images: seq<Image>, frames: seq<seq<Datagram>>, order: seq<Datagram>)
    returns (arrivals: seq<Arrival>)
    requires |images| == |frames| && multiset(order) <= multiset(Flat(frames))
    ensures |arrivals| == |order|
    ensures forall i :: 0 <= i < |order| ==>
              InRange(SentFrames(images, frames), arrivals[i])
              && order[i] == DatagramOf(SentFrames(images, frames), arrivals[i])
    decreases |order|
  {
    if order == [] {
      arrivals := [];
    } else {
      var n := |order| - 1;
      assert order == order[..n] + [order[n]];
      arrivals := LocateAll(images, frames, order[..n]);
      assert order[n] in multiset(order);
      var f, k := FlatMember(frames, order[n]);
      arrivals := arrivals + [Arrival(f, k)];
    }
  }

  /**
   Both ends, over a network that delivers each datagram once, in an order of its own. The images that are sent in
   time are those that arrive, but for those with a lone NAL unit.
   */
  method Transport(sender: RTCSendStream, receiver: RTCRecvStream, steps: seq<SenderStep>,
                   network: seq<Datagram> -> seq<Datagram>)
    requires sender.Valid() && sender.queue == [] && sender.frameId == 0 && AllSendable(steps)
    requires receiver.Valid() && receiver.state == map[] && receiver.delivered == []
    requires forall s :: multiset(network(s)) == multiset(s)
    requires Timely(Images(steps)[..Gone(steps)])
    requires forall f :: 0 <= f < Gone(steps) ==> Sendable(Images(steps)[f]) && Receivable(Images(steps)[f])
    modifies sender, receiver, receiver.frames.Values
    ensures receiver.Valid() && receiver.state == map[] && |receiver.delivered| == Gone(steps)
    ensures forall f :: 0 <= f < Gone(steps) ==>
              (Arrives(Images(steps)[f], receiver.delivered) <==> !HasLoneNalu(Images(steps)[f]))
    ensures forall i :: 0 <= i < |receiver.delivered| ==>
              IsAnImage(receiver.delivered[i], Images(steps)[..Gone(steps)])
    ensures forall f :: 0 <= f < Gone(steps) ==> EncodedArrives(Images(steps)[f], receiver.delivered)
  {
    hide Tile, Sendable, Receivable, SentAs, HasLoneNalu, Flat, Arriving, Arrives, IsAnImage, FrameOf, Timely,
        EncodedArrives;
    ghost var start := sender.offset;
    var datagrams;
    ghost var frames;
    datagrams, frames := Run(sender, steps);
    ghost var images, gone := Images(steps)[..Gone(steps)], frames[..Gone(steps)];
    TilePrefix(datagrams, sender.queue, start, sender.offset);
    ghost var end :| Tile(datagrams, start, end);
    var order := network(datagrams);
    ghost var arrivals := OrderIsSchedule(images, gone, start, end, order);
    SentIsTransmission(images, gone);
    Receive(receiver, order, SentFrames(images, gone), arrivals);
    TransportRoundTrip(images, SentFrames(images, gone), arrivals);
    assert forall f :: 0 <= f < Gone(steps) ==> images[f] == Images(steps)[f];
  }

  lemma SentIsTransmission(images: seq<Image>, frames: seq<seq<Datagram>>)
    requires FramesOf(images, frames) && Timely(images)
    requires forall f :: 0 <= f < |images| ==> Sendable(images[f]) && Receivable(images[f])
    ensures Transmission(images, SentFrames(images, frames))
  {
  }

  lemma {:induction false} TilePrefix(xs: seq<Datagram>, ys: seq<Datagram>, from: nat, to: nat)
    requires Tile(xs + ys, from, to)
    ensures exists mid: nat :: Tile(xs, from, mid)
    decreases |xs|
  {
    if xs == [] {
      assert Tile(xs, from, from);
    } else {
      assert (xs + ys)[1..] == xs[1..] + ys;
      TilePrefix(xs[1..], ys, from + |xs[0].wire|, to);
      var mid: nat :| Tile(xs[1..], from + |xs[0].wire|, mid);
      assert Tile(xs, from, mid);
    }
  }
}
