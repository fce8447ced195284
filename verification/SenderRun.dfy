/** Runs of the sender: images packetized and packets sent, in any order of calls (stream/rtc_send_stream.cc). */
module SenderRuns {
  import opened H264
  import opened NonRtpPackets
  import opened PacketPayload
  import opened PacketPlan
  import opened AnnexB
  import opened StreamRun
  import opened SendStreams

  /** An image taken from the queue and packetized, or a call of SendPacket. */
  datatype SenderStep = Packetize(image: Image) | Send

  /** The images packetized, in order. */
  function Images(steps: seq<SenderStep>): seq<Image> {
    if steps == [] then []
    else
      var n := |steps| - 1;
      Images(steps[..n]) + if steps[n].Packetize? then [steps[n].image] else []
  }

  /** How many of them have been sent: sending sends all there are, until six were packetized. */
  function Gone(steps: seq<SenderStep>): (g: nat)
    ensures g <= |Images(steps)|
  {
    if steps == [] then 0
    else
      var n := |steps| - 1;
      if steps[n].Send? && |Images(steps[..n])| <= 5 then |Images(steps[..n])| else Gone(steps[..n])
  }

  /** A call of SendPacket that comes when the image has been packetized, and at most five were. */
  ghost predicate SentAt(steps: seq<SenderStep>, f: nat, j: nat)
    requires j < |steps|
  {
    steps[j].Send? && f < |Images(steps[..j])| <= 5
  }

  lemma {:induction false} ImagesGrow(steps: seq<SenderStep>, j: nat)
    requires j <= |steps|
    ensures Images(steps[..j]) <= Images(steps)
  {
    if j == |steps| {
      assert steps[..j] == steps;
    } else {
      var n := |steps| - 1;
      ImagesGrow(steps[..n], j);
      assert steps[..n][..j] == steps[..j];
    }
  }

  /** An image leaves exactly if SendPacket is called after it was packetized and before a sixth one is. */
  lemma {:induction false} LeavesExactly(steps: seq<SenderStep>, f: nat)
    ensures f < Gone(steps) <==> exists j :: 0 <= j < |steps| && SentAt(steps, f, j)
  {
    hide Images;
    if steps == [] {
    } else {
      var n := |steps| - 1;
      var before := steps[..n];
      LeavesExactly(before, f);
      assert forall j :: 0 <= j < n ==> before[..j] == steps[..j] && before[j] == steps[j];
      assert forall j :: 0 <= j < n ==> (SentAt(before, f, j) <==> SentAt(steps, f, j));
      if f < Gone(before) {
        var j :| 0 <= j < n && SentAt(before, f, j);
        ImagesGrow(before, j);
        assert SentAt(steps, f, j);
      }
      if f < Gone(steps) && f >= Gone(before) { assert SentAt(steps, f, n); }
    }
  }

  /** Six images packetized before the first call of SendPacket: not one of them ever leaves. */
  lemma {:induction false} SixStay(steps: seq<SenderStep>, n: nat)
    requires 6 <= n <= |steps| && forall k :: 0 <= k < n ==> steps[k].Packetize?
    ensures Gone(steps) == 0 && |Images(steps)| >= 6
    decreases |steps|
  {
    if |steps| == n {
      AllPacketized(steps);
    } else {
      SixStay(steps[..|steps| - 1], n);
    }
  }

  lemma {:induction false} AllPacketized(steps: seq<SenderStep>)
    requires forall k :: 0 <= k < |steps| ==> steps[k].Packetize?
    ensures |Images(steps)| == |steps| && Gone(steps) == 0
    decreases |steps|
  {
    if steps == [] {
    } else {
      AllPacketized(steps[..|steps| - 1]);
    }
  }

  // ---------- What the headers show ----------

  /** Key frames other than the first image. */
  function KeyFrames(images: seq<Image>): nat {
    if |images| <= 1 then 0
    else
      var n := |images| - 1;
      KeyFrames(images[..n]) + if images[n].keyFrame then 1 else 0
  }

  /** What a receiver reads in the header of a datagram. */
  ghost predicate Shows(d: Datagram, image: Image, group: nat, count: nat) {
    var p := ParseWire(d.wire);
    && p.Parsed? && p.header.payloadType == (if image.keyFrame then 96 else 97)
    && p.header.timestamp == image.captureTs && p.header.groupId == group % 256
    && p.header.packetsPerFrame == count % 256
  }

  /**
   Every datagram of an image shows its kind, its time, how many there are, and as its group how many key frames there
   were since the first image and before this one.
   */
  ghost predicate HeadersShow(images: seq<Image>, frames: seq<seq<Datagram>>, base: nat) {
    && |images| == |frames|
    && forall f, k :: 0 <= f < |frames| && 0 <= k < |frames[f]| ==>
         Shows(frames[f][k], images[f], base + KeyFrames(images[..f]), |frames[f]|)
  }

  lemma SentShows(image: Image, groupId: nat, datagrams: seq<Datagram>, from: nat, to: nat)
    requires Sendable(image) && SentAs(image, groupId, datagrams, from, to)
    ensures forall k :: 0 <= k < |datagrams| ==> Shows(datagrams[k], image, groupId, |datagrams|)
  {
    hide ParseWire, Payload, Parse, PlanFrom, Tile, Sendable;
    SendableIsGenerated(image);
  }

  lemma CutGroup(group: nat)
    ensures group % 65536 % 256 == group % 256 && (group + 1) % 65536 == (group % 65536 + 1) % 65536
  {
    var q, r := group / 65536, group % 65536;
    assert group == 65536 * q + r;
    assert group / 256 == 256 * q + r / 256 && group % 256 == r % 256;
    if r == 65535 {
      assert group + 1 == 65536 * (q + 1);
    } else {
      assert group + 1 == 65536 * q + (r + 1);
    }
  }

  lemma HeadersSnoc(images: seq<Image>, frames: seq<seq<Datagram>>, base: nat, groupId: nat, image: Image,
                    frame: seq<Datagram>)
    requires HeadersShow(images, frames, base) && groupId == (base + KeyFrames(images)) % 65536
    requires forall k :: 0 <= k < |frame| ==> Shows(frame[k], image, groupId, |frame|)
    ensures HeadersShow(images + [image], frames + [frame], base)
    ensures (base + KeyFrames(images + [image])) % 65536
            == if images != [] && image.keyFrame then (groupId + 1) % 65536 else groupId
  {
    hide ParseWire;
    CutGroup(base + KeyFrames(images));
    forall f, k | 0 <= f < |frames + [frame]| && 0 <= k < |(frames + [frame])[f]|
      ensures Shows((frames + [frame])[f][k], (images + [image])[f], base + KeyFrames((images + [image])[..f]),
                |(frames + [frame])[f]|)
    {
      if f < |frames| {
        assert (images + [image])[..f] == images[..f];
        assert Shows(frames[f][k], images[f], base + KeyFrames(images[..f]), |frames[f]|);
      } else {
        assert (images + [image])[..f] == images;
      }
    }
    assert (images + [image])[..|images|] == images;
  }

  /** A key frame still shows the group of the images before it: the next group opens with the image behind it. */
  lemma GroupOpensBehindKeyFrame(images: seq<Image>, frames: seq<seq<Datagram>>, base: nat, f: nat, k: nat, l: nat)
    requires HeadersShow(images, frames, base) && 1 <= f < |images| && k < |frames[f - 1]| && l < |frames[f]|
    ensures ParseWire(frames[f - 1][k].wire).Parsed? && ParseWire(frames[f][l].wire).Parsed?
    ensures ParseWire(frames[f - 1][k].wire).header.groupId == ParseWire(frames[f][l].wire).header.groupId
            <==> f == 1 || !images[f - 1].keyFrame
  {
    hide ParseWire;
    assert Shows(frames[f - 1][k], images[f - 1], base + KeyFrames(images[..f - 1]), |frames[f - 1]|);
    assert Shows(frames[f][l], images[f], base + KeyFrames(images[..f]), |frames[f]|);
    assert images[..f][..f - 1] == images[..f - 1];
    NextByteDiffers(base + KeyFrames(images[..f - 1]));
  }

  lemma NextByteDiffers(n: nat)
    ensures n % 256 != (n + 1) % 256
  {
  }

  // ---------- Frames one behind the other ----------

  function Flat(frames: seq<seq<Datagram>>): seq<Datagram> {
    if frames == [] then [] else Flat(frames[..|frames| - 1]) + frames[|frames| - 1]
  }

  lemma FlatSnoc(frames: seq<seq<Datagram>>, frame: seq<Datagram>)
    ensures Flat(frames + [frame]) == Flat(frames) + frame
  {
    assert (frames + [frame])[..|frames|] == frames;
  }

  lemma {:induction false} TileAppend(xs: seq<Datagram>, ys: seq<Datagram>, from: nat, mid: nat, to: nat)
    requires Tile(xs, from, mid) && Tile(ys, mid, to)
    ensures Tile(xs + ys, from, to)
    decreases |xs|
  {
    if xs == [] {
      assert xs + ys == ys;
    } else {
      TileAppend(xs[1..], ys, from + |xs[0].wire|, mid, to);
      assert (xs + ys)[1..] == xs[1..] + ys;
    }
  }

  /** The frame holds the packets of the image, all of them and in order. */
  ghost predicate FrameOf(image: Image, frame: seq<Datagram>) {
    Sendable(image) && exists groupId: nat, from: nat, to: nat :: SentAs(image, groupId, frame, from, to)
  }

  ghost predicate FramesOf(images: seq<Image>, frames: seq<seq<Datagram>>) {
    |images| == |frames| && forall f :: 0 <= f < |images| ==> FrameOf(images[f], frames[f])
  }

  ghost predicate AllSendable(steps: seq<SenderStep>) {
    forall k :: 0 <= k < |steps| && steps[k].Packetize? ==> Sendable(steps[k].image)
  }

  /** What a sender has sent and still holds, after some steps. */
  ghost predicate Progress(steps: seq<SenderStep>, frames: seq<seq<Datagram>>, sent: seq<Datagram>,
      queue: seq<Datagram>,
                           start: nat, end: nat) {
    && FramesOf(Images(steps), frames)
    && sent == Flat(frames[..Gone(steps)]) && sent + queue == Flat(frames) && Tile(sent + queue, start, end)
  }

  lemma PacketizeProgress(steps: seq<SenderStep>, image: Image, frames: seq<seq<Datagram>>, sent: seq<Datagram>,
                          queue: seq<Datagram>, added: seq<Datagram>, start: nat, mid: nat, end: nat, groupId: nat)
    requires Progress(steps, frames, sent, queue, start, mid) && Sendable(image)
    requires SentAs(image, groupId, added, mid, end)
    ensures Progress(steps + [Packetize(image)], frames + [added], sent, queue + added, start, end)
  {
    hide Tile, Carry, Sendable, PlanOf;
    assert (steps + [Packetize(image)])[..|steps|] == steps;
    assert FrameOf(image, added);
    FlatSnoc(frames, added);
    Associative(sent, queue, added);
    TileAppend(sent + queue, added, start, mid, end);
    assert (frames + [added])[..Gone(steps)] == frames[..Gone(steps)];
  }

  lemma SendProgress(steps: seq<SenderStep>, frames: seq<seq<Datagram>>, sent: seq<Datagram>, queue: seq<Datagram>,
                     start: nat, end: nat)
    requires Progress(steps, frames, sent, queue, start, end)
    ensures if |Images(steps)| <= 5 then Progress(steps + [Send], frames, sent + queue, [], start, end)
            else Progress(steps + [Send], frames, sent, queue, start, end)
  {
    hide Tile, FrameOf;
    assert (steps + [Send])[..|steps|] == steps;
    assert Images(steps + [Send]) == Images(steps);
    assert |frames| == |Images(steps)|;
    assert frames[..|frames|] == frames;
    assert sent + queue + [] == sent + queue;
  }

  /** One image through a running sender. */
  method PacketizeNext(stream: RTCSendStream, image: Image, ghost steps: seq<SenderStep>,
                       ghost frames: seq<seq<Datagram>>, ghost sent: seq<Datagram>, ghost start: nat, ghost base: nat)
    returns (ghost added: seq<Datagram>)
    requires stream.Valid() && stream.frameId == |Images(steps)| && Sendable(image)
    requires Progress(steps, frames, sent, stream.queue, start, stream.offset)
    requires HeadersShow(Images(steps), frames, base)
    requires stream.groupId == (base + KeyFrames(Images(steps))) % 65536
    modifies stream
    ensures stream.Valid() && stream.frameId == old(stream.frameId) + 1
    ensures Progress(steps + [Packetize(image)], frames + [added], sent, stream.queue, start, stream.offset)
    ensures HeadersShow(Images(steps) + [image], frames + [added], base)
    ensures stream.groupId == (base + KeyFrames(Images(steps) + [image])) % 65536
  {
    hide Tile, Sendable, SentAs, Progress, HeadersShow, Indexes, KeyFrames, Images;
    ghost var queue, mid, groupId := stream.queue, stream.offset, stream.groupId;
    stream.PacketizeImage(image);
    added := stream.queue[|queue|..];
    assert stream.queue == queue + added;
    PacketizeProgress(steps, image, frames, sent, queue, added, start, mid, stream.offset, groupId);
    SentShows(image, groupId, added, mid, stream.offset);
    HeadersSnoc(Images(steps), frames, base, groupId, image, added);
  }

  /** Drives a new sender through the steps. */
  method Run(stream: RTCSendStream, steps: seq<SenderStep>) returns (sent: seq<Datagram>,
      ghost frames: seq<seq<Datagram>>)
    requires stream.Valid() && stream.queue == [] && stream.frameId == 0 && AllSendable(steps)
    modifies stream
    ensures stream.Valid()
    ensures Progress(steps, frames, sent, stream.queue, old(stream.offset), stream.offset)
    ensures HeadersShow(Images(steps), frames, old(stream.groupId))
  {
    hide Tile, Sendable, SentAs, Progress, HeadersShow, Indexes, KeyFrames;
    ghost var base := stream.groupId;
    ghost var start := stream.offset;
    sent, frames := [], [];
    NothingYet(stream.waitSendOffset, start);
    NothingShown(base);
    for k := 0 to |steps|
      invariant stream.Valid() && stream.frameId == |Images(steps[..k])|
      invariant Progress(steps[..k], frames, sent, stream.queue, start, stream.offset)
      invariant HeadersShow(Images(steps[..k]), frames, base)
      invariant stream.groupId == (base + KeyFrames(Images(steps[..k]))) % 65536
    {
      assert steps[..k + 1] == steps[..k] + [steps[k]];
      assert steps[..k + 1][..k] == steps[..k];
      match steps[k]
      case Packetize(image) =>
        ghost var added := PacketizeNext(stream, image, steps[..k], frames, sent, start, base);
        assert Images(steps[..k + 1]) == Images(steps[..k]) + [image];
        frames := frames + [added];
      case Send =>
        SendProgress(steps[..k], frames, sent, stream.queue, start, stream.offset);
        ghost var before := sent;
        var datagrams := stream.SendPacket();
        assert before + [] == before;
        sent := sent + datagrams;
        assert Images(steps[..k + 1]) == Images(steps[..k]) + [] == Images(steps[..k]);
    }
    assert steps[..|steps|] == steps;
  }

  lemma NothingShown(base: nat)
    ensures HeadersShow([], [], base) && KeyFrames([]) == 0
  {
  }

  lemma NothingYet(waitSendOffset: nat, offset: nat)
    ensures Tile([], waitSendOffset, offset) ==> Progress([], [], [], [], offset, offset)
  {
  }
}
