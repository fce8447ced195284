/**
 The receiving end of a stream: frames are kept by timestamp and delivered from the least one on
 (stream/rtc_recv_stream.cc).
 */
module RecvStreams {
  import opened H264
  import opened NonRtpPackets
  import opened Reassembly
  import opened RecvFrames

  /** What becomes of a complete frame. */
  datatype Delivery = Delivery(timestamp: nat, outcome: Outcome, nalus: seq<RecvNalu>)

  type Frames = map<nat, FrameState>

  /** A datagram joins the frame of its timestamp; one that is too short is dropped. */
  function Accept(frames: Frames, offset: nat, wire: Bytes): Frames {
    match ParseWire(wire)
    case TooShort => frames
    case Parsed(h, payload) =>
      var frame := if h.timestamp in frames then frames[h.timestamp] else EMPTY_FRAME;
      frames[h.timestamp := AddPacket(frame, offset, Received(|wire|, h, payload))]
  }

  ghost function DeliveryOf(timestamp: nat, frame: FrameState): Delivery {
    var result := ParsePackets(PayloadsInOrder(frame.packets), timestamp, []);
    Delivery(timestamp, result.outcome, result.nalus)
  }

  /** The frame with the least timestamp is delivered while it is full. */
  ghost function Remaining(frames: Frames): Frames
    decreases |frames|
  {
    if frames == map[] then frames
    else
      var t := LeastKey(frames);
      assert t in frames;
      if IsFull(frames[t]) then Remaining(frames - {t}) else frames
  }

  ghost function Delivered(frames: Frames): seq<Delivery>
    decreases |frames|
  {
    if frames == map[] then []
    else
      var t := LeastKey(frames);
      assert t in frames;
      if IsFull(frames[t]) then [DeliveryOf(t, frames[t])] + Delivered(frames - {t}) else []
  }

  /** A datagram of fewer than 7 bytes changes nothing; any other changes the frame of its timestamp only. */
  lemma AcceptTouches(frames: Frames, offset: nat, wire: Bytes)
    ensures |wire| < 7 ==> Accept(frames, offset, wire) == frames
    ensures |wire| >= 7 ==>
              var t := ReadUint32(wire[1..5]);
              && t in Accept(frames, offset, wire) && offset in Accept(frames, offset, wire)[t].packets
              && Accept(frames, offset, wire) - {t} == frames - {t}
  {
  }

  lemma AcceptInTwoSteps(frames: Frames, offset: nat, wire: Bytes)
    requires ParseWire(wire).Parsed?
    ensures var h := ParseWire(wire).header;
            var joined := if h.timestamp in frames then frames else frames[h.timestamp := EMPTY_FRAME];
            Accept(frames, offset, wire)
            == joined[h.timestamp :=
                 AddPacket(joined[h.timestamp], offset, Received(|wire|, h, ParseWire(wire).payload))]
  {
  }

  /** One turn of the delivery loop. */
  lemma DeliveryStep(frames: Frames, t: nat)
    requires IsLeast(frames, t)
    ensures IsFull(frames[t]) ==>
      && Remaining(frames) == Remaining(frames - {t})
      && Delivered(frames) == [DeliveryOf(t, frames[t])] + Delivered(frames - {t})
    ensures !IsFull(frames[t]) ==> Remaining(frames) == frames && Delivered(frames) == []
  {
    assert t == LeastKey(frames);
  }

  class RTCRecvStream {
    var frames: map<nat, RecvFrame>
    /** The frames delivered so far. */
    ghost var delivered: seq<Delivery>
    /** What the frames hold. */
    ghost var state: Frames

    ghost predicate Valid()
      reads this, frames.Values
    {
      && state.Keys == frames.Keys
      && (forall s, t :: s in frames && t in frames && s != t ==> frames[s] != frames[t])
      && (forall t :: t in frames ==>
            frames[t].State() == state[t] && frames[t].nalus == [] && SameTimestamp(frames[t].packets, t))
    }

    constructor ()
      ensures Valid() && state == map[] && delivered == []
    {
      frames, state, delivered := map[], map[], [];
    }

    method OnNewData(offset: nat, wire: Bytes)
      requires Valid()
      modifies this, frames.Values
      ensures Valid() && fresh(frames.Values - old(frames.Values))
      ensures state == Remaining(Accept(old(state), offset, wire))
      ensures delivered == old(delivered) + Delivered(Accept(old(state), offset, wire))
    {
      var parser := ParseWire(wire);
      if parser.Parsed? {
        OpenFrame(parser.header.timestamp);
        AddToFrame(parser.header.timestamp, offset, Received(|wire|, parser.header, parser.payload));
      }
      if parser.Parsed? { AcceptInTwoSteps(old(state), offset, wire); }
      assert state == Accept(old(state), offset, wire);
      CheckDeliverable();
    }

    /** A timestamp not seen before opens a frame. */
    method OpenFrame(timestamp: nat)
      requires Valid()
      modifies this`frames, this`state
      ensures Valid() && timestamp in frames && fresh(frames.Values - old(frames.Values))
      ensures state == if timestamp in old(state) then old(state) else old(state)[timestamp := EMPTY_FRAME]
    {
      if timestamp !in frames {
        var frame := new RecvFrame();
        assert forall t :: t in frames ==> frames[t] != frame;
        frames := frames[timestamp := frame];
        state := state[timestamp := EMPTY_FRAME];
      }
    }

    method AddToFrame(timestamp: nat, offset: nat, packet: Received)
      requires Valid() && timestamp in frames && packet.header.timestamp == timestamp
      modifies frames[timestamp], this`state
      ensures Valid()
      ensures state == old(state)[timestamp := AddPacket(old(state)[timestamp], offset, packet)]
    {
      var frame := frames[timestamp];
      frame.OnNewPacket(offset, packet);
      state := state[timestamp := AddPacket(state[timestamp], offset, packet)];
    }

    method CheckDeliverable()
      requires Valid()
      modifies this, frames.Values
      ensures Valid() && frames.Values <= old(frames.Values)
      ensures state == Remaining(old(state))
      ensures delivered == old(delivered) + Delivered(old(state))
    {
      while frames != map[]
        invariant Valid() && frames.Values <= old(frames.Values)
        invariant Remaining(state) == Remaining(old(state))
        invariant delivered + Delivered(state) == old(delivered) + Delivered(old(state))
        decreases |frames|
      {
        LeastExists(frames);
        var timestamp :| timestamp in frames && forall t :: t in frames ==> timestamp <= t;
        DeliveryStep(state, timestamp);
        var frame := frames[timestamp];
        if frame.IsFullFrame() {
          Associative(delivered, [DeliveryOf(timestamp, state[timestamp])], Delivered(state - {timestamp}));
          assert |frames - {timestamp}| == |frames| - 1;
          DeliverFront(timestamp);
        } else {
          break;
        }
      }
      assert frames == map[] ==> state == map[];
    }

    /** Parses, reports and forgets a complete frame. */
    method DeliverFront(timestamp: nat)
      requires Valid() && timestamp in frames
      modifies this, frames[timestamp]
      ensures Valid() && frames == old(frames) - {timestamp} && frames.Values <= old(frames.Values)
      ensures state == old(state) - {timestamp}
      ensures delivered == old(delivered) + [DeliveryOf(timestamp, old(state)[timestamp])]
    {
      var frame := frames[timestamp];
      var size, outcome := frame.GetDelivableSize(timestamp);
      delivered := delivered + [Delivery(timestamp, outcome, frame.nalus)];
      frames := frames - {timestamp};
      state := state - {timestamp};
    }
  }
}
