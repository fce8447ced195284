/** Runs of the receiver in which datagrams may arrive more than once. */
module Repeats {
  import opened H264
  import opened NonRtpPackets
  import opened RecvFrames
  import opened RecvStreams
  import opened StreamRun

  /** How many arrivals belong to frame f, repeats included. */
  function Count(arrivals: seq<Arrival>, f: nat): nat {
    if arrivals == [] then 0
    else
      var n := |arrivals| - 1;
      Count(arrivals[..n], f) + if arrivals[n].frame == f then 1 else 0
  }

  /** How many deliveries have a given timestamp. */
  function Times(delivered: seq<Delivery>, timestamp: nat): nat {
    if delivered == [] then 0
    else
      var n := |delivered| - 1;
      Times(delivered[..n], timestamp) + if delivered[n].timestamp == timestamp then 1 else 0
  }

  lemma TimesSnoc(delivered: seq<Delivery>, d: Delivery, timestamp: nat)
    ensures Times(delivered + [d], timestamp) == Times(delivered, timestamp) + if d.timestamp == timestamp then 1 else 0
  {
    assert (delivered + [d])[..|delivered|] == delivered;
  }

  /** What the frames hold of arrivals: the count of a byte. */
  function Held(frames: Frames, timestamp: nat): nat {
    if timestamp in frames then frames[timestamp].received else 0
  }

  /**
   Every arrival of a frame was counted, modulo 256: each delivery accounts for as many as the frame has packets, and
   the rest is in the count of what is held.
   */
  ghost predicate Balanced(f: SentFrame, count: nat, frames: Frames, delivered: seq<Delivery>) {
    && count % 256 == (|f.packets| * Times(delivered, f.timestamp) + Held(frames, f.timestamp)) % 256
    && (f.timestamp in frames ==> frames[f.timestamp].packetsOfFrame == |f.packets|)
  }

  ghost predicate AllBalanced(sent: seq<SentFrame>, arrivals: seq<Arrival>, frames: Frames, delivered: seq<Delivery>) {
    && (forall f :: 0 <= f < |sent| ==> Balanced(sent[f], Count(arrivals, f), frames, delivered))
    && OnlySent(sent, frames)
  }

  /** What an arriving packet does to the frames: one more counted for its own. */
  lemma AcceptCounts(g: SentFrame, d: Datagram, frames: Frames)
    requires ValidFrame(g) && CarriesFrame(g, d.wire)
    requires g.timestamp in frames ==> frames[g.timestamp].packetsOfFrame == |g.packets|
    ensures var after := Accept(frames, d.offset, d.wire);
            && g.timestamp in after && after == frames[g.timestamp := after[g.timestamp]]
            && after[g.timestamp].received == (Held(frames, g.timestamp) + 1) % 256
            && after[g.timestamp].packetsOfFrame == |g.packets|
  {
  }

  lemma OneMore(count: nat, delivered: nat, held: nat)
    requires count % 256 == (delivered + held) % 256
    ensures (count + 1) % 256 == (delivered + (held + 1) % 256) % 256
  {
  }

  lemma AcceptBalancesFrame(g: SentFrame, d: Datagram, count: nat, frames: Frames, delivered: seq<Delivery>)
    requires ValidFrame(g) && CarriesFrame(g, d.wire) && Balanced(g, count, frames, delivered)
    ensures Balanced(g, count + 1, Accept(frames, d.offset, d.wire), delivered)
  {
    hide Accept, ParseWire, ValidFrame, Times;
    AcceptCounts(g, d, frames);
    OneMore(count, |g.packets| * Times(delivered, g.timestamp), Held(frames, g.timestamp));
  }

  lemma AcceptBalances(sent: seq<SentFrame>, arrivals: seq<Arrival>, frames: Frames, delivered: seq<Delivery>)
    requires ValidSent(sent) && Arriving(sent, arrivals) && arrivals != []
    requires AllBalanced(sent, arrivals[..|arrivals| - 1], frames, delivered)
    ensures var d := DatagramOf(sent, arrivals[|arrivals| - 1]);
            AllBalanced(sent, arrivals, Accept(frames, d.offset, d.wire), delivered)
  {
    hide Accept, ParseWire, Times;
    var before, a := arrivals[..|arrivals| - 1], arrivals[|arrivals| - 1];
    var g, d := sent[a.frame], DatagramOf(sent, a);
    assert ValidFrame(g) && CarriesFrame(g, d.wire);
    var after := Accept(frames, d.offset, d.wire);
    assert Balanced(g, Count(before, a.frame), frames, delivered);
    AcceptCounts(g, d, frames);
    AcceptBalancesFrame(g, d, Count(before, a.frame), frames, delivered);
    hide Balanced;
    forall f | 0 <= f < |sent| && f != a.frame
      ensures Balanced(sent[f], Count(arrivals, f), after, delivered)
    {
      assert sent[f].timestamp != g.timestamp;
      OtherBalanced(sent[f], Count(before, f), frames, after, delivered);
    }
  }

  lemma OtherBalanced(f: SentFrame, count: nat, frames: Frames, after: Frames, delivered: seq<Delivery>)
    requires Balanced(f, count, frames, delivered)
    requires f.timestamp in after <==> f.timestamp in frames
    requires f.timestamp in frames ==> after[f.timestamp] == frames[f.timestamp]
    ensures Balanced(f, count, after, delivered)
  {
  }

  lemma DeliveryBalances(sent: seq<SentFrame>, arrivals: seq<Arrival>, frames: Frames, delivered: seq<Delivery>, t: nat)
    requires AllBalanced(sent, arrivals, frames, delivered) && t in frames && IsFull(frames[t])
    ensures AllBalanced(sent, arrivals, frames - {t}, delivered + [DeliveryOf(t, frames[t])])
  {
    var after := delivered + [DeliveryOf(t, frames[t])];
    forall f | 0 <= f < |sent|
      ensures Balanced(sent[f], Count(arrivals, f), frames - {t}, after)
    {
      assert Balanced(sent[f], Count(arrivals, f), frames, delivered);
      TimesSnoc(delivered, DeliveryOf(t, frames[t]), sent[f].timestamp);
      var n, times := |sent[f].packets|, Times(delivered, sent[f].timestamp);
      assert n * (times + 1) == n * times + n;
    }
  }

  lemma {:induction false} DrainBalances(sent: seq<SentFrame>, arrivals: seq<Arrival>, frames: Frames,
      delivered: seq<Delivery>)
    requires AllBalanced(sent, arrivals, frames, delivered)
    ensures AllBalanced(sent, arrivals, Remaining(frames), delivered + Delivered(frames))
    decreases |frames|
  {
    hide AllBalanced, DeliveryOf;
    assert delivered + [] == delivered;
    if frames == map[] {
    } else {
      var t := LeastKey(frames);
      DeliveryStep(frames, t);
      if IsFull(frames[t]) {
        var d := DeliveryOf(t, frames[t]);
        RemoveKey(frames, t);
        DeliveryBalances(sent, arrivals, frames, delivered, t);
        DrainBalances(sent, arrivals, frames - {t}, delivered + [d]);
        Associative(delivered, [d], Delivered(frames - {t}));
      }
    }
  }

  /** Conservation: over any run, repeats included, no arrival is lost count of but for the width of the counter. */
  lemma {:induction false} RunBalances(sent: seq<SentFrame>, arrivals: seq<Arrival>)
    requires ValidSent(sent) && Arriving(sent, arrivals)
    ensures AllBalanced(sent, arrivals, RunFrames(sent, arrivals), RunDelivered(sent, arrivals))
    decreases |arrivals|
  {
    if arrivals == [] {
    } else {
      var before := arrivals[..|arrivals| - 1];
      RunBalances(sent, before);
      AcceptBalances(sent, arrivals, RunFrames(sent, before), RunDelivered(sent, before));
      DrainBalances(sent, arrivals, LastAccepted(sent, arrivals), RunDelivered(sent, before));
    }
  }

  // ---------- Exactly once ----------

  /** Every frame sent is delivered once and whole, and nothing is left. */
  ghost predicate ExactlyOnce(sent: seq<SentFrame>, arrivals: seq<Arrival>)
    requires ValidSent(sent) && Arriving(sent, arrivals)
  {
    var delivered := RunDelivered(sent, arrivals);
    && RunFrames(sent, arrivals) == map[] && DeliveriesRight(sent, delivered)
    && forall f :: 0 <= f < |sent| ==> DeliveredAt(delivered, sent[f].timestamp)
  }

  lemma {:induction false} OnceIsOneTime(delivered: seq<Delivery>, timestamp: nat)
    requires forall i, j :: 0 <= i < j < |delivered| ==> delivered[i].timestamp != delivered[j].timestamp
    ensures Times(delivered, timestamp) == if DeliveredAt(delivered, timestamp) then 1 else 0
    decreases |delivered|
  {
    if delivered == [] {
    } else {
      var n := |delivered| - 1;
      OnceIsOneTime(delivered[..n], timestamp);
      assert delivered == delivered[..n] + [delivered[n]];
      DeliveredAtSnoc(delivered[..n], delivered[n], timestamp);
    }
  }

  /** At least one arrival for each packet that arrived, and more if one of them is repeated. */
  lemma {:induction false} CountsPackets(sent: seq<SentFrame>, arrivals: seq<Arrival>, f: nat)
    requires Arriving(sent, arrivals) && f < |sent|
    ensures |Arrived(sent, arrivals, f)| <= Count(arrivals, f)
    ensures |Arrived(sent, arrivals, f)| == Count(arrivals, f) <==>
            forall i, j :: 0 <= i < j < |arrivals| && arrivals[i] == arrivals[j] ==> arrivals[i].frame != f
    decreases |arrivals|
  {
    if arrivals == [] {
      assert Arrived(sent, arrivals, f) == {};
    } else {
      var n := |arrivals| - 1;
      var before, a := arrivals[..n], arrivals[n];
      assert before + [a] == arrivals;
      CountsPackets(sent, before, f);
      ArrivedStep(sent, before, a, f);
      assert a.frame == f ==> (a.packet in Arrived(sent, before, f) <==> a in before);
      if a in before && a.frame == f {
        var i :| 0 <= i < n && before[i] == a;
        assert arrivals[i] == arrivals[n];
      }
    }
  }

  lemma WholeSet(f: SentFrame, got: set<nat>)
    requires forall k :: k in got <==> 0 <= k < |f.packets|
    ensures |got| == |f.packets|
  {
    IndexSetSize(got, |f.packets|);
  }

  /**
   All packets having arrived, some perhaps repeatedly: without repeats every frame is delivered once and whole; if
   every frame is, then the repeats of each are a multiple of 256; so that, with fewer than 256 of them a frame, any
   repeat at all means that some frame is lost, cut short, doubled or held back.
   */
  lemma RepeatsExactly(sent: seq<SentFrame>, arrivals: seq<Arrival>)
    requires ValidSent(sent) && Arriving(sent, arrivals)
    requires forall a :: InRange(sent, a) ==> a in arrivals
    ensures forall f :: 0 <= f < |sent| ==> |sent[f].packets| <= Count(arrivals, f)
    ensures Schedule(sent, arrivals) ==> ExactlyOnce(sent, arrivals)
    ensures ExactlyOnce(sent, arrivals) ==>
            forall f :: 0 <= f < |sent| ==> (Count(arrivals, f) - |sent[f].packets|) % 256 == 0
    ensures (forall f :: 0 <= f < |sent| ==> Count(arrivals, f) < |sent[f].packets| + 256) ==>
            (ExactlyOnce(sent, arrivals) <==> Schedule(sent, arrivals))
  {
    hide ExactlyOnce, Arrived, Count, ValidSent;
    forall f | 0 <= f < |sent|
      ensures |Arrived(sent, arrivals, f)| == |sent[f].packets| <= Count(arrivals, f)
      ensures ExactlyOnce(sent, arrivals) ==> (Count(arrivals, f) - |sent[f].packets|) % 256 == 0
    {
      AllHere(sent, arrivals, f);
      if ExactlyOnce(sent, arrivals) { OnceIsMultiple(sent, arrivals, f); }
    }
    if Schedule(sent, arrivals) { ScheduleIsOnce(sent, arrivals); }
    if ExactlyOnce(sent, arrivals) && forall f :: 0 <= f < |sent| ==> Count(arrivals, f) < |sent[f].packets| + 256 {
      NoRepeats(sent, arrivals);
    }
  }

  lemma AllHere(sent: seq<SentFrame>, arrivals: seq<Arrival>, f: nat)
    requires Arriving(sent, arrivals) && f < |sent|
    requires forall a :: InRange(sent, a) ==> a in arrivals
    ensures |Arrived(sent, arrivals, f)| == |sent[f].packets| <= Count(arrivals, f)
  {
    forall k | 0 <= k < |sent[f].packets|
      ensures k in Arrived(sent, arrivals, f)
    {
      assert InRange(sent, Arrival(f, k));
    }
    WholeSet(sent[f], Arrived(sent, arrivals, f));
    CountsPackets(sent, arrivals, f);
  }

  lemma OnceIsMultiple(sent: seq<SentFrame>, arrivals: seq<Arrival>, f: nat)
    requires ValidSent(sent) && Arriving(sent, arrivals) && f < |sent| && ExactlyOnce(sent, arrivals)
    ensures (Count(arrivals, f) - |sent[f].packets|) % 256 == 0
  {
    hide AllBalanced, RunFrames, RunDelivered;
    RunBalances(sent, arrivals);
    OnceBalances(sent, arrivals, RunDelivered(sent, arrivals), f);
  }

  lemma OnceBalances(sent: seq<SentFrame>, arrivals: seq<Arrival>, delivered: seq<Delivery>, f: nat)
    requires ValidSent(sent) && f < |sent| && AllBalanced(sent, arrivals, map[], delivered)
    requires DeliveriesRight(sent, delivered) && DeliveredAt(delivered, sent[f].timestamp)
    ensures (Count(arrivals, f) - |sent[f].packets|) % 256 == 0
  {
    hide Times, Count, ValidFrame;
    OnceIsOneTime(delivered, sent[f].timestamp);
    assert Balanced(sent[f], Count(arrivals, f), map[], delivered);
  }

  lemma ScheduleIsOnce(sent: seq<SentFrame>, arrivals: seq<Arrival>)
    requires ValidSent(sent) && CompleteSchedule(sent, arrivals)
    ensures ExactlyOnce(sent, arrivals)
  {
    RunKeepsInv(sent, arrivals);
    NothingLeft(sent, arrivals);
    forall f | 0 <= f < |sent|
      ensures DeliveredAt(RunDelivered(sent, arrivals), sent[f].timestamp)
    {
      FrameIsThrough(sent, arrivals, map[], RunDelivered(sent, arrivals), f);
    }
  }

  lemma NoRepeats(sent: seq<SentFrame>, arrivals: seq<Arrival>)
    requires Arriving(sent, arrivals)
    requires forall f :: 0 <= f < |sent| ==>
               |Arrived(sent, arrivals, f)| == |sent[f].packets| <= Count(arrivals, f) < |sent[f].packets| + 256
    requires forall f :: 0 <= f < |sent| ==> (Count(arrivals, f) - |sent[f].packets|) % 256 == 0
    ensures Schedule(sent, arrivals)
  {
    forall i, j | 0 <= i < j < |arrivals|
      ensures arrivals[i] != arrivals[j]
    {
      CountsPackets(sent, arrivals, arrivals[i].frame);
    }
  }
}
