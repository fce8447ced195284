/** When a frame is delivered, and in which order frames are: told by the arrivals alone. */
module DeliveryOrder {
  import opened RecvFrames
  import opened RecvStreams
  import opened StreamRun

  ghost predicate Seen(sent: seq<SentFrame>, arrivals: seq<Arrival>, f: nat)
    requires f < |sent|
  {
    Arrived(sent, arrivals, f) != {}
  }

  ghost predicate Whole(sent: seq<SentFrame>, arrivals: seq<Arrival>, f: nat)
    requires f < |sent|
  {
    forall k :: 0 <= k < |sent[f].packets| ==> k in Arrived(sent, arrivals, f)
  }

  /** Frame f is whole, and so is every older frame of which any packet has arrived. */
  ghost predicate Ready(sent: seq<SentFrame>, arrivals: seq<Arrival>, f: nat)
    requires f < |sent|
  {
    && Whole(sent, arrivals, f)
    && forall h :: 0 <= h < |sent| && sent[h].timestamp <= sent[f].timestamp && Seen(sent, arrivals, h)
         ==> Whole(sent, arrivals, h)
  }

  // ---------- One drain ----------

  /** Only full frames are delivered, each after all the older ones, and these are full too. */
  lemma {:induction false} DrainDelivers(frames: Frames, t: nat)
    requires DeliveredAt(Delivered(frames), t)
    ensures t in frames && t !in Remaining(frames)
    ensures forall s :: s in frames && s <= t ==> IsFull(frames[s])
    decreases |frames|
  {
    if frames == map[] {
    } else {
      var l := LeastKey(frames);
      DeliveryStep(frames, l);
      RemoveKey(frames, l);
      RemainingShrinks(frames - {l});
      assert IsFull(frames[l]);
      if t == l {
        assert forall s :: s in frames && s <= t ==> s == l;
      } else {
        var i :| 0 <= i < |Delivered(frames)| && Delivered(frames)[i].timestamp == t;
        assert Delivered(frames - {l})[i - 1].timestamp == t;
        DrainDelivers(frames - {l}, t);
        forall s | s in frames && s <= t
          ensures IsFull(frames[s])
        {
          if s != l { assert s in frames - {l}; }
        }
      }
    }
  }

  lemma {:induction false} RemainingShrinks(frames: Frames)
    ensures Remaining(frames).Keys <= frames.Keys
    decreases |frames|
  {
    if frames == map[] {
    } else {
      var t := LeastKey(frames);
      DeliveryStep(frames, t);
      if IsFull(frames[t]) {
        RemoveKey(frames, t);
        RemainingShrinks(frames - {t});
      }
    }
  }

  ghost predicate Ascending(delivered: seq<Delivery>) {
    forall i, j :: 0 <= i < j < |delivered| ==> delivered[i].timestamp < delivered[j].timestamp
  }

  /** The frames of one drain come out in the order of their timestamps. */
  lemma {:induction false} DrainAscends(frames: Frames)
    ensures Ascending(Delivered(frames))
    decreases |frames|
  {
    if frames == map[] {
    } else {
      var l := LeastKey(frames);
      DeliveryStep(frames, l);
      if IsFull(frames[l]) {
        RemoveKey(frames, l);
        var rest := Delivered(frames - {l});
        DrainAscends(frames - {l});
        forall j | 0 <= j < |rest|
          ensures l < rest[j].timestamp
        {
          assert DeliveredAt(rest, rest[j].timestamp);
          DrainDelivers(frames - {l}, rest[j].timestamp);
        }
      }
    }
  }

  // ---------- When a frame is delivered ----------

  /** A frame that is held has been heard of, and is full exactly if all of it has arrived. */
  lemma FullExactly(sent: seq<SentFrame>, arrivals: seq<Arrival>, frames: Frames, delivered: seq<Delivery>, h: nat)
    requires ValidSent(sent) && Inv(sent, arrivals, frames, delivered) && h < |sent|
    requires sent[h].timestamp in frames
    ensures Seen(sent, arrivals, h) && (IsFull(frames[sent[h].timestamp]) <==> Whole(sent, arrivals, h))
  {
    assert FrameStands(sent[h], Arrived(sent, arrivals, h), frames, delivered);
    FullFrameDelivers(sent[h], Arrived(sent, arrivals, h), frames[sent[h].timestamp]);
  }

  /** A frame that has been heard of is held, or was delivered. */
  lemma SeenStands(sent: seq<SentFrame>, arrivals: seq<Arrival>, frames: Frames, delivered: seq<Delivery>, h: nat)
    requires ValidSent(sent) && Inv(sent, arrivals, frames, delivered) && h < |sent|
    ensures Whole(sent, arrivals, h) ==> Seen(sent, arrivals, h)
    ensures Seen(sent, arrivals, h) ==>
              sent[h].timestamp in frames || (DeliveredAt(delivered, sent[h].timestamp) && Whole(sent, arrivals, h))
    ensures DeliveredAt(delivered, sent[h].timestamp) ==> Seen(sent, arrivals, h)
  {
    assert FrameStands(sent[h], Arrived(sent, arrivals, h), frames, delivered);
    assert ValidFrame(sent[h]);
    assert Whole(sent, arrivals, h) ==> 0 in Arrived(sent, arrivals, h);
  }

  /** What is left waits for a frame that is not full, so nothing is left of a frame that is ready. */
  lemma LeftIsNotReady(sent: seq<SentFrame>, arrivals: seq<Arrival>, frames: Frames, delivered: seq<Delivery>, f: nat)
    requires ValidSent(sent) && Inv(sent, arrivals, frames, delivered) && f < |sent| && Ready(sent, arrivals, f)
    requires frames != map[] ==> exists t :: IsLeast(frames, t) && !IsFull(frames[t])
    ensures DeliveredAt(delivered, sent[f].timestamp)
  {
    hide ValidSent, FrameStands, Seen, Whole, DeliveredAt, IsFull, DeliveriesRight;
    SeenStands(sent, arrivals, frames, delivered, f);
    if !DeliveredAt(delivered, sent[f].timestamp) {
      var t :| IsLeast(frames, t) && !IsFull(frames[t]);
      var h :| 0 <= h < |sent| && sent[h].timestamp == t;
      FullExactly(sent, arrivals, frames, delivered, h);
      assert false;
    }
  }

  lemma ReadyIsDelivered(sent: seq<SentFrame>, arrivals: seq<Arrival>, f: nat)
    requires ValidSent(sent) && Schedule(sent, arrivals) && f < |sent| && Ready(sent, arrivals, f)
    ensures DeliveredAt(RunDelivered(sent, arrivals), sent[f].timestamp)
  {
    hide Inv, Ready, ValidSent, LastAccepted, RunDelivered, IsLeast;
    RunKeepsInv(sent, arrivals);
    if arrivals != [] { DeliveryStops(LastAccepted(sent, arrivals)); }
    LeftIsNotReady(sent, arrivals, RunFrames(sent, arrivals), RunDelivered(sent, arrivals), f);
  }

  /** The arrival that brings the delivery of a frame has made it ready. */
  lemma DeliveredIsReady(sent: seq<SentFrame>, arrivals: seq<Arrival>, f: nat)
    requires ValidSent(sent) && Schedule(sent, arrivals) && arrivals != [] && f < |sent|
    requires !DeliveredAt(RunDelivered(sent, arrivals[..|arrivals| - 1]), sent[f].timestamp)
    requires DeliveredAt(RunDelivered(sent, arrivals), sent[f].timestamp)
    ensures Ready(sent, arrivals, f)
  {
    hide Inv, FrameStands, FrameHolds, ValidSent, LastAccepted, RunFrames;
    var before, a := arrivals[..|arrivals| - 1], arrivals[|arrivals| - 1];
    var accepted, delivered := LastAccepted(sent, arrivals), RunDelivered(sent, before);
    AcceptedInv(sent, arrivals);
    InLaterPart(delivered, Delivered(accepted), sent[f].timestamp);
    DrainDelivers(accepted, sent[f].timestamp);
    forall h | 0 <= h < |sent| && sent[h].timestamp <= sent[f].timestamp && (h == f || Seen(sent, arrivals, h))
      ensures Whole(sent, arrivals, h)
    {
      SeenStands(sent, arrivals, accepted, delivered, h);
      if sent[h].timestamp in accepted { FullExactly(sent, arrivals, accepted, delivered, h); }
    }
  }

  /** The state between an arrival and the deliveries it brings. */
  lemma AcceptedInv(sent: seq<SentFrame>, arrivals: seq<Arrival>)
    requires ValidSent(sent) && Schedule(sent, arrivals) && arrivals != []
    ensures var before := arrivals[..|arrivals| - 1];
            Inv(sent, arrivals, LastAccepted(sent, arrivals), RunDelivered(sent, before))
  {
    hide Inv;
    var before, a := arrivals[..|arrivals| - 1], arrivals[|arrivals| - 1];
    RunKeepsInv(sent, before);
    assert before + [a] == arrivals && a !in before;
    AcceptKeepsInv(sent, before, a, RunFrames(sent, before), RunDelivered(sent, before));
  }

  lemma InLaterPart(before: seq<Delivery>, added: seq<Delivery>, timestamp: nat)
    requires DeliveredAt(before + added, timestamp)
    ensures DeliveredAt(before, timestamp) || DeliveredAt(added, timestamp)
  {
    var i :| 0 <= i < |before + added| && (before + added)[i].timestamp == timestamp;
    if i >= |before| { assert added[i - |before|].timestamp == timestamp; }
  }

  /** What the last arrival adds to the frames delivered. */
  lemma DeliveredStep(sent: seq<SentFrame>, arrivals: seq<Arrival>, f: nat)
    requires ValidSent(sent) && Schedule(sent, arrivals) && arrivals != [] && f < |sent|
    ensures var before := arrivals[..|arrivals| - 1];
            DeliveredAt(RunDelivered(sent, arrivals), sent[f].timestamp)
            <==> DeliveredAt(RunDelivered(sent, before), sent[f].timestamp) || Ready(sent, arrivals, f)
  {
    hide Ready, ValidSent, DeliveredAt, LastAccepted;
    var before := arrivals[..|arrivals| - 1];
    if DeliveredAt(RunDelivered(sent, before), sent[f].timestamp) {
      LaterStillDelivered(RunDelivered(sent, before), RunDelivered(sent, arrivals), sent[f].timestamp);
    } else if DeliveredAt(RunDelivered(sent, arrivals), sent[f].timestamp) {
      DeliveredIsReady(sent, arrivals, f);
    } else if Ready(sent, arrivals, f) {
      ReadyIsDelivered(sent, arrivals, f);
    }
  }

  /** A frame has been delivered exactly if after some arrival it was ready. */
  lemma {:induction false} DeliveredExactly(sent: seq<SentFrame>, arrivals: seq<Arrival>, f: nat)
    requires ValidSent(sent) && Schedule(sent, arrivals) && f < |sent|
    ensures DeliveredAt(RunDelivered(sent, arrivals), sent[f].timestamp)
            <==> exists n :: 0 <= n <= |arrivals| && Ready(sent, arrivals[..n], f)
    decreases |arrivals|
  {
    hide Ready, DeliveredAt;
    assert arrivals[..|arrivals|] == arrivals;
    if arrivals == [] {
      NothingReady(sent, f);
    } else {
      var before := arrivals[..|arrivals| - 1];
      DeliveredExactly(sent, before, f);
      DeliveredStep(sent, arrivals, f);
      assert forall m :: 0 <= m < |arrivals| ==> before[..m] == arrivals[..m];
    }
  }

  lemma NothingReady(sent: seq<SentFrame>, f: nat)
    requires ValidSent(sent) && f < |sent|
    ensures !Ready(sent, [], f) && !DeliveredAt([], sent[f].timestamp)
  {
    assert ValidFrame(sent[f]) && 0 !in Arrived(sent, [], f);
  }

  lemma LaterStillDelivered(before: seq<Delivery>, after: seq<Delivery>, timestamp: nat)
    requires before <= after && DeliveredAt(before, timestamp)
    ensures DeliveredAt(after, timestamp)
  {
    var i :| 0 <= i < |before| && before[i].timestamp == timestamp;
    assert after[i].timestamp == timestamp;
  }

  // ---------- In which order ----------

  /** After n arrivals f is ready and no packet of the older frame g has arrived. */
  ghost predicate Overtakes(sent: seq<SentFrame>, arrivals: seq<Arrival>, n: nat, f: nat, g: nat)
    requires f < |sent| && g < |sent|
  {
    && n <= |arrivals| && sent[g].timestamp < sent[f].timestamp
    && Ready(sent, arrivals[..n], f) && !Seen(sent, arrivals[..n], g)
  }

  lemma {:induction false} DeliveredGrows(sent: seq<SentFrame>, arrivals: seq<Arrival>, n: nat)
    requires Arriving(sent, arrivals) && n <= |arrivals|
    ensures RunDelivered(sent, arrivals[..n]) <= RunDelivered(sent, arrivals)
    decreases |arrivals|
  {
    if n == |arrivals| {
      assert arrivals[..n] == arrivals;
    } else {
      var before := arrivals[..|arrivals| - 1];
      DeliveredGrows(sent, before, n);
      assert before[..n] == arrivals[..n];
    }
  }

  /** The arrival that brings delivery number i. */
  lemma {:induction false} DrainOf(sent: seq<SentFrame>, arrivals: seq<Arrival>, i: nat) returns (n: nat)
    requires Arriving(sent, arrivals) && i < |RunDelivered(sent, arrivals)|
    ensures 0 < n <= |arrivals|
    ensures |RunDelivered(sent, arrivals[..n - 1])| <= i < |RunDelivered(sent, arrivals[..n])|
    decreases |arrivals|
  {
    hide LastAccepted, RunFrames, InRange;
    var before := arrivals[..|arrivals| - 1];
    if i < |RunDelivered(sent, before)| {
      n := DrainOf(sent, before, i);
      assert before[..n] == arrivals[..n] && before[..n - 1] == arrivals[..n - 1];
    } else {
      n := |arrivals|;
      assert arrivals[..n] == arrivals;
    }
  }

  /** An older frame that comes out later was overtaken. */
  lemma LateIsOvertaken(sent: seq<SentFrame>, arrivals: seq<Arrival>, i: nat, j: nat) returns (n: nat, f: nat, g: nat)
    requires ValidSent(sent) && Schedule(sent, arrivals)
    requires i < j < |RunDelivered(sent, arrivals)|
    requires RunDelivered(sent, arrivals)[j].timestamp <= RunDelivered(sent, arrivals)[i].timestamp
    ensures f < |sent| && g < |sent| && Overtakes(sent, arrivals, n, f, g)
    ensures DeliveredAt(RunDelivered(sent, arrivals), sent[g].timestamp)
  {
    hide Ready, Seen, Inv;
    var delivered := RunDelivered(sent, arrivals);
    RunRight(sent, arrivals);
    n := DrainOf(sent, arrivals, i);
    DeliveredGrows(sent, arrivals, n);
    var upTo, before := RunDelivered(sent, arrivals[..n]), RunDelivered(sent, arrivals[..n - 1]);
    assert arrivals[..n][..n - 1] == arrivals[..n - 1];
    DrainAscends(LastAccepted(sent, arrivals[..n]));
    assert upTo[i] == delivered[i];
    assert j >= |upTo|;
    f :| 0 <= f < |sent| && delivered[i].timestamp == sent[f].timestamp;
    g :| 0 <= g < |sent| && delivered[j].timestamp == sent[g].timestamp;
    NotBefore(delivered, upTo, j);
    NotBefore(delivered, before, i);
    assert upTo[i].timestamp == sent[f].timestamp;
    DeliveredIsReady(sent, arrivals[..n], f);
    if Seen(sent, arrivals[..n], g) {
      OlderIsReady(sent, arrivals[..n], f, g);
      ReadyIsDelivered(sent, arrivals[..n], g);
      assert false;
    }
  }

  lemma OlderIsReady(sent: seq<SentFrame>, arrivals: seq<Arrival>, f: nat, g: nat)
    requires f < |sent| && g < |sent| && Ready(sent, arrivals, f)
    requires sent[g].timestamp <= sent[f].timestamp && Seen(sent, arrivals, g)
    ensures Ready(sent, arrivals, g)
  {
  }

  lemma RunRight(sent: seq<SentFrame>, arrivals: seq<Arrival>)
    requires ValidSent(sent) && Schedule(sent, arrivals)
    ensures var delivered := RunDelivered(sent, arrivals);
            && (forall i :: 0 <= i < |delivered| ==>
                  exists f :: 0 <= f < |sent| && delivered[i].timestamp == sent[f].timestamp)
            && (forall i, j :: 0 <= i < j < |delivered| ==> delivered[i].timestamp != delivered[j].timestamp)
  {
    RunKeepsInv(sent, arrivals);
  }

  lemma NotBefore(delivered: seq<Delivery>, part: seq<Delivery>, j: nat)
    requires part <= delivered && |part| <= j < |delivered|
    requires forall i, j :: 0 <= i < j < |delivered| ==> delivered[i].timestamp != delivered[j].timestamp
    ensures !DeliveredAt(part, delivered[j].timestamp)
  {
  }

  /** A frame that was overtaken comes out after a newer one. */
  lemma OvertakenIsLate(sent: seq<SentFrame>, arrivals: seq<Arrival>, n: nat, f: nat, g: nat)
    requires ValidSent(sent) && Schedule(sent, arrivals)
    requires f < |sent| && g < |sent| && Overtakes(sent, arrivals, n, f, g)
    requires DeliveredAt(RunDelivered(sent, arrivals), sent[g].timestamp)
    ensures !Ascending(RunDelivered(sent, arrivals))
  {
    hide Ready, Seen, Inv, LastAccepted, ValidSent;
    var delivered, upTo := RunDelivered(sent, arrivals), RunDelivered(sent, arrivals[..n]);
    ReadyIsDelivered(sent, arrivals[..n], f);
    DeliveredGrows(sent, arrivals, n);
    RunKeepsInv(sent, arrivals[..n]);
    SeenStands(sent, arrivals[..n], RunFrames(sent, arrivals[..n]), upTo, g);
    var i :| 0 <= i < |upTo| && upTo[i].timestamp == sent[f].timestamp;
    var j :| 0 <= j < |delivered| && delivered[j].timestamp == sent[g].timestamp;
    assert j >= |upTo|;
    assert delivered[i] == upTo[i];
  }

  /** Deliveries come in the order of timestamps exactly if no frame that is delivered was overtaken. */
  lemma AscendsExactly(sent: seq<SentFrame>, arrivals: seq<Arrival>)
    requires ValidSent(sent) && Schedule(sent, arrivals)
    ensures Ascending(RunDelivered(sent, arrivals)) <==>
            forall n, f, g :: 0 <= f < |sent| && 0 <= g < |sent| && 0 <= n && Overtakes(sent, arrivals, n, f, g)
              ==> !DeliveredAt(RunDelivered(sent, arrivals), sent[g].timestamp)
  {
    hide Ready, Seen, Overtakes;
    var delivered := RunDelivered(sent, arrivals);
    if Ascending(delivered) {
      forall n, f, g | 0 <= f < |sent| && 0 <= g < |sent| && 0 <= n && Overtakes(sent, arrivals, n, f, g)
        ensures !DeliveredAt(delivered, sent[g].timestamp)
      {
        if DeliveredAt(delivered, sent[g].timestamp) { OvertakenIsLate(sent, arrivals, n, f, g); }
      }
    } else {
      var i, j :| 0 <= i < j < |delivered| && delivered[i].timestamp >= delivered[j].timestamp;
      var n, f, g := LateIsOvertaken(sent, arrivals, i, j);
    }
  }

  /** Once every packet has arrived: in order exactly if no frame overtook an older one. */
  lemma CompleteAscends(sent: seq<SentFrame>, arrivals: seq<Arrival>)
    requires ValidSent(sent) && CompleteSchedule(sent, arrivals)
    ensures Ascending(RunDelivered(sent, arrivals)) <==>
            !exists n, f, g :: 0 <= f < |sent| && 0 <= g < |sent| && 0 <= n && Overtakes(sent, arrivals, n, f, g)
  {
    hide Overtakes, Inv, RunDelivered, ValidSent;
    AscendsExactly(sent, arrivals);
    RunKeepsInv(sent, arrivals);
    NothingLeft(sent, arrivals);
    forall g | 0 <= g < |sent|
      ensures DeliveredAt(RunDelivered(sent, arrivals), sent[g].timestamp)
    {
      FrameIsThrough(sent, arrivals, map[], RunDelivered(sent, arrivals), g);
    }
  }
}
