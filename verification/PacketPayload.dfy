/** The payload bytes of planned packets, and what they guarantee about a whole frame. */
module PacketPayload {
  import opened H264
  import opened Splitter
  import opened PacketPlan

  /** FU header bits: start and end of a fragmented NAL unit. */
  function FuHeader(header: byte, first: bool, last: bool): byte {
    (if first then 128 else 0) + (if last then 64 else 0) + TypeBits(header)
  }

  /** The units of an aggregation packet: each NAL unit behind its 16-bit length. */
  function StapABody(nalus: seq<Nalu>): Bytes {
    if nalus == [] then []
    else WriteUint16(|nalus[0]|) + nalus[0] + StapABody(nalus[1..])
  }

  ghost predicate WellFormed(w: WirePacket) {
    match w
    case Single(nalu) => nalu != []
    case Aggregate(nalus) => nalus != [] && NonEmpty(nalus)
    case FuFragment(nalu, lo, hi, first, last) =>
      && 1 <= lo < hi <= |nalu|
      && (first <==> lo == 1) && (last <==> hi == |nalu|)
      && !(first && last)
  }

  /** A group of one NAL unit is sent as it is, without an aggregation header. */
  function Payload(w: WirePacket): Bytes
    requires WellFormed(w)
  {
    match w
    case Single(nalu) => nalu
    case Aggregate(nalus) =>
      if |nalus| == 1 then nalus[0]
      else [FAndNri(nalus[0][0]) + STAP_A] + StapABody(nalus)
    case FuFragment(nalu, lo, hi, first, last) =>
      [FAndNri(nalu[0]) + FU_A, FuHeader(nalu[0], first, last)] + nalu[lo..hi]
  }

  /** The NAL units that are completely sent once this packet is. */
  function Completed(w: WirePacket): seq<Nalu> {
    match w
    case Single(nalu) => [nalu]
    case Aggregate(nalus) => nalus
    case FuFragment(nalu, _, _, _, last) => if last then [nalu] else []
  }

  function CompletedAll(packets: seq<WirePacket>): seq<Nalu> {
    if packets == [] then [] else Completed(packets[0]) + CompletedAll(packets[1..])
  }

  lemma {:induction false} CompletedAppend(xs: seq<WirePacket>, ys: seq<WirePacket>)
    ensures CompletedAll(xs + ys) == CompletedAll(xs) + CompletedAll(ys)
  {
    if xs == [] {
      assert xs + ys == ys;
    } else {
      CompletedAppend(xs[1..], ys);
      assert (xs + ys)[1..] == xs[1..] + ys;
      Associative(Completed(xs[0]), CompletedAll(xs[1..]), CompletedAll(ys));
    }
  }

  ghost predicate AllWellFormed(packets: seq<WirePacket>) {
    forall k :: 0 <= k < |packets| ==> WellFormed(packets[k])
  }

  // ---------- Fragments ----------

  /** The dispatch test and the splitter agree on when a NAL unit goes into one packet, so it never does here. */
  lemma FragmentsAreMany(limits: PayloadSizeLimits, nalus: seq<Nalu>, i: nat)
    requires ValidLimits(limits) && i < |nalus| && TooLong(limits, nalus, i) && FuaFeasible(limits, nalus, i)
    ensures var sizes := FuaSizes(limits, nalus, i);
            && |sizes| >= 2 && Sum(sizes) == |nalus[i]| - NAL_HEADER_SIZE
            && forall k :: 0 <= k < |sizes| ==> 0 < sizes[k]
  {
    FeasibleIsFragmentable(limits, nalus, i);
  }

  /** The fragments tile the NAL unit after its header, with S on the first, E on the last, and never both. */
  ghost predicate Tiles(packets: seq<WirePacket>, nalu: Nalu, lo: int, first: bool)
    decreases |packets|
  {
    && packets != [] && packets[0].FuFragment? && packets[0].nalu == nalu
    && packets[0].lo == lo && lo < packets[0].hi <= |nalu|
    && packets[0].first == first && packets[0].last == (|packets| == 1)
    && if |packets| == 1 then packets[0].hi == |nalu| else Tiles(packets[1..], nalu, packets[0].hi, false)
  }

  lemma {:induction false} FuaPacketsTile(nalu: Nalu, sizes: seq<int>, k: nat, offset: int)
    requires k < |sizes| && forall i :: 0 <= i < |sizes| ==> 0 < sizes[i]
    requires offset + Sum(sizes[k..]) == |nalu|
    ensures Tiles(FuaPackets(nalu, sizes, k, offset), nalu, offset, k == 0)
    decreases |sizes| - k
  {
    var packets := FuaPackets(nalu, sizes, k, offset);
    assert sizes[k..][1..] == sizes[k + 1..];
    if k + 1 < |sizes| {
      SumPositive(sizes[k + 1..]);
      FuaPacketsTile(nalu, sizes, k + 1, offset + sizes[k]);
      assert packets[1..] == FuaPackets(nalu, sizes, k + 1, offset + sizes[k]);
    } else {
      assert sizes[k + 1..] == [];
    }
  }

  lemma {:induction false} SumPositive(s: seq<int>)
    requires s != [] && forall i :: 0 <= i < |s| ==> 0 < s[i]
    ensures Sum(s) > 0
  {
    if |s| <= 1 {
    } else {
      SumPositive(s[1..]);
    }
  }

  lemma {:induction false} TilesWellFormed(packets: seq<WirePacket>, nalu: Nalu, lo: int, first: bool)
    requires Tiles(packets, nalu, lo, first) && 1 <= lo && (first <==> lo == 1) && (first ==> |packets| >= 2)
    ensures AllWellFormed(packets)
    ensures CompletedAll(packets) == [nalu]
    decreases |packets|
  {
    if |packets| == 1 {
      assert packets[1..] == [];
    } else {
      TilesWellFormed(packets[1..], nalu, packets[0].hi, false);
      assert packets[0].hi < |nalu| by { assert packets[1..][0].lo < packets[1..][0].hi <= |nalu|; }
      forall k | 0 <= k < |packets|
        ensures WellFormed(packets[k])
      {
        if k > 0 { assert packets[k] == packets[1..][k - 1]; }
      }
    }
  }

  lemma FuaPacketsOfTile(limits: PayloadSizeLimits, nalus: seq<Nalu>, i: nat)
    requires ValidLimits(limits) && i < |nalus| && TooLong(limits, nalus, i) && FuaFeasible(limits, nalus, i)
    ensures var packets := FuaPacketsOf(limits, nalus, i);
            && |packets| >= 2 && Tiles(packets, nalus[i], 1, true)
            && AllWellFormed(packets) && CompletedAll(packets) == [nalus[i]]
  {
    FragmentsAreMany(limits, nalus, i);
    var sizes := FuaSizes(limits, nalus, i);
    assert sizes[0..] == sizes;
    FuaPacketsTile(nalus[i], sizes, 0, NAL_HEADER_SIZE);
    TilesWellFormed(FuaPacketsOf(limits, nalus, i), nalus[i], 1, true);
  }

  /** The two header bytes of a fragment: F and NRI with type 28; S, E, a reserved bit of 0, and the type. */
  lemma FragmentHeader(w: WirePacket)
    requires WellFormed(w) && w.FuFragment?
    ensures var data := Payload(w);
            && |data| == 2 + w.hi - w.lo
            && data[0] / 32 == w.nalu[0] / 32 && data[0] % 32 == 28
            && (data[1] / 128 % 2 == 1 <==> w.first) && (data[1] / 64 % 2 == 1 <==> w.last)
            && data[1] / 32 % 2 == 0 && data[1] % 32 == w.nalu[0] % 32
  {
  }

  /** The header byte of an aggregation packet: F and NRI of its first NAL unit with type 24. */
  lemma AggregateHeader(w: WirePacket)
    requires WellFormed(w) && w.Aggregate? && |w.nalus| >= 2
    ensures var data := Payload(w);
            |data| >= 1 && data[0] / 32 == w.nalus[0][0] / 32 && data[0] % 32 == 24
  {
  }

  lemma {:induction false} TilesMarked(packets: seq<WirePacket>, nalu: Nalu, lo: int, first: bool)
    requires Tiles(packets, nalu, lo, first)
    ensures forall k :: 0 <= k < |packets| ==>
              packets[k].FuFragment? && packets[k].nalu == nalu
              && (packets[k].first <==> first && k == 0) && (packets[k].last <==> k == |packets| - 1)
    decreases |packets|
  {
    if |packets| == 1 {
    } else {
      TilesMarked(packets[1..], nalu, packets[0].hi, false);
      assert forall k :: 1 <= k < |packets| ==> packets[k] == packets[1..][k - 1];
    }
  }

  /** On the wire: of the payloads of one NAL unit only the first has S set, only the last E, none the reserved bit. */
  lemma StartAndEndBits(limits: PayloadSizeLimits, nalus: seq<Nalu>, i: nat)
    requires ValidLimits(limits) && i < |nalus| && TooLong(limits, nalus, i) && FuaFeasible(limits, nalus, i)
    ensures var packets := FuaPacketsOf(limits, nalus, i);
            AllWellFormed(packets)
            && forall k :: 0 <= k < |packets| ==>
                 var data := Payload(packets[k]);
                 && |data| >= 3 && data[0] % 32 == 28 && data[0] / 32 == nalus[i][0] / 32
                 && (data[1] / 128 % 2 == 1 <==> k == 0) && (data[1] / 64 % 2 == 1 <==> k == |packets| - 1)
                 && data[1] / 32 % 2 == 0 && data[1] % 32 == nalus[i][0] % 32
  {
    hide FuaPacketsOf, FuaFeasible, TooLong, Tiles;
    FuaPacketsOfTile(limits, nalus, i);
    var packets := FuaPacketsOf(limits, nalus, i);
    TilesMarked(packets, nalus[i], 1, true);
    forall k | 0 <= k < |packets|
      ensures var data := Payload(packets[k]);
              && |data| >= 3 && data[0] % 32 == 28 && data[0] / 32 == nalus[i][0] / 32
              && (data[1] / 128 % 2 == 1 <==> k == 0) && (data[1] / 64 % 2 == 1 <==> k == |packets| - 1)
              && data[1] / 32 % 2 == 0 && data[1] % 32 == nalus[i][0] % 32
    {
      FragmentHeader(packets[k]);
    }
  }

  // ---------- Whole frames ----------

  /** The step of PlanFrom at NAL unit i: the packets queued there and the NAL unit to go on with. */
  ghost predicate PlanStep(limits: PayloadSizeLimits, mode: Mode, nalus: seq<Nalu>, i: nat,
      packets: seq<WirePacket>, next: nat)
    requires ValidLimits(limits) && NonEmpty(nalus) && i < |nalus|
  {
    && i < next <= |nalus|
    && AllWellFormed(packets) && packets != []
    && CompletedAll(packets) == nalus[i..next]
    && PlanFrom(limits, mode, nalus, i) == Prepend(packets, PlanFrom(limits, mode, nalus, next))
  }

  /** Either generation stops at NAL unit i, or it makes a step that completes some NAL units. */
  lemma PlanSteps(limits: PayloadSizeLimits, mode: Mode, nalus: seq<Nalu>, i: nat)
    returns (packets: seq<WirePacket>, next: nat)
    requires ValidLimits(limits) && NonEmpty(nalus) && i < |nalus|
    ensures var plan := PlanFrom(limits, mode, nalus, i);
            || (plan.outcome != Generated && plan.packets == [])
            || PlanStep(limits, mode, nalus, i, packets, next)
  {
    packets, next := [], i;
    if mode == SingleNalUnit {
      if !TooLong(limits, nalus, i) {
        CompletedOne(Single(nalus[i]));
        return [Single(nalus[i])], i + 1;
      }
    } else if TooLong(limits, nalus, i) {
      if FuaFeasible(limits, nalus, i) {
        FuaPacketsOfTile(limits, nalus, i);
        return FuaPacketsOf(limits, nalus, i), i + 1;
      }
    } else {
      var end := StapAEnd(limits, nalus, i);
      if i < end {
        CompletedOne(Aggregate(nalus[i..end]));
        return [Aggregate(nalus[i..end])], end;
      }
    }
  }

  /** Nothing is lost, duplicated or reordered: the packets complete exactly the NAL units, in order. */
  lemma {:induction false} PlanCompletes(limits: PayloadSizeLimits, mode: Mode, nalus: seq<Nalu>, i: nat)
    requires ValidLimits(limits) && NonEmpty(nalus) && i <= |nalus|
    ensures var plan := PlanFrom(limits, mode, nalus, i);
            && AllWellFormed(plan.packets)
            && (plan.outcome == Generated ==> CompletedAll(plan.packets) == nalus[i..])
    decreases |nalus| - i
  {
    if i == |nalus| {
    } else {
      var packets, next := PlanSteps(limits, mode, nalus, i);
      if PlanStep(limits, mode, nalus, i, packets, next) {
        PlanCompletes(limits, mode, nalus, next);
        PrependCompletes(packets, PlanFrom(limits, mode, nalus, next), nalus, i, next);
      }
    }
  }

  lemma CompletedOne(w: WirePacket)
    ensures CompletedAll([w]) == Completed(w)
  {
    assert [w][1..] == [];
  }

  lemma PrependCompletes(packets: seq<WirePacket>, plan: Plan, nalus: seq<Nalu>, i: nat, next: nat)
    requires i <= next <= |nalus|
    requires AllWellFormed(packets) && AllWellFormed(plan.packets)
    requires CompletedAll(packets) == nalus[i..next]
    ensures AllWellFormed(packets + plan.packets)
    ensures CompletedAll(plan.packets) == nalus[next..] ==> CompletedAll(packets + plan.packets) == nalus[i..]
  {
    CompletedAppend(packets, plan.packets);
    assert nalus[i..] == nalus[i..next] + nalus[next..];
  }

  // ---------- Sizes ----------

  lemma {:induction false} StapABodySize(nalus: seq<Nalu>, i: nat, end: nat)
    requires i < end <= |nalus|
    ensures 1 + |StapABody(nalus[i..end])| == GroupSize(nalus, i, end)
    decreases end - i
  {
    var group := nalus[i..end];
    if end == i + 1 {
      assert group[1..] == [];
      assert GroupSize(nalus, i, i) == 0;
    } else {
      StapABodySize(nalus, i, end - 1);
      StapABodySnoc(nalus[i..end - 1], nalus[end - 1]);
      assert group == nalus[i..end - 1] + [nalus[end - 1]];
    }
  }

  lemma {:induction false} StapABodySnoc(nalus: seq<Nalu>, x: Nalu)
    ensures StapABody(nalus + [x]) == StapABody(nalus) + (WriteUint16(|x|) + x)
  {
    hide WriteUint16;
    if nalus == [] {
      assert [x][1..] == [] && [] + [x] == [x];
    } else {
      StapABodySnoc(nalus[1..], x);
      assert (nalus + [x])[1..] == nalus[1..] + [x];
      Associative(WriteUint16(|nalus[0]|) + nalus[0], StapABody(nalus[1..]), WriteUint16(|x|) + x);
    }
  }

  /** Packets for NAL units i..next of a frame, each within its limits. */
  ghost predicate AllFit(limits: PayloadSizeLimits, nalus: seq<Nalu>, packets: seq<WirePacket>, i: nat, next: nat)
    requires AllWellFormed(packets)
  {
    forall k :: 0 <= k < |packets| ==>
      FitsAt(limits, |nalus|, |Payload(packets[k])|, i == 0 && k == 0, next == |nalus| && k == |packets| - 1)
  }

  lemma SingleFits(limits: PayloadSizeLimits, nalus: seq<Nalu>, i: nat)
    requires ValidLimits(limits) && NonEmpty(nalus) && i < |nalus| && !TooLong(limits, nalus, i)
    ensures AllFit(limits, nalus, [Single(nalus[i])], i, i + 1)
  {
  }

  lemma AggregateFits(limits: PayloadSizeLimits, nalus: seq<Nalu>, i: nat)
    requires ValidLimits(limits) && NonEmpty(nalus) && i < |nalus| && i < StapAEnd(limits, nalus, i)
    ensures AllFit(limits, nalus, [Aggregate(nalus[i..StapAEnd(limits, nalus, i)])], i, StapAEnd(limits, nalus, i))
  {
    var end := StapAEnd(limits, nalus, i);
    AggregationIsMaximal(limits, nalus, i);
    assert GroupFits(limits, nalus, i, end);
    StapABodySize(nalus, i, end);
    GroupSizeGrows(nalus, i, i + 1, end);
    assert GroupSize(nalus, i, i) == 0;
  }

  lemma {:induction false} FuaPayloadSize(nalu: Nalu, sizes: seq<int>, k: nat, offset: int, m: nat)
    requires k <= m < |sizes|
    ensures var w := FuaPackets(nalu, sizes, k, offset)[m - k];
            w.FuFragment? && w.hi - w.lo == sizes[m]
    decreases m - k
  {
    if k == m {
    } else {
      FuaPayloadSize(nalu, sizes, k + 1, offset + sizes[k], m);
      var all, rest := FuaPackets(nalu, sizes, k, offset), FuaPackets(nalu, sizes, k + 1, offset + sizes[k]);
      assert all == [all[0]] + rest;
      hide FuaPackets;
      assert all[m - k] == rest[m - k - 1];
    }
  }

  lemma FragmentSize(w: WirePacket)
    requires WellFormed(w) && w.FuFragment?
    ensures |Payload(w)| == FU_A_HEADER_SIZE + w.hi - w.lo
  {
  }

  lemma FragmentsFit(limits: PayloadSizeLimits, nalus: seq<Nalu>, i: nat)
    requires ValidLimits(limits) && i < |nalus| && TooLong(limits, nalus, i) && FuaFeasible(limits, nalus, i)
    ensures AllWellFormed(FuaPacketsOf(limits, nalus, i))
    ensures AllFit(limits, nalus, FuaPacketsOf(limits, nalus, i), i, i + 1)
  {
    hide FuaSizes, FuaFeasible, TooLong, Tiles, FitsAt, FuaPackets, Payload, WellFormed;
    FuaPacketsOfTile(limits, nalus, i);
    FeasibleIsFragmentable(limits, nalus, i);
    var packets := FuaPacketsOf(limits, nalus, i);
    forall k | 0 <= k < |packets|
      ensures FitsAt(limits, |nalus|, |Payload(packets[k])|, i == 0 && k == 0, i + 1 == |nalus| && k == |packets| - 1)
    {
      SizeOfFragment(limits, nalus, i, k);
    }
  }

  lemma SizeOfFragment(limits: PayloadSizeLimits, nalus: seq<Nalu>, i: nat, k: nat)
    requires ValidLimits(limits) && i < |nalus| && TooLong(limits, nalus, i) && FuaFeasible(limits, nalus, i)
    requires AllWellFormed(FuaPacketsOf(limits, nalus, i))
    ensures |FuaPacketsOf(limits, nalus, i)| == |FuaSizes(limits, nalus, i)|
    ensures k < |FuaSizes(limits, nalus, i)| ==>
              |Payload(FuaPacketsOf(limits, nalus, i)[k])| == 2 + FuaSizes(limits, nalus, i)[k]
  {
    hide FuaSizes, FuaFeasible, TooLong, Payload, WellFormed, FuaPackets;
    if k < |FuaSizes(limits, nalus, i)| {
      FuaPayloadSize(nalus[i], FuaSizes(limits, nalus, i), 0, NAL_HEADER_SIZE, k);
      FragmentSize(FuaPacketsOf(limits, nalus, i)[k]);
    }
  }

  /**
   The fragments are as few as the limits of the packetizer allow: cut in any way into parts that, with two bytes of
   header, respect the maximum and the reductions of their place in the frame, the NAL unit takes no fewer packets.
   */
  lemma FewestFragments(limits: PayloadSizeLimits, nalus: seq<Nalu>, i: nat)
    requires ValidLimits(limits) && i < |nalus| && TooLong(limits, nalus, i) && FuaFeasible(limits, nalus, i)
    ensures forall parts :: FuaParts(limits, nalus, i, parts) ==> |FuaPacketsOf(limits, nalus, i)| <= |parts|
    ensures exists parts :: FuaParts(limits, nalus, i, parts) && |FuaPacketsOf(limits, nalus, i)| == |parts|
  {
    FeasibleIsFragmentable(limits, nalus, i);
  }

  lemma AppendFits(limits: PayloadSizeLimits, nalus: seq<Nalu>, packets: seq<WirePacket>, rest: seq<WirePacket>,
      i: nat, next: nat)
    requires AllWellFormed(packets) && AllWellFormed(rest) && packets != []
    requires i < next <= |nalus| && AllFit(limits, nalus, packets, i, next)
        && AllFit(limits, nalus, rest, next, |nalus|)
    requires next == |nalus| <==> rest == []
    ensures AllFit(limits, nalus, packets + rest, i, |nalus|)
  {
    forall k | 0 <= k < |packets + rest|
      ensures FitsAt(limits, |nalus|, |Payload((packets + rest)[k])|, i == 0 && k == 0, k == |packets + rest| - 1)
    {
      if k >= |packets| {
        var w := rest[k - |packets|];
        assert (packets + rest)[k] == w;
      }
    }
  }

  /** One turn of generation: what it queues respects the limits of its place in the frame. */
  lemma TurnFits(limits: PayloadSizeLimits, mode: Mode, nalus: seq<Nalu>, i: nat)
    returns (packets: seq<WirePacket>, next: nat)
    requires ValidLimits(limits) && NonEmpty(nalus) && i < |nalus|
    requires PlanFrom(limits, mode, nalus, i).outcome == Generated
    ensures i < next <= |nalus| && packets != []
    ensures PlanFrom(limits, mode, nalus, i) == Prepend(packets, PlanFrom(limits, mode, nalus, next))
    ensures AllWellFormed(packets) && AllFit(limits, nalus, packets, i, next)
  {
    hide AllFit;
    if mode == SingleNalUnit {
      packets, next := [Single(nalus[i])], i + 1;
      SingleFits(limits, nalus, i);
    } else if TooLong(limits, nalus, i) {
      packets, next := FuaPacketsOf(limits, nalus, i), i + 1;
      hide FuaPacketsOf;
      FragmentsFit(limits, nalus, i);
      FuaPacketsOfTile(limits, nalus, i);
    } else {
      next := StapAEnd(limits, nalus, i);
      packets := [Aggregate(nalus[i..next])];
      AggregateFits(limits, nalus, i);
    }
  }

  /** Every packet of a frame respects the limits, and its first and last ones their reductions. */
  lemma {:induction false} PlanFits(limits: PayloadSizeLimits, mode: Mode, nalus: seq<Nalu>, i: nat)
    requires ValidLimits(limits) && NonEmpty(nalus) && i <= |nalus|
    requires PlanFrom(limits, mode, nalus, i).outcome == Generated
    ensures var packets := PlanFrom(limits, mode, nalus, i).packets;
            && AllWellFormed(packets)
            && AllFit(limits, nalus, packets, i, |nalus|)
            && (packets == [] <==> i == |nalus|)
    decreases |nalus| - i
  {
    if i == |nalus| {
    } else {
      hide AllFit, PlanFrom, ValidLimits, NonEmpty;
      var packets, next := TurnFits(limits, mode, nalus, i);
      PlanFits(limits, mode, nalus, next);
      AppendFits(limits, nalus, packets, PlanFrom(limits, mode, nalus, next).packets, i, next);
    }
  }

  // ---------- The only packet of a frame ----------

  /** A frame of several NAL units that goes out in one packet is one aggregate of all of them. */
  lemma OnlyPacketIsAggregate(limits: PayloadSizeLimits, mode: Mode, nalus: seq<Nalu>)
    requires ValidLimits(limits) && NonEmpty(nalus) && |nalus| >= 2
    requires PlanFrom(limits, mode, nalus, 0).outcome == Generated && |PlanFrom(limits, mode, nalus, 0).packets| == 1
    ensures PlanFrom(limits, mode, nalus, 0).packets == [Aggregate(nalus)]
  {
    if mode == SingleNalUnit {
      PlanFits(limits, mode, nalus, 1);
      assert false;
    } else if TooLong(limits, nalus, 0) {
      FuaPacketsOfTile(limits, nalus, 0);
      assert false;
    } else {
      PlanFits(limits, mode, nalus, StapAEnd(limits, nalus, 0));
      assert nalus[0..|nalus|] == nalus;
    }
  }

  /**
   The reduction for a packet that is first and last at once is applied to frames of one NAL unit only. An aggregate
   that makes up a whole frame respects it just if it happens to be small enough.
   */
  lemma OnlyPacketExactly(limits: PayloadSizeLimits, mode: Mode, nalus: seq<Nalu>)
    requires ValidLimits(limits) && NonEmpty(nalus) && nalus != []
    requires PlanFrom(limits, mode, nalus, 0).outcome == Generated && |PlanFrom(limits, mode, nalus, 0).packets| == 1
    ensures var packets, room := PlanFrom(limits, mode, nalus, 0).packets,
        limits.maxPayloadLen - limits.singleReduction;
            AllWellFormed(packets)
            && (|Payload(packets[0])| <= room <==> |nalus| == 1 || GroupSize(nalus, 0, |nalus|) <= room)
  {
    PlanFits(limits, mode, nalus, 0);
    if |nalus| >= 2 {
      OnlyPacketIsAggregate(limits, mode, nalus);
      StapABodySize(nalus, 0, |nalus|);
      assert nalus[0..|nalus|] == nalus;
    } else {
      assert FitsAt(limits, 1, |Payload(PlanFrom(limits, mode, nalus, 0).packets[0])|, true, true);
    }
  }

  /** Two NAL units of 30 bytes go out in one packet of 65, where 50 are left for a single packet. */
  lemma OnlyPacketCanExceed(nalus: seq<Nalu>)
    requires |nalus| == 2 && |nalus[0]| == |nalus[1]| == 30
    ensures var limits := PayloadSizeLimits(100, 0, 0, 50);
            var packets := PlanFrom(limits, NonInterleaved, nalus, 0).packets;
            packets == [Aggregate(nalus)] && AllWellFormed(packets) && |Payload(packets[0])| == 65
  {
    var limits := PayloadSizeLimits(100, 0, 0, 50);
    var size := GroupSize(nalus, 0, 0);
    assert GroupSize(nalus, 0, 1) == 33 && GroupSize(nalus, 0, 2) == 65;
    AggregationIsMaximal(limits, nalus, 0);
    assert GroupFits(limits, nalus, 0, 2);
    assert nalus[0..2] == nalus;
    assert PlanFrom(limits, NonInterleaved, nalus, 2).packets == [];
    StapABodySize(nalus, 0, 2);
  }
}
