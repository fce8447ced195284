/**
 The packetizer: cuts a frame into packet units once, then hands out one packet at a time
 (packetizer/non_rtp_h264.cc).
 */
module Packetizer {
  import opened H264
  import opened Splitter
  import opened NonRtpPackets
  import opened PacketPlan
  import opened PacketPayload

  datatype PacketUnit = PacketUnit(
    fragment: Bytes,
    firstFragment: bool,
    lastFragment: bool,
    aggregate: bool,
    header: byte)

  /** The queue entries of an aggregation packet; while the group is open its last unit is not marked. */
  function AggregateUnits(nalus: seq<Nalu>, open: bool): (units: seq<PacketUnit>)
    requires NonEmpty(nalus)
    ensures |units| == |nalus|
  {
    seq(|nalus|, j requires 0 <= j < |nalus| =>
      PacketUnit(nalus[j], j == 0, !open && j == |nalus| - 1, true, nalus[j][0]))
  }

  /** The queue entries that make up one packet. */
  function Units(w: WirePacket): (units: seq<PacketUnit>)
    requires WellFormed(w)
    ensures units != []
  {
    match w
    case Single(nalu) => [PacketUnit(nalu, true, true, false, nalu[0])]
    case Aggregate(nalus) => AggregateUnits(nalus, false)
    case FuFragment(nalu, lo, hi, first, last) => [PacketUnit(nalu[lo..hi], first, last, false, nalu[0])]
  }

  function UnitsAll(packets: seq<WirePacket>): seq<PacketUnit>
    requires AllWellFormed(packets)
  {
    if packets == [] then [] else Units(packets[0]) + UnitsAll(packets[1..])
  }

  lemma {:induction false} UnitsAppend(xs: seq<WirePacket>, ys: seq<WirePacket>)
    requires AllWellFormed(xs) && AllWellFormed(ys)
    ensures AllWellFormed(xs + ys)
    ensures UnitsAll(xs + ys) == UnitsAll(xs) + UnitsAll(ys)
  {
    hide Units, WellFormed;
    if xs == [] {
      assert xs + ys == ys;
    } else {
      UnitsAppend(xs[1..], ys);
      assert (xs + ys)[1..] == xs[1..] + ys;
      Associative(Units(xs[0]), UnitsAll(xs[1..]), UnitsAll(ys));
    }
  }

  lemma UnitsSnoc(packets: seq<WirePacket>, w: WirePacket)
    requires AllWellFormed(packets) && WellFormed(w)
    ensures AllWellFormed(packets + [w])
    ensures UnitsAll(packets + [w]) == UnitsAll(packets) + Units(w)
  {
    assert [w][1..] == [];
    UnitsAppend(packets, [w]);
  }

  lemma EmptyQueue(packets: seq<WirePacket>)
    requires AllWellFormed(packets)
    ensures UnitsAll(packets) == [] <==> packets == []
  {
  }

  /** The payload of a fragment: FU indicator, FU header, bytes. */
  function FragmentPayload(unit: PacketUnit): Bytes {
    [FAndNri(unit.header) + FU_A, FuHeader(unit.header, unit.firstFragment, unit.lastFragment)] + unit.fragment
  }

  /** The queues start with the units and the NAL units of an aggregation packet. */
  ghost predicate AggregateInFront(nalus: seq<Nalu>, units: seq<PacketUnit>, fragments: seq<Nalu>) {
    && NonEmpty(nalus) && |nalus| <= |units| && |nalus| <= |fragments|
    && forall k :: 0 <= k < |nalus| ==> units[k] == PacketUnit(nalus[k], k == 0, k == |nalus| - 1, true, nalus[k][0])
  }

  /** Taking a unit that is a packet of its own off the queues. */
  lemma RawInFront(packets: seq<WirePacket>)
    requires AllWellFormed(packets) && packets != []
    requires UnitsAll(packets)[0].firstFragment && UnitsAll(packets)[0].lastFragment
    ensures var units, completed := UnitsAll(packets), CompletedAll(packets);
            && completed != [] && Payload(packets[0]) == units[0].fragment
            && Left(units[1..], completed[1..], packets[1..])
  {
    var w, rest := packets[0], packets[1..];
    assert UnitsAll(packets)[0] == Units(w)[0];
    DropPrefix(Units(w), UnitsAll(rest));
    DropPrefix(Completed(w), CompletedAll(rest));
  }

  /** Taking an aggregation packet off the queues. */
  lemma GroupInFront(packets: seq<WirePacket>)
    requires AllWellFormed(packets) && packets != []
    requires !(UnitsAll(packets)[0].firstFragment && UnitsAll(packets)[0].lastFragment)
        && UnitsAll(packets)[0].aggregate
    ensures packets[0].Aggregate?
    ensures var nalus, units, completed := packets[0].nalus, UnitsAll(packets), CompletedAll(packets);
            && nalus != [] && AggregateInFront(nalus, units, completed)
            && Payload(packets[0]) == [FAndNri(nalus[0][0]) + STAP_A] + StapABody(nalus)
            && Left(units[|nalus|..], completed[|nalus|..], packets[1..])
  {
    var w, rest := packets[0], packets[1..];
    assert UnitsAll(packets)[0] == Units(w)[0];
    DropPrefix(Units(w), UnitsAll(rest));
    DropPrefix(Completed(w), CompletedAll(rest));
    assert forall k :: 0 <= k < |w.nalus| ==> UnitsAll(packets)[k] == Units(w)[k];
  }

  /** Taking a fragment off the queues. */
  lemma FragmentInFront(packets: seq<WirePacket>)
    requires AllWellFormed(packets) && packets != []
    requires !(UnitsAll(packets)[0].firstFragment && UnitsAll(packets)[0].lastFragment)
        && !UnitsAll(packets)[0].aggregate
    ensures var units, completed := UnitsAll(packets), CompletedAll(packets);
            && Payload(packets[0]) == FragmentPayload(units[0])
            && (units[0].lastFragment ==> completed != [])
            && Left(units[1..], if units[0].lastFragment then completed[1..] else completed, packets[1..])
  {
    var w, rest := packets[0], packets[1..];
    assert UnitsAll(packets)[0] == Units(w)[0];
    DropPrefix(Units(w), UnitsAll(rest));
    DropPrefix(Completed(w), CompletedAll(rest));
  }

  /** The queues hold what belongs to these packets. */
  ghost predicate Left(units: seq<PacketUnit>, fragments: seq<Nalu>, packets: seq<WirePacket>) {
    AllWellFormed(packets) && units == UnitsAll(packets) && fragments == CompletedAll(packets)
  }

  /** The fragment in front of the queue of a NAL unit being fragmented. */
  lemma FuaPacketsStep(nalu: Nalu, sizes: seq<int>, i: nat, offset: int)
    requires i < |sizes|
    requires AllWellFormed(FuaPackets(nalu, sizes, i, offset))
    ensures var w := FuFragment(nalu, offset, offset + sizes[i], i == 0, i == |sizes| - 1);
            var rest := FuaPackets(nalu, sizes, i + 1, offset + sizes[i]);
            && WellFormed(w) && AllWellFormed(rest)
            && forall units: seq<PacketUnit> ::
                 units + UnitsAll(FuaPackets(nalu, sizes, i, offset)) == (units + Units(w)) + UnitsAll(rest)
  {
    var queue := FuaPackets(nalu, sizes, i, offset);
    var rest := FuaPackets(nalu, sizes, i + 1, offset + sizes[i]);
    assert WellFormed(queue[0]);
    assert forall k :: 0 <= k < |rest| ==> rest[k] == queue[k + 1];
    assert queue[1..] == rest;
    forall units: seq<PacketUnit>
      ensures units + UnitsAll(queue) == (units + Units(queue[0])) + UnitsAll(rest)
    {
      Associative(units, Units(queue[0]), UnitsAll(rest));
    }
  }

  /** Marking the last unit closes the group. */
  lemma ClosingGroup(queue: seq<PacketUnit>, nalus: seq<Nalu>)
    requires nalus != [] && NonEmpty(nalus)
    ensures var open := queue + AggregateUnits(nalus, true);
            open[..|open| - 1] + [open[|open| - 1].(lastFragment := true)] == queue + AggregateUnits(nalus, false)
  {
  }

  lemma OpenGroupSnoc(nalus: seq<Nalu>, x: Nalu)
    requires NonEmpty(nalus) && x != []
    ensures AggregateUnits(nalus + [x], true)
            == AggregateUnits(nalus, true) + [PacketUnit(x, |nalus| == 0, false, true, x[0])]
  {
  }

  lemma OpenGroupEmpty(queue: seq<PacketUnit>, fragments: seq<Nalu>, i: nat)
    requires i <= |fragments|
    ensures queue + AggregateUnits(fragments[i..i], true) == queue
  {
  }

  /** One more unit for an open group. */
  lemma OpenGroupGrows(queue: seq<PacketUnit>, fragments: seq<Nalu>, i: nat, end: nat, unit: PacketUnit)
    requires NonEmpty(fragments) && i <= end < |fragments|
    requires unit == PacketUnit(fragments[end], end == i, false, true, fragments[end][0])
    ensures queue + AggregateUnits(fragments[i..end], true) + [unit]
            == queue + AggregateUnits(fragments[i..end + 1], true)
  {
    assert fragments[i..end + 1] == fragments[i..end] + [fragments[end]];
    OpenGroupSnoc(fragments[i..end], fragments[end]);
  }

  lemma PrependTwice(xs: seq<WirePacket>, ys: seq<WirePacket>, plan: Plan)
    ensures Prepend(xs, Prepend(ys, plan)) == Prepend(xs + ys, plan)
  {
    assert xs + (ys + plan.packets) == (xs + ys) + plan.packets;
  }

  class NonRtpPacketizerH264 {
    const limits: PayloadSizeLimits
    var inputFragments: seq<Nalu>
    var packets: seq<PacketUnit>
    var numPacketsLeft: int
    /** The packets not yet handed out. */
    ghost var pending: seq<WirePacket>

    /** The queue holds exactly the units of the pending packets. */
    ghost predicate Queued()
      reads this
    {
      && AllWellFormed(pending)
      && packets == UnitsAll(pending)
      && numPacketsLeft == |pending|
    }

    /** Between calls of NextPacket the input queue holds exactly the NAL units not yet sent in full. */
    ghost predicate Valid()
      reads this
    {
      Queued() && inputFragments == CompletedAll(pending)
    }

    ghost predicate CanGenerate()
      reads this
    {
      ValidLimits(limits) && NonEmpty(inputFragments)
    }

    /** The limits given by the caller are not stored: the defaults stay in force. */
    constructor (fragments: seq<Nalu>, callerLimits: PayloadSizeLimits, mode: Mode)
      requires NonEmpty(fragments)
      requires PlanFrom(DEFAULT_LIMITS, mode, fragments, 0).outcome != CheckFailed
      ensures limits == DEFAULT_LIMITS
      ensures var plan := PlanFrom(DEFAULT_LIMITS, mode, fragments, 0);
              && numPacketsLeft == |plan.packets|
              && (plan.outcome == Generated ==> Valid() && pending == plan.packets && inputFragments == fragments)
              && (plan.outcome == Refused ==> packets == [] && inputFragments == fragments)
      ensures packets == [] && numPacketsLeft != 0 <==> LeavesCount(mode, fragments)
    {
      limits := DEFAULT_LIMITS;
      inputFragments := fragments;
      packets := [];
      numPacketsLeft := 0;
      pending := [];
      new;
      var outcome := GeneratePacket(mode);
      RefusedAfterPackets(mode, fragments);
      EmptyQueue(pending);
      if outcome == Generated {
        PlanCompletes(limits, mode, fragments, 0);
        assert fragments[0..] == fragments;
      } else {
        packets := [];
      }
    }

    method GeneratePacket(mode: Mode) returns (outcome: Outcome)
      requires CanGenerate() && Queued() && pending == []
      modifies this`packets, this`numPacketsLeft, this`pending
      ensures outcome == PlanFrom(limits, mode, inputFragments, 0).outcome
      ensures outcome != CheckFailed ==> Queued() && pending == PlanFrom(limits, mode, inputFragments, 0).packets
    {
      var i := 0;
      ghost var plan := PlanFrom(limits, mode, inputFragments, 0);
      while i < |inputFragments|
        invariant 0 <= i <= |inputFragments|
        invariant Queued()
        invariant plan == Prepend(pending, PlanFrom(limits, mode, inputFragments, i))
        decreases |inputFragments| - i
      {
        ghost var before := pending;
        ghost var queued;
        outcome, i, queued := PacketizeAt(mode, i);
        if outcome != Generated {
          return;
        }
        PrependTwice(before, queued, PlanFrom(limits, mode, inputFragments, i));
      }
      return Generated;
    }

    /** One turn of the loop of GeneratePacket. */
    method PacketizeAt(mode: Mode, i: nat) returns (outcome: Outcome, next: nat, ghost queued: seq<WirePacket>)
      requires CanGenerate() && Queued() && i < |inputFragments|
      modifies this`packets, this`numPacketsLeft, this`pending
      ensures outcome != CheckFailed ==> Queued() && pending == old(pending) + queued
      ensures outcome == Generated ==>
        && i < next <= |inputFragments|
        && PlanFrom(limits, mode, inputFragments, i) == Prepend(queued, PlanFrom(limits, mode, inputFragments, next))
      ensures outcome != Generated ==> queued == [] && PlanFrom(limits, mode, inputFragments, i) == Plan(outcome, [])
    {
      next, queued := i, [];
      match mode
      case SingleNalUnit =>
        var ok := PacketizeSingleNalu(i);
        if !ok {
          return Refused, i, [];
        }
        return Generated, i + 1, [Single(inputFragments[i])];
      case NonInterleaved =>
        var singlePacketCapacity := limits.maxPayloadLen;
        if |inputFragments| == 1 {
          singlePacketCapacity := singlePacketCapacity - limits.singleReduction;
        } else if i == 0 {
          singlePacketCapacity := singlePacketCapacity - limits.firstReduction;
        } else if i + 1 == |inputFragments| {
          singlePacketCapacity := singlePacketCapacity - limits.lastReduction;
        }
        assert singlePacketCapacity == NaluCapacity(limits, inputFragments, i);
        if |inputFragments[i]| > singlePacketCapacity {
          var ok := PacketizeFuA(i);
          if !ok {
            return Refused, i, [];
          }
          return Generated, i + 1, FuaPacketsOf(limits, inputFragments, i);
        } else {
          next := PacketizeStapA(i);
          if next == i {
            return CheckFailed, i, [];
          }
          return Generated, next, [Aggregate(inputFragments[i..next])];
        }
    }

    method PacketizeSingleNalu(fragmentIndex: nat) returns (ok: bool)
      requires CanGenerate() && Queued() && fragmentIndex < |inputFragments|
      modifies this`packets, this`numPacketsLeft, this`pending
      ensures Queued()
      ensures ok <==> !TooLong(limits, inputFragments, fragmentIndex)
      ensures pending == if ok then old(pending) + [Single(inputFragments[fragmentIndex])] else old(pending)
    {
      var payloadSizeLeft := limits.maxPayloadLen;
      if |inputFragments| == 1 {
        payloadSizeLeft := payloadSizeLeft - limits.singleReduction;
      } else if fragmentIndex == 0 {
        payloadSizeLeft := payloadSizeLeft - limits.firstReduction;
      } else if fragmentIndex + 1 == |inputFragments| {
        payloadSizeLeft := payloadSizeLeft - limits.lastReduction;
      }
      var fragment := inputFragments[fragmentIndex];
      if payloadSizeLeft < |fragment| {
        return false;
      }
      UnitsSnoc(pending, Single(fragment));
      packets := packets + [PacketUnit(fragment, true, true, false, fragment[0])];
      numPacketsLeft := numPacketsLeft + 1;
      pending := pending + [Single(fragment)];
      return true;
    }

    method PacketizeFuA(fragmentIndex: nat) returns (ok: bool)
      requires CanGenerate() && Queued() && fragmentIndex < |inputFragments|
      requires TooLong(limits, inputFragments, fragmentIndex)
      modifies this`packets, this`numPacketsLeft, this`pending
      ensures Queued()
      ensures ok <==> FuaFeasible(limits, inputFragments, fragmentIndex)
      ensures pending == if ok then old(pending) + FuaPacketsOf(limits, inputFragments, fragmentIndex) else old(pending)
    {
      var fragment := inputFragments[fragmentIndex];
      var payloadSizes := SplitFragment(fragmentIndex);
      if payloadSizes == [] {
        return false;
      }
      FuaPacketsOfTile(limits, inputFragments, fragmentIndex);
      PushFragments(fragment, payloadSizes);
      numPacketsLeft := numPacketsLeft + |payloadSizes|;
      UnitsAppend(pending, FuaPacketsOf(limits, inputFragments, fragmentIndex));
      pending := pending + FuaPacketsOf(limits, inputFragments, fragmentIndex);
      return true;
    }

    method SplitFragment(fragmentIndex: nat) returns (payloadSizes: seq<int>)
      requires CanGenerate() && fragmentIndex < |inputFragments| && TooLong(limits, inputFragments, fragmentIndex)
      ensures payloadSizes == FuaSizes(limits, inputFragments, fragmentIndex)
    {
      var fuaLimits := FragmentLimits(fragmentIndex);
      payloadSizes := SplitAboutEqually(|inputFragments[fragmentIndex]| - NAL_HEADER_SIZE, fuaLimits);
    }

    /** The limits PacketizeFuA passes to the splitter. */
    method FragmentLimits(fragmentIndex: nat) returns (fuaLimits: PayloadSizeLimits)
      requires fragmentIndex < |inputFragments|
      ensures fuaLimits == FuaLimits(limits, |inputFragments|, fragmentIndex)
    {
      fuaLimits := limits.(maxPayloadLen := limits.maxPayloadLen - FU_A_HEADER_SIZE);
      if |inputFragments| != 1 {
        if fragmentIndex == |inputFragments| - 1 {
          fuaLimits := fuaLimits.(singleReduction := limits.lastReduction);
        } else if fragmentIndex == 0 {
          fuaLimits := fuaLimits.(singleReduction := limits.firstReduction);
        } else {
          fuaLimits := fuaLimits.(singleReduction := 0);
        }
      }
      if fragmentIndex != 0 {
        fuaLimits := fuaLimits.(firstReduction := 0);
      }
      if fragmentIndex != |inputFragments| - 1 {
        fuaLimits := fuaLimits.(lastReduction := 0);
      }
    }

    /** The loop of PacketizeFuA. */
    method PushFragments(fragment: Nalu, payloadSizes: seq<int>)
      requires fragment != [] && AllWellFormed(FuaPackets(fragment, payloadSizes, 0, NAL_HEADER_SIZE))
      modifies this`packets
      ensures packets == old(packets) + UnitsAll(FuaPackets(fragment, payloadSizes, 0, NAL_HEADER_SIZE))
    {
      var offset := NAL_HEADER_SIZE;
      ghost var all := packets + UnitsAll(FuaPackets(fragment, payloadSizes, 0, NAL_HEADER_SIZE));
      for i := 0 to |payloadSizes|
        invariant AllWellFormed(FuaPackets(fragment, payloadSizes, i, offset))
        invariant all == packets + UnitsAll(FuaPackets(fragment, payloadSizes, i, offset))
      {
        var packetLength := payloadSizes[i];
        FuaPacketsStep(fragment, payloadSizes, i, offset);
        var unit := PacketUnit(fragment[offset..offset + packetLength], i == 0, i == |payloadSizes| - 1, false,
            fragment[0]);
        packets := packets + [unit];
        offset := offset + packetLength;
      }
    }

    /** Returns the index behind the group; a group that stays empty is a failing CHECK. */
    method PacketizeStapA(fragmentIndex: nat) returns (end: nat)
      requires CanGenerate() && Queued() && fragmentIndex < |inputFragments|
      requires !TooLong(limits, inputFragments, fragmentIndex)
      modifies this`packets, this`numPacketsLeft, this`pending
      ensures end == StapAEnd(limits, inputFragments, fragmentIndex)
      ensures end != fragmentIndex ==>
        Queued() && pending == old(pending) + [Aggregate(inputFragments[fragmentIndex..end])]
    {
      var payloadSizeLeft := limits.maxPayloadLen;
      if |inputFragments| == 1 {
        payloadSizeLeft := payloadSizeLeft - limits.singleReduction;
      } else if fragmentIndex == 0 {
        payloadSizeLeft := payloadSizeLeft - limits.firstReduction;
      }
      numPacketsLeft := numPacketsLeft + 1;
      var aggregatedFragments;
      end, aggregatedFragments := CollectGroup(fragmentIndex, payloadSizeLeft);
      if aggregatedFragments > 0 {
        ghost var group := inputFragments[fragmentIndex..end];
        MarkLast(old(packets), group);
        UnitsSnoc(pending, Aggregate(group));
        pending := pending + [Aggregate(group)];
      }
    }

    /** Marks the last queued unit as the last of its group. */
    method MarkLast(ghost queue: seq<PacketUnit>, ghost group: seq<Nalu>)
      requires group != [] && NonEmpty(group) && packets == queue + AggregateUnits(group, true)
      modifies this`packets
      ensures packets == queue + AggregateUnits(group, false)
    {
      ClosingGroup(queue, group);
      packets := packets[..|packets| - 1] + [packets[|packets| - 1].(lastFragment := true)];
    }

    /** The loop of PacketizeStapA. */
    method CollectGroup(fragmentIndex: nat, capacity: int) returns (end: nat, aggregatedFragments: nat)
      requires NonEmpty(inputFragments) && fragmentIndex < |inputFragments|
      requires capacity == GroupCapacity(limits, |inputFragments|, fragmentIndex)
      modifies this`packets
      ensures end == StapAEnd(limits, inputFragments, fragmentIndex) && aggregatedFragments == end - fragmentIndex
      ensures packets == old(packets) + AggregateUnits(inputFragments[fragmentIndex..end], true)
    {
      hide AggregateUnits;
      var payloadSizeLeft := capacity;
      var fragmentHeadersLength := NAL_HEADER_SIZE + LENGTH_FIELD_SIZE;
      OpenGroupEmpty(packets, inputFragments, fragmentIndex);
      end, aggregatedFragments := fragmentIndex, 0;
      while end < |inputFragments| && payloadSizeLeft > PayloadSizeNeeded(end, fragmentHeadersLength)
        invariant fragmentIndex <= end <= |inputFragments|
        invariant aggregatedFragments == end - fragmentIndex
        invariant packets == old(packets) + AggregateUnits(inputFragments[fragmentIndex..end], true)
        invariant fragmentHeadersLength >= 0
        invariant GroupEnd(limits, inputFragments, end, payloadSizeLeft, fragmentHeadersLength)
                  == StapAEnd(limits, inputFragments, fragmentIndex)
        decreases |inputFragments| - end
      {
        var fragment := inputFragments[end];
        var unit := PacketUnit(fragment, aggregatedFragments == 0, false, true, fragment[0]);
        OpenGroupGrows(old(packets), inputFragments, fragmentIndex, end, unit);
        packets := packets + [unit];
        payloadSizeLeft := payloadSizeLeft - |fragment| - fragmentHeadersLength;
        fragmentHeadersLength := LENGTH_FIELD_SIZE;
        aggregatedFragments := aggregatedFragments + 1;
        end := end + 1;
      }
    }

    function PayloadSizeNeeded(fragmentIndex: nat, fragmentHeadersLength: nat): int
      reads this
      requires fragmentIndex < |inputFragments|
    {
      var fragmentSize := |inputFragments[fragmentIndex]| + fragmentHeadersLength;
      if |inputFragments| == 1 then fragmentSize
      else if fragmentIndex == |inputFragments| - 1 then fragmentSize + limits.lastReduction
      else fragmentSize
    }

    /** Hands out the next packet; false when none is left. */
    method NextPacket(packet: NonRtpPacket) returns (ok: bool)
      requires Valid() && packet.Valid() && packet.payloadSize == 0
      requires pending != [] ==> |Payload(pending[0])| <= packet.FreeCapacity()
      modifies this`packets, this`inputFragments, this`numPacketsLeft, this`pending, packet`payloadSize, packet.buffer
      ensures Valid() && packet.Valid()
      ensures ok <==> old(pending) != []
      ensures ok ==> pending == old(pending)[1..]
      ensures ok ==> packet.Wire() == old(packet.Wire()) + Payload(old(pending)[0])
      ensures !ok ==> pending == [] && packet.payloadSize == 0
    {
      EmptyQueue(pending);
      if |packets| == 0 {
        return false;
      }
      SendFront(packet);
      numPacketsLeft := numPacketsLeft - 1;
      pending := pending[1..];
      return true;
    }

    /** NextPacket sends by the kind of the unit in front. */
    method SendFront(packet: NonRtpPacket)
      requires pending != [] && Left(packets, inputFragments, pending) && packets != []
      requires packet.Valid() && packet.payloadSize == 0 && |Payload(pending[0])| <= packet.FreeCapacity()
      modifies this`packets, this`inputFragments, packet`payloadSize, packet.buffer
      ensures Left(packets, inputFragments, pending[1..])
      ensures packet.Valid() && packet.Wire() == old(packet.Wire()) + Payload(pending[0])
    {
      var front := packets[0];
      if front.firstFragment && front.lastFragment {
        RawInFront(pending);
        NextRawPacket(packet);
      } else if front.aggregate {
        GroupInFront(pending);
        NextAggregatePacket(packet, pending[0].nalus);
      } else {
        FragmentInFront(pending);
        NextFragmentPacket(packet);
      }
    }

    /** The branch of NextPacket for a unit that is a packet of its own. */
    method NextRawPacket(packet: NonRtpPacket)
      requires packets != [] && inputFragments != []
      requires packet.Valid() && packet.payloadSize == 0 && |packets[0].fragment| <= packet.FreeCapacity()
      modifies this`packets, this`inputFragments, packet`payloadSize, packet.buffer
      ensures packet.Valid() && packet.Wire() == old(packet.Wire()) + old(packets)[0].fragment
      ensures packets == old(packets)[1..] && inputFragments == old(inputFragments)[1..]
    {
      var fragment := packets[0].fragment;
      var _ := packet.AllocatePayload(|fragment|);
      packet.CopyToPayload(0, fragment);
      packets := packets[1..];
      inputFragments := inputFragments[1..];
    }

    method NextAggregatePacket(packet: NonRtpPacket, ghost nalus: seq<Nalu>)
      requires nalus != [] && AggregateInFront(nalus, packets, inputFragments)
      requires packet.Valid() && packet.payloadSize == 0
      requires NAL_HEADER_SIZE + |StapABody(nalus)| <= packet.FreeCapacity()
      modifies this`packets, this`inputFragments, packet`payloadSize, packet.buffer
      ensures packet.Valid()
      ensures packet.Wire() == old(packet.Wire()) + ([FAndNri(nalus[0][0]) + STAP_A] + StapABody(nalus))
      ensures packets == old(packets)[|nalus|..] && inputFragments == old(inputFragments)[|nalus|..]
    {
      hide StapABody;
      var payloadCapacity := packet.FreeCapacity();
      var _ := packet.AllocatePayload(payloadCapacity);
      ghost var header := packet.Upto(0);
      var stapAHeader: Bytes := [FAndNri(packets[0].header) + STAP_A];
      hide FAndNri;
      packet.CopyToPayload(0, stapAHeader);
      var index := CopyAggregatedUnits(packet, nalus);
      Associative(header, stapAHeader, StapABody(nalus));
      var _ := packet.SetPayloadSize(index);
    }

    /** The loop of NextAggregatePacket: moves the units of the front packet behind the STAP-A header. */
    method CopyAggregatedUnits(packet: NonRtpPacket, ghost nalus: seq<Nalu>) returns (index: nat)
      requires packet.Valid() && nalus != [] && AggregateInFront(nalus, packets, inputFragments)
      requires NAL_HEADER_SIZE + |StapABody(nalus)| <= packet.payloadSize
      modifies this`packets, this`inputFragments, packet.buffer
      ensures index == NAL_HEADER_SIZE + |StapABody(nalus)|
      ensures packet.Upto(index) == old(packet.Upto(NAL_HEADER_SIZE)) + StapABody(nalus)
      ensures packets == old(packets)[|nalus|..] && inputFragments == old(inputFragments)[|nalus|..]
    {
      ghost var all := packet.Upto(NAL_HEADER_SIZE) + StapABody(nalus);
      ghost var queue, fragments := packets, inputFragments;
      assert nalus[0..] == nalus;
      var unit := packets[0];
      index := NAL_HEADER_SIZE;
      var isLastFragment := unit.lastFragment;
      ghost var j := 0;
      while unit.aggregate
        invariant 0 <= j < |nalus|
        invariant packets == queue[j..] && inputFragments == fragments[j..]
        invariant unit == queue[j] && isLastFragment == unit.lastFragment
        invariant index + |StapABody(nalus[j..])| == NAL_HEADER_SIZE + |StapABody(nalus)|
        invariant packet.Upto(index) + StapABody(nalus[j..]) == all
        decreases |nalus| - j
      {
        assert unit == PacketUnit(nalus[j], j == 0, j == |nalus| - 1, true, nalus[j][0]);
        StapABodyStep(nalus, j);
        Associative(packet.Upto(index), WriteUint16(|nalus[j]|) + nalus[j], StapABody(nalus[j + 1..]));
        index := CopyPair(packet, index, WriteUint16(|unit.fragment|), unit.fragment);
        packets := packets[1..];
        inputFragments := inputFragments[1..];
        j := j + 1;
        if isLastFragment {
          break;
        }
        unit := packets[0];
        isLastFragment := unit.lastFragment;
      }
      assert StapABody(nalus[j..]) == [];
    }

    /** Writes two pieces of payload one behind the other; returns the position behind them. */
    static method CopyPair(packet: NonRtpPacket, start: nat, head: Bytes, body: Bytes) returns (index: nat)
      requires packet.Valid() && start + |head| + |body| <= packet.payloadSize
      modifies packet.buffer
      ensures index == start + |head| + |body|
      ensures packet.Upto(index) == old(packet.Upto(start)) + (head + body)
    {
      index := start;
      packet.CopyToPayload(index, head);
      index := index + |head|;
      packet.CopyToPayload(index, body);
      index := index + |body|;
      Associative(old(packet.Upto(start)), head, body);
    }

    method NextFragmentPacket(packet: NonRtpPacket)
      requires packets != [] && (packets[0].lastFragment ==> inputFragments != [])
      requires packet.Valid() && packet.payloadSize == 0
      requires FU_A_HEADER_SIZE + |packets[0].fragment| <= packet.FreeCapacity()
      modifies this`packets, this`inputFragments, packet`payloadSize, packet.buffer
      ensures packet.Valid() && packet.Wire() == old(packet.Wire()) + FragmentPayload(old(packets)[0])
      ensures packets == old(packets)[1..]
      ensures inputFragments == if old(packets)[0].lastFragment then old(inputFragments)[1..] else old(inputFragments)
    {
      var unit := packets[0];
      WriteFragment(packet, unit);
      if unit.lastFragment {
        inputFragments := inputFragments[1..];
      }
      packets := packets[1..];
    }

    /** The packet-writing half of NextFragmentPacket. */
    static method WriteFragment(packet: NonRtpPacket, unit: PacketUnit)
      requires packet.Valid() && packet.payloadSize == 0 && FU_A_HEADER_SIZE + |unit.fragment| <= packet.FreeCapacity()
      modifies packet`payloadSize, packet.buffer
      ensures packet.Valid()
      ensures packet.Wire() == old(packet.Wire()) + FragmentPayload(unit)
    {
      var fuIndicator: byte := FAndNri(unit.header) + FU_A;
      var fuHeader: byte := 0;
      if unit.firstFragment {
        fuHeader := fuHeader + 128;
      }
      if unit.lastFragment {
        fuHeader := fuHeader + 64;
      }
      fuHeader := fuHeader + TypeBits(unit.header);
      var _ := packet.AllocatePayload(FU_A_HEADER_SIZE + |unit.fragment|);
      var _ := CopyPair(packet, 0, [fuIndicator, fuHeader], unit.fragment);
    }
  }

  /** The body of an aggregation packet from its j-th NAL unit on. */
  lemma StapABodyStep(nalus: seq<Nalu>, j: nat)
    requires j < |nalus|
    ensures StapABody(nalus[j..]) == (WriteUint16(|nalus[j]|) + nalus[j]) + StapABody(nalus[j + 1..])
  {
    assert nalus[j..][1..] == nalus[j + 1..];
  }
}
