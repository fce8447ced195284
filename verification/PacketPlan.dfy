/**
 The packets a frame is cut into, as a function of its NAL units, and what that plan guarantees
 (packetizer/non_rtp_h264.cc; RFC 6184 sections 5.6, 5.7.1 and 5.8).
 */
module PacketPlan {
  import opened H264
  import opened Splitter

  const FU_A_HEADER_SIZE := 2
  const LENGTH_FIELD_SIZE := 2
  const NAL_HEADER_SIZE := 1

  datatype Mode = NonInterleaved | SingleNalUnit

  /** One packet on the wire. A fragment carries nalu[lo..hi]. */
  datatype WirePacket =
    | Single(nalu: Nalu)
    | Aggregate(nalus: seq<Nalu>)
    | FuFragment(nalu: Nalu, lo: int, hi: int, first: bool, last: bool)

  /** How generation ends; CheckFailed is a failing CHECK, which ends the process. */
  datatype Outcome = Generated | Refused | CheckFailed

  datatype Plan = Plan(outcome: Outcome, packets: seq<WirePacket>)

  /** Reductions are non-negative and leave room in a packet. */
  predicate ValidLimits(limits: PayloadSizeLimits) {
    && 0 <= limits.firstReduction < limits.maxPayloadLen
    && 0 <= limits.lastReduction < limits.maxPayloadLen
    && 0 <= limits.singleReduction < limits.maxPayloadLen
  }

  // ---------- FU-A ----------

  /** The limits for the fragments of NAL unit i of n: room for the FU-A header, and only the reductions that apply. */
  function FuaLimits(limits: PayloadSizeLimits, n: nat, i: nat): PayloadSizeLimits
    requires i < n
  {
    PayloadSizeLimits(
      limits.maxPayloadLen - FU_A_HEADER_SIZE,
      if i == 0 then limits.firstReduction else 0,
      if i == n - 1 then limits.lastReduction else 0,
      if n == 1 then limits.singleReduction
      else if i == n - 1 then limits.lastReduction
      else if i == 0 then limits.firstReduction
      else 0)
  }

  function FuaSizes(limits: PayloadSizeLimits, nalus: seq<Nalu>, i: nat): seq<int>
    requires ValidLimits(limits) && i < |nalus|
  {
    SplitSizes(|nalus[i]| - NAL_HEADER_SIZE, FuaLimits(limits, |nalus|, i))
  }

  /** The fragments from part k on, the first of which starts at byte `offset` of the NAL unit. */
  function FuaPackets(nalu: Nalu, sizes: seq<int>, k: nat, offset: int): (packets: seq<WirePacket>)
    requires k <= |sizes|
    ensures |packets| == |sizes| - k
    decreases |sizes| - k
  {
    if k == |sizes| then []
    else
      [FuFragment(nalu, offset, offset + sizes[k], k == 0, k == |sizes| - 1)]
      + FuaPackets(nalu, sizes, k + 1, offset + sizes[k])
  }

  // ---------- STAP-A ----------

  /** Bytes a group needs to take in NAL unit j, given the bytes of headers that go with it. */
  function Needed(limits: PayloadSizeLimits, nalus: seq<Nalu>, j: nat, headers: nat): int
    requires j < |nalus|
  {
    |nalus[j]| + headers + (if |nalus| != 1 && j == |nalus| - 1 then limits.lastReduction else 0)
  }

  /** Bytes available to a group that starts at NAL unit i. */
  function GroupCapacity(limits: PayloadSizeLimits, n: nat, i: nat): int {
    limits.maxPayloadLen -
    (if n == 1 then limits.singleReduction else if i == 0 then limits.firstReduction else 0)
  }

  /** Where a group that has `left` bytes to go ends, when NAL unit j is the next candidate. */
  function GroupEnd(limits: PayloadSizeLimits, nalus: seq<Nalu>, j: nat, left: int, headers: nat): (end: nat)
    requires j <= |nalus|
    ensures j <= end <= |nalus|
    decreases |nalus| - j
  {
    if j == |nalus| || left <= Needed(limits, nalus, j, headers) then j
    else GroupEnd(limits, nalus, j + 1, left - |nalus[j]| - headers, LENGTH_FIELD_SIZE)
  }

  function StapAEnd(limits: PayloadSizeLimits, nalus: seq<Nalu>, i: nat): (end: nat)
    requires i < |nalus|
    ensures i <= end <= |nalus|
  {
    GroupEnd(limits, nalus, i, GroupCapacity(limits, |nalus|, i), NAL_HEADER_SIZE + LENGTH_FIELD_SIZE)
  }

  // ---------- The plan ----------

  function Prepend(packets: seq<WirePacket>, plan: Plan): Plan {
    Plan(plan.outcome, packets + plan.packets)
  }

  /** Bytes NAL unit i may have without being fragmented or refused. */
  function NaluCapacity(limits: PayloadSizeLimits, nalus: seq<Nalu>, i: nat): int
    requires i < |nalus|
  {
    Capacity(limits, |nalus|, i)
  }

  /** NAL unit i does not fit its packet and has to be fragmented. */
  predicate TooLong(limits: PayloadSizeLimits, nalus: seq<Nalu>, i: nat)
    requires i < |nalus|
  {
    |nalus[i]| > NaluCapacity(limits, nalus, i)
  }

  /** Whether the splitter finds a way to fragment NAL unit i. */
  predicate FuaFeasible(limits: PayloadSizeLimits, nalus: seq<Nalu>, i: nat)
    requires ValidLimits(limits) && i < |nalus| && TooLong(limits, nalus, i)
  {
    FuaSizes(limits, nalus, i) != []
  }

  function FuaPacketsOf(limits: PayloadSizeLimits, nalus: seq<Nalu>, i: nat): seq<WirePacket>
    requires ValidLimits(limits) && i < |nalus| && TooLong(limits, nalus, i) && FuaFeasible(limits, nalus, i)
  {
    FuaPackets(nalus[i], FuaSizes(limits, nalus, i), 0, NAL_HEADER_SIZE)
  }

  /** The packets queued for the NAL units from i on, up to the first failure if there is one. */
  function PlanFrom(limits: PayloadSizeLimits, mode: Mode, nalus: seq<Nalu>, i: nat): Plan
    requires ValidLimits(limits) && NonEmpty(nalus) && i <= |nalus|
    decreases |nalus| - i
  {
    if i == |nalus| then Plan(Generated, [])
    else
      match mode
      case SingleNalUnit =>
        if TooLong(limits, nalus, i) then Plan(Refused, [])
        else Prepend([Single(nalus[i])], PlanFrom(limits, mode, nalus, i + 1))
      case NonInterleaved =>
        if TooLong(limits, nalus, i) then
          if !FuaFeasible(limits, nalus, i) then Plan(Refused, [])
          else Prepend(FuaPacketsOf(limits, nalus, i), PlanFrom(limits, mode, nalus, i + 1))
        else
          var end := StapAEnd(limits, nalus, i);
          if end == i then Plan(CheckFailed, [])
          else Prepend([Aggregate(nalus[i..end])], PlanFrom(limits, mode, nalus, end))
  }

  // ---------- When generation succeeds ----------

  /** Short enough not to be fragmented, yet too long for an aggregation packet. */
  predicate InGap(limits: PayloadSizeLimits, nalus: seq<Nalu>, i: nat)
    requires i < |nalus|
  {
    NaluCapacity(limits, nalus, i) - 3 <= |nalus[i]| <= NaluCapacity(limits, nalus, i)
  }

  /** Whether a payload may have this size, given which ends of a frame of n NAL units its packet is at. */
  ghost predicate FitsAt(limits: PayloadSizeLimits, n: nat, size: nat, frameStart: bool, frameEnd: bool) {
    && size <= limits.maxPayloadLen
    && if n == 1 && frameStart && frameEnd then size <= limits.maxPayloadLen - limits.singleReduction
       else
         && (frameStart ==> size <= limits.maxPayloadLen - limits.firstReduction)
         && (frameEnd ==> size <= limits.maxPayloadLen - limits.lastReduction)
  }

  /** A way to cut NAL unit i behind its header into fragments that, with two bytes of header, keep the limits. */
  ghost predicate FuaParts(limits: PayloadSizeLimits, nalus: seq<Nalu>, i: nat, parts: seq<int>)
    requires i < |nalus|
  {
    && |parts| >= 2 && Sum(parts) == |nalus[i]| - 1
    && forall k :: 0 <= k < |parts| ==>
         0 < parts[k] && FitsAt(limits, |nalus|, 2 + parts[k], i == 0 && k == 0, i + 1 == |nalus| && k == |parts| - 1)
  }

  ghost predicate Fragmentable(limits: PayloadSizeLimits, nalus: seq<Nalu>, i: nat)
    requires i < |nalus|
  {
    exists parts :: FuaParts(limits, nalus, i, parts)
  }

  ghost predicate Packetizable(limits: PayloadSizeLimits, nalus: seq<Nalu>, i: nat)
    requires i < |nalus|
  {
    !InGap(limits, nalus, i) && (TooLong(limits, nalus, i) ==> Fragmentable(limits, nalus, i))
  }

  /** What the rewritten limits admit are the ways to cut the NAL unit under the original ones. */
  lemma RewrittenLimits(limits: PayloadSizeLimits, nalus: seq<Nalu>, i: nat, parts: seq<int>)
    requires ValidLimits(limits) && i < |nalus| && TooLong(limits, nalus, i)
    ensures Admissible(parts, |nalus[i]| - NAL_HEADER_SIZE, FuaLimits(limits, |nalus|, i))
            <==> FuaParts(limits, nalus, i, parts)
  {
    if |parts| == 1 { SumSingleton(parts); }
  }

  /** Fragmentation is refused only where no way to cut the NAL unit keeps the limits, and takes the fewest packets. */
  lemma FeasibleIsFragmentable(limits: PayloadSizeLimits, nalus: seq<Nalu>, i: nat)
    requires ValidLimits(limits) && i < |nalus| && TooLong(limits, nalus, i)
    ensures FuaFeasible(limits, nalus, i) <==> Fragmentable(limits, nalus, i)
    ensures FuaFeasible(limits, nalus, i) ==> FuaParts(limits, nalus, i, FuaSizes(limits, nalus, i))
    ensures forall parts :: FuaParts(limits, nalus, i, parts) ==> |FuaSizes(limits, nalus, i)| <= |parts|
  {
    SplitIsBest(|nalus[i]| - NAL_HEADER_SIZE, FuaLimits(limits, |nalus|, i));
    forall parts | FuaParts(limits, nalus, i, parts)
      ensures Admissible(parts, |nalus[i]| - NAL_HEADER_SIZE, FuaLimits(limits, |nalus|, i))
    {
      RewrittenLimits(limits, nalus, i, parts);
    }
    RewrittenLimits(limits, nalus, i, FuaSizes(limits, nalus, i));
  }

  /** The bytes of the aggregation packet with NAL units i..end; 0 while there are none. */
  function GroupSize(nalus: seq<Nalu>, i: nat, end: nat): nat
    requires i <= end <= |nalus|
  {
    if i == end then 0
    else
      GroupSize(nalus, i, end - 1) + |nalus[end - 1]| + LENGTH_FIELD_SIZE
      + (if end - 1 == i then NAL_HEADER_SIZE else 0)
  }

  /** NAL units i..end go into one aggregation packet, also if that packet is the last of the frame. */
  predicate GroupFits(limits: PayloadSizeLimits, nalus: seq<Nalu>, i: nat, end: nat)
    requires i <= end <= |nalus|
  {
    i == end
    || GroupSize(nalus, i, end) + (if |nalus| != 1 && end == |nalus| then limits.lastReduction else 0)
       < GroupCapacity(limits, |nalus|, i)
  }

  lemma {:induction false} GroupEndIsGreatest(limits: PayloadSizeLimits, nalus: seq<Nalu>, i: nat, j: nat)
    requires ValidLimits(limits) && i <= j <= |nalus| && i < |nalus| && GroupFits(limits, nalus, i, j)
    ensures var left := GroupCapacity(limits, |nalus|, i) - GroupSize(nalus, i, j);
            var end := GroupEnd(limits, nalus, j, left, if i == j then 3 else 2);
            && GroupFits(limits, nalus, i, end)
            && (forall e :: end < e <= |nalus| ==> !GroupFits(limits, nalus, i, e))
    decreases |nalus| - j
  {
    if j == |nalus| {
    } else {
      if GroupFits(limits, nalus, i, j + 1) {
        GroupEndIsGreatest(limits, nalus, i, j + 1);
      } else {
        forall e | j < e <= |nalus|
          ensures !GroupFits(limits, nalus, i, e)
        {
          GroupSizeGrows(nalus, i, j + 1, e);
        }
      }
    }
  }

  lemma {:induction false} GroupSizeGrows(nalus: seq<Nalu>, i: nat, e: nat, f: nat)
    requires i <= e <= f <= |nalus|
    ensures GroupSize(nalus, i, e) <= GroupSize(nalus, i, f)
    ensures e < f ==> GroupSize(nalus, i, e) < GroupSize(nalus, i, f)
    decreases f - e
  {
    if e == f {
    } else {
      GroupSizeGrows(nalus, i, e, f - 1);
    }
  }

  /** Aggregation is greedy: a group takes as many NAL units as fit. */
  lemma AggregationIsMaximal(limits: PayloadSizeLimits, nalus: seq<Nalu>, i: nat)
    requires ValidLimits(limits) && i < |nalus|
    ensures forall e :: i <= e <= |nalus| ==> (GroupFits(limits, nalus, i, e) <==> e <= StapAEnd(limits, nalus, i))
  {
    GroupEndIsGreatest(limits, nalus, i, i);
    var end := StapAEnd(limits, nalus, i);
    forall e | i <= e <= end
      ensures GroupFits(limits, nalus, i, e)
    {
      GroupSizeGrows(nalus, i, e, end);
    }
  }

  /** A group is empty exactly when its first NAL unit is in the gap, and no later member is in the gap or too long. */
  lemma GroupMembers(limits: PayloadSizeLimits, nalus: seq<Nalu>, i: nat)
    requires ValidLimits(limits) && NonEmpty(nalus) && i < |nalus| && !TooLong(limits, nalus, i)
    ensures StapAEnd(limits, nalus, i) == i <==> InGap(limits, nalus, i)
    ensures forall j :: i <= j < StapAEnd(limits, nalus, i) ==> Packetizable(limits, nalus, j)
  {
    AggregationIsMaximal(limits, nalus, i);
    var end := StapAEnd(limits, nalus, i);
    assert GroupSize(nalus, i, i + 1) == |nalus[i]| + 3 by { assert GroupSize(nalus, i, i) == 0; }
    assert GroupFits(limits, nalus, i, i + 1) <==> i + 1 <= end;
    forall j | i < j < end
      ensures Packetizable(limits, nalus, j)
    {
      GroupSizeGrows(nalus, i, i + 1, j);
      assert GroupFits(limits, nalus, i, j + 1);
    }
  }

  /** Every outcome of generation, told by the NAL units alone. */
  lemma {:induction false} OutcomeFrom(limits: PayloadSizeLimits, nalus: seq<Nalu>, i: nat)
    requires ValidLimits(limits) && NonEmpty(nalus) && i <= |nalus|
    ensures var outcome := PlanFrom(limits, NonInterleaved, nalus, i).outcome;
            && (outcome == Generated <==> forall j :: i <= j < |nalus| ==> Packetizable(limits, nalus, j))
            && (outcome == CheckFailed <==>
                  exists j :: i <= j < |nalus| && InGap(limits, nalus, j)
                              && forall k :: i <= k < j ==> Packetizable(limits, nalus, k))
    decreases |nalus| - i
  {
    hide Fragmentable, FuaFeasible, InGap, Packetizable, StapAEnd;
    if i == |nalus| {
    } else {
      var outcome := PlanFrom(limits, NonInterleaved, nalus, i).outcome;
      if TooLong(limits, nalus, i) {
        LongNalu(limits, nalus, i);
        if FuaFeasible(limits, nalus, i) {
          OutcomeFrom(limits, nalus, i + 1);
          OutcomeStep(limits, nalus, i, i + 1, outcome);
        } else {
          OutcomeStops(limits, nalus, i);
        }
      } else {
        var end := StapAEnd(limits, nalus, i);
        GroupMembers(limits, nalus, i);
        if end == i {
          OutcomeStops(limits, nalus, i);
        } else {
          OutcomeFrom(limits, nalus, end);
          OutcomeStep(limits, nalus, i, end, outcome);
        }
      }
    }
  }

  lemma LongNalu(limits: PayloadSizeLimits, nalus: seq<Nalu>, i: nat)
    requires ValidLimits(limits) && i < |nalus| && TooLong(limits, nalus, i)
    ensures !InGap(limits, nalus, i) && (Packetizable(limits, nalus, i) <==> FuaFeasible(limits, nalus, i))
  {
    FeasibleIsFragmentable(limits, nalus, i);
  }

  lemma OutcomeStops(limits: PayloadSizeLimits, nalus: seq<Nalu>, i: nat)
    requires i < |nalus| && (InGap(limits, nalus, i) || !Packetizable(limits, nalus, i))
    ensures !Packetizable(limits, nalus, i)
    ensures InGap(limits, nalus, i) <==>
              exists j :: i <= j < |nalus| && InGap(limits, nalus, j)
                          && forall k :: i <= k < j ==> Packetizable(limits, nalus, k)
  {
    hide InGap;
  }

  lemma OutcomeStep(limits: PayloadSizeLimits, nalus: seq<Nalu>, i: nat, next: nat, outcome: Outcome)
    requires i < next <= |nalus|
    requires forall j :: i <= j < next ==> Packetizable(limits, nalus, j)
    requires outcome == Generated <==> forall j :: next <= j < |nalus| ==> Packetizable(limits, nalus, j)
    requires outcome == CheckFailed <==>
               exists j :: next <= j < |nalus| && InGap(limits, nalus, j)
                           && forall k :: next <= k < j ==> Packetizable(limits, nalus, k)
    ensures outcome == Generated <==> forall j :: i <= j < |nalus| ==> Packetizable(limits, nalus, j)
    ensures outcome == CheckFailed <==>
              exists j :: i <= j < |nalus| && InGap(limits, nalus, j)
                          && forall k :: i <= k < j ==> Packetizable(limits, nalus, k)
  {
    forall j | i <= j < next
      ensures !InGap(limits, nalus, j)
    {
      assert Packetizable(limits, nalus, j);
    }
  }

  /** Without aggregation, generation stops at the first NAL unit that is too long, after a packet for each before. */
  lemma {:induction false} SingleNaluOutcome(limits: PayloadSizeLimits, nalus: seq<Nalu>, i: nat)
    requires ValidLimits(limits) && NonEmpty(nalus) && i <= |nalus|
    ensures var plan := PlanFrom(limits, SingleNalUnit, nalus, i);
            var stop := i + |plan.packets|;
            && stop <= |nalus| && (forall j :: i <= j < stop ==> !TooLong(limits, nalus, j))
            && (plan.outcome == Refused <==> exists j :: i <= j < |nalus| && TooLong(limits, nalus, j))
            && (plan.outcome == Refused ==> stop < |nalus| && TooLong(limits, nalus, stop))
            && (plan.outcome == Generated <==> stop == |nalus|)
            && plan.outcome != CheckFailed
    decreases |nalus| - i
  {
    if i == |nalus| || TooLong(limits, nalus, i) {
    } else {
      SingleNaluOutcome(limits, nalus, i + 1);
    }
  }

  // ---------- Groups of one ----------

  /**
   Whether grouping, resumed at NAL unit i, makes a group of a single one: told by the lengths, going from the
   start of each group to the next.
   */
  predicate LoneFrom(limits: PayloadSizeLimits, nalus: seq<Nalu>, i: nat)
    requires i <= |nalus|
    decreases |nalus| - i
  {
    i < |nalus| &&
    if TooLong(limits, nalus, i) then LoneFrom(limits, nalus, i + 1)
    else
      var end := StapAEnd(limits, nalus, i);
      end == i + 1 || (end > i && LoneFrom(limits, nalus, end))
  }

  /** A NAL unit stays alone in its group if it is outside the gap and, with the next one, would be too large. */
  lemma AloneExactly(limits: PayloadSizeLimits, nalus: seq<Nalu>, i: nat)
    requires ValidLimits(limits) && NonEmpty(nalus) && i < |nalus| && !TooLong(limits, nalus, i)
    ensures StapAEnd(limits, nalus, i) == i + 1 <==>
            !InGap(limits, nalus, i) && (i + 1 == |nalus| || !GroupFits(limits, nalus, i, i + 2))
  {
    GroupMembers(limits, nalus, i);
    AggregationIsMaximal(limits, nalus, i);
  }

  lemma DeployedFragmentable(nalus: seq<Nalu>, i: nat)
    requires i < |nalus| && TooLong(DEFAULT_LIMITS, nalus, i)
    ensures Fragmentable(DEFAULT_LIMITS, nalus, i)
  {
    FeasibleIsFragmentable(DEFAULT_LIMITS, nalus, i);
    var payloadLen, fuaLimits := |nalus[i]| - NAL_HEADER_SIZE, FuaLimits(DEFAULT_LIMITS, |nalus|, i);
    NumPacketsIsLeast(payloadLen, fuaLimits);
    assert TotalBytes(payloadLen, fuaLimits) <= payloadLen * fuaLimits.maxPayloadLen;
    ChosenSplit(payloadLen, fuaLimits);
  }

  /** With the deployed limits fragmentation never fails, so only the gap of 1197 to 1200 bytes is left. */
  lemma DeployedOutcome(nalus: seq<Nalu>)
    requires NonEmpty(nalus)
    ensures var outcome := PlanFrom(DEFAULT_LIMITS, NonInterleaved, nalus, 0).outcome;
            && (outcome == CheckFailed <==> exists i :: 0 <= i < |nalus| && 1197 <= |nalus[i]| <= 1200)
            && (outcome != CheckFailed ==> outcome == Generated)
  {
    OutcomeFrom(DEFAULT_LIMITS, nalus, 0);
    forall i | 0 <= i < |nalus|
      ensures InGap(DEFAULT_LIMITS, nalus, i) <==> 1197 <= |nalus[i]| <= 1200
      ensures Packetizable(DEFAULT_LIMITS, nalus, i) <==> !InGap(DEFAULT_LIMITS, nalus, i)
    {
      if TooLong(DEFAULT_LIMITS, nalus, i) { DeployedFragmentable(nalus, i); }
    }
    if i :| 0 <= i < |nalus| && InGap(DEFAULT_LIMITS, nalus, i) {
      LeastGap(DEFAULT_LIMITS, nalus, i);
    }
  }

  /** Without aggregation, a NAL unit that is too long, but is not the first, is refused when packets were counted. */
  predicate LeavesCount(mode: Mode, nalus: seq<Nalu>) {
    mode == SingleNalUnit && nalus != [] && |nalus[0]| <= 1200 && exists j :: 0 <= j < |nalus| && |nalus[j]| > 1200
  }

  lemma RefusedAfterPackets(mode: Mode, nalus: seq<Nalu>)
    requires NonEmpty(nalus)
    ensures var plan := PlanFrom(DEFAULT_LIMITS, mode, nalus, 0);
            plan.outcome == Refused && plan.packets != [] <==> LeavesCount(mode, nalus)
  {
    match mode
    case SingleNalUnit =>
      SingleNaluOutcome(DEFAULT_LIMITS, nalus, 0);
      assert forall j :: 0 <= j < |nalus| ==> (TooLong(DEFAULT_LIMITS, nalus, j) <==> |nalus[j]| > 1200);
    case NonInterleaved =>
      DeployedOutcome(nalus);
  }

  /** One such frame: a NAL unit of a byte, and one of 1201. */
  lemma ShortThenLong()
    ensures LeavesCount(SingleNalUnit, [[0], seq(1201, _ => 0)])
  {
    var nalus: seq<Nalu> := [[0], seq(1201, _ => 0)];
    assert |nalus[1]| > 1200;
  }

  lemma LeastGap(limits: PayloadSizeLimits, nalus: seq<Nalu>, i: nat)
    requires i < |nalus| && InGap(limits, nalus, i)
    ensures exists j ::
              && 0 <= j < |nalus| && InGap(limits, nalus, j)
              && forall k :: 0 <= k < j ==> !InGap(limits, nalus, k)
  {
    if exists k :: 0 <= k < i && InGap(limits, nalus, k) {
      var k :| 0 <= k < i && InGap(limits, nalus, k);
      LeastGap(limits, nalus, k);
    }
  }
}
