/** What the receiver reassembles is what the sender packetized. */
module FrameRoundTrip {
  import opened H264
  import opened Splitter
  import opened PacketPlan
  import opened PacketPayload
  import opened Reassembly

  /** r holds exactly the NAL unit: its type and, behind the header where it was fragmented, its bytes. */
  ghost predicate Holds(r: RecvNalu, nalu: Nalu, timestamp: nat) {
    && nalu != [] && r.timestamp == timestamp && r.naluType == TypeBits(nalu[0])
    && (r.startCodeLen == 3 || r.startCodeLen == 4)
    && ((r.packetizerMode == STAP_A && Concat(r.payloads) == nalu && r.totalLength == |nalu|)
        || (r.packetizerMode == FU_A && Concat(r.payloads) == nalu[1..] && r.totalLength == |nalu| - 1))
  }

  ghost predicate HoldAll(rs: seq<RecvNalu>, nalus: seq<Nalu>, timestamp: nat) {
    |rs| == |nalus| && forall i :: 0 <= i < |rs| ==> Holds(rs[i], nalus[i], timestamp)
  }

  // ---------- Aggregation packets ----------

  function StapANalus(nalus: seq<Nalu>, timestamp: nat): (rs: seq<RecvNalu>)
    requires NonEmpty(nalus)
    ensures |rs| == |nalus|
  {
    seq(|nalus|, i requires 0 <= i < |nalus| => StapANalu(nalus[i][0], nalus[i], timestamp))
  }

  lemma StapANalusHold(nalus: seq<Nalu>, timestamp: nat)
    requires NonEmpty(nalus)
    ensures HoldAll(StapANalus(nalus, timestamp), nalus, timestamp)
  {
    forall i | 0 <= i < |nalus|
      ensures Concat([nalus[i]]) == nalus[i]
    {
      ConcatOne(nalus[i]);
    }
  }

  lemma StapANalusCons(nalus: seq<Nalu>, timestamp: nat)
    requires nalus != [] && NonEmpty(nalus)
    ensures StapANalus(nalus, timestamp) ==
            [StapANalu(nalus[0][0], nalus[0], timestamp)] + StapANalus(nalus[1..], timestamp)
  {
  }

  lemma StapANalusJoin(nalus: seq<Nalu>, timestamp: nat, acc: seq<RecvNalu>)
    requires nalus != [] && NonEmpty(nalus)
    ensures (acc + [StapANalu(nalus[0][0], nalus[0], timestamp)]) + StapANalus(nalus[1..], timestamp) ==
            acc + StapANalus(nalus, timestamp)
  {
    StapANalusCons(nalus, timestamp);
    Associative(acc, [StapANalu(nalus[0][0], nalus[0], timestamp)], StapANalus(nalus[1..], timestamp));
  }

  /** Lengths that fit the 16-bit field of an aggregation packet. */
  ghost predicate ShortEnough(nalus: seq<Nalu>) {
    forall i :: 0 <= i < |nalus| ==> |nalus[i]| < 65536
  }

  lemma ParseStapAStep(data: Bytes, offset: nat, nalu: Nalu, rest: Bytes, timestamp: nat, acc: seq<RecvNalu>)
    requires offset <= |data| && data[offset..] == WriteUint16(|nalu|) + nalu + rest
    requires 0 < |nalu| < 65536
    ensures offset + 2 + |nalu| <= |data| && data[offset + 2 + |nalu|..] == rest
    ensures ParseStapAFrom(data, offset, timestamp, acc)
            == ParseStapAFrom(data, offset + 2 + |nalu|, timestamp, acc + [StapANalu(nalu[0], nalu, timestamp)])
  {
    var tail := data[offset..];
    assert data[offset..offset + 2] == tail[..2] == WriteUint16(|nalu|);
    assert data[offset + 2..offset + 2 + |nalu|] == tail[2..2 + |nalu|] == nalu;
    assert data[offset + 2 + |nalu|..] == tail[2 + |nalu|..] == rest;
    assert data[offset + 2] == nalu[0];
    Uint16RoundTrip(|nalu|);
  }

  lemma ParseStapAEnd(data: Bytes, timestamp: nat, acc: seq<RecvNalu>)
    ensures ParseStapAFrom(data, |data|, timestamp, acc) == Result(Accepted, acc + StapANalus([], timestamp))
  {
    assert acc + StapANalus([], timestamp) == acc;
  }

  lemma StapABodyOf(nalus: seq<Nalu>)
    requires nalus != [] && NonEmpty(nalus) && ShortEnough(nalus)
    ensures 0 < |nalus[0]| < 65536 && NonEmpty(nalus[1..]) && ShortEnough(nalus[1..])
    ensures StapABody(nalus) == WriteUint16(|nalus[0]|) + nalus[0] + StapABody(nalus[1..])
  {
  }

  lemma ParseFirstUnit(data: Bytes, offset: nat, nalus: seq<Nalu>, timestamp: nat, acc: seq<RecvNalu>)
    requires nalus != [] && NonEmpty(nalus) && ShortEnough(nalus)
    requires offset <= |data| && data[offset..] == StapABody(nalus)
    ensures var next := offset + 2 + |nalus[0]|;
            && nalus[0] != [] && next <= |data| && data[next..] == StapABody(nalus[1..])
            && ParseStapAFrom(data, offset, timestamp, acc)
               == ParseStapAFrom(data, next, timestamp, acc + [StapANalu(nalus[0][0], nalus[0], timestamp)])
  {
    hide StapANalu, WriteUint16, StapABody, ParseStapAFrom, NonEmpty, ShortEnough;
    StapABodyOf(nalus);
    ParseStapAStep(data, offset, nalus[0], StapABody(nalus[1..]), timestamp, acc);
  }

  lemma {:induction false} ParseStapABody(data: Bytes, offset: nat, nalus: seq<Nalu>, timestamp: nat,
      acc: seq<RecvNalu>)
    requires NonEmpty(nalus) && ShortEnough(nalus)
    requires offset <= |data| && data[offset..] == StapABody(nalus)
    ensures ParseStapAFrom(data, offset, timestamp, acc) == Result(Accepted, acc + StapANalus(nalus, timestamp))
    decreases |nalus|
  {
    if nalus == [] {
      hide StapANalus, ParseStapAFrom;
      ParseStapAEnd(data, timestamp, acc);
    } else {
      hide StapANalus, StapANalu, StapABody, ParseStapAFrom;
      StapANalusJoin(nalus, timestamp, acc);
      ParseFirstUnit(data, offset, nalus, timestamp, acc);
      var first := StapANalu(nalus[0][0], nalus[0], timestamp);
      ParseStapABody(data, offset + 2 + |nalus[0]|, nalus[1..], timestamp, acc + [first]);
    }
  }

  lemma ParseAggregate(nalus: seq<Nalu>, timestamp: nat, acc: seq<RecvNalu>)
    requires |nalus| >= 2 && NonEmpty(nalus) && ShortEnough(nalus)
    ensures ParsePacket(Payload(Aggregate(nalus)), timestamp, acc)
            == Result(Accepted, acc + StapANalus(nalus, timestamp))
  {
    ParseStapABody(Payload(Aggregate(nalus)), 1, nalus, timestamp, acc);
  }

  // ---------- Fragments ----------

  function Payloads(packets: seq<WirePacket>): (payloads: seq<Bytes>)
    requires AllWellFormed(packets)
    ensures |payloads| == |packets|
  {
    seq(|packets|, i requires 0 <= i < |packets| => Payload(packets[i]))
  }

  lemma PayloadsAppend(xs: seq<WirePacket>, ys: seq<WirePacket>)
    requires AllWellFormed(xs) && AllWellFormed(ys)
    ensures AllWellFormed(xs + ys) && Payloads(xs + ys) == Payloads(xs) + Payloads(ys)
  {
    assert forall k :: 0 <= k < |ys| ==> (xs + ys)[|xs| + k] == ys[k];
  }

  /** The NAL header is sent split over FU indicator and FU header, and recoverable from every fragment. */
  lemma FuHeaderRecoverable(w: WirePacket)
    requires WellFormed(w) && w.FuFragment?
    ensures var data := Payload(w);
            && FAndNri(data[0]) + TypeBits(data[1]) == w.nalu[0]
            && TypeBits(data[0]) == FU_A
            && (TopBit(data[1]) <==> w.first)
            && data[2..] == w.nalu[w.lo..w.hi]
  {
  }

  /** r holds the fragmented NAL unit up to byte hi. */
  ghost predicate HoldsUpto(r: RecvNalu, nalu: Nalu, hi: nat, timestamp: nat) {
    && 1 <= hi <= |nalu| && r.timestamp == timestamp && r.naluType == TypeBits(nalu[0])
    && (r.startCodeLen == 3 || r.startCodeLen == 4)
    && r.packetizerMode == FU_A && Concat(r.payloads) == nalu[1..hi] && r.totalLength == hi - 1
  }

  lemma ParseFirstFragment(w: WirePacket, timestamp: nat, acc: seq<RecvNalu>)
    requires WellFormed(w) && w.FuFragment? && w.first
    ensures var r := ParsePacket(Payload(w), timestamp, acc);
            r.outcome == Accepted && |r.nalus| == |acc| + 1 && r.nalus[..|acc|] == acc
            && HoldsUpto(r.nalus[|acc|], w.nalu, w.hi, timestamp)
            && r.nalus[|acc|].startCodeLen == FuAStartCodeLen(TypeBits(w.nalu[0]), timestamp, acc)
  {
    FuHeaderRecoverable(w);
    var data := Payload(w)[2..];
    ConcatOne(data);
  }

  lemma ParseNextFragment(w: WirePacket, timestamp: nat, acc: seq<RecvNalu>, r: RecvNalu)
    requires WellFormed(w) && w.FuFragment? && !w.first && HoldsUpto(r, w.nalu, w.lo, timestamp)
    ensures var s := r.OnNewPacket(w.nalu[w.lo..w.hi]);
            ParsePacket(Payload(w), timestamp, acc + [r]) == Result(Accepted, acc + [s])
            && HoldsUpto(s, w.nalu, w.hi, timestamp)
  {
    FuHeaderRecoverable(w);
    var data := w.nalu[w.lo..w.hi];
    hide Concat;
    ConcatAppend(r.payloads, [data]);
    ConcatOne(data);
    assert w.nalu[1..w.lo] + data == w.nalu[1..w.hi];
    ReplaceLast(acc, r, r.OnNewPacket(data));
  }

  /** The fragments behind the first one are appended to the NAL unit under reassembly. */
  lemma {:induction false} ParseTail(packets: seq<WirePacket>, nalu: Nalu, lo: nat, timestamp: nat,
      acc: seq<RecvNalu>, r: RecvNalu)
    requires 1 < lo && Tiles(packets, nalu, lo, false) && AllWellFormed(packets)
    requires HoldsUpto(r, nalu, lo, timestamp)
    ensures var result := ParsePackets(Payloads(packets), timestamp, acc + [r]);
            result.outcome == Accepted && |result.nalus| == |acc| + 1 && result.nalus[..|acc|] == acc
            && Holds(result.nalus[|acc|], nalu, timestamp) && result.nalus[|acc|].startCodeLen == r.startCodeLen
    decreases |packets|
  {
    var w := packets[0];
    var s := r.OnNewPacket(nalu[w.lo..w.hi]);
    ParseNextFragment(w, timestamp, acc, r);
    assert Payloads(packets)[1..] == Payloads(packets[1..]);
    if |packets| > 1 {
      ParseTail(packets[1..], nalu, w.hi, timestamp, acc, s);
    } else {
      assert nalu[1..w.hi] == nalu[1..];
      assert (acc + [s])[..|acc|] == acc;
    }
  }

  lemma ParseFragments(packets: seq<WirePacket>, nalu: Nalu, timestamp: nat, acc: seq<RecvNalu>)
    requires |packets| >= 2 && Tiles(packets, nalu, 1, true) && AllWellFormed(packets)
    ensures var result := ParsePackets(Payloads(packets), timestamp, acc);
            result.outcome == Accepted && |result.nalus| == |acc| + 1 && result.nalus[..|acc|] == acc
            && Holds(result.nalus[|acc|], nalu, timestamp)
            && result.nalus[|acc|].startCodeLen == FuAStartCodeLen(TypeBits(nalu[0]), timestamp, acc)
  {
    var w := packets[0];
    ParseFirstFragment(w, timestamp, acc);
    var first := ParsePacket(Payload(w), timestamp, acc).nalus;
    assert first == acc + [first[|acc|]];
    assert Payloads(packets)[1..] == Payloads(packets[1..]);
    ParseTail(packets[1..], nalu, w.hi, timestamp, acc, first[|acc|]);
  }

  // ---------- Whole frames ----------

  /** Every aggregation packet holds at least two NAL units; otherwise it would be sent without its header. */
  ghost predicate AllAggregated(packets: seq<WirePacket>) {
    forall k :: 0 <= k < |packets| ==> (packets[k].Aggregate? ==> |packets[k].nalus| >= 2)
  }

  /**
   The receiver's own rule for start codes, told by the NAL units sent: one of 4 bytes for a parameter set that was
   aggregated, and for a fragmented NAL unit at the start of its frame unless that is SEI; 3 bytes for all others.
   */
  predicate HasLongCode(limits: PayloadSizeLimits, nalus: seq<Nalu>, i: nat)
    requires i < |nalus| && nalus[i] != []
  {
    var naluType := nalus[i][0] % 32;
    if TooLong(limits, nalus, i) then i == 0 && naluType != 6 else naluType == 7 || naluType == 8
  }

  /** r is NAL unit i of a frame as received: what it holds, and its start code. */
  ghost predicate IsNalu(r: RecvNalu, limits: PayloadSizeLimits, nalus: seq<Nalu>, i: nat, timestamp: nat)
    requires i < |nalus|
  {
    Holds(r, nalus[i], timestamp) && r.startCodeLen == if HasLongCode(limits, nalus, i) then 4 else 3
  }

  ghost predicate AreNalus(rs: seq<RecvNalu>, limits: PayloadSizeLimits, nalus: seq<Nalu>, i: nat, next: nat,
      timestamp: nat)
    requires i <= next <= |nalus|
  {
    |rs| == next - i && forall k :: 0 <= k < |rs| ==> IsNalu(rs[k], limits, nalus, i + k, timestamp)
  }

  /** What has been received of a frame before NAL unit i; the last of it decides on a start code. */
  ghost predicate Precedes(acc: seq<RecvNalu>, i: nat, timestamp: nat) {
    (acc == [] <==> i == 0)
    && (acc != [] ==>
          var last := acc[|acc| - 1];
          last.timestamp == timestamp && (last.startCodeLen == 3 || last.startCodeLen == 4))
  }

  lemma FragmentedIsNalu(r: RecvNalu, limits: PayloadSizeLimits, nalus: seq<Nalu>, i: nat, timestamp: nat,
      acc: seq<RecvNalu>)
    requires i < |nalus| && TooLong(limits, nalus, i) && Holds(r, nalus[i], timestamp) && Precedes(acc, i, timestamp)
    requires nalus[i] != [] && r.startCodeLen == FuAStartCodeLen(TypeBits(nalus[i][0]), timestamp, acc)
    ensures AreNalus([r], limits, nalus, i, i + 1, timestamp)
  {
  }

  lemma AggregatedAreNalus(limits: PayloadSizeLimits, nalus: seq<Nalu>, i: nat, timestamp: nat)
    requires ValidLimits(limits) && NonEmpty(nalus) && i < |nalus| && !TooLong(limits, nalus, i)
    ensures AreNalus(StapANalus(nalus[i..StapAEnd(limits, nalus, i)], timestamp), limits, nalus, i,
              StapAEnd(limits, nalus, i), timestamp)
  {
    var end := StapAEnd(limits, nalus, i);
    GroupMembers(limits, nalus, i);
    StapANalusHold(nalus[i..end], timestamp);
    NoneTooLong(limits, nalus, i);
  }

  /** No member of a group is too long. */
  lemma NoneTooLong(limits: PayloadSizeLimits, nalus: seq<Nalu>, i: nat)
    requires ValidLimits(limits) && NonEmpty(nalus) && i < |nalus| && !TooLong(limits, nalus, i)
    ensures forall j :: i <= j < StapAEnd(limits, nalus, i) ==> !TooLong(limits, nalus, j)
  {
    AggregationIsMaximal(limits, nalus, i);
    forall j | i < j < StapAEnd(limits, nalus, i)
      ensures !TooLong(limits, nalus, j)
    {
      GroupSizeGrows(nalus, i, i + 1, j);
      assert GroupFits(limits, nalus, i, j + 1);
    }
  }

  /** What the packets that take a frame from NAL unit i to `next` add to what has been received. */
  ghost predicate Received(head: seq<WirePacket>, limits: PayloadSizeLimits, nalus: seq<Nalu>, i: nat, next: nat,
      timestamp: nat, acc: seq<RecvNalu>, middle: seq<RecvNalu>)
    requires i <= next <= |nalus|
  {
    && AllWellFormed(head) && ParsePackets(Payloads(head), timestamp, acc) == Result(Accepted, middle)
    && |acc| <= |middle| && middle[..|acc|] == acc
    && AreNalus(middle[|acc|..], limits, nalus, i, next, timestamp)
  }

  lemma FragmentsParse(limits: PayloadSizeLimits, nalus: seq<Nalu>, i: nat, timestamp: nat, acc: seq<RecvNalu>)
    returns (middle: seq<RecvNalu>)
    requires ValidLimits(limits) && i < |nalus| && TooLong(limits, nalus, i) && FuaFeasible(limits, nalus, i)
    requires Precedes(acc, i, timestamp)
    ensures Received(FuaPacketsOf(limits, nalus, i), limits, nalus, i, i + 1, timestamp, acc, middle)
  {
    hide FuaPacketsOf, TooLong, FuaFeasible, AreNalus, Holds;
    var head := FuaPacketsOf(limits, nalus, i);
    FuaPacketsOfTile(limits, nalus, i);
    ParseFragments(head, nalus[i], timestamp, acc);
    middle := ParsePackets(Payloads(head), timestamp, acc).nalus;
    FragmentedIsNalu(middle[|acc|], limits, nalus, i, timestamp, acc);
    assert middle[|acc|..] == [middle[|acc|]];
  }

  lemma GroupParses(limits: PayloadSizeLimits, nalus: seq<Nalu>, i: nat, timestamp: nat, acc: seq<RecvNalu>)
    returns (middle: seq<RecvNalu>)
    requires ValidLimits(limits) && limits.maxPayloadLen <= 65536 && NonEmpty(nalus)
    requires i < |nalus| && !TooLong(limits, nalus, i) && i + 2 <= StapAEnd(limits, nalus, i)
    ensures var end := StapAEnd(limits, nalus, i);
            Received([Aggregate(nalus[i..end])], limits, nalus, i, end, timestamp, acc, middle)
  {
    hide TooLong, StapAEnd, AreNalus, ParsePacket, Payload;
    var end := StapAEnd(limits, nalus, i);
    var group := nalus[i..end];
    var head := [Aggregate(group)];
    GroupIsShort(limits, nalus, i);
    ParseAggregate(group, timestamp, acc);
    ParseOne(Payload(head[0]), timestamp, acc);
    assert Payloads(head) == [Payload(head[0])];
    AggregatedAreNalus(limits, nalus, i, timestamp);
    middle := acc + StapANalus(group, timestamp);
    DropPrefix(acc, StapANalus(group, timestamp));
  }

  lemma {:induction false} FrameParsesFrom(limits: PayloadSizeLimits, nalus: seq<Nalu>, i: nat, timestamp: nat,
      acc: seq<RecvNalu>)
    requires ValidLimits(limits) && limits.maxPayloadLen <= 65536 && NonEmpty(nalus) && i <= |nalus|
    requires PlanFrom(limits, NonInterleaved, nalus, i).outcome == Generated
    requires AllAggregated(PlanFrom(limits, NonInterleaved, nalus, i).packets) && Precedes(acc, i, timestamp)
    ensures var packets := PlanFrom(limits, NonInterleaved, nalus, i).packets;
            AllWellFormed(packets) &&
            Received(packets, limits, nalus, i, |nalus|, timestamp, acc,
              ParsePackets(Payloads(packets), timestamp, acc).nalus)
    decreases |nalus| - i
  {
    PlanCompletes(limits, NonInterleaved, nalus, i);
    var packets := PlanFrom(limits, NonInterleaved, nalus, i).packets;
    if i == |nalus| {
    } else {
      hide FuaPacketsOf, FuaFeasible, TooLong, StapAEnd, Received, Precedes, NonEmpty, ValidLimits, ParsePackets;
      var head, next, middle;
      if TooLong(limits, nalus, i) {
        head, next := FuaPacketsOf(limits, nalus, i), i + 1;
        middle := FragmentsParse(limits, nalus, i, timestamp, acc);
      } else {
        next := StapAEnd(limits, nalus, i);
        head := [Aggregate(nalus[i..next])];
        assert head[0] == packets[0];
        middle := GroupParses(limits, nalus, i, timestamp, acc);
      }
      var rest := PlanFrom(limits, NonInterleaved, nalus, next).packets;
      SubPlan(packets, head, rest);
      StillPrecedes(acc, middle, head, limits, nalus, i, next, timestamp);
      FrameParsesFrom(limits, nalus, next, timestamp, middle);
      ReceivedStep(head, rest, limits, nalus, i, next, timestamp, acc, middle);
    }
  }

  lemma ReceivedStep(head: seq<WirePacket>, rest: seq<WirePacket>, limits: PayloadSizeLimits, nalus: seq<Nalu>, i: nat,
      next: nat, timestamp: nat, acc: seq<RecvNalu>, middle: seq<RecvNalu>)
    requires i <= next <= |nalus| && AllWellFormed(rest)
    requires Received(head, limits, nalus, i, next, timestamp, acc, middle)
    requires Received(rest, limits, nalus, next, |nalus|, timestamp, middle,
               ParsePackets(Payloads(rest), timestamp, middle).nalus)
    ensures AllWellFormed(head + rest)
    ensures Received(head + rest, limits, nalus, i, |nalus|, timestamp, acc,
              ParsePackets(Payloads(head + rest), timestamp, acc).nalus)
  {
    hide ParsePackets, AreNalus;
    PayloadsAppend(head, rest);
    ParseAppend(Payloads(head), Payloads(rest), timestamp, acc);
    NalusStep(acc, middle, ParsePackets(Payloads(rest), timestamp, middle).nalus, limits, nalus, i, next, timestamp);
  }

  lemma SubPlan(packets: seq<WirePacket>, head: seq<WirePacket>, rest: seq<WirePacket>)
    requires packets == head + rest && AllWellFormed(packets) && AllAggregated(packets)
    ensures AllWellFormed(head) && AllWellFormed(rest) && AllAggregated(head) && AllAggregated(rest)
  {
    assert forall k :: 0 <= k < |head| ==> head[k] == packets[k];
    assert forall k :: 0 <= k < |rest| ==> rest[k] == packets[|head| + k];
  }

  lemma ParseOne(data: Bytes, timestamp: nat, acc: seq<RecvNalu>)
    requires ParsePacket(data, timestamp, acc).outcome == Accepted
    ensures ParsePackets([data], timestamp, acc) == ParsePacket(data, timestamp, acc)
  {
    var packets: seq<Bytes> := [data];
    assert packets[1..] == [];
  }

  /** A NAL unit in a group is shorter than the group's packet. */
  lemma GroupIsShort(limits: PayloadSizeLimits, nalus: seq<Nalu>, i: nat)
    requires ValidLimits(limits) && limits.maxPayloadLen <= 65536 && NonEmpty(nalus) && i < |nalus|
    ensures ShortEnough(nalus[i..StapAEnd(limits, nalus, i)])
  {
    var end := StapAEnd(limits, nalus, i);
    AggregationIsMaximal(limits, nalus, i);
    assert GroupFits(limits, nalus, i, end);
    forall j | i <= j < end
      ensures |nalus[j]| < 65536
    {
      GroupSizeGrows(nalus, i, j + 1, end);
    }
  }

  lemma StillPrecedes(acc: seq<RecvNalu>, middle: seq<RecvNalu>, head: seq<WirePacket>, limits: PayloadSizeLimits,
      nalus: seq<Nalu>, i: nat, next: nat, timestamp: nat)
    requires i < next <= |nalus| && Received(head, limits, nalus, i, next, timestamp, acc, middle)
    ensures Precedes(middle, next, timestamp)
  {
    assert IsNalu(middle[|acc|..][next - i - 1], limits, nalus, next - 1, timestamp);
  }

  /** Gluing together what a step and the rest of the frame add. */
  lemma NalusStep(acc: seq<RecvNalu>, middle: seq<RecvNalu>, final: seq<RecvNalu>, limits: PayloadSizeLimits,
      nalus: seq<Nalu>, i: nat, next: nat, timestamp: nat)
    requires i <= next <= |nalus| && |acc| <= |middle| <= |final|
    requires middle[..|acc|] == acc && AreNalus(middle[|acc|..], limits, nalus, i, next, timestamp)
    requires final[..|middle|] == middle && AreNalus(final[|middle|..], limits, nalus, next, |nalus|, timestamp)
    ensures final[..|acc|] == acc && AreNalus(final[|acc|..], limits, nalus, i, |nalus|, timestamp)
  {
    hide IsNalu;
    forall k | 0 <= k < |final| - |acc|
      ensures IsNalu(final[|acc|..][k], limits, nalus, i + k, timestamp)
    {
      if k < next - i {
        assert final[|acc|..][k] == middle[|acc|..][k];
      } else {
        assert final[|acc|..][k] == final[|middle|..][k - (next - i)];
      }
    }
    assert final[..|acc|] == middle[..|acc|];
  }

  /**
   The round trip of a frame: parsing the payloads of its packets in order yields its NAL units in order.
   The length field of an aggregation packet has 16 bits, hence the bound on the packet size.
   */
  lemma FrameArrives(limits: PayloadSizeLimits, nalus: seq<Nalu>, timestamp: nat)
    requires ValidLimits(limits) && limits.maxPayloadLen <= 65536 && NonEmpty(nalus)
    requires PlanFrom(limits, NonInterleaved, nalus, 0).outcome == Generated
    requires AllAggregated(PlanFrom(limits, NonInterleaved, nalus, 0).packets)
    ensures var packets := PlanFrom(limits, NonInterleaved, nalus, 0).packets;
            AllWellFormed(packets)
            && var result := ParsePackets(Payloads(packets), timestamp, []);
            result.outcome == Accepted && HoldAll(result.nalus, nalus, timestamp)
            && (forall k :: 0 <= k < |nalus| ==>
                  result.nalus[k].startCodeLen == if HasLongCode(limits, nalus, k) then 4 else 3)
            && DeliverableSize(result.nalus) == TotalLength(nalus) + 3 * |nalus| + LongCodes(limits, nalus, 0)
  {
    FrameParsesFrom(limits, nalus, 0, timestamp, []);
    var result := ParsePackets(Payloads(PlanFrom(limits, NonInterleaved, nalus, 0).packets), timestamp, []);
    assert result.nalus[0..] == result.nalus && nalus[0..] == nalus;
    assert forall k :: 0 <= k < |nalus| ==> IsNalu(result.nalus[k], limits, nalus, k, timestamp);
    SizeOfNalus(result.nalus, limits, nalus, 0, timestamp);
  }

  /** How many of the NAL units from i on get a start code of 4 bytes. */
  function LongCodes(limits: PayloadSizeLimits, nalus: seq<Nalu>, i: nat): nat
    requires NonEmpty(nalus) && i <= |nalus|
    decreases |nalus| - i
  {
    if i == |nalus| then 0 else LongCodes(limits, nalus, i + 1) + if HasLongCode(limits, nalus, i) then 1 else 0
  }

  function TotalLength(nalus: seq<Nalu>): nat {
    if nalus == [] then 0 else |nalus[0]| + TotalLength(nalus[1..])
  }

  lemma {:induction false} SizeOfNalus(rs: seq<RecvNalu>, limits: PayloadSizeLimits, nalus: seq<Nalu>, i: nat,
      timestamp: nat)
    requires NonEmpty(nalus) && i <= |nalus| && AreNalus(rs, limits, nalus, i, |nalus|, timestamp)
    ensures DeliverableSize(rs) == TotalLength(nalus[i..]) + 3 * (|nalus| - i) + LongCodes(limits, nalus, i)
    decreases |nalus| - i
  {
    if i == |nalus| {
    } else {
      assert IsNalu(rs[0], limits, nalus, i, timestamp);
      assert nalus[i..][1..] == nalus[i + 1..];
      hide IsNalu;
      assert forall k :: 0 <= k < |rs| - 1 ==> rs[1..][k] == rs[k + 1];
      SizeOfNalus(rs[1..], limits, nalus, i + 1, timestamp);
    }
  }

  // ---------- Lone NAL units ----------

  /** The packets show what the lengths said: no group of one. */
  lemma {:induction false} AggregatedExactly(limits: PayloadSizeLimits, nalus: seq<Nalu>, i: nat)
    requires ValidLimits(limits) && NonEmpty(nalus) && i <= |nalus|
    requires PlanFrom(limits, NonInterleaved, nalus, i).outcome == Generated
    ensures AllAggregated(PlanFrom(limits, NonInterleaved, nalus, i).packets) <==> !LoneFrom(limits, nalus, i)
    decreases |nalus| - i
  {
    if i == |nalus| {
    } else {
      hide AllAggregated, FuaPacketsOf, StapAEnd, NonEmpty;
      if TooLong(limits, nalus, i) {
        hide TooLong;
        AggregatedExactly(limits, nalus, i + 1);
        FragmentsAreAggregated(limits, nalus, i);
        AggregatedParts(FuaPacketsOf(limits, nalus, i), PlanFrom(limits, NonInterleaved, nalus, i + 1).packets);
      } else {
        hide TooLong;
        var end := StapAEnd(limits, nalus, i);
        AggregatedExactly(limits, nalus, end);
        GroupIsAggregated(nalus[i..end]);
        AggregatedParts([Aggregate(nalus[i..end])], PlanFrom(limits, NonInterleaved, nalus, end).packets);
      }
    }
  }

  /** The start codes and the size of a frame that arrives, from its NAL units alone. */
  lemma ReceivedSize(limits: PayloadSizeLimits, nalus: seq<Nalu>, timestamp: nat)
    requires ValidLimits(limits) && limits.maxPayloadLen <= 65536 && NonEmpty(nalus)
    requires PlanFrom(limits, NonInterleaved, nalus, 0).outcome == Generated && !LoneFrom(limits, nalus, 0)
    ensures AllWellFormed(PlanFrom(limits, NonInterleaved, nalus, 0).packets)
    ensures var result := ParsePackets(Payloads(PlanFrom(limits, NonInterleaved, nalus, 0).packets), timestamp, []);
            && |result.nalus| == |nalus|
            && (forall k :: 0 <= k < |nalus| ==>
                  result.nalus[k].startCodeLen == if HasLongCode(limits, nalus, k) then 4 else 3)
            && DeliverableSize(result.nalus) == TotalLength(nalus) + 3 * |nalus| + LongCodes(limits, nalus, 0)
  {
    AggregatedExactly(limits, nalus, 0);
    FrameArrives(limits, nalus, timestamp);
  }

  lemma GroupIsAggregated(group: seq<Nalu>)
    ensures AllAggregated([Aggregate(group)]) <==> |group| >= 2
  {
    assert [Aggregate(group)][0] == Aggregate(group);
  }

  lemma FragmentsAreAggregated(limits: PayloadSizeLimits, nalus: seq<Nalu>, i: nat)
    requires ValidLimits(limits) && i < |nalus| && TooLong(limits, nalus, i) && FuaFeasible(limits, nalus, i)
    ensures AllAggregated(FuaPacketsOf(limits, nalus, i))
  {
    hide FuaPackets, FuaSizes, FuaFeasible;
    FuaPacketsAreFragments(nalus[i], FuaSizes(limits, nalus, i), 0, NAL_HEADER_SIZE);
    var packets := FuaPacketsOf(limits, nalus, i);
    assert forall k :: 0 <= k < |packets| ==> packets[k] in packets;
  }

  lemma {:induction false} FuaPacketsAreFragments(nalu: Nalu, sizes: seq<int>, k: nat, offset: int)
    requires k <= |sizes|
    ensures forall w :: w in FuaPackets(nalu, sizes, k, offset) ==> w.FuFragment?
    decreases |sizes| - k
  {
    if k == |sizes| {
    } else {
      FuaPacketsAreFragments(nalu, sizes, k + 1, offset + sizes[k]);
    }
  }

  lemma AggregatedParts(head: seq<WirePacket>, rest: seq<WirePacket>)
    ensures AllAggregated(head + rest) <==> AllAggregated(head) && AllAggregated(rest)
  {
    if AllAggregated(head + rest) {
      forall k | 0 <= k < |rest|
        ensures rest[k].Aggregate? ==> |rest[k].nalus| >= 2
      {
        assert rest[k] == (head + rest)[|head| + k];
      }
      forall k | 0 <= k < |head|
        ensures head[k].Aggregate? ==> |head[k].nalus| >= 2
      {
        assert head[k] == (head + rest)[k];
      }
    }
  }

  /** The bytes of a NAL unit that the receiver has gathered. */
  function Gathered(rs: seq<RecvNalu>): nat {
    if rs == [] then 0
    else
      var r := rs[|rs| - 1];
      Gathered(rs[..|rs| - 1]) + |Concat(r.payloads)| + if r.packetizerMode == FU_A then 1 else 0
  }

  lemma GatheredSnoc(rs: seq<RecvNalu>, r: RecvNalu)
    ensures Gathered(rs + [r]) == Gathered(rs) + |Concat(r.payloads)| + if r.packetizerMode == FU_A then 1 else 0
  {
    assert (rs + [r])[..|rs|] == rs;
  }

  lemma {:induction false} GatheredHeld(acc: seq<RecvNalu>, rs: seq<RecvNalu>, nalus: seq<Nalu>, timestamp: nat)
    requires HoldAll(rs, nalus, timestamp)
    ensures Gathered(acc + rs) == Gathered(acc) + TotalLength(nalus)
    decreases |rs|
  {
    if rs == [] {
      assert acc + rs == acc;
    } else {
      assert Holds(rs[0], nalus[0], timestamp);
      GatheredSnoc(acc, rs[0]);
      GatheredHeld(acc + [rs[0]], rs[1..], nalus[1..], timestamp);
      assert acc + rs == acc + [rs[0]] + rs[1..];
    }
  }

  /** One length field and its NAL unit. */
  lemma GatheredStep(data: Bytes, offset: nat, timestamp: nat, acc: seq<RecvNalu>)
    returns (nalu: RecvNalu, next: nat)
    requires offset + 2 < |data|
    ensures next >= offset + 2
    ensures ParseStapAFrom(data, offset, timestamp, acc) == ParseStapAFrom(data, next, timestamp, acc + [nalu])
    ensures next >= |data| ==> ParseStapAFrom(data, next, timestamp, acc + [nalu]).nalus == acc + [nalu]
    ensures Gathered(acc + [nalu]) <= Gathered(acc) + (if next < |data| then next else |data|) - offset
  {
    var length := ReadUint16(data[offset..offset + 2]);
    var start := offset + 2;
    var end := if start + length < |data| then start + length else |data|;
    nalu, next := StapANalu(data[start], data[start..end], timestamp).(totalLength := length), start + length;
    ConcatOne(data[start..end]);
    hide Gathered;
    GatheredSnoc(acc, nalu);
  }

  lemma {:induction false} GatheredFromStapA(data: Bytes, offset: nat, timestamp: nat, acc: seq<RecvNalu>)
    requires offset <= |data|
    ensures Gathered(ParseStapAFrom(data, offset, timestamp, acc).nalus) <= Gathered(acc) + |data| - offset
    decreases |data| - offset
  {
    hide Gathered;
    if |data| <= offset + 2 {
    } else {
      hide ParseStapAFrom;
      var nalu, next := GatheredStep(data, offset, timestamp, acc);
      if next < |data| { GatheredFromStapA(data, next, timestamp, acc + [nalu]); }
    }
  }

  lemma GatheredFromFuA(data: Bytes, timestamp: nat, acc: seq<RecvNalu>)
    requires data != []
    ensures Gathered(ParseFuA(data, timestamp, acc).nalus) <= Gathered(acc) + |data| - 1
  {
    if |data| >= 2 {
      ConcatOne(data[2..]);
      var after := ParseFuA(data, timestamp, acc).nalus;
      if TopBit(data[1]) {
        GatheredSnoc(acc, after[|acc|]);
        assert after == acc + [after[|acc|]];
      } else if acc != [] {
        var before, last := acc[..|acc| - 1], acc[|acc| - 1];
        ConcatAppend(last.payloads, [data[2..]]);
        assert acc == before + [last];
        GatheredSnoc(before, last);
        GatheredSnoc(before, last.OnNewPacket(data[2..]));
        assert before + [last.OnNewPacket(data[2..])] == acc[|acc| - 1 := last.OnNewPacket(data[2..])];
      }
    }
  }

  /** Whatever type a packet shows, its first byte never ends up in a NAL unit. */
  lemma GatheredFromPacket(data: Bytes, timestamp: nat, acc: seq<RecvNalu>)
    requires data != []
    ensures Gathered(ParsePacket(data, timestamp, acc).nalus) <= Gathered(acc) + |data| - 1
  {
    hide ParseStapAFrom, ParseFuA, Gathered;
    GatheredFromStapA(data, 1, timestamp, acc);
    GatheredFromFuA(data, timestamp, acc);
  }

  lemma {:induction false} TotalLengthAppend(xs: seq<Nalu>, ys: seq<Nalu>)
    ensures TotalLength(xs + ys) == TotalLength(xs) + TotalLength(ys)
  {
    if xs == [] {
      assert xs + ys == ys;
    } else {
      TotalLengthAppend(xs[1..], ys);
      assert (xs + ys)[1..] == xs[1..] + ys;
    }
  }

  /** What parsing the packets of NAL units i..next gathers: at most their bytes, and less if one went out alone. */
  ghost predicate Gathers(payloads: seq<Bytes>, nalus: seq<Nalu>, lone: bool, timestamp: nat, acc: seq<RecvNalu>) {
    var result := ParsePackets(payloads, timestamp, acc);
    result.outcome == Accepted ==>
      Gathered(result.nalus) + (if lone then 1 else 0) <= Gathered(acc) + TotalLength(nalus)
  }

  lemma GathersAppend(xs: seq<Bytes>, ys: seq<Bytes>, nalus: seq<Nalu>, i: nat, next: nat, here: bool, later: bool,
                      timestamp: nat, acc: seq<RecvNalu>)
    requires i <= next <= |nalus|
    requires Gathers(xs, nalus[i..next], here, timestamp, acc)
    requires Gathers(ys, nalus[next..], later, timestamp, ParsePackets(xs, timestamp, acc).nalus)
    ensures Gathers(xs + ys, nalus[i..], here || later, timestamp, acc)
  {
    hide Gathered, TotalLength, ParsePackets;
    ParseAppend(xs, ys, timestamp, acc);
    TotalLengthAppend(nalus[i..next], nalus[next..]);
    assert nalus[i..] == nalus[i..next] + nalus[next..];
  }

  lemma FragmentsGather(limits: PayloadSizeLimits, nalus: seq<Nalu>, i: nat, timestamp: nat, acc: seq<RecvNalu>)
    requires ValidLimits(limits) && i < |nalus| && TooLong(limits, nalus, i) && FuaFeasible(limits, nalus, i)
    ensures AllWellFormed(FuaPacketsOf(limits, nalus, i))
    ensures Gathers(Payloads(FuaPacketsOf(limits, nalus, i)), nalus[i..i + 1], false, timestamp, acc)
  {
    hide Gathered, FuaPacketsOf, TooLong, ParsePackets, Tiles;
    var packets := FuaPacketsOf(limits, nalus, i);
    FuaPacketsOfTile(limits, nalus, i);
    ParseFragments(packets, nalus[i], timestamp, acc);
    var after := ParsePackets(Payloads(packets), timestamp, acc).nalus;
    assert after == acc + [after[|acc|]] && nalus[i..i + 1] == [nalus[i]];
    hide Holds;
    GatheredHeld(acc, [after[|acc|]], [nalus[i]], timestamp);
  }

  lemma GroupGathers(group: seq<Nalu>, timestamp: nat, acc: seq<RecvNalu>)
    requires group != [] && NonEmpty(group) && ShortEnough(group)
    ensures Gathers(Payloads([Aggregate(group)]), group, |group| == 1, timestamp, acc)
  {
    hide Gathered, ParsePacket;
    var data := Payload(Aggregate(group));
    assert Payloads([Aggregate(group)]) == [data];
    if |group| == 1 {
      GatheredFromPacket(data, timestamp, acc);
      assert group[1..] == [] && TotalLength(group) == |data|;
    } else {
      ParseAggregate(group, timestamp, acc);
      StapANalusHold(group, timestamp);
      GatheredHeld(acc, StapANalus(group, timestamp), group, timestamp);
    }
    if ParsePacket(data, timestamp, acc).outcome == Accepted {
      ParseOne(data, timestamp, acc);
    } else {
      assert ParsePackets([data], timestamp, acc).outcome != Accepted;
    }
  }

  lemma {:induction false} FrameGathers(limits: PayloadSizeLimits, nalus: seq<Nalu>, i: nat, timestamp: nat,
      acc: seq<RecvNalu>)
    requires ValidLimits(limits) && limits.maxPayloadLen <= 65536 && NonEmpty(nalus) && i <= |nalus|
    requires PlanFrom(limits, NonInterleaved, nalus, i).outcome == Generated
    ensures var packets := PlanFrom(limits, NonInterleaved, nalus, i).packets;
            AllWellFormed(packets)
            && Gathers(Payloads(packets), nalus[i..], LoneFrom(limits, nalus, i), timestamp, acc)
    decreases |nalus| - i
  {
    hide Gathers, FuaPacketsOf;
    PlanCompletes(limits, NonInterleaved, nalus, i);
    if i == |nalus| {
      NothingGathers(timestamp, acc);
    } else if TooLong(limits, nalus, i) {
      var head, rest := FuaPacketsOf(limits, nalus, i), PlanFrom(limits, NonInterleaved, nalus, i + 1).packets;
      FragmentsGather(limits, nalus, i, timestamp, acc);
      FrameGathers(limits, nalus, i + 1, timestamp, ParsePackets(Payloads(head), timestamp, acc).nalus);
      PayloadsAppend(head, rest);
      GathersAppend(Payloads(head), Payloads(rest), nalus, i, i + 1, false, LoneFrom(limits, nalus, i + 1),
                    timestamp, acc);
    } else {
      var end := StapAEnd(limits, nalus, i);
      var head, rest := [Aggregate(nalus[i..end])], PlanFrom(limits, NonInterleaved, nalus, end).packets;
      GroupIsShort(limits, nalus, i);
      GroupGathers(nalus[i..end], timestamp, acc);
      FrameGathers(limits, nalus, end, timestamp, ParsePackets(Payloads(head), timestamp, acc).nalus);
      PayloadsAppend(head, rest);
      GathersAppend(Payloads(head), Payloads(rest), nalus, i, end, end == i + 1, LoneFrom(limits, nalus, end),
                    timestamp, acc);
    }
  }

  lemma NothingGathers(timestamp: nat, acc: seq<RecvNalu>)
    ensures Gathers([], [], false, timestamp, acc)
  {
  }

  /**
   When a generated frame arrives, whatever the types of its NAL units: exactly if no NAL unit stays alone in its
   group. A lone one goes out raw, and what the receiver makes of that falls short of it by at least a byte.
   */
  lemma ArrivesExactly(limits: PayloadSizeLimits, nalus: seq<Nalu>, timestamp: nat)
    requires ValidLimits(limits) && limits.maxPayloadLen <= 65536 && NonEmpty(nalus)
    requires PlanFrom(limits, NonInterleaved, nalus, 0).outcome == Generated
    ensures var packets := PlanFrom(limits, NonInterleaved, nalus, 0).packets;
            AllWellFormed(packets)
            && var result := ParsePackets(Payloads(packets), timestamp, []);
            (result.outcome == Accepted && HoldAll(result.nalus, nalus, timestamp) <==> !LoneFrom(limits, nalus, 0))
  {
    hide Gathered, ParsePackets, PlanFrom, LoneFrom;
    AggregatedExactly(limits, nalus, 0);
    FrameGathers(limits, nalus, 0, timestamp, []);
    assert nalus[0..] == nalus;
    if LoneFrom(limits, nalus, 0) {
      var result := ParsePackets(Payloads(PlanFrom(limits, NonInterleaved, nalus, 0).packets), timestamp, []);
      if HoldAll(result.nalus, nalus, timestamp) {
        GatheredHeld([], result.nalus, nalus, timestamp);
        assert [] + result.nalus == result.nalus;
      }
    } else {
      FrameArrives(limits, nalus, timestamp);
    }
  }

  /** Unless its own type says aggregate or fragment, the receiver rejects a lone NAL unit, and the frame with it. */
  lemma LoneNaluIsRejected(limits: PayloadSizeLimits, nalus: seq<Nalu>, timestamp: nat)
    requires ValidLimits(limits) && limits.maxPayloadLen <= 65536 && NonEmpty(nalus)
    requires forall i :: 0 <= i < |nalus| ==> TypeBits(nalus[i][0]) != STAP_A && TypeBits(nalus[i][0]) != FU_A
    requires PlanFrom(limits, NonInterleaved, nalus, 0).outcome == Generated
    ensures var packets := PlanFrom(limits, NonInterleaved, nalus, 0).packets;
            AllWellFormed(packets)
            && (ParsePackets(Payloads(packets), timestamp, []).outcome == Accepted <==> !LoneFrom(limits, nalus, 0))
  {
    var packets := PlanFrom(limits, NonInterleaved, nalus, 0).packets;
    AggregatedExactly(limits, nalus, 0);
    PlanCompletes(limits, NonInterleaved, nalus, 0);
    if AllAggregated(packets) {
      FrameArrives(limits, nalus, timestamp);
    } else {
      var k :| 0 <= k < |packets| && packets[k].Aggregate? && |packets[k].nalus| < 2;
      var nalu := packets[k].nalus[0];
      assert WellFormed(packets[k]);
      CompletedAt(packets, k);
      assert nalu in CompletedAll(packets);
      assert nalus[0..] == nalus;
      RejectedPacket(Payloads(packets), k, timestamp, []);
    }
  }

  lemma {:induction false} CompletedAt(packets: seq<WirePacket>, k: nat)
    requires k < |packets|
    ensures forall nalu :: nalu in Completed(packets[k]) ==> nalu in CompletedAll(packets)
  {
    if k == 0 {
    } else {
      CompletedAt(packets[1..], k - 1);
    }
  }

  lemma {:induction false} RejectedPacket(payloads: seq<Bytes>, k: nat, timestamp: nat, acc: seq<RecvNalu>)
    requires k < |payloads| && forall nalus :: ParsePacket(payloads[k], timestamp, nalus).outcome != Accepted
    ensures ParsePackets(payloads, timestamp, acc).outcome != Accepted
  {
    if k == 0 {
    } else {
      RejectedPacket(payloads[1..], k - 1, timestamp, ParsePacket(payloads[0], timestamp, acc).nalus);
    }
  }

  /** With the deployed limits that is the fate of every frame that is one NAL unit of 1 to 1196 bytes. */
  lemma SmallFrameIsLost(nalu: Nalu, timestamp: nat)
    requires 1 <= |nalu| <= 1196
    ensures var plan := PlanFrom(DEFAULT_LIMITS, NonInterleaved, [nalu], 0);
            plan.outcome == Generated && AllWellFormed(plan.packets) && LoneFrom(DEFAULT_LIMITS, [nalu], 0)
            && var result := ParsePackets(Payloads(plan.packets), timestamp, []);
            !(result.outcome == Accepted && HoldAll(result.nalus, [nalu], timestamp))
            && (TypeBits(nalu[0]) != STAP_A && TypeBits(nalu[0]) != FU_A ==> result.outcome != Accepted)
  {
    var nalus := [nalu];
    DeployedOutcome(nalus);
    AloneExactly(DEFAULT_LIMITS, nalus, 0);
    ArrivesExactly(DEFAULT_LIMITS, nalus, timestamp);
    if TypeBits(nalu[0]) != STAP_A && TypeBits(nalu[0]) != FU_A {
      LoneNaluIsRejected(DEFAULT_LIMITS, nalus, timestamp);
    }
  }
}
