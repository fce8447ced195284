/** Which payloads the receiver accepts, and what it makes of them, whoever sent them (stream/rtc_recv_stream.cc). */
module Acceptance {
  import opened H264
  import opened Reassembly

  // ---------- Aggregation packets ----------

  /** Where the units of an aggregation packet begin: each is a length of two bytes and as many bytes, one at least. */
  ghost predicate Cuts(data: Bytes, offset: nat, cuts: seq<nat>) {
    && cuts != [] && cuts[0] == offset && cuts[|cuts| - 1] + 2 >= |data|
    && forall j :: 0 <= j < |cuts| - 1 ==>
         cuts[j] + 2 < |data| && cuts[j + 1] == cuts[j] + 2 + 256 * data[cuts[j]] as int + data[cuts[j] + 1] as int
  }

  /** r is the NAL unit between two cuts; its length is recorded even if the payload ends before it does. */
  ghost predicate IsUnit(r: RecvNalu, data: Bytes, cut: nat, next: nat, timestamp: nat)
    requires cut + 2 < |data| && cut + 2 <= next
  {
    && r.packetizerMode == 24 && r.naluType == data[cut + 2] % 32 && r.timestamp == timestamp
    && r.startCodeLen == (if r.naluType == 7 || r.naluType == 8 then 4 else 3)
    && r.totalLength == next - cut - 2
    && r.payloads == [data[cut + 2..if next < |data| then next else |data|]]
  }

  /** Reading an aggregation packet goes from cut to cut, and fails where a length or a first byte is missing. */
  lemma {:induction false} AggregateExactly(data: Bytes, offset: nat, timestamp: nat, acc: seq<RecvNalu>)
    returns (cuts: seq<nat>)
    ensures Cuts(data, offset, cuts)
    ensures var r := ParseStapAFrom(data, offset, timestamp, acc);
            && |r.nalus| == |acc| + |cuts| - 1 && r.nalus[..|acc|] == acc
            && (forall j :: 0 <= j < |cuts| - 1 ==> IsUnit(r.nalus[|acc| + j], data, cuts[j], cuts[j + 1], timestamp))
            && r.outcome == if cuts[|cuts| - 1] >= |data| then Accepted else Overread
    decreases |data| - offset
  {
    if offset + 2 >= |data| {
      cuts := [offset];
    } else {
      var length := ReadUint16(data[offset..offset + 2]);
      var start := offset + 2;
      var next := start + length;
      var end := if next < |data| then next else |data|;
      var nalu := StapANalu(data[start], data[start..end], timestamp).(totalLength := length);
      assert IsUnit(nalu, data, offset, next, timestamp);
      var rest := AggregateExactly(data, next, timestamp, acc + [nalu]);
      cuts := [offset] + rest;
      var r := ParseStapAFrom(data, next, timestamp, acc + [nalu]);
      assert ParseStapAFrom(data, offset, timestamp, acc) == r;
      hide ParseStapAFrom, IsUnit, StapANalu;
      UnitsCons(r.nalus, data, offset, next, rest, timestamp, acc, nalu);
    }
  }

  lemma UnitsCons(nalus: seq<RecvNalu>, data: Bytes, offset: nat, next: nat, rest: seq<nat>, timestamp: nat,
                  acc: seq<RecvNalu>, nalu: RecvNalu)
    requires offset + 2 < |data| && next == offset + 2 + 256 * data[offset] as int + data[offset + 1] as int
    requires Cuts(data, next, rest) && |nalus| == |acc| + 1 + |rest| - 1 && nalus[..|acc| + 1] == acc + [nalu]
    requires IsUnit(nalu, data, offset, next, timestamp)
    requires forall j :: 0 <= j < |rest| - 1 ==> IsUnit(nalus[|acc| + 1 + j], data, rest[j], rest[j + 1], timestamp)
    ensures var cuts := [offset] + rest;
            && Cuts(data, offset, cuts) && nalus[..|acc|] == acc
            && forall j :: 0 <= j < |cuts| - 1 ==> IsUnit(nalus[|acc| + j], data, cuts[j], cuts[j + 1], timestamp)
  {
    hide IsUnit;
    var cuts := [offset] + rest;
    assert nalus[..|acc|] == nalus[..|acc| + 1][..|acc|];
    assert nalus[|acc|] == nalus[..|acc| + 1][|acc|];
    forall j | 0 <= j < |cuts| - 1
      ensures cuts[j] + 2 < |data|
      ensures cuts[j + 1] == cuts[j] + 2 + 256 * data[cuts[j]] as int + data[cuts[j] + 1] as int
      ensures IsUnit(nalus[|acc| + j], data, cuts[j], cuts[j + 1], timestamp)
    {
      if j > 0 {
        assert cuts[j] == rest[j - 1] && cuts[j + 1] == rest[j];
        assert nalus[|acc| + 1 + (j - 1)] == nalus[|acc| + j];
      }
    }
  }

  // ---------- Whole frames ----------

  /** The units of an aggregation packet with nothing missing. */
  ghost predicate WellCut(data: Bytes) {
    exists cuts :: Cuts(data, 1, cuts) && cuts[|cuts| - 1] >= |data|
  }

  /** There is only one way to cut. */
  lemma {:induction false} CutsUnique(data: Bytes, offset: nat, a: seq<nat>, b: seq<nat>)
    requires Cuts(data, offset, a) && Cuts(data, offset, b)
    ensures a == b
    decreases |a|
  {
    if |a| == 1 || |b| == 1 {
    } else {
      CutsRest(data, offset, a);
      CutsRest(data, offset, b);
      hide Cuts;
      CutsUnique(data, a[1], a[1..], b[1..]);
      assert a == [a[0]] + a[1..] && b == [b[0]] + b[1..];
    }
  }

  lemma CutsRest(data: Bytes, offset: nat, cuts: seq<nat>)
    requires Cuts(data, offset, cuts) && |cuts| >= 2
    ensures cuts[0] == offset && offset + 2 < |data|
    ensures cuts[1] == offset + 2 + 256 * data[offset] as int + data[offset + 1] as int
    ensures Cuts(data, cuts[1], cuts[1..])
  {
    assert forall j :: 0 <= j < |cuts| - 1 ==> cuts[1..][j] == cuts[j + 1];
  }

  predicate Carries(data: Bytes, naluType: byte) { data != [] && data[0] % 32 == naluType }

  /**
   Payload k is one the receiver can take: an aggregate with nothing missing, or a fragment with both header bytes
   which starts a NAL unit or has some payload of two bytes or more before it.
   */
  ghost predicate Acceptable(payloads: seq<Bytes>, k: nat)
    requires k < |payloads|
  {
    var data := payloads[k];
    || (Carries(data, 24) && WellCut(data))
    || (Carries(data, 28) && |data| >= 2 && (data[1] >= 128 || SomeBefore(payloads, k)))
  }

  ghost predicate SomeBefore(payloads: seq<Bytes>, k: nat)
    requires k <= |payloads|
  {
    exists j :: 0 <= j < k && |payloads[j]| >= 2
  }

  /** What has been gathered of a frame before payload k. */
  ghost predicate Gathered(payloads: seq<Bytes>, k: nat, timestamp: nat, acc: seq<RecvNalu>)
    requires k <= |payloads|
  {
    && (acc != [] <==> SomeBefore(payloads, k))
    && (acc != [] ==> acc[|acc| - 1].timestamp == timestamp)
  }

  /** An aggregate is accepted if nothing of it is missing, and then has a unit unless it is but one byte. */
  lemma AggregatePayload(data: Bytes, timestamp: nat, acc: seq<RecvNalu>)
    requires Carries(data, 24) && (acc != [] ==> acc[|acc| - 1].timestamp == timestamp)
    ensures var r := ParseStapAFrom(data, 1, timestamp, acc);
            && r.outcome != Rejected && (r.outcome == Accepted <==> WellCut(data))
            && (r.nalus != [] ==> r.nalus[|r.nalus| - 1].timestamp == timestamp)
            && (r.outcome == Accepted ==> (r.nalus != [] <==> acc != [] || |data| >= 2))
  {
    hide ParseStapAFrom;
    var cuts := AggregateExactly(data, 1, timestamp, acc);
    var r := ParseStapAFrom(data, 1, timestamp, acc);
    if |cuts| > 1 {
      var j := |cuts| - 2;
      assert cuts[j] + 2 < |data| && IsUnit(r.nalus[|acc| + j], data, cuts[j], cuts[j + 1], timestamp);
      assert cuts[0] + 2 < |data|;
    } else {
      assert r.nalus == r.nalus[..|acc|];
    }
    if WellCut(data) {
      var others :| Cuts(data, 1, others) && others[|others| - 1] >= |data|;
      CutsUnique(data, 1, cuts, others);
    }
  }

  lemma PayloadExactly(payloads: seq<Bytes>, k: nat, timestamp: nat, acc: seq<RecvNalu>)
    requires k < |payloads| && Gathered(payloads, k, timestamp, acc)
    ensures var r := ParsePacket(payloads[k], timestamp, acc);
            && (r.outcome == Accepted <==> Acceptable(payloads, k))
            && (r.outcome == Rejected <==>
                  payloads[k] != [] && !Carries(payloads[k], 24) && !Carries(payloads[k], 28))
            && (r.outcome == Accepted ==> Gathered(payloads, k + 1, timestamp, r.nalus))
  {
    var data := payloads[k];
    assert SomeBefore(payloads, k + 1) <==> SomeBefore(payloads, k) || |data| >= 2;
    hide SomeBefore;
    if Carries(data, 24) {
      hide ParseStapAFrom, WellCut;
      AggregatePayload(data, timestamp, acc);
    }
  }

  /** Payload k is the first the receiver does not take. */
  ghost predicate FirstUnacceptable(payloads: seq<Bytes>, k: nat)
    requires k < |payloads|
  {
    !Acceptable(payloads, k) && forall j :: 0 <= j < k ==> Acceptable(payloads, j)
  }

  lemma {:induction false} FrameExactlyFrom(payloads: seq<Bytes>, i: nat, timestamp: nat, acc: seq<RecvNalu>)
    requires i <= |payloads| && Gathered(payloads, i, timestamp, acc)
    requires forall j :: 0 <= j < i ==> Acceptable(payloads, j)
    ensures var outcome := ParsePackets(payloads[i..], timestamp, acc).outcome;
            && (outcome == Accepted <==> forall k :: 0 <= k < |payloads| ==> Acceptable(payloads, k))
            && (outcome == Rejected <==>
                  exists k :: 0 <= k < |payloads| && FirstUnacceptable(payloads, k)
                              && payloads[k] != [] && !Carries(payloads[k], 24) && !Carries(payloads[k], 28))
    decreases |payloads| - i
  {
    hide Acceptable, Gathered, ParsePacket, Carries;
    if i == |payloads| {
    } else {
      PayloadExactly(payloads, i, timestamp, acc);
      assert payloads[i..][1..] == payloads[i + 1..];
      var first := ParsePacket(payloads[i], timestamp, acc);
      if first.outcome == Accepted {
        FrameExactlyFrom(payloads, i + 1, timestamp, first.nalus);
      } else {
        assert FirstUnacceptable(payloads, i);
        forall k | 0 <= k < |payloads| && FirstUnacceptable(payloads, k)
          ensures k == i
        {
        }
      }
    }
  }

  /**
   Any payloads whatever: the frame is accepted exactly if every one of them can be taken, and rejected, rather than
   read beyond its end, exactly if the first that cannot is of another type.
   */
  lemma FrameExactly(payloads: seq<Bytes>, timestamp: nat)
    ensures var outcome := ParsePackets(payloads, timestamp, []).outcome;
            && (outcome == Accepted <==> forall k :: 0 <= k < |payloads| ==> Acceptable(payloads, k))
            && (outcome == Rejected <==>
                  exists k :: 0 <= k < |payloads| && FirstUnacceptable(payloads, k)
                              && payloads[k] != [] && !Carries(payloads[k], 24) && !Carries(payloads[k], 28))
  {
    assert payloads[0..] == payloads;
    FrameExactlyFrom(payloads, 0, timestamp, []);
  }

  /** A fragment with nothing to go to is read beyond the end or, behind a NAL unit of another time, rejected. */
  lemma StrayFragment(data: Bytes, timestamp: nat, acc: seq<RecvNalu>)
    requires |data| < 2 || (data[1] < 128 && (acc == [] || acc[|acc| - 1].timestamp != timestamp))
    ensures ParseFuA(data, timestamp, acc) == Result(if |data| < 2 || acc == [] then Overread else Rejected, acc)
  {
  }

  /** A fragment that starts a NAL unit adds it; any other goes to the end of the last one. */
  lemma FragmentExactly(data: Bytes, timestamp: nat, acc: seq<RecvNalu>)
    requires |data| >= 2 && (data[1] >= 128 || (acc != [] && acc[|acc| - 1].timestamp == timestamp))
    ensures var r := ParseFuA(data, timestamp, acc);
            r.outcome == Accepted && r.nalus != []
            && var last := r.nalus[|r.nalus| - 1];
            last.timestamp == timestamp
            && if data[1] >= 128 then
                 && r.nalus[..|r.nalus| - 1] == acc && last.packetizerMode == 28 && last.naluType == data[1] % 32
                 && last.totalLength == |data| - 2 && last.payloads == [data[2..]]
               else
                 && r.nalus[..|r.nalus| - 1] == acc[..|acc| - 1]
                 && last.totalLength == acc[|acc| - 1].totalLength + |data| - 2
                 && last.payloads == acc[|acc| - 1].payloads + [data[2..]]
  {
  }
}
