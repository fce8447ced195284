/** How the receiver turns packet payloads back into NAL units (stream/rtc_recv_stream.cc), as functions. */
module Reassembly {
  import opened H264

  /**
   A NAL unit under reassembly. The payloads of an aggregated one include its NAL header; those of a
   fragmented one start behind it.
   */
  datatype RecvNalu = RecvNalu(
    packetizerMode: byte,
    naluType: byte,
    startCodeLen: nat,
    timestamp: nat,
    totalLength: nat,
    payloads: seq<Bytes>)
  {
    function OnNewPacket(data: Bytes): RecvNalu {
      this.(payloads := payloads + [data], totalLength := totalLength + |data|)
    }
  }

  /** Overread: the source would read outside the payload, or fail the CHECK on a fragment without a start. */
  datatype Outcome = Accepted | Rejected | Overread

  datatype Result = Result(outcome: Outcome, nalus: seq<RecvNalu>)

  /** An aggregated NAL unit; parameter sets get a 4-byte start code. */
  function StapANalu(header: byte, data: Bytes, timestamp: nat): RecvNalu {
    var naluType := TypeBits(header);
    RecvNalu(STAP_A, naluType, if naluType == SPS || naluType == PPS then 4 else 3, timestamp, |data|, [data])
  }

  /**
   The units of an aggregation packet from position offset on. A length that runs past the payload is recorded
   as it is; the bytes kept are those there are.
   */
  function ParseStapAFrom(data: Bytes, offset: nat, timestamp: nat, nalus: seq<RecvNalu>): Result
    decreases |data| - offset
  {
    if offset >= |data| then Result(Accepted, nalus)
    else if offset + 2 >= |data| then Result(Overread, nalus)
    else
      var length := ReadUint16(data[offset..offset + 2]);
      var start := offset + 2;
      var end := if start + length < |data| then start + length else |data|;
      var nalu := StapANalu(data[start], data[start..end], timestamp).(totalLength := length);
      ParseStapAFrom(data, start + length, timestamp, nalus + [nalu])
  }

  /** Start code of a fragmented NAL unit: 4 bytes for the first of a frame, except for SEI. */
  function FuAStartCodeLen(naluType: byte, timestamp: nat, nalus: seq<RecvNalu>): nat {
    if naluType == SEI then 3
    else if nalus == [] || nalus[|nalus| - 1].timestamp != timestamp then 4
    else
      var last := nalus[|nalus| - 1];
      if last.startCodeLen == 4 || last.startCodeLen == 3 then 3
      else if last.naluType == SPS || last.naluType == PPS || last.naluType == SEI then 3
      else 4
  }

  function ParseFuA(data: Bytes, timestamp: nat, nalus: seq<RecvNalu>): Result {
    if |data| < 2 then Result(Overread, nalus)
    else
      var naluType := TypeBits(data[1]);
      if TopBit(data[1]) then
        var nalu := RecvNalu(FU_A, naluType, FuAStartCodeLen(naluType, timestamp, nalus), timestamp, |data| - 2,
            [data[2..]]);
        Result(Accepted, nalus + [nalu])
      else if nalus == [] then Result(Overread, nalus)
      else
        var last := nalus[|nalus| - 1];
        if last.timestamp != timestamp then Result(Rejected, nalus)
        else Result(Accepted, nalus[|nalus| - 1 := last.OnNewPacket(data[2..])])
  }

  /** One packet; any type other than STAP-A and FU-A is rejected. */
  function ParsePacket(data: Bytes, timestamp: nat, nalus: seq<RecvNalu>): Result {
    if data == [] then Result(Overread, nalus)
    else if TypeBits(data[0]) == STAP_A then ParseStapAFrom(data, 1, timestamp, nalus)
    else if TypeBits(data[0]) == FU_A then ParseFuA(data, timestamp, nalus)
    else Result(Rejected, nalus)
  }

  /** The packets of a frame in offset order, up to the first one that is not accepted. */
  function ParsePackets(packets: seq<Bytes>, timestamp: nat, nalus: seq<RecvNalu>): Result {
    if packets == [] then Result(Accepted, nalus)
    else
      var first := ParsePacket(packets[0], timestamp, nalus);
      if first.outcome == Accepted then ParsePackets(packets[1..], timestamp, first.nalus) else first
  }

  lemma {:induction false} ParseAppend(xs: seq<Bytes>, ys: seq<Bytes>, timestamp: nat, nalus: seq<RecvNalu>)
    ensures var first := ParsePackets(xs, timestamp, nalus);
            ParsePackets(xs + ys, timestamp, nalus)
            == if first.outcome == Accepted then ParsePackets(ys, timestamp, first.nalus) else first
  {
    if xs == [] {
      assert xs + ys == ys;
    } else {
      assert (xs + ys)[1..] == xs[1..] + ys;
      var first := ParsePacket(xs[0], timestamp, nalus);
      if first.outcome == Accepted { ParseAppend(xs[1..], ys, timestamp, first.nalus); }
    }
  }

  /** The bytes a decoder gets for a NAL unit: start code, the header a fragment lacks, and the payloads. */
  function DeliverableSize(nalus: seq<RecvNalu>): nat {
    if nalus == [] then 0
    else
      var nalu := nalus[0];
      nalu.startCodeLen + nalu.totalLength + (if nalu.packetizerMode == FU_A then 1 else 0)
      + DeliverableSize(nalus[1..])
  }
}
