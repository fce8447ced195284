/** Splitting a payload over packets of limited size (packetizer/non_rtp.cc). */
module Splitter {

  datatype PayloadSizeLimits = PayloadSizeLimits(
    maxPayloadLen: int,
    firstReduction: int,
    lastReduction: int,
    singleReduction: int)

  const DEFAULT_LIMITS := PayloadSizeLimits(1200, 0, 0, 0)

  function Sum(s: seq<int>): int {
    if s == [] then 0 else s[0] + Sum(s[1..])
  }

  /** The capacity of packet i when the payload is spread over n packets. */
  function Capacity(limits: PayloadSizeLimits, n: nat, i: nat): int
    requires i < n
  {
    limits.maxPayloadLen -
    (if n == 1 then limits.singleReduction
     else if i == 0 then limits.firstReduction
     else if i == n - 1 then limits.lastReduction
     else 0)
  }

  /** The reference notion: positive parts that add up and each fit their packet. */
  ghost predicate Admissible(parts: seq<int>, payloadLen: int, limits: PayloadSizeLimits) {
    && parts != []
    && Sum(parts) == payloadLen
    && forall i :: 0 <= i < |parts| ==> 0 < parts[i] <= Capacity(limits, |parts|, i)
  }

  /** Room left in packet i of a split. */
  function Spare(parts: seq<int>, limits: PayloadSizeLimits, i: nat): int
    requires i < |parts|
  {
    Capacity(limits, |parts|, i) - parts[i]
  }

  /** Unless the first or the last packet is down to one byte, the spare room differs by at most one. */
  ghost predicate AboutEqual(parts: seq<int>, limits: PayloadSizeLimits) {
    |parts| >= 2 && parts[0] > 1 && parts[|parts| - 1] > 1 ==>
      forall i, j :: 0 <= i < j < |parts| ==> 0 <= Spare(parts, limits, i) - Spare(parts, limits, j) <= 1
  }

  // ---------- The algorithm, as a function ----------

  function TotalBytes(payloadLen: int, limits: PayloadSizeLimits): int {
    payloadLen + limits.firstReduction + limits.lastReduction
  }

  /** Number of packets once the payload is known not to go into a single one. */
  function NumPackets(payloadLen: int, limits: PayloadSizeLimits): int
    requires limits.maxPayloadLen >= 1
  {
    var n := (TotalBytes(payloadLen, limits) + limits.maxPayloadLen - 1) / limits.maxPayloadLen;
    if n == 1 then 2 else n
  }

  /** Bytes planned for a packet when `left` packets are still to be filled: the last `larger` get one more. */
  function Planned(left: int, base: int, larger: int): int {
    if left <= larger then base + 1 else base
  }

  /** The bytes put in the next packet, with `left` packets and `remaining` bytes to go. */
  function NextSize(left: int, remaining: int, planned: int, first: bool, firstReduction: int): int {
    var wanted :=
      if !first then planned
      else if planned > firstReduction + 1 then planned - firstReduction
      else 1;
    var clamped := if wanted > remaining then remaining else wanted;
    if left == 2 && clamped == remaining then clamped - 1 else clamped
  }

  /** The packets filled from a state with `left` packets and `remaining` bytes to go. */
  function SplitFrom(left: nat, remaining: int, base: int, larger: int, first: bool, firstReduction: int): seq<int> {
    if remaining <= 0 || left == 0 then []
    else
      var size := NextSize(left, remaining, Planned(left, base, larger), first, firstReduction);
      [size] + SplitFrom(left - 1, remaining - size, base, larger, false, firstReduction)
  }

  function SplitSizes(payloadLen: int, limits: PayloadSizeLimits): seq<int>
    requires limits.firstReduction >= 0 && limits.lastReduction >= 0
  {
    if limits.maxPayloadLen >= limits.singleReduction + payloadLen then [payloadLen]
    else if limits.maxPayloadLen - limits.firstReduction < 1 || limits.maxPayloadLen - limits.lastReduction < 1 then []
    else
      var n := NumPackets(payloadLen, limits);
      if payloadLen < n || n < 1 then []
      else
        var total := TotalBytes(payloadLen, limits);
        SplitFrom(n, payloadLen, total / n, total % n, true, limits.firstReduction)
  }

  // ---------- What the algorithm achieves ----------

  /** A run of k packets after the first one, whose last packet must leave room for lastReduction. */
  ghost predicate FillsTail(parts: seq<int>, k: nat, remaining: int, max: int, lastReduction: int) {
    && |parts| == k
    && Sum(parts) == remaining
    && (forall i :: 0 <= i < k ==> 0 < parts[i] <= max)
    && (k > 0 ==> parts[k - 1] <= max - lastReduction)
  }

  /** Unless the last packet is down to one byte, every packet of the run gets its planned bytes. */
  ghost predicate FollowsPlan(parts: seq<int>, base: int, larger: int, lastReduction: int) {
    parts != [] && parts[|parts| - 1] > 1 ==>
      forall i :: 0 <= i < |parts| ==>
        parts[i] == Planned(|parts| - i, base, larger) - (if i == |parts| - 1 then lastReduction else 0)
  }

  /** Planned bytes of the last k packets, before the last reduction. */
  function PlannedTail(k: nat, base: int, larger: int): int {
    if k == 0 then 0 else Planned(k, base, larger) + PlannedTail(k - 1, base, larger)
  }

  lemma {:induction false} PlannedTailClosed(k: nat, base: int, larger: int)
    requires 0 <= larger
    ensures PlannedTail(k, base, larger) == k * base + (if k < larger then k else larger)
  {
    if k == 0 {
    } else {
      PlannedTailClosed(k - 1, base, larger);
      assert k * base == (k - 1) * base + base;
    }
  }

  lemma {:induction false} PlannedTailGrows(k: nat, base: int, larger: int)
    requires 2 <= k && 1 <= base
    ensures PlannedTail(k, base, larger) >= PlannedTail(2, base, larger) + (k - 2)
  {
    if k <= 2 {
    } else {
      PlannedTailGrows(k - 1, base, larger);
    }
  }

  /** A state of the loop after the first packet; extra is what the first packet took beyond its plan. */
  ghost predicate TailState(k: nat, remaining: int, base: int, larger: int, extra: int, max: int, lastReduction: int) {
    && 1 <= k && 1 <= base && 0 <= larger && 0 <= extra
    && Planned(1, base, larger) <= max && 0 <= lastReduction < max
    && if k == 1 then
         && 1 <= remaining <= Planned(1, base, larger) && remaining <= max - lastReduction
         && (remaining > 1 && extra == 0 ==> remaining == Planned(1, base, larger) - lastReduction)
       else
         && remaining == PlannedTail(k, base, larger) - lastReduction - extra
         && PlannedTail(2, base, larger) - lastReduction - extra >= 2
  }

  /** One turn of the loop: the next packet is filled as planned, unless only the last one remains after it. */
  lemma TailStep(k: nat, remaining: int, base: int, larger: int, extra: int, max: int, lastReduction: int,
                 firstReduction: int)
    requires 2 <= k && TailState(k, remaining, base, larger, extra, max, lastReduction)
    ensures var size := NextSize(k, remaining, Planned(k, base, larger), false, firstReduction);
            && 0 < size <= max
            && TailState(k - 1, remaining - size, base, larger, extra, max, lastReduction)
            && (k >= 3 || remaining - size > 1 ==> size == Planned(k, base, larger))
  {
    assert PlannedTail(1, base, larger) == Planned(1, base, larger);
    if k >= 3 { PlannedTailGrows(k - 1, base, larger); }
  }

  /** After the first packet the loop fills exactly the k packets left. */
  lemma {:induction false} TailSplits(k: nat, remaining: int, base: int, larger: int, extra: int,
                                      max: int, firstReduction: int, lastReduction: int)
    requires TailState(k, remaining, base, larger, extra, max, lastReduction)
    ensures remaining > 0
    ensures var parts := SplitFrom(k, remaining, base, larger, false, firstReduction);
            && FillsTail(parts, k, remaining, max, lastReduction)
            && (extra == 0 ==> FollowsPlan(parts, base, larger, lastReduction))
    decreases k
  {
    if k == 1 {
      assert SplitFrom(1, remaining, base, larger, false, firstReduction) == [remaining] + [];
      assert [remaining][1..] == [];
    } else {
      if k >= 3 { PlannedTailGrows(k, base, larger); }
      var size := NextSize(k, remaining, Planned(k, base, larger), false, firstReduction);
      TailStep(k, remaining, base, larger, extra, max, lastReduction, firstReduction);
      TailSplits(k - 1, remaining - size, base, larger, extra, max, firstReduction, lastReduction);
      var rest := SplitFrom(k - 1, remaining - size, base, larger, false, firstReduction);
      var parts := [size] + rest;
      assert SplitFrom(k, remaining, base, larger, false, firstReduction) == parts;
      assert parts[1..] == rest;
      if extra == 0 { ConsFollowsPlan(size, rest, base, larger, lastReduction); }
    }
  }

  lemma ConsFollowsPlan(size: int, rest: seq<int>, base: int, larger: int, lastReduction: int)
    requires rest != [] && FollowsPlan(rest, base, larger, lastReduction)
    requires rest[|rest| - 1] > 1 ==> size == Planned(|rest| + 1, base, larger)
    ensures FollowsPlan([size] + rest, base, larger, lastReduction)
  {
    var parts := [size] + rest;
    forall i | 0 < i < |parts|
      ensures parts[i] == rest[i - 1] && |parts| - i == |rest| - (i - 1)
    {
    }
  }

  lemma MulAtLeast(n: int, m: int, d: int)
    requires m <= n && 0 <= d
    ensures m * d <= n * d
  {
    assert n * d - m * d == (n - m) * d;
  }

  /** The planned size falls short of the maximum by d only if the packets are nearly full anyway. */
  lemma Shortfall(n: int, total: int, base: int, larger: int, max: int)
    requires 3 <= n && 0 <= larger < n && total == n * base + larger
    requires (n - 1) * max + 1 <= total
    requires base < max
    ensures var k, d := if n == 3 then 2 else 3, max - base;
            if larger <= 2 then base + larger >= k * d + 1 else base >= k * (d - 1) + 1
  {
    var d := max - base;
    assert (n - 1) * max == (n - 1) * base + (n - 1) * d by { assert max == base + d; }
    assert n * base == (n - 1) * base + base;
    assert (n - 1) * d + 1 <= base + larger;
    MulAtLeast(n - 1, if n == 3 then 2 else 3, d);
    MulAtLeast(n - 1, if n == 3 then 2 else 3, d - 1);
    assert (n - 1) * d == (n - 1) * (d - 1) + (n - 1);
  }

  /** Whatever the first packet takes, the last two have room for a byte each. */
  lemma TwoPacketsLeft(n: int, total: int, base: int, larger: int, max: int, first: int, last: int)
    requires 3 <= n && 1 <= base && 0 <= larger < n && total == n * base + larger
    requires (n - 1) * max + 1 <= total
    requires 0 <= first < max && 0 <= last < max && total - first - last >= n
    ensures 2 * base + (if 2 < larger then 2 else larger) - last - (if base > first then 0 else 1 + first - base) >= 2
  {
    if base < max { Shortfall(n, total, base, larger, max); }
    if n == 3 { assert n * base == 3 * base; }
  }

  lemma CeilDiv(total: int, max: int) returns (n: int)
    requires 1 <= max && 0 < total
    ensures n == (total + max - 1) / max
    ensures 1 <= n && (n - 1) * max + 1 <= total <= n * max
  {
    n := (total + max - 1) / max;
    assert total + max - 1 == n * max + (total + max - 1) % max;
    assert (n - 1) * max == n * max - max;
    if n < 1 { MulAtLeast(0, n, max); assert false; }
  }

  /** The facts about n packets of base or base + 1 planned bytes that the loop relies on. */
  ghost predicate PlanFor(n: int, base: int, larger: int, payloadLen: int, limits: PayloadSizeLimits) {
    && 0 <= limits.firstReduction < limits.maxPayloadLen
    && 0 <= limits.lastReduction < limits.maxPayloadLen
    && 2 <= n <= payloadLen && 1 <= base && 0 <= larger < n
    && Planned(1, base, larger) <= limits.maxPayloadLen
    && PlannedTail(n, base, larger) == TotalBytes(payloadLen, limits)
    && (n >= 3 ==> PlannedTail(2, base, larger) - limits.lastReduction - Extra(base, limits) >= 2)
  }

  /** What the first packet takes beyond its plan: it never gets less than one byte. */
  function Extra(base: int, limits: PayloadSizeLimits): (extra: int)
    ensures extra >= 0
  {
    if base > limits.firstReduction then 0 else 1 + limits.firstReduction - base
  }

  lemma DivisionPlans(n: int, payloadLen: int, limits: PayloadSizeLimits)
    requires 0 <= limits.firstReduction < limits.maxPayloadLen
    requires 0 <= limits.lastReduction < limits.maxPayloadLen
    requires 2 <= n <= payloadLen
    requires TotalBytes(payloadLen, limits) <= n * limits.maxPayloadLen
    requires n >= 3 ==> (n - 1) * limits.maxPayloadLen + 1 <= TotalBytes(payloadLen, limits)
    ensures PlanFor(n, TotalBytes(payloadLen, limits) / n, TotalBytes(payloadLen, limits) % n, payloadLen, limits)
  {
    var total, max := TotalBytes(payloadLen, limits), limits.maxPayloadLen;
    var base, larger := total / n, total % n;
    assert total == n * base + larger;
    DivisionBounds(n, total, max, base, larger);
    PlannedTailClosed(n, base, larger);
    PlannedTailClosed(2, base, larger);
    if n >= 3 { TwoPacketsLeft(n, total, base, larger, max, limits.firstReduction, limits.lastReduction); }
  }

  lemma DivisionBounds(n: int, total: int, max: int, base: int, larger: int)
    requires 2 <= n <= total <= n * max
    requires total == n * base + larger && 0 <= larger < n
    ensures 1 <= base && Planned(1, base, larger) <= max
  {
    if base < 1 {
      MulAtLeast(base, 0, n);
      assert false;
    }
    if base >= max {
      MulAtLeast(max, base, n);
      if base > max {
        MulAtLeast(max + 1, base, n);
        assert false;
      }
    }
  }

  /** The first packet leaves the loop in a state from which the rest can be filled. */
  lemma FirstStep(n: int, base: int, larger: int, payloadLen: int, limits: PayloadSizeLimits)
    requires PlanFor(n, base, larger, payloadLen, limits)
    ensures var size := NextSize(n, payloadLen, base, true, limits.firstReduction);
            && 0 < size <= limits.maxPayloadLen - limits.firstReduction
            && TailState(n - 1, payloadLen - size, base, larger, Extra(base, limits),
                         limits.maxPayloadLen, limits.lastReduction)
            && (size > 1 && (n >= 3 || payloadLen - size > 1) ==> size == base - limits.firstReduction)
            && (size > 1 ==> Extra(base, limits) == 0)
  {
    assert PlannedTail(1, base, larger) == Planned(1, base, larger);
    if n >= 3 { PlannedTailGrows(n - 1, base, larger); }
  }

  /** With n >= 2 packets the loop yields an admissible, about equal split into exactly n parts. */
  lemma MultiPacketSplit(n: int, base: int, larger: int, payloadLen: int, limits: PayloadSizeLimits)
    requires PlanFor(n, base, larger, payloadLen, limits)
    ensures var parts := SplitFrom(n, payloadLen, base, larger, true, limits.firstReduction);
            |parts| == n && Admissible(parts, payloadLen, limits) && AboutEqual(parts, limits)
  {
    var max, f, l := limits.maxPayloadLen, limits.firstReduction, limits.lastReduction;
    var size := NextSize(n, payloadLen, base, true, f);
    FirstStep(n, base, larger, payloadLen, limits);
    TailSplits(n - 1, payloadLen - size, base, larger, Extra(base, limits), max, f, l);
    var rest := SplitFrom(n - 1, payloadLen - size, base, larger, false, f);
    var parts := [size] + rest;
    assert SplitFrom(n, payloadLen, base, larger, true, f) == parts;
    assert parts[1..] == rest;
    HeadTailAdmissible(size, rest, payloadLen, limits);
    if size > 1 { HeadTailAboutEqual(size, rest, base, larger, limits); }
  }

  lemma HeadTailAdmissible(size: int, rest: seq<int>, payloadLen: int, limits: PayloadSizeLimits)
    requires rest != [] && 0 <= limits.firstReduction
    requires 0 < size <= limits.maxPayloadLen - limits.firstReduction
    requires FillsTail(rest, |rest|, payloadLen - size, limits.maxPayloadLen, limits.lastReduction)
    ensures Admissible([size] + rest, payloadLen, limits)
  {
    var parts := [size] + rest;
    assert parts[1..] == rest;
    assert forall i :: 0 < i < |parts| ==> parts[i] == rest[i - 1];
  }

  lemma HeadTailAboutEqual(size: int, rest: seq<int>, base: int, larger: int, limits: PayloadSizeLimits)
    requires rest != [] && FollowsPlan(rest, base, larger, limits.lastReduction)
    requires larger <= |rest|
    requires |rest| >= 2 || rest[0] > 1 ==> size == base - limits.firstReduction
    ensures AboutEqual([size] + rest, limits)
  {
    var parts := [size] + rest;
    assert forall i :: 0 < i < |parts| ==> parts[i] == rest[i - 1];
    if parts[|parts| - 1] > 1 {
      forall i | 0 <= i < |parts|
        ensures Spare(parts, limits, i) == limits.maxPayloadLen - Planned(|parts| - i, base, larger)
      {
        if i > 0 { assert |parts| - i == |rest| - (i - 1); }
      }
    }
  }

  // ---------- The method and its specification ----------

  /** No admissible split has fewer bytes than packets or more bytes than its packets hold. */
  lemma {:induction false} SumBounds(parts: seq<int>, max: int)
    requires forall i :: 0 <= i < |parts| ==> 0 < parts[i] <= max
    ensures |parts| <= Sum(parts) <= |parts| * max
  {
    if parts == [] {
    } else {
      SumBounds(parts[1..], max);
      assert |parts| * max == |parts[1..]| * max + max;
    }
  }

  lemma {:induction false} SumSnoc(s: seq<int>, x: int)
    ensures Sum(s + [x]) == Sum(s) + x
  {
    if s == [] {
      assert s + [x] == [x] && [x][1..] == [];
    } else {
      SumSnoc(s[1..], x);
      assert (s + [x])[1..] == s[1..] + [x];
    }
  }

  lemma SumSingleton(s: seq<int>)
    requires |s| == 1
    ensures Sum(s) == s[0]
  {
    assert s[1..] == [];
  }

  lemma AdmissibleBounds(parts: seq<int>, payloadLen: int, limits: PayloadSizeLimits)
    requires Admissible(parts, payloadLen, limits) && |parts| >= 2
    requires limits.firstReduction >= 0 && limits.lastReduction >= 0
    ensures limits.firstReduction < limits.maxPayloadLen && limits.lastReduction < limits.maxPayloadLen
    ensures |parts| <= payloadLen && TotalBytes(payloadLen, limits) <= |parts| * limits.maxPayloadLen
  {
    var n, max := |parts|, limits.maxPayloadLen;
    SumBounds(parts, max);
    var mid := parts[1..n - 1];
    SumBounds(mid, max);
    assert parts[1..] == mid + [parts[n - 1]];
    SumSnoc(mid, parts[n - 1]);
    assert n * max == |mid| * max + 2 * max;
  }

  /** The least number of packets the capacities allow is the one the algorithm chooses. */
  lemma NumPacketsIsLeast(payloadLen: int, limits: PayloadSizeLimits)
    requires payloadLen > 0 && limits.maxPayloadLen >= 1
    requires limits.firstReduction >= 0 && limits.lastReduction >= 0
    ensures var n, total, max := NumPackets(payloadLen, limits), TotalBytes(payloadLen, limits), limits.maxPayloadLen;
            2 <= n && total <= n * max && (n >= 3 ==> (n - 1) * max + 1 <= total)
    ensures forall k {:trigger k * limits.maxPayloadLen} ::
              2 <= k && TotalBytes(payloadLen, limits) <= k * limits.maxPayloadLen
              ==> NumPackets(payloadLen, limits) <= k
  {
    var n, total, max := NumPackets(payloadLen, limits), TotalBytes(payloadLen, limits), limits.maxPayloadLen;
    var c := CeilDiv(total, max);
    if c == 1 { assert 2 * max >= 1 * max; }
    forall k {:trigger k * max} | 2 <= k && total <= k * max
      ensures n <= k
    {
      if k < c { MulAtLeast(c - 1, k, max); assert false; }
    }
  }

  lemma ChosenSplit(payloadLen: int, limits: PayloadSizeLimits)
    requires payloadLen > 0
    requires 0 <= limits.firstReduction < limits.maxPayloadLen && 0 <= limits.lastReduction < limits.maxPayloadLen
    requires limits.maxPayloadLen < limits.singleReduction + payloadLen
    requires NumPackets(payloadLen, limits) <= payloadLen
    ensures var sizes := SplitSizes(payloadLen, limits);
            |sizes| == NumPackets(payloadLen, limits) && Admissible(sizes, payloadLen, limits)
                && AboutEqual(sizes, limits)
  {
    var n, total := NumPackets(payloadLen, limits), TotalBytes(payloadLen, limits);
    NumPacketsIsLeast(payloadLen, limits);
    ChosenPlan(n, total / n, total % n, payloadLen, limits);
    MultiPacketSplit(n, total / n, total % n, payloadLen, limits);
  }

  lemma ChosenPlan(n: int, base: int, larger: int, payloadLen: int, limits: PayloadSizeLimits)
    requires 0 <= limits.firstReduction < limits.maxPayloadLen && 0 <= limits.lastReduction < limits.maxPayloadLen
    requires limits.maxPayloadLen < limits.singleReduction + payloadLen
    requires 2 <= n <= payloadLen && n == NumPackets(payloadLen, limits)
    requires base == TotalBytes(payloadLen, limits) / n && larger == TotalBytes(payloadLen, limits) % n
    ensures PlanFor(n, base, larger, payloadLen, limits)
    ensures SplitSizes(payloadLen, limits) == SplitFrom(n, payloadLen, base, larger, true, limits.firstReduction)
  {
    NumPacketsIsLeast(payloadLen, limits);
    DivisionPlans(n, payloadLen, limits);
  }

  /** Sound, minimal, complete, and about equal: what the splitter promises. */
  lemma SplitIsBest(payloadLen: int, limits: PayloadSizeLimits)
    requires payloadLen > 0 && limits.firstReduction >= 0 && limits.lastReduction >= 0
    ensures var sizes := SplitSizes(payloadLen, limits);
            && (sizes == [] <==> !exists parts :: Admissible(parts, payloadLen, limits))
            && (sizes != [] ==> Admissible(sizes, payloadLen, limits) && AboutEqual(sizes, limits))
            && (forall parts :: Admissible(parts, payloadLen, limits) ==> |sizes| <= |parts|)
  {
    var sizes := SplitSizes(payloadLen, limits);
    if limits.maxPayloadLen >= limits.singleReduction + payloadLen {
      assert Sum([payloadLen]) == payloadLen;
      assert Admissible(sizes, payloadLen, limits);
    } else {
      forall parts | Admissible(parts, payloadLen, limits)
        ensures |parts| >= 2 && sizes != [] && |sizes| <= |parts|
      {
        if |parts| == 1 {
          SumSingleton(parts);
        } else {
          AdmissibleBounds(parts, payloadLen, limits);
          NumPacketsIsLeast(payloadLen, limits);
          ChosenSplit(payloadLen, limits);
        }
      }
      if sizes != [] {
        NumPacketsIsLeast(payloadLen, limits);
        ChosenSplit(payloadLen, limits);
      }
    }
  }

  /** The states of the loop: n packets were planned, `left` of them are still to be filled. */
  ghost predicate LoopState(n: int, left: int, remaining: int, base: int, larger: int, first: bool,
                            payloadLen: int, limits: PayloadSizeLimits)
  {
    && PlanFor(n, base, larger, payloadLen, limits)
    && 0 <= left <= n && (first <==> left == n)
    && (first ==> remaining == payloadLen)
    && (remaining > 0 ==> left > 0)
    && (!first && remaining > 0 ==>
          TailState(left, remaining, base, larger, Extra(base, limits), limits.maxPayloadLen, limits.lastReduction))
  }

  lemma LoopStep(n: int, left: int, remaining: int, base: int, larger: int, first: bool,
                 payloadLen: int, limits: PayloadSizeLimits)
    requires LoopState(n, left, remaining, base, larger, first, payloadLen, limits) && remaining > 0
    ensures var f := limits.firstReduction;
            var size := NextSize(left, remaining, Planned(left, base, larger), first, f);
            && LoopState(n, left - 1, remaining - size, base, larger, false, payloadLen, limits)
            && (forall result: seq<int> ::
                  result + SplitFrom(left, remaining, base, larger, first, f)
                  == (result + [size]) + SplitFrom(left - 1, remaining - size, base, larger, false, f))
  {
    if first {
      FirstStep(n, base, larger, payloadLen, limits);
    } else if left >= 2 {
      TailStep(left, remaining, base, larger, Extra(base, limits), limits.maxPayloadLen, limits.lastReduction,
          limits.firstReduction);
    }
  }

  /** The clamps in the loop of SplitAboutEqually. */
  method NextPacketBytes(numPacketsLeft: int, remainingData: int, bytesPerPacket: int, firstPacket: bool,
      limits: PayloadSizeLimits)
    returns (currentPacketBytes: int)
    ensures currentPacketBytes ==
      NextSize(numPacketsLeft, remainingData, bytesPerPacket, firstPacket, limits.firstReduction)
  {
    currentPacketBytes := bytesPerPacket;
    if firstPacket {
      if currentPacketBytes > limits.firstReduction + 1 {
        currentPacketBytes := currentPacketBytes - limits.firstReduction;
      } else {
        currentPacketBytes := 1;
      }
    }
    if currentPacketBytes > remainingData {
      currentPacketBytes := remainingData;
    }
    // The last packet gets at least one byte.
    if numPacketsLeft == 2 && currentPacketBytes == remainingData {
      currentPacketBytes := currentPacketBytes - 1;
    }
  }

  /** The loop of SplitAboutEqually. */
  method FillPackets(numPackets: int, base: int, numLargerPackets: int, payloadLen: int, limits: PayloadSizeLimits)
    returns (result: seq<int>)
    requires PlanFor(numPackets, base, numLargerPackets, payloadLen, limits)
    ensures result == SplitFrom(numPackets, payloadLen, base, numLargerPackets, true, limits.firstReduction)
  {
    result := [];
    var numPacketsLeft := numPackets;
    var bytesPerPacket := base;
    var remainingData := payloadLen;
    var firstPacket := true;
    ghost var f := limits.firstReduction;
    ghost var sizes := SplitFrom(numPackets, payloadLen, base, numLargerPackets, true, f);
    while remainingData > 0
      invariant LoopState(numPackets, numPacketsLeft, remainingData, base, numLargerPackets, firstPacket,
          payloadLen, limits)
      invariant bytesPerPacket == if numPacketsLeft < numLargerPackets then base + 1 else base
      invariant sizes ==
        result + SplitFrom(numPacketsLeft, remainingData, base, numLargerPackets, firstPacket, f)
      decreases numPacketsLeft
    {
      if numPacketsLeft == numLargerPackets {
        bytesPerPacket := bytesPerPacket + 1;
      }
      var currentPacketBytes := NextPacketBytes(numPacketsLeft, remainingData, bytesPerPacket, firstPacket, limits);
      LoopStep(numPackets, numPacketsLeft, remainingData, base, numLargerPackets, firstPacket, payloadLen, limits);
      result := result + [currentPacketBytes];
      remainingData := remainingData - currentPacketBytes;
      numPacketsLeft := numPacketsLeft - 1;
      firstPacket := false;
    }
  }

  method SplitAboutEqually(payloadLen: int, limits: PayloadSizeLimits) returns (result: seq<int>)
    requires payloadLen > 0 && limits.firstReduction >= 0 && limits.lastReduction >= 0
    ensures result == SplitSizes(payloadLen, limits)
    ensures result == [] <==> !exists parts :: Admissible(parts, payloadLen, limits)
    ensures result != [] ==> Admissible(result, payloadLen, limits) && AboutEqual(result, limits)
    ensures forall parts :: Admissible(parts, payloadLen, limits) ==> |result| <= |parts|
  {
    SplitIsBest(payloadLen, limits);
    if limits.maxPayloadLen >= limits.singleReduction + payloadLen {
      return [payloadLen];
    }
    if limits.maxPayloadLen - limits.firstReduction < 1 || limits.maxPayloadLen - limits.lastReduction < 1 {
      return [];
    }
    var totalBytes := payloadLen + limits.firstReduction + limits.lastReduction;
    var numPackets := (totalBytes + limits.maxPayloadLen - 1) / limits.maxPayloadLen;
    if numPackets == 1 {
      numPackets := 2;
    }
    NumPacketsIsLeast(payloadLen, limits);
    if payloadLen < numPackets {
      return [];
    }
    var bytesPerPacket := totalBytes / numPackets;
    var numLargerPackets := totalBytes % numPackets;
    ChosenPlan(numPackets, bytesPerPacket, numLargerPackets, payloadLen, limits);
    result := FillPackets(numPackets, bytesPerPacket, numLargerPackets, payloadLen, limits);
  }
}
