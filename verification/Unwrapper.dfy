/** Unwrapping of wrap-around counters to a wider type (base/wrapper.h). */
module Unwrappers {
  import opened Arithmetic

  /**
   * An unsigned type of m values. Types narrower than int are promoted to int
   * before a subtraction; the difference of wider ones wraps around.
   */
  datatype Width = Width(m: int, promoted: bool)

  const UINT8 := Width(0x100, true)
  const UINT16 := Width(0x1_0000, true)
  const UINT32 := Width(0x1_0000_0000, false)

  ghost predicate ValidWidth(u: Width) { u.m >= 2 && u.m % 2 == 0 }

  datatype Option<T> = None | Some(value: T)

  function Crop(u: Width, v: int): (r: int)
    requires u.m > 0
    ensures 0 <= r < u.m
  {
    v % u.m
  }

  /** value - prev in the arithmetic of the type. */
  function Difference(u: Width, value: int, prev: int): int
    requires u.m > 0
  {
    if u.promoted then value - prev else Crop(u, value - prev)
  }

  predicate IsNewer(u: Width, value: int, prev: int)
    requires u.m > 0
  {
    if Difference(u, value, prev) == u.m / 2 then value > prev
    else value != prev && Crop(u, value - prev) < u.m / 2
  }

  class Unwrapper {
    const u: Width
    var last: Option<int>

    constructor (u: Width)
      requires ValidWidth(u)
      ensures this.u == u && last == None
    {
      this.u := u;
      last := None;
    }

    /** The unwrapped value, leaving the state alone. */
    method UnwrapWithoutUpdate(value: int) returns (r: int)
      requires ValidWidth(u) && 0 <= value < u.m
      ensures r == Unwrapped(u, last, value)
    {
      if last.None? { return value; }
      var croppedLast := Crop(u, last.value);
      var delta := Difference(u, value, croppedLast);
      ClosedForm(u, last.value, value);
      if IsNewer(u, value, croppedLast) {
        if delta < 0 { delta := delta + u.m; }
      } else if delta > 0 && last.value + delta - u.m >= 0 {
        delta := delta - u.m;
      }
      r := last.value + delta;
    }

    method UpdateLast(value: int)
      modifies this
      ensures last == Some(value)
    {
      last := Some(value);
    }

    method Unwrap(value: int) returns (r: int)
      requires ValidWidth(u) && 0 <= value < u.m
      modifies this
      ensures r == Unwrapped(u, old(last), value) && last == Some(r)
      ensures 0 <= r <==> StaysNonNegative(u, old(last), value)
    {
      NonNegativeExactly(u, last, value);
      r := UnwrapWithoutUpdate(value);
      UpdateLast(r);
    }
  }

  // ---------- What unwrapping means ----------

  /** The candidates for a wrapped value: the non-negative numbers that wrap to it. */
  ghost predicate WrapsTo(u: Width, x: int, value: int)
    requires u.m > 0
  {
    0 <= x && Crop(u, x) == value
  }

  function Distance(a: int, b: int): int { if a < b then b - a else a - b }

  /**
   * Reference: the candidate nearest to the last value. Of two candidates equally near, at half the
   * range, the upper one exactly when the wrapped value exceeds the last one, cropped.
   */
  ghost predicate IsNearest(u: Width, last: int, value: int, r: int)
    requires u.m > 0
  {
    && WrapsTo(u, r, value)
    && forall x {:trigger WrapsTo(u, x, value)} :: WrapsTo(u, x, value) && x != r ==>
      || Distance(r, last) < Distance(x, last)
      || (Distance(r, last) == Distance(x, last) && (x < r <==> Crop(u, last) < value))
  }

  /** By how much the last value moves, for a wrapped value v and the last one, cropped. */
  function Step(u: Width, last: int, v: int, c: int): int {
    if v >= c then
      if v - c <= u.m / 2 || last + (v - c) - u.m < 0 then v - c else v - c - u.m
    else
      if c - v > u.m / 2 || (!u.promoted && last + (v - c) < 0) then v - c + u.m else v - c
  }

  function Unwrapped(u: Width, last: Option<int>, value: int): int
    requires u.m > 0
  {
    if last.None? then value else last.value + Step(u, last.value, value, Crop(u, last.value))
  }

  // ---------- Remainders ----------

  lemma CropOfDifference(u: Width, value: int, prev: int)
    requires ValidWidth(u) && 0 <= value < u.m && 0 <= prev < u.m
    ensures Crop(u, value - prev) == if value >= prev then value - prev else value - prev + u.m
  {
    RemainderIs(value - prev, if value >= prev then 0 else -1,
        if value >= prev then value - prev else value - prev + u.m, u.m);
  }

  lemma CropShifts(u: Width, x: int, k: int)
    requires u.m > 0
    ensures Crop(u, x + k * u.m) == Crop(u, x)
  {
    var q := x / u.m;
    assert x + k * u.m == (q + k) * u.m + x % u.m;
    RemainderIs(x + k * u.m, q + k, x % u.m, u.m);
  }

  /** Numbers with the same remainder differ by a multiple: they are equal or at least m apart. */
  lemma SameCrop(u: Width, x: int, y: int)
    requires u.m > 0 && Crop(u, x) == Crop(u, y)
    ensures x == y || Distance(x, y) >= u.m
  {
    var p, q := x / u.m, y / u.m;
    assert x - y == (p - q) * u.m;
    Multiple(p - q, u.m);
  }

  // ---------- The two arithmetics agree with the reference ----------

  /** The branches of the code, in the arithmetic of the type. */
  function BranchStep(u: Width, last: int, value: int): int
    requires u.m > 0
  {
    var c := Crop(u, last);
    var d := Difference(u, value, c);
    if IsNewer(u, value, c) then (if d < 0 then d + u.m else d)
    else if d > 0 && last + d - u.m >= 0 then d - u.m else d
  }

  /** In either arithmetic, the branches taken by the code move the last value by Step. */
  lemma ClosedForm(u: Width, last: int, value: int)
    requires ValidWidth(u) && 0 <= value < u.m
    ensures BranchStep(u, last, value) == Step(u, last, value, Crop(u, last))
  {
    var c := Crop(u, last);
    CropOfDifference(u, value, c);
    if last >= 0 { CropIsLess(u, last); }
  }

  lemma CropIsLess(u: Width, x: int)
    requires u.m > 0 && 0 <= x
    ensures Crop(u, x) <= x
  {
    assert x == (x / u.m) * u.m + x % u.m;
    assert x / u.m >= 0;
  }

  /**
   Promoted and wrapping arithmetic agree on what is newer, and unwrap alike, unless the last value is negative and
   the value older and less than it, cropped. Only UpdateLast can set a negative last value.
   */
  lemma ArithmeticsAgree(m: int, last: int, value: int)
    requires ValidWidth(Width(m, true)) && 0 <= value < m
    ensures var c := Crop(Width(m, true), last);
            && (IsNewer(Width(m, true), value, c) <==> IsNewer(Width(m, false), value, c))
            && (BranchStep(Width(m, true), last, value) == BranchStep(Width(m, false), last, value)
                <==> last >= 0 || value >= c || IsNewer(Width(m, true), value, c))
  {
    var u, w := Width(m, true), Width(m, false);
    CropOfDifference(u, value, Crop(u, last));
    CropOfDifference(w, value, Crop(w, last));
    if last >= 0 { CropIsLess(u, last); }
  }

  /** Whatever the last value, results wrap back to the value. */
  lemma UnwrapIsCongruent(u: Width, last: Option<int>, value: int)
    requires ValidWidth(u) && 0 <= value < u.m
    ensures Crop(u, Unwrapped(u, last, value)) == value
  {
    if last.None? {
      RemainderIs(value, 0, value, u.m);
    } else {
      var c := Crop(u, last.value);
      var d := value - c;
      var q := last.value / u.m;
      assert last.value == q * u.m + c;
      assert last.value + d == q * u.m + value;
      RemainderIs(last.value + d, q, value, u.m);
      CropShifts(u, last.value + d, 1);
      CropShifts(u, last.value + d, -1);
    }
  }

  /** When the result is not negative: from a last value that is not, and from few that are. */
  predicate StaysNonNegative(u: Width, last: Option<int>, value: int)
    requires u.m > 0
  {
    last.None? || last.value >= 0 ||
    (var c := Crop(u, last.value);
     -u.m <= last.value && value < c && (u.promoted ==> IsNewer(u, value, c)))
  }

  lemma NonNegativeExactly(u: Width, last: Option<int>, value: int)
    requires ValidWidth(u) && 0 <= value < u.m
    ensures 0 <= Unwrapped(u, last, value) <==> StaysNonNegative(u, last, value)
  {
    if last.Some? {
      var c := Crop(u, last.value);
      CropOfDifference(u, value, c);
      if last.value >= 0 {
        CropIsLess(u, last.value);
      } else if last.value >= -u.m {
        RemainderIs(last.value, -1, last.value + u.m, u.m);
      }
    }
  }

  /** From a negative last value the result is the next candidate upwards, or an older one just below. */
  lemma FromNegative(u: Width, last: int, value: int)
    requires ValidWidth(u) && last < 0 && 0 <= value < u.m
    ensures var r, c := Unwrapped(u, Some(last), value), Crop(u, last);
            if u.promoted && value < c && !IsNewer(u, value, c) then last - u.m / 2 <= r < last
            else last <= r < last + u.m
  {
    CropOfDifference(u, value, Crop(u, last));
  }

  /** The class promises that no result is negative; with the narrower types it is here, and with 32 bits it is not. */
  lemma NegativeResult()
    ensures Unwrapped(UINT8, Some(-1), 0xFE) == -2 && Unwrapped(UINT8, Some(-1), 5) == 5
    ensures Unwrapped(UINT16, Some(-1), 0xFFFE) == -2 && Unwrapped(UINT32, Some(-1), 0xFFFF_FFFE) == 0xFFFF_FFFE
  {
  }

  /** From a last value that is not negative, the result is a candidate. */
  lemma UnwrapIsCandidate(u: Width, last: Option<int>, value: int)
    requires ValidWidth(u) && 0 <= value < u.m && (last.Some? ==> 0 <= last.value)
    ensures WrapsTo(u, Unwrapped(u, last, value), value)
  {
    UnwrapIsCongruent(u, last, value);
    NonNegativeExactly(u, last, value);
  }

  /** The code returns the nearest candidate, by its tie rule, and there is only one. */
  lemma UnwrapIsNearest(u: Width, last: int, value: int, r: int)
    requires ValidWidth(u) && 0 <= last && 0 <= value < u.m
    ensures IsNearest(u, last, value, r) <==> r == Unwrapped(u, Some(last), value)
  {
    var s := Unwrapped(u, Some(last), value);
    UnwrapIsCandidate(u, Some(last), value);
    forall x | WrapsTo(u, x, value) && x != s
      ensures Distance(s, last) < Distance(x, last)
           || (Distance(s, last) == Distance(x, last) && (x < s <==> Crop(u, last) < value))
    {
      SameCrop(u, x, s);
    }
  }

  // ---------- Whole runs ----------

  /** Exactly the moves from a last value to a number x that unwrapping follows. */
  predicate Followed(u: Width, last: int, x: int)
    requires u.m > 0
  {
    var d := x - last;
    || Distance(x, last) < u.m / 2
    || (Distance(x, last) == u.m / 2 && (d > 0 <==> Crop(u, last) < Crop(u, x)))
    || (u.m / 2 < d && x < u.m)
  }

  lemma StepIsExact(u: Width, last: int, x: int)
    requires ValidWidth(u) && 0 <= last && 0 <= x
    ensures Unwrapped(u, Some(last), Crop(u, x)) == x <==> Followed(u, last, x)
  {
    var r := Unwrapped(u, Some(last), Crop(u, x));
    UnwrapIsCandidate(u, Some(last), Crop(u, x));
    SameCrop(u, x, r);
    CropIsLess(u, last);
  }

  /** What a fresh unwrapper, or one with a last value, returns for a run of wrapped values. */
  function UnwrapRun(u: Width, last: Option<int>, values: seq<int>): (r: seq<int>)
    requires u.m > 0
    ensures |r| == |values|
    decreases |values|
  {
    if values == [] then [] else
      var x := Unwrapped(u, last, values[0]);
      [x] + UnwrapRun(u, Some(x), values[1..])
  }

  function CropAll(u: Width, xs: seq<int>): (r: seq<int>)
    requires u.m > 0
    ensures |r| == |xs|
  {
    seq(|xs|, i requires 0 <= i < |xs| => Crop(u, xs[i]))
  }

  predicate FollowedRun(u: Width, last: Option<int>, xs: seq<int>)
    requires u.m > 0
    decreases |xs|
  {
    xs == [] || ((if last.None? then xs[0] < u.m else Followed(u, last.value, xs[0]))
        && FollowedRun(u, Some(xs[0]), xs[1..]))
  }

  ghost predicate NonNegative(xs: seq<int>) { forall i :: 0 <= i < |xs| ==> 0 <= xs[i] }

  /** Unwrapping recovers a run of numbers from their remainders exactly if it follows every move. */
  lemma {:induction false} RunIsExact(u: Width, last: Option<int>, xs: seq<int>)
    requires ValidWidth(u) && NonNegative(xs) && (last.Some? ==> 0 <= last.value)
    ensures UnwrapRun(u, last, CropAll(u, xs)) == xs <==> FollowedRun(u, last, xs)
    decreases |xs|
  {
    if xs == [] {
    } else {
      var x := Unwrapped(u, last, Crop(u, xs[0]));
      assert CropAll(u, xs)[1..] == CropAll(u, xs[1..]);
      FirstIsExact(u, last, xs[0]);
      RunIsExact(u, Some(xs[0]), xs[1..]);
      assert UnwrapRun(u, last, CropAll(u, xs)) == [x] + UnwrapRun(u, Some(x), CropAll(u, xs[1..]));
      assert xs == [xs[0]] + xs[1..];
    }
  }

  lemma FirstIsExact(u: Width, last: Option<int>, x: int)
    requires ValidWidth(u) && 0 <= x && (last.Some? ==> 0 <= last.value)
    ensures Unwrapped(u, last, Crop(u, x)) == x <==> if last.None? then x < u.m else Followed(u, last.value, x)
  {
    if last.None? {
      if x < u.m { RemainderIs(x, 0, x, u.m); }
    } else {
      StepIsExact(u, last.value, x);
    }
  }

  /** A run that starts in range and moves by less than half the range is recovered. */
  lemma SmallMovesAreExact(u: Width, xs: seq<int>)
    requires ValidWidth(u) && NonNegative(xs) && xs != [] && xs[0] < u.m
    requires forall i :: 0 < i < |xs| ==> Distance(xs[i], xs[i - 1]) < u.m / 2
    ensures UnwrapRun(u, None, CropAll(u, xs)) == xs
  {
    RunIsExact(u, None, xs);
    SmallMovesAreFollowed(u, xs);
  }

  lemma {:induction false} SmallMovesAreFollowed(u: Width, xs: seq<int>)
    requires u.m > 0 && xs != []
    requires forall i :: 0 < i < |xs| ==> Distance(xs[i], xs[i - 1]) < u.m / 2
    ensures FollowedRun(u, Some(xs[0]), xs[1..])
    decreases |xs|
  {
    if |xs| <= 1 {
    } else {
      assert Distance(xs[1], xs[0]) < u.m / 2;
      assert xs[1..][1..] == xs[2..];
      forall i | 0 < i < |xs[1..]| ensures Distance(xs[1..][i], xs[1..][i - 1]) < u.m / 2 {
        assert Distance(xs[i + 1], xs[i]) < u.m / 2;
      }
      SmallMovesAreFollowed(u, xs[1..]);
    }
  }
}
