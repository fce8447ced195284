/** Binary min-heaps as sequences, over any key (base/min_heap.h). */
module HeapOrder {

  function Parent(i: nat): nat
    requires i > 0
  {
    (i - 1) / 2
  }

  predicate Greater<T>(key: T -> nat, a: T, b: T) {
    key(a) > key(b)
  }

  ghost predicate HeapOrdered<T>(key: T -> nat, q: seq<T>) {
    forall i :: 0 < i < |q| ==> key(q[Parent(i)]) <= key(q[i])
  }

  /** Heap order with the element at `hole` left out. */
  ghost predicate OrderedAround<T>(key: T -> nat, q: seq<T>, hole: nat)
    requires hole < |q|
  {
    && (forall i :: 0 < i < |q| && i != hole && Parent(i) != hole ==> key(q[Parent(i)]) <= key(q[i]))
    && (forall i :: 0 < i < |q| && Parent(i) == hole && hole > 0 ==> key(q[Parent(hole)]) <= key(q[i]))
  }

  /** Where shifting up from a hole puts e. */
  function Up<T>(key: T -> nat, q: seq<T>, hole: nat, e: T): (r: seq<T>)
    requires hole < |q|
    ensures |r| == |q|
    decreases hole
  {
    if hole > 0 && Greater(key, q[Parent(hole)], e) then Up(key, q[hole := q[Parent(hole)]], Parent(hole), e)
    else q[hole := e]
  }

  /** The smaller child of a hole, the left one on a tie. */
  function MinChild<T>(key: T -> nat, q: seq<T>, hole: nat): (c: nat)
    requires 2 * hole + 1 < |q|
    ensures hole < c < |q| && Parent(c) == hole
  {
    var right := 2 * (hole + 1);
    if right == |q| || Greater(key, q[right], q[right - 1]) then right - 1 else right
  }

  /** Where shifting down from a hole puts e. */
  function Down<T>(key: T -> nat, q: seq<T>, hole: nat, e: T): (r: seq<T>)
    requires hole < |q|
    ensures |r| == |q|
    decreases |q| - hole
  {
    if 2 * hole + 1 < |q| && Greater(key, e, q[MinChild(key, q, hole)]) then
      var c := MinChild(key, q, hole);
      Down(key, q[hole := q[c]], c, e)
    else q[hole := e]
  }

  /** Shifting down, also from a hole behind the last element. */
  function DownOrSame<T>(key: T -> nat, q: seq<T>, hole: nat, e: T): (r: seq<T>)
    requires hole <= |q|
  {
    if hole < |q| then Down(key, q, hole, e) else q
  }

  lemma DownStep<T>(key: T -> nat, q: seq<T>, hole: nat, e: T)
    requires hole <= |q|
    ensures 2 * hole + 1 < |q| ==>
      var c := MinChild(key, q, hole);
      Down(key, q, hole, e) == if Greater(key, e, q[c]) then Down(key, q[hole := q[c]], c, e) else q[hole := e]
    ensures hole < |q| <= 2 * hole + 1 ==> Down(key, q, hole, e) == q[hole := e]
  {
  }

  lemma MoveHole<T>(q: seq<T>, hole: nat, next: nat, e: T)
    requires hole < |q| && next < |q| && hole != next
    ensures multiset(q[hole := q[next]][next := e]) == multiset(q[hole := e])
  {
    var moved := q[hole := q[next]];
    assert multiset(moved) == multiset(q) - multiset{q[hole]} + multiset{q[next]};
    assert multiset(moved[next := e]) == multiset(moved) - multiset{q[next]} + multiset{e};
  }

  lemma {:induction false} UpIsHeap<T>(key: T -> nat, q: seq<T>, hole: nat, e: T)
    requires hole < |q| && OrderedAround(key, q, hole)
    requires forall i :: 0 < i < |q| && Parent(i) == hole ==> key(e) <= key(q[i])
    ensures HeapOrdered(key, Up(key, q, hole, e)) && multiset(Up(key, q, hole, e)) == multiset(q[hole := e])
    decreases hole
  {
    if hole == 0 || !Greater(key, q[Parent(hole)], e) {
    } else {
      UpIsHeap(key, q[hole := q[Parent(hole)]], Parent(hole), e);
      MoveHole(q, hole, Parent(hole), e);
    }
  }

  lemma MinChildIsLeast<T>(key: T -> nat, q: seq<T>, hole: nat)
    requires 2 * hole + 1 < |q|
    ensures forall i :: 0 < i < |q| && Parent(i) == hole ==> key(q[MinChild(key, q, hole)]) <= key(q[i])
  {
  }

  /** Filling the hole with its smaller child moves the hole there. */
  lemma HoleMovesDown<T>(key: T -> nat, q: seq<T>, hole: nat)
    requires 2 * hole + 1 < |q| && OrderedAround(key, q, hole)
    ensures OrderedAround(key, q[hole := q[MinChild(key, q, hole)]], MinChild(key, q, hole))
  {
    hide MinChild;
    MinChildIsLeast(key, q, hole);
    var c := MinChild(key, q, hole);
    var moved := q[hole := q[c]];
    forall i | 0 < i < |q| && i != c && Parent(i) != c
      ensures key(moved[Parent(i)]) <= key(moved[i])
    {
      if i == hole { assert Parent(c) == hole; }
    }
  }

  lemma {:induction false} DownIsHeap<T>(key: T -> nat, q: seq<T>, hole: nat, e: T)
    requires hole < |q| && OrderedAround(key, q, hole)
    requires hole > 0 ==> key(q[Parent(hole)]) <= key(e)
    ensures HeapOrdered(key, Down(key, q, hole, e)) && multiset(Down(key, q, hole, e)) == multiset(q[hole := e])
    decreases |q| - hole
  {
    hide MinChild;
    if |q| <= 2 * hole + 1 {
    } else {
      var c := MinChild(key, q, hole);
      MinChildIsLeast(key, q, hole);
      if Greater(key, e, q[c]) {
        HoleMovesDown(key, q, hole);
        DownIsHeap(key, q[hole := q[c]], c, e);
        MoveHole(q, hole, c, e);
      }
    }
  }

  /** The root is a minimum. */
  lemma {:induction false} RootIsLeast<T>(key: T -> nat, q: seq<T>, i: nat)
    requires HeapOrdered(key, q) && i < |q|
    ensures key(q[0]) <= key(q[i])
  {
    if i == 0 {
    } else {
      RootIsLeast(key, q, Parent(i));
    }
  }

  /** Replacing the element at `at` by the last one leaves a heap around that position. */
  lemma ReplacedByLast<T>(key: T -> nat, q: seq<T>, at: nat)
    requires HeapOrdered(key, q) && at < |q| - 1
    ensures var rest, last := q[..|q| - 1], q[|q| - 1];
            && OrderedAround(key, rest, at)
            && (at > 0 && Greater(key, rest[Parent(at)], last) ==>
                  forall i :: 0 < i < |rest| && Parent(i) == at ==> key(last) <= key(rest[i]))
  {
    var rest := q[..|q| - 1];
    forall i | 0 < i < |rest| && Parent(i) == at
      ensures at > 0 ==> key(rest[Parent(at)]) <= key(rest[at]) <= key(rest[i])
    {
    }
  }

  lemma LastInOrder<T>(key: T -> nat, q: seq<T>)
    requires HeapOrdered(key, q) && q != []
    ensures |q| > 1 ==> !Greater(key, q[Parent(|q| - 1)], q[|q| - 1])
  {
  }

  /** What is left when the element at `at` is erased. */
  function Erased<T>(key: T -> nat, q: seq<T>, at: nat): (r: seq<T>)
    requires at < |q|
    ensures |r| == |q| - 1
  {
    var rest, last := q[..|q| - 1], q[|q| - 1];
    if at == |q| - 1 then rest
    else if at > 0 && Greater(key, q[Parent(at)], last) then Up(key, rest, at, last)
    else Down(key, rest, at, last)
  }

  /** Erasing keeps the heap order and takes out exactly the named element, wherever it is. */
  lemma ErasedIsHeap<T>(key: T -> nat, q: seq<T>, at: nat)
    requires HeapOrdered(key, q) && at < |q|
    ensures HeapOrdered(key, Erased(key, q, at)) && multiset(Erased(key, q, at)) == multiset(q) - multiset{q[at]}
  {
    hide Up, Down;
    var rest, last := q[..|q| - 1], q[|q| - 1];
    if at < |q| - 1 {
      ReplacedByLast(key, q, at);
      WithoutLast(q, at);
      if at > 0 && Greater(key, q[Parent(at)], last) {
        UpIsHeap(key, rest, at, last);
      } else {
        DownIsHeap(key, rest, at, last);
      }
    } else {
      assert q == rest + [last];
    }
  }

  lemma WithoutLast<T>(q: seq<T>, at: nat)
    requires at < |q| - 1
    ensures multiset(q[..|q| - 1][at := q[|q| - 1]]) == multiset(q) - multiset{q[at]}
  {
    var rest, last := q[..|q| - 1], q[|q| - 1];
    assert q == rest + [last];
    assert multiset(rest[at := last]) == multiset(rest) - multiset{rest[at]} + multiset{last};
  }

  /** Without duplicates, what is erased does not occur any more. */
  lemma ErasedIsGone<T>(key: T -> nat, q: seq<T>, at: nat)
    requires HeapOrdered(key, q) && at < |q|
    requires forall i, j :: 0 <= i < j < |q| ==> q[i] != q[j]
    ensures q[at] !in Erased(key, q, at) && multiset(Erased(key, q, at)) == multiset(q) - multiset{q[at]}
  {
    var x := q[at];
    var before, after := q[..at], q[at + 1..];
    assert q == before + [x] + after;
    assert x !in before && x !in after;
    assert multiset(q)[x] == 1;
    ErasedIsHeap(key, q, at);
    assert multiset(Erased(key, q, at))[x] == 0;
  }

  lemma ErasedSubset<T>(key: T -> nat, q: seq<T>, at: nat)
    requires HeapOrdered(key, q) && at < |q|
    ensures forall i :: 0 <= i < |q| - 1 ==> Erased(key, q, at)[i] in q
  {
    ErasedIsHeap(key, q, at);
    forall i | 0 <= i < |q| - 1
      ensures Erased(key, q, at)[i] in q
    {
      assert Erased(key, q, at)[i] in multiset(Erased(key, q, at));
      assert Erased(key, q, at)[i] in multiset(q);
    }
  }

  lemma PushedIsHeap<T>(key: T -> nat, q: seq<T>, e: T)
    requires HeapOrdered(key, q)
    ensures HeapOrdered(key, Up(key, q + [e], |q|, e))
        && multiset(Up(key, q + [e], |q|, e)) == multiset(q) + multiset{e}
  {
    UpIsHeap(key, q + [e], |q|, e);
    assert (q + [e])[|q| := e] == q + [e];
  }
}
