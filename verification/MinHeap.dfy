/** The intrusive min-heap of timed events (base/min_heap.h). */
module MinHeaps {
  import opened HeapOrder

  class TaskEvent {
    const delay: nat
    const task: nat
    var minHeapIdx: int

    /** Where an event is in a heap is not known before it was first pushed into one. */
    constructor (delay: nat, task: nat)
      ensures this.delay == delay && this.task == task
    {
      this.delay := delay;
      this.task := task;
    }
  }

  /** What the heap orders events by. */
  function Delay(e: TaskEvent): nat { e.delay }

  predicate Later(a: TaskEvent, b: TaskEvent) { a.delay > b.delay }

  // ---------- The heap ----------

  class MinHeap {
    var p: array<TaskEvent?>
    var n: nat
    /** The elements, in array order. */
    ghost var contents: seq<TaskEvent>

    /** The array holds the contents except at `hole`, and every element knows its position. */
    ghost predicate Stored(hole: nat)
      reads this, p, contents
    {
      && |contents| == n <= p.Length
      && forall i :: 0 <= i < n && i != hole ==> p[i] == contents[i] && contents[i].minHeapIdx == i
    }

    ghost predicate Valid()
      reads this, p, contents
    {
      Stored(n) && HeapOrdered(Delay, contents)
    }

    /** Elements know their positions, so no element occurs twice. */
    lemma ContentsDistinct()
      requires Valid()
      ensures forall i, j :: 0 <= i < j < |contents| ==> contents[i] != contents[j]
    {
    }

    constructor ()
      ensures Valid() && contents == [] && fresh(p)
    {
      p := new TaskEvent?[0];
      n := 0;
      contents := [];
    }

    predicate Empty()
      reads this, p, contents
      requires Valid()
      ensures Empty() <==> contents == []
    {
      n == 0
    }

    /** The least element, or null. */
    method Top() returns (e: TaskEvent?)
      requires Valid()
      ensures contents == [] ==> e == null
      ensures contents != [] ==> e == contents[0] && forall i :: 0 <= i < |contents| ==> e.delay <= contents[i].delay
    {
      if n == 0 {
        return null;
      }
      e := p[0];
      forall i | 0 <= i < |contents|
        ensures contents[0].delay <= contents[i].delay
      {
        RootIsLeast(Delay, contents, i);
      }
    }

    /** Makes room for `needed` elements, at least doubling the capacity when it has to grow. */
    method Reserve(needed: nat)
      requires Stored(n)
      modifies this`p
      ensures Stored(n) && needed <= p.Length && (p == old(p) || fresh(p))
      ensures p.Length == if old(p.Length) >= needed then old(p.Length)
                          else if old(p.Length) == 0 then (if needed > 8 then needed else 8)
                          else if needed > 2 * old(p.Length) then needed else 2 * old(p.Length)
    {
      if p.Length < needed {
        var a := if p.Length != 0 then p.Length * 2 else 8;
        if a < needed {
          a := needed;
        }
        var grown := new TaskEvent?[a];
        forall i | 0 <= i < n {
          grown[i] := p[i];
        }
        p := grown;
      }
    }

    method Push(e: TaskEvent)
      requires Valid() && e !in contents
      modifies this, p, contents, e
      ensures Valid() && (p == old(p) || fresh(p))
      ensures multiset(contents) == old(multiset(contents)) + multiset{e}
    {
      Reserve(n + 1);
      PushedIsHeap(Delay, contents, e);
      e.minHeapIdx := -1;
      n := n + 1;
      contents := contents + [e];
      ShiftUp(n - 1, e);
    }

    /** Moves the hole up until e can be put into it. */
    method ShiftUp(holeIndex: nat, e: TaskEvent)
      requires holeIndex < n && Stored(holeIndex)
      requires forall i :: 0 <= i < n && i != holeIndex ==> contents[i] != e
      modifies this`contents, p, contents, e
      ensures Stored(n) && contents == Up(Delay, old(contents), holeIndex, e)
    {
      var hole: nat := holeIndex;
      while hole > 0 && Later(p[Parent(hole)], e)
        invariant hole < n && Stored(hole)
        invariant forall i :: 0 <= i < n && i != hole ==> contents[i] != e
        invariant forall i :: 0 <= i < n && i != hole ==> contents[i] in old(contents)
        invariant Up(Delay, contents, hole, e) == Up(Delay, old(contents), holeIndex, e)
        decreases hole
      {
        var parent := Parent(hole);
        FillHole(hole, parent);
        hole := parent;
      }
      p[hole] := e;
      e.minHeapIdx := hole;
      contents := contents[hole := e];
    }

    /** Moves the hole down until e can be put into it; a hole behind the last element stays where it is. */
    method ShiftDown(holeIndex: nat, e: TaskEvent)
      requires holeIndex <= n && holeIndex < p.Length && Stored(holeIndex)
      requires forall i :: 0 <= i < n && i != holeIndex ==> contents[i] != e
      modifies this`contents, p, contents, e
      ensures Stored(n) && contents == DownOrSame(Delay, old(contents), holeIndex, e)
      ensures holeIndex == n ==> e.minHeapIdx == n
    {
      hide Down, MinChild;
      var hole: nat := holeIndex;
      var minChild := 2 * (hole + 1);
      while minChild <= n
        invariant hole <= n && hole < p.Length
        invariant minChild == 2 * (hole + 1) && Stored(hole)
        invariant forall i :: 0 <= i < n && i != hole ==> contents[i] != e
        invariant forall i :: 0 <= i < n && i != hole ==> contents[i] in old(contents)
        invariant DownOrSame(Delay, contents, hole, e) == DownOrSame(Delay, old(contents), holeIndex, e)
        invariant hole == n ==> holeIndex == n
        decreases n - hole
      {
        minChild := SmallerChild(hole, minChild);
        DownStep(Delay, contents, hole, e);
        if !Later(e, p[minChild]) {
          break;
        }
        FillHole(hole, minChild);
        hole := minChild;
        minChild := 2 * (hole + 1);
      }
      DownStep(Delay, contents, hole, e);
      p[hole] := e;
      e.minHeapIdx := hole;
      if hole < n { contents := contents[hole := e]; }
    }

    /** The choice between two children. */
    method SmallerChild(hole: nat, rightChild: nat) returns (minChild: nat)
      requires rightChild == 2 * (hole + 1) <= n && Stored(hole)
      ensures minChild == MinChild(Delay, contents, hole) && p[minChild] == contents[minChild]
    {
      minChild := rightChild;
      if minChild == n || Later(p[minChild], p[minChild - 1]) {
        minChild := minChild - 1;
      }
    }

    /** Moves the element at `from` into the hole. */
    method FillHole(hole: nat, from: nat)
      requires hole < n && from < n && hole != from && Stored(hole)
      modifies this`contents, p, contents[from]
      ensures contents == old(contents)[hole := old(contents)[from]] && Stored(from)
    {
      p[hole] := p[from];
      p[hole].minHeapIdx := hole;
      contents := contents[hole := contents[from]];
    }

    /** Takes out the least element; null when there is none. */
    method Pop() returns (e: TaskEvent?)
      requires Valid()
      modifies this`n, this`contents, p, contents
      ensures Valid()
      ensures old(contents) == [] ==> e == null && contents == []
      ensures old(contents) != [] ==>
        && e == old(contents)[0] && e.minHeapIdx == -1
        && multiset(contents) == old(multiset(contents)) - multiset{e} && |contents| == |old(contents)| - 1
        && (forall i :: 0 <= i < |contents| ==> contents[i] in old(contents))
        && forall i :: 0 <= i < |old(contents)| ==> e.delay <= old(contents)[i].delay
    {
      if n == 0 {
        return null;
      }
      e := Top();
      ErasedIsHeap(Delay, contents, 0);
      ErasedSubset(Delay, contents, 0);
      ErasedIsGone(Delay, contents, 0);
      n := n - 1;
      var last := p[n];
      contents := contents[..n];
      ShiftDown(0, last);
      e.minHeapIdx := -1;
    }

    /** Takes the last element off the array and puts it where it belongs around `at`. */
    method RemoveAt(at: nat)
      requires Stored(n) && at < n && (forall i :: 0 <= i < n - 1 ==> contents[i] != contents[n - 1])
      requires n > 1 ==> !Greater(Delay, contents[Parent(n - 1)], contents[n - 1])
      modifies this`n, this`contents, p, contents
      ensures Stored(n) && contents == Erased(Delay, old(contents), at)
    {
      hide Up, Down;
      n := n - 1;
      var last := p[n];
      contents := contents[..n];
      if at > 0 && Later(p[Parent(at)], last) {
        ShiftUp(at, last);
      } else {
        ShiftDown(at, last);
      }
    }

    /** Takes out the named element, wherever it is; false when it was in a heap and has left it. */
    method Erase(e: TaskEvent) returns (ok: bool)
      requires Valid() && (e.minHeapIdx != -1 ==> e in contents)
      modifies this`n, this`contents, p, contents, e
      ensures Valid() && e.minHeapIdx == -1
      ensures ok <==> old(e.minHeapIdx) != -1
      ensures multiset(contents) == if ok then old(multiset(contents)) - multiset{e} else old(multiset(contents))
    {
      hide Up, Down, HeapOrdered, Erased;
      if e.minHeapIdx == -1 {
        return false;
      }
      var at := e.minHeapIdx;
      ErasedIsHeap(Delay, contents, at);
      ErasedIsGone(Delay, contents, at);
      LastInOrder(Delay, contents);
      RemoveAt(at);
      e.minHeapIdx := -1;
      return true;
    }
  }
}
