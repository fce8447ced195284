/** The timed task queue on top of the heap (base/task_queue.cc). */
module TaskQueues {
  import opened Clock
  import opened MinHeaps

  /** What a drain at time `now` takes out of the heap, and what it leaves. */
  ghost predicate DrainsDue(before: multiset<TaskEvent>, drained: seq<TaskEvent>, after: multiset<TaskEvent>,
      now: nat) {
    && multiset(drained) + after == before
    && (forall i :: 0 <= i < |drained| ==> drained[i].delay <= now)
    && (forall i, j :: 0 <= i < j < |drained| ==> drained[i].delay <= drained[j].delay)
    && (forall e :: e in after ==> e.delay > now)
  }

  /** In the middle of a drain: nothing left is earlier than what was taken. */
  ghost predicate Draining(before: multiset<TaskEvent>, drained: seq<TaskEvent>, left: seq<TaskEvent>, now: nat) {
    && multiset(drained) + multiset(left) == before
    && (forall i :: 0 <= i < |drained| ==> drained[i].delay <= now)
    && (forall i, j :: 0 <= i < j < |drained| ==> drained[i].delay <= drained[j].delay)
    && (forall i, j :: 0 <= i < |drained| && 0 <= j < |left| ==> drained[i].delay <= left[j].delay)
  }

  lemma DrainStart(left: seq<TaskEvent>, now: nat)
    ensures Draining(multiset(left), [], left, now)
  {
  }

  lemma DrainStep(before: multiset<TaskEvent>, drained: seq<TaskEvent>, left: seq<TaskEvent>, rest: seq<TaskEvent>,
                  e: TaskEvent, now: nat)
    requires Draining(before, drained, left, now) && left != [] && e == left[0] && e.delay <= now
    requires forall i :: 0 <= i < |left| ==> e.delay <= left[i].delay
    requires multiset(rest) == multiset(left) - multiset{e}
    requires forall i :: 0 <= i < |rest| ==> rest[i] in left
    ensures Draining(before, drained + [e], rest, now)
  {
  }

  lemma DrainEnd(before: multiset<TaskEvent>, drained: seq<TaskEvent>, left: seq<TaskEvent>, now: nat)
    requires Draining(before, drained, left, now)
    requires forall i :: 0 <= i < |left| ==> left[i].delay > now
    ensures DrainsDue(before, drained, multiset(left), now)
  {
  }

  class TaskQueue {
    const heap: MinHeap

    ghost predicate Valid()
      reads this, heap, heap.p, heap.contents
    {
      heap.Valid()
    }

    constructor ()
      ensures Valid() && fresh(heap) && heap.contents == []
    {
      heap := new MinHeap();
    }

    /** The deadline of a task posted at a time is stored in 32 bits, a sum of readings. */
    method PostDelayedTask(task: nat, timeMs: nat, time: nat) returns (event: TaskEvent)
      requires Valid()
      modifies heap, heap.p, heap.contents
      ensures Valid() && fresh(event) && event.task == task && event.delay == DeadlineAfter(time, timeMs)
      ensures multiset(heap.contents) == old(multiset(heap.contents)) + multiset{event}
    {
      var now := Reading(time);
      var future := now + timeMs;
      event := new TaskEvent(future % CLOCK_RANGE, task);
      heap.Push(event);
    }

    method PostTask(task: nat, time: nat) returns (event: TaskEvent)
      requires Valid()
      modifies heap, heap.p, heap.contents
      ensures Valid() && fresh(event) && event.task == task && event.delay == Reading(time)
      ensures multiset(heap.contents) == old(multiset(heap.contents)) + multiset{event}
    {
      DeadlineIsReading(time, 0);
      event := PostDelayedTask(task, 0, time);
    }

    /** One turn of Process until it runs tasks: by the reading, every due event leaves the heap, earliest first. */
    method Drain(time: nat) returns (pending: seq<TaskEvent>)
      requires Valid()
      modifies heap, heap.p, heap.contents
      ensures Valid()
      ensures DrainsDue(old(multiset(heap.contents)), pending, multiset(heap.contents), Reading(time))
    {
      var now := Reading(time);
      ghost var before := multiset(heap.contents);
      pending := [];
      DrainStart(heap.contents, now);
      while true
        invariant heap.Valid() && heap.p == old(heap.p)
        invariant forall i :: 0 <= i < |heap.contents| ==> heap.contents[i] in old(heap.contents)
        invariant Draining(before, pending, heap.contents, now)
        decreases |heap.contents|
      {
        ghost var left := heap.contents;
        var popped := PopDue(now);
        if popped == null {
          break;
        }
        DrainStep(before, pending, left, heap.contents, popped, now);
        pending := pending + [popped];
      }
      DrainEnd(before, pending, heap.contents, now);
    }

    /** Takes out the earliest event if it is due. */
    method PopDue(now: nat) returns (event: TaskEvent?)
      requires Valid()
      modifies heap`n, heap`contents, heap.p, heap.contents
      ensures Valid()
      ensures event == null ==>
        heap.contents == old(heap.contents) && forall i :: 0 <= i < |heap.contents| ==> heap.contents[i].delay > now
      ensures event != null ==>
        && old(heap.contents) != [] && event == old(heap.contents)[0] && event.delay <= now
        && (forall i :: 0 <= i < |old(heap.contents)| ==> event.delay <= old(heap.contents)[i].delay)
        && multiset(heap.contents) == old(multiset(heap.contents)) - multiset{event}
        && |heap.contents| == |old(heap.contents)| - 1
        && forall i :: 0 <= i < |heap.contents| ==> heap.contents[i] in old(heap.contents)
    {
      if heap.Empty() {
        return null;
      }
      event := heap.Top();
      if event.delay > now {
        return null;
      }
      event := heap.Pop();
    }

    method Clear()
      requires Valid()
      modifies heap, heap.p, heap.contents
      ensures Valid() && heap.contents == []
    {
      while !heap.Empty()
        invariant Valid() && heap.p == old(heap.p)
        invariant forall i :: 0 <= i < |heap.contents| ==> heap.contents[i] in old(heap.contents)
        decreases |heap.contents|
      {
        var _ := heap.Pop();
      }
    }
  }
}
