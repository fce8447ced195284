/**
 Runs of the task queue: any number of posting threads and the worker, as steps of a state machine around the
 compare-and-swap lock (base/lock.h, base/task_queue.cc). Operations on the heap are atomic only through the lock:
 while an event is being pushed or popped the heap is out of order. Time goes on for ever; whoever reads the clock
 gets 32 bits of it.
 */
module TaskQueueRuns {
  import opened Arithmetic
  import opened Clock
  import opened HeapOrder

  /** An event posted at a time, to be run after a delay. */
  datatype Event = Event(id: nat, posted: nat, delay: nat) {
    function Due(): nat { posted + delay }

    /** What the heap knows of it. */
    function Deadline(): nat { DeadlineAfter(posted, delay) }
  }

  function DeadlineOf(e: Event): nat { e.Deadline() }

  /** A posting thread: idle, spinning for the lock, inside it before, while and after pushing. */
  datatype Poster =
    | Idle
    | Spinning(event: Event)
    | Entered(event: Event)
    | Pushing(event: Event)
    | Pushed

  /**
   The worker: spinning, draining inside the lock, running what it drained. It goes by what the clock showed at
   the time `at`, when the turn began.
   */
  datatype Worker =
    | Resting
    | WaitingToDrain(at: nat)
    | Draining(at: nat, drained: seq<Event>)
    | Popping(at: nat, drained: seq<Event>)
    | Running(at: nat, todo: seq<Event>)

  /** An event run at the time `ranAt`, in a turn that had read the clock at `readAt`. */
  datatype Run = Run(event: Event, readAt: nat, ranAt: nat)

  datatype State = State(
    lock: nat,
    time: nat,
    posters: seq<Poster>,
    worker: Worker,
    heap: seq<Event>,
    posted: multiset<Event>,
    ran: seq<Run>)

  predicate InsideLock(p: Poster) { p.Entered? || p.Pushing? || p.Pushed? }

  predicate WorkerInside(w: Worker) { w.Draining? || w.Popping? }

  datatype Step =
    | Tick(time: nat)
    | Post(thread: nat, event: Event)
    | PosterEnters(thread: nat)
    | BeginPush(thread: nat)
    | EndPush(thread: nat)
    | PosterLeaves(thread: nat)
    | ReadClock
    | WorkerEnters
    | BeginPop
    | EndPop
    | WorkerLeaves
    | RunTask
    | Rest

  predicate Init(s: State) {
    && s.lock == 0 && s.worker == Resting
    && (forall i :: 0 <= i < |s.posters| ==> s.posters[i] == Idle)
    && s.heap == [] && s.posted == multiset{} && s.ran == []
  }

  predicate TopIsDue(s: State)
    requires WorkerInside(s.worker)
  {
    s.heap != [] && s.heap[0].Deadline() <= Reading(s.worker.at)
  }

  /** The compare-and-swap of Enter succeeds only on a free lock; until then the thread spins. */
  predicate Enabled(s: State, step: Step) {
    match step
    case Tick(time) => time >= s.time
    case Post(i, e) =>
      && i < |s.posters| && s.posters[i] == Idle && e !in s.posted
      && e.posted == s.time && e.delay < CLOCK_RANGE
    case PosterEnters(i) => i < |s.posters| && s.posters[i].Spinning? && s.lock == 0
    case BeginPush(i) => i < |s.posters| && s.posters[i].Entered?
    case EndPush(i) => i < |s.posters| && s.posters[i].Pushing?
    case PosterLeaves(i) => i < |s.posters| && s.posters[i].Pushed? && s.lock == 1
    case ReadClock => s.worker.Resting?
    case WorkerEnters => s.worker.WaitingToDrain? && s.lock == 0
    case BeginPop => s.worker.Draining? && TopIsDue(s)
    case EndPop => s.worker.Popping?
    case WorkerLeaves => s.worker.Draining? && s.lock == 1 && !TopIsDue(s)
    case RunTask => s.worker.Running? && s.worker.todo != []
    case Rest => s.worker.Running? && s.worker.todo == []
  }

  /** A pushed event is put behind the last one first, and then shifted up. */
  function ShiftedUp(heap: seq<Event>, e: Event): seq<Event> {
    if heap == [] then [] else Up(DeadlineOf, heap, |heap| - 1, e)
  }

  /** A popped event is overwritten by the last one first, which is then shifted down. */
  function LastAtRoot(heap: seq<Event>): seq<Event> {
    if |heap| <= 1 then [] else heap[..|heap| - 1][0 := heap[|heap| - 1]]
  }

  function ShiftedDown(heap: seq<Event>): seq<Event> {
    if heap == [] then [] else Down(DeadlineOf, heap, 0, heap[0])
  }

  function Apply(s: State, step: Step): State
    requires Enabled(s, step)
  {
    match step
    case Tick(time) => s.(time := time)
    case Post(i, e) => s.(posters := s.posters[i := Spinning(e)], posted := s.posted + multiset{e})
    case PosterEnters(i) => s.(lock := 1, posters := s.posters[i := Entered(s.posters[i].event)])
    case BeginPush(i) =>
      s.(heap := s.heap + [s.posters[i].event], posters := s.posters[i := Pushing(s.posters[i].event)])
    case EndPush(i) => s.(heap := ShiftedUp(s.heap, s.posters[i].event), posters := s.posters[i := Pushed])
    case PosterLeaves(i) => s.(lock := 0, posters := s.posters[i := Idle])
    case ReadClock => s.(worker := WaitingToDrain(s.time))
    case WorkerEnters => s.(lock := 1, worker := Draining(s.worker.at, []))
    case BeginPop => s.(heap := LastAtRoot(s.heap), worker := Popping(s.worker.at, s.worker.drained + [s.heap[0]]))
    case EndPop => s.(heap := ShiftedDown(s.heap), worker := Draining(s.worker.at, s.worker.drained))
    case WorkerLeaves => s.(lock := 0, worker := Running(s.worker.at, s.worker.drained))
    case RunTask =>
      s.(worker := Running(s.worker.at, s.worker.todo[1..]),
         ran := s.ran + [Run(s.worker.todo[0], s.worker.at, s.time)])
    case Rest => s.(worker := Resting)
  }

  /** A run: the states from init on, each reached by a step from the one before. */
  ghost predicate IsRun(states: seq<State>, steps: seq<Step>) {
    && |states| == |steps| + 1 && Init(states[0])
    && forall k :: 0 <= k < |steps| ==> Enabled(states[k], steps[k]) && states[k + 1] == Apply(states[k], steps[k])
  }

  /** The states of all runs. */
  ghost predicate Reachable(s: State) {
    exists states, steps :: IsRun(states, steps) && states[|states| - 1] == s
  }

  lemma ReachInit(s: State)
    requires Init(s)
    ensures Reachable(s)
  {
    var states, steps: seq<Step> := [s], [];
    assert IsRun(states, steps) && states[|states| - 1] == s;
  }

  lemma ReachStep(s: State, step: Step)
    requires Reachable(s) && Enabled(s, step)
    ensures Reachable(Apply(s, step))
  {
    hide Enabled, Apply, Init;
    var states, steps :| IsRun(states, steps) && states[|states| - 1] == s;
    var states', steps' := states + [Apply(s, step)], steps + [step];
    assert IsRun(states', steps') && states'[|states'| - 1] == Apply(s, step);
  }

  // ---------- The invariant ----------

  /** Nobody is inside the lock except, when it is taken, exactly one thread; -1 stands for the worker. */
  ghost predicate Exclusive(s: State, holder: int) {
    && -1 <= holder < |s.posters|
    && (forall i :: 0 <= i < |s.posters| ==> (InsideLock(s.posters[i]) <==> s.lock == 1 && i == holder))
    && (WorkerInside(s.worker) <==> s.lock == 1 && holder == -1)
  }

  ghost predicate MutualExclusion(s: State) {
    (s.lock == 0 || s.lock == 1) && exists holder :: Exclusive(s, holder)
  }

  /** A heap behind whose last event another one was put. */
  ghost predicate WithOneMore(heap: seq<Event>, e: Event) {
    heap != [] && heap[|heap| - 1] == e && HeapOrdered(DeadlineOf, heap[..|heap| - 1])
  }

  /** The heap is in order but for what the thread inside is in the middle of. */
  ghost predicate HeapShape(s: State) {
    && (s.worker.Popping? ==> s.heap == [] || OrderedAround(DeadlineOf, s.heap, 0))
    && (forall i :: 0 <= i < |s.posters| && s.posters[i].Pushing? ==> WithOneMore(s.heap, s.posters[i].event))
    && (!s.worker.Popping? && !SomePushing(s.posters) ==> HeapOrdered(DeadlineOf, s.heap))
  }

  ghost predicate SomePushing(posters: seq<Poster>) {
    exists i :: 0 <= i < |posters| && posters[i].Pushing?
  }

  /** The event a posting thread still has to push. */
  function CarriedBy(p: Poster): multiset<Event> {
    match p
    case Spinning(e) => multiset{e}
    case Entered(e) => multiset{e}
    case _ => multiset{}
  }

  /** The events posting threads still carry. */
  function Carried(posters: seq<Poster>): multiset<Event> {
    if posters == [] then multiset{} else CarriedBy(posters[0]) + Carried(posters[1..])
  }

  /** The events the worker has taken out and not run yet. */
  function InHand(w: Worker): seq<Event> {
    match w
    case Draining(_, drained) => drained
    case Popping(_, drained) => drained
    case Running(_, todo) => todo
    case _ => []
  }

  function Events(ran: seq<Run>): (events: seq<Event>)
    ensures |events| == |ran|
  {
    seq(|ran|, k requires 0 <= k < |ran| => ran[k].event)
  }

  /** No event is lost, duplicated or invented. */
  ghost predicate Conserved(s: State) {
    s.posted == Carried(s.posters) + multiset(s.heap) + multiset(InHand(s.worker)) + multiset(Events(s.ran))
  }

  /** Each event was posted once, by now, and with a delay of 32 bits. */
  ghost predicate WellPosted(s: State) {
    forall e :: e in s.posted ==> s.posted[e] == 1 && e.posted <= s.time && e.delay < CLOCK_RANGE
  }

  /** Whatever was run or taken out was due by the reading of the turn; each batch is in deadline order. */
  ghost predicate OnTime(s: State) {
    && (forall k :: 0 <= k < |s.ran| ==> RanOnTime(s.ran[k], s.time))
    && (!s.worker.Resting? ==> s.worker.at <= s.time && BatchDue(InHand(s.worker), Reading(s.worker.at)))
    && (WorkerInside(s.worker) ==> AllLater(InHand(s.worker), s.heap))
  }

  ghost predicate RanOnTime(r: Run, time: nat) {
    r.event.Deadline() <= Reading(r.readAt) && r.readAt <= r.ranAt <= time && r.event.posted <= r.ranAt
  }

  ghost predicate BatchDue(batch: seq<Event>, reading: nat) {
    && (forall i :: 0 <= i < |batch| ==> batch[i].Deadline() <= reading)
    && (forall i, j :: 0 <= i < j < |batch| ==> batch[i].Deadline() <= batch[j].Deadline())
  }

  ghost predicate AllLater(batch: seq<Event>, heap: seq<Event>) {
    forall i, e :: 0 <= i < |batch| && e in heap ==> batch[i].Deadline() <= e.Deadline()
  }

  ghost predicate Inv(s: State) {
    MutualExclusion(s) && HeapShape(s) && Conserved(s) && WellPosted(s) && OnTime(s)
  }

  // ---------- The lock ----------

  lemma StepExcludes(s: State, step: Step)
    requires Enabled(s, step) && MutualExclusion(s)
    ensures MutualExclusion(Apply(s, step))
  {
    hide ShiftedUp, ShiftedDown, LastAtRoot;
    var holder :| Exclusive(s, holder);
    var t := Apply(s, step);
    match step
    case PosterEnters(i) => assert Exclusive(t, i);
    case WorkerEnters => assert Exclusive(t, -1);
    case _ => assert Exclusive(t, holder);
  }

  // ---------- The heap ----------

  lemma PushEnds(heap: seq<Event>, e: Event)
    requires WithOneMore(heap, e)
    ensures HeapOrdered(DeadlineOf, ShiftedUp(heap, e)) && multiset(ShiftedUp(heap, e)) == multiset(heap)
  {
    var before := heap[..|heap| - 1];
    assert heap == before + [e];
    PushedIsHeap(DeadlineOf, before, e);
  }

  /** Half of a pop: the root goes, and the last event in its place is in nobody's order yet. */
  lemma PopBegins(heap: seq<Event>)
    requires heap != [] && HeapOrdered(DeadlineOf, heap)
    ensures LastAtRoot(heap) == [] || OrderedAround(DeadlineOf, LastAtRoot(heap), 0)
  {
    if |heap| > 1 { ReplacedByLast(DeadlineOf, heap, 0); }
  }

  lemma PopMoves(heap: seq<Event>)
    requires heap != []
    ensures multiset(heap) == multiset(LastAtRoot(heap)) + multiset{heap[0]}
    ensures forall e :: e in LastAtRoot(heap) ==> e in heap
  {
    if |heap| > 1 { WithoutLast(heap, 0); }
  }

  /** No event in the heap is due before the one on top. */
  lemma TopIsEarliest(heap: seq<Event>)
    requires HeapOrdered(DeadlineOf, heap)
    ensures forall e :: e in heap ==> heap[0].Deadline() <= e.Deadline()
  {
    forall e | e in heap
      ensures heap[0].Deadline() <= e.Deadline()
    {
      var i :| 0 <= i < |heap| && heap[i] == e;
      RootIsLeast(DeadlineOf, heap, i);
    }
  }

  lemma PopEnds(heap: seq<Event>)
    requires heap == [] || OrderedAround(DeadlineOf, heap, 0)
    ensures HeapOrdered(DeadlineOf, ShiftedDown(heap)) && multiset(ShiftedDown(heap)) == multiset(heap)
    ensures forall e :: e in ShiftedDown(heap) ==> e in heap
  {
    if heap != [] {
      DownIsHeap(DeadlineOf, heap, 0, heap[0]);
      forall e | e in ShiftedDown(heap)
        ensures e in heap
      {
        assert e in multiset(ShiftedDown(heap));
        assert e in multiset(heap);
      }
    }
  }

  /** The two halves together are the pop of the heap. */
  lemma PopIsErased(heap: seq<Event>)
    requires heap != []
    ensures ShiftedDown(LastAtRoot(heap)) == Erased(DeadlineOf, heap, 0)
  {
    if |heap| > 1 {
      var rest, last := heap[..|heap| - 1], heap[|heap| - 1];
      if |rest| > 1 {
        var c := MinChild(DeadlineOf, rest, 0);
        assert rest[0 := last][0 := rest[c]] == rest[0 := rest[c]];
      }
      DownStep(DeadlineOf, rest, 0, last);
      DownStep(DeadlineOf, rest[0 := last], 0, last);
    }
  }

  /** The two halves of a push together are the push of the heap. */
  lemma PushIsUp(heap: seq<Event>, e: Event)
    ensures ShiftedUp(heap + [e], e) == Up(DeadlineOf, heap + [e], |heap|, e)
  {
  }

  lemma StepShapes(s: State, step: Step)
    requires Enabled(s, step) && MutualExclusion(s) && HeapShape(s)
    ensures HeapShape(Apply(s, step))
  {
    hide ShiftedUp, ShiftedDown, LastAtRoot, HeapOrdered, OrderedAround, DeadlineAfter, Reading;
    var holder :| Exclusive(s, holder);
    var t := Apply(s, step);
    match step
    case BeginPush(i) =>
      assert t.heap[..|t.heap| - 1] == s.heap;
      assert t.posters[i].Pushing?;
    case EndPush(i) => PushEnds(s.heap, s.posters[i].event);
    case BeginPop => PopBegins(s.heap);
    case EndPop => PopEnds(s.heap);
    case PosterEnters(i) => SamePushing(s.posters, i, t.posters[i]);
    case PosterLeaves(i) => SamePushing(s.posters, i, t.posters[i]);
    case Post(i, _) => SamePushing(s.posters, i, t.posters[i]);
    case _ =>
  }

  lemma SamePushing(posters: seq<Poster>, i: nat, p: Poster)
    requires i < |posters| && !posters[i].Pushing? && !p.Pushing?
    ensures SomePushing(posters[i := p]) <==> SomePushing(posters)
  {
    var after := posters[i := p];
    if SomePushing(posters) {
      var j :| 0 <= j < |posters| && posters[j].Pushing?;
      assert after[j].Pushing?;
    }
  }

  // ---------- Accounting ----------

  lemma {:induction false} CarriedUpdate(posters: seq<Poster>, i: nat, p: Poster)
    requires i < |posters|
    ensures Carried(posters[i := p]) + CarriedBy(posters[i]) == Carried(posters) + CarriedBy(p)
  {
    var after := posters[i := p];
    if i == 0 {
      assert after[1..] == posters[1..];
    } else {
      CarriedUpdate(posters[1..], i - 1, p);
      assert after[1..] == posters[1..][i - 1 := p];
      SumUpdate(CarriedBy(posters[0]), Carried(after[1..]), CarriedBy(posters[i]), Carried(posters[1..]), CarriedBy(p));
    }
  }

  lemma SumUpdate(first: multiset<Event>, after: multiset<Event>, a: multiset<Event>, rest: multiset<Event>,
                  b: multiset<Event>)
    requires after + a == rest + b
    ensures (first + after) + a == (first + rest) + b
  {
    assert (first + after) + a == first + (after + a);
    assert (first + rest) + b == first + (rest + b);
  }

  lemma Rebalance(posted: multiset<Event>, carried: multiset<Event>, heap: multiset<Event>, rest: multiset<Event>,
                  a: multiset<Event>, posted': multiset<Event>, carried': multiset<Event>, heap': multiset<Event>,
                  a': multiset<Event>)
    requires posted == carried + heap + rest && carried' + a == carried + a'
    requires posted' + a + heap == posted + a' + heap'
    ensures posted' == carried' + heap' + rest
  {
    forall e: Event
      ensures posted'[e] == (carried' + heap' + rest)[e]
    {
      assert (posted' + a + heap)[e] == (posted + a' + heap')[e];
      assert (carried' + a)[e] == (carried + a')[e];
    }
  }

  lemma PosterConserves(s: State, i: nat, p: Poster, t: State)
    requires Conserved(s) && i < |s.posters| && t.posters == s.posters[i := p]
    requires t.worker == s.worker && t.ran == s.ran
    requires t.posted + CarriedBy(s.posters[i]) + multiset(s.heap) == s.posted + CarriedBy(p) + multiset(t.heap)
    ensures Conserved(t)
  {
    hide InHand, Events;
    CarriedUpdate(s.posters, i, p);
    var rest := multiset(InHand(s.worker)) + multiset(Events(s.ran));
    assert s.posted == Carried(s.posters) + multiset(s.heap) + rest;
    Rebalance(s.posted, Carried(s.posters), multiset(s.heap), rest, CarriedBy(s.posters[i]),
              t.posted, Carried(t.posters), multiset(t.heap), CarriedBy(p));
    assert t.posted == Carried(t.posters) + multiset(t.heap) + rest;
  }

  lemma PostConserves(s: State, step: Step)
    requires Enabled(s, step) && Conserved(s) && step.Post?
    ensures Conserved(Apply(s, step))
  {
    hide Conserved, DeadlineAfter;
    var t, i := Apply(s, step), step.thread;
    assert CarriedBy(s.posters[i]) == multiset{} && CarriedBy(t.posters[i]) == multiset{step.event};
    PosterConserves(s, i, t.posters[i], t);
  }

  lemma BeginPushConserves(s: State, step: Step)
    requires Enabled(s, step) && Conserved(s) && step.BeginPush?
    ensures Conserved(Apply(s, step))
  {
    hide Conserved;
    var t, i := Apply(s, step), step.thread;
    var e := s.posters[i].event;
    assert multiset(t.heap) == multiset(s.heap) + multiset{e};
    assert CarriedBy(s.posters[i]) == multiset{e} && CarriedBy(t.posters[i]) == multiset{};
    PosterConserves(s, i, t.posters[i], t);
  }

  lemma EndPushConserves(s: State, step: Step)
    requires Enabled(s, step) && Conserved(s) && step.EndPush? && WithOneMore(s.heap, s.posters[step.thread].event)
    ensures Conserved(Apply(s, step))
  {
    hide Conserved, WithOneMore, HeapOrdered, ShiftedUp;
    var t, i := Apply(s, step), step.thread;
    PushEnds(s.heap, s.posters[i].event);
    assert CarriedBy(s.posters[i]) == multiset{} && CarriedBy(t.posters[i]) == multiset{};
    PosterConserves(s, i, t.posters[i], t);
  }

  lemma PosterStepConserves(s: State, step: Step)
    requires Enabled(s, step) && Conserved(s) && HeapShape(s)
    requires step.Post? || step.PosterEnters? || step.BeginPush? || step.EndPush? || step.PosterLeaves?
    ensures Conserved(Apply(s, step))
  {
    hide Conserved, WithOneMore;
    if step.Post? {
      PostConserves(s, step);
    } else if step.BeginPush? {
      BeginPushConserves(s, step);
    } else if step.EndPush? {
      EndPushConserves(s, step);
    } else {
      PosterConserves(s, step.thread, Apply(s, step).posters[step.thread], Apply(s, step));
    }
  }

  /** The worker only moves events between the heap, its batch and what was run. */
  lemma WorkerConserves(s: State, t: State)
    requires Conserved(s) && t.posters == s.posters && t.posted == s.posted
    requires multiset(t.heap) + multiset(InHand(t.worker)) + multiset(Events(t.ran))
          == multiset(s.heap) + multiset(InHand(s.worker)) + multiset(Events(s.ran))
    ensures Conserved(t)
  {
    hide Carried, InHand, Events;
    var a, h, b, r := Carried(s.posters), multiset(s.heap), multiset(InHand(s.worker)), multiset(Events(s.ran));
    assert s.posted == a + (h + b + r);
  }

  lemma MoveToBatch(h: multiset<Event>, h': multiset<Event>, e: Event, batch: seq<Event>, r: multiset<Event>)
    requires h == h' + multiset{e}
    ensures h' + multiset(batch + [e]) + r == h + multiset(batch) + r
  {
  }

  lemma MoveToRan(h: multiset<Event>, todo: seq<Event>, ran: seq<Event>)
    requires todo != []
    ensures h + multiset(todo[1..]) + multiset(ran + [todo[0]]) == h + multiset(todo) + multiset(ran)
  {
    assert todo == [todo[0]] + todo[1..];
  }

  lemma BeginPopConserves(s: State)
    requires Enabled(s, BeginPop) && Conserved(s) && HeapOrdered(DeadlineOf, s.heap)
    ensures Conserved(Apply(s, BeginPop))
  {
    hide Conserved, HeapOrdered, OrderedAround, LastAtRoot, Carried, Events;
    var t := Apply(s, BeginPop);
    PopMoves(s.heap);
    MoveToBatch(multiset(s.heap), multiset(t.heap), s.heap[0], s.worker.drained, multiset(Events(s.ran)));
    WorkerConserves(s, t);
  }

  lemma RunConserves(s: State)
    requires Enabled(s, RunTask) && Conserved(s)
    ensures Conserved(Apply(s, RunTask))
  {
    hide Conserved, Carried;
    var t := Apply(s, RunTask);
    assert Events(t.ran) == Events(s.ran) + [s.worker.todo[0]];
    MoveToRan(multiset(s.heap), s.worker.todo, Events(s.ran));
    WorkerConserves(s, t);
  }

  lemma EndPopConserves(s: State)
    requires Enabled(s, EndPop) && Conserved(s) && (s.heap == [] || OrderedAround(DeadlineOf, s.heap, 0))
    ensures Conserved(Apply(s, EndPop))
  {
    hide Conserved, HeapOrdered, OrderedAround, ShiftedDown, Carried, Events;
    PopEnds(s.heap);
    WorkerConserves(s, Apply(s, EndPop));
  }

  lemma WorkerStepConserves(s: State, step: Step)
    requires Enabled(s, step) && Conserved(s) && HeapShape(s) && MutualExclusion(s)
    requires !step.Post? && !step.PosterEnters? && !step.BeginPush? && !step.EndPush? && !step.PosterLeaves?
    ensures Conserved(Apply(s, step))
  {
    hide Conserved, HeapOrdered, OrderedAround, Carried, Events, MutualExclusion;
    if step.BeginPop? {
      DrainingInOrder(s);
      BeginPopConserves(s);
    } else if step.EndPop? {
      EndPopConserves(s);
    } else if step.RunTask? {
      RunConserves(s);
    } else {
      WorkerConserves(s, Apply(s, step));
    }
  }

  lemma DrainingInOrder(s: State)
    requires HeapShape(s) && MutualExclusion(s) && s.worker.Draining?
    ensures HeapOrdered(DeadlineOf, s.heap)
  {
    var holder :| Exclusive(s, holder);
  }

  lemma StepConserves(s: State, step: Step)
    requires Enabled(s, step) && Conserved(s) && HeapShape(s) && MutualExclusion(s)
    ensures Conserved(Apply(s, step))
  {
    hide Conserved, HeapShape, MutualExclusion, Apply;
    if step.Post? || step.PosterEnters? || step.BeginPush? || step.EndPush? || step.PosterLeaves? {
      PosterStepConserves(s, step);
    } else {
      WorkerStepConserves(s, step);
    }
  }

  // ---------- Time ----------

  lemma StepWellPosted(s: State, step: Step)
    requires Enabled(s, step) && WellPosted(s)
    ensures WellPosted(Apply(s, step))
  {
    hide ShiftedUp, ShiftedDown, LastAtRoot;
  }

  lemma InHandIsPosted(s: State, i: nat)
    requires Conserved(s) && i < |InHand(s.worker)|
    ensures InHand(s.worker)[i] in s.posted
  {
    hide InHand, Events, Carried;
    assert InHand(s.worker)[i] in multiset(InHand(s.worker));
  }

  lemma BeginPopOnTime(s: State)
    requires Enabled(s, BeginPop) && OnTime(s) && HeapOrdered(DeadlineOf, s.heap)
    ensures OnTime(Apply(s, BeginPop))
  {
    hide LastAtRoot, HeapOrdered, Reading, DeadlineAfter, RanOnTime;
    TopIsEarliest(s.heap);
    PopMoves(s.heap);
  }

  lemma EndPopOnTime(s: State)
    requires Enabled(s, EndPop) && OnTime(s) && (s.heap == [] || OrderedAround(DeadlineOf, s.heap, 0))
    ensures OnTime(Apply(s, EndPop))
  {
    hide ShiftedDown, OrderedAround, HeapOrdered, Reading, DeadlineAfter, RanOnTime;
    PopEnds(s.heap);
  }

  lemma StepOnTime(s: State, step: Step)
    requires Enabled(s, step) && Inv(s)
    ensures OnTime(Apply(s, step))
  {
    if step.BeginPop? {
      DrainingInOrder(s);
      BeginPopOnTime(s);
    } else if step.EndPop? {
      EndPopOnTime(s);
    } else {
      OtherStepOnTime(s, step);
    }
  }

  lemma OtherStepOnTime(s: State, step: Step)
    requires Enabled(s, step) && Inv(s) && !step.BeginPop? && !step.EndPop?
    ensures OnTime(Apply(s, step))
  {
    hide ShiftedUp, HeapShape, Conserved, Reading, DeadlineAfter;
    var holder :| Exclusive(s, holder);
    if step.RunTask? { InHandIsPosted(s, 0); }
  }

  // ---------- Whole runs ----------

  lemma {:induction false} RunsKeepInv(states: seq<State>, steps: seq<Step>, k: nat)
    requires IsRun(states, steps) && k < |states|
    ensures Inv(states[k])
  {
    if k == 0 {
      InitInv(states[0]);
    } else {
      hide Enabled, Apply, Inv;
      RunsKeepInv(states, steps, k - 1);
      StepKeepsInv(states[k - 1], steps[k - 1]);
    }
  }

  lemma StepKeepsInv(s: State, step: Step)
    requires Enabled(s, step) && Inv(s)
    ensures Inv(Apply(s, step))
  {
    hide Enabled, Apply, MutualExclusion, HeapShape, Conserved, WellPosted, OnTime;
    StepExcludes(s, step);
    StepShapes(s, step);
    StepConserves(s, step);
    StepWellPosted(s, step);
    StepOnTime(s, step);
  }

  lemma InitInv(s: State)
    requires Init(s)
    ensures Inv(s)
  {
    assert Exclusive(s, -1);
    InitCarriesNothing(s.posters);
  }

  lemma {:induction false} InitCarriesNothing(posters: seq<Poster>)
    requires forall i :: 0 <= i < |posters| ==> posters[i] == Idle
    ensures Carried(posters) == multiset{}
  {
    if posters == [] {
    } else {
      InitCarriesNothing(posters[1..]);
    }
  }

  lemma ReachableInv(s: State)
    requires Reachable(s)
    ensures Inv(s)
  {
    hide Inv, Enabled, Apply;
    var states, steps :| IsRun(states, steps) && states[|states| - 1] == s;
    RunsKeepInv(states, steps, |states| - 1);
  }

  /** In every state of every run: one thread at most inside, and the heap ordered whenever the lock is free. */
  lemma LockProtectsHeap(s: State)
    requires Reachable(s)
    ensures s.lock == 0 ==> HeapOrdered(DeadlineOf, s.heap) && !WorkerInside(s.worker)
                            && forall i :: 0 <= i < |s.posters| ==> !InsideLock(s.posters[i])
    ensures s.lock != 0 ==> s.lock == 1 && exists holder :: Exclusive(s, holder)
    ensures s.worker.Draining? ==> HeapOrdered(DeadlineOf, s.heap)
  {
    hide Reachable, HeapOrdered, OrderedAround, Conserved, WellPosted, OnTime;
    ReachableInv(s);
    var holder :| Exclusive(s, holder);
  }

  /** No task runs twice, none runs that was not posted, and none is lost: all posted ones are accounted for. */
  lemma NoTaskTwice(s: State)
    requires Reachable(s)
    ensures forall i, j :: 0 <= i < j < |s.ran| ==> s.ran[i].event != s.ran[j].event
    ensures forall i :: 0 <= i < |s.ran| ==> s.ran[i].event in s.posted
    ensures |s.posted| == |Carried(s.posters)| + |s.heap| + |InHand(s.worker)| + |s.ran|
  {
    hide Reachable, MutualExclusion, HeapShape, OnTime;
    ReachableInv(s);
    var events := Events(s.ran);
    forall i, j | 0 <= i < j < |s.ran|
      ensures s.ran[i].event != s.ran[j].event
    {
      if events[i] == events[j] {
        RanIsPosted(s, i);
        TwoOccurrences(s, i, j);
        assert false;
      }
    }
    forall i | 0 <= i < |s.ran|
      ensures s.ran[i].event in s.posted
    {
      RanIsPosted(s, i);
    }
  }

  lemma RanIsPosted(s: State, i: nat)
    requires Conserved(s) && i < |s.ran|
    ensures s.ran[i].event in s.posted
  {
    assert Events(s.ran)[i] in multiset(Events(s.ran));
  }

  lemma TwoOccurrences(s: State, i: nat, j: nat)
    requires Conserved(s) && i < j < |s.ran| && Events(s.ran)[i] == Events(s.ran)[j]
    ensures s.posted[Events(s.ran)[i]] >= 2
  {
    var events := Events(s.ran);
    assert events == events[..j] + [events[j]] + events[j + 1..];
    assert events[i] in events[..j];
    assert multiset(events)[events[i]] >= 2;
  }

  // ---------- Early ----------

  /** The event has been run before it was due. */
  ghost predicate RanEarly(s: State, e: Event) {
    exists i :: 0 <= i < |s.ran| && s.ran[i].event == e && s.ran[i].ranAt < e.Due()
  }

  ghost predicate CanRunEarly(e: Event) {
    exists s :: Reachable(s) && RanEarly(s, e)
  }

  /**
   A task runs once the clock has been read at its deadline or past it. So a task run before it is due was delayed,
   and the clock wrapped before it was due.
   */
  lemma EarlyIsWrapped(s: State, e: Event)
    requires Reachable(s) && RanEarly(s, e)
    ensures e.delay > 0 && e.Due() >= CLOCK_RANGE
  {
    hide Reachable, MutualExclusion, HeapShape;
    ReachableInv(s);
    var i :| 0 <= i < |s.ran| && s.ran[i].event == e && s.ran[i].ranAt < e.Due();
    assert RanOnTime(s.ran[i], s.time);
    DeadlineIsReading(e.posted, e.delay);
  }

  /** Exactly the delayed events that are due after the clock has wrapped can be run before they are due. */
  lemma EarlyExactly(e: Event)
    requires e.delay < CLOCK_RANGE
    ensures CanRunEarly(e) <==> e.delay > 0 && e.Due() >= 0x1_0000_0000
  {
    hide Reachable, RanEarly;
    if CanRunEarly(e) {
      var s :| Reachable(s) && RanEarly(s, e);
      EarlyIsWrapped(s, e);
    }
    if e.delay > 0 && e.Due() >= CLOCK_RANGE {
      var s := EarlyRun(e);
    }
  }

  /** An event bears the time at which it was posted. */
  lemma PostedNow(states: seq<State>, steps: seq<Step>, k: nat, e: Event)
    requires IsRun(states, steps) && k < |steps| && e !in states[k].posted && e in states[k + 1].posted
    ensures e.posted == states[k].time && e.delay < 0x1_0000_0000
  {
  }

  // ---------- In which order ----------

  /** After a task was run, the tasks its turn still has to run are due no earlier. */
  lemma {:induction false} TodoLater(states: seq<State>, steps: seq<Step>, k: nat, m: nat)
    requires IsRun(states, steps) && k < m <= |steps| && steps[k] == RunTask
    requires forall j :: k < j < m ==> steps[j] != ReadClock
    requires BatchDue(states[k].worker.todo, Reading(states[k].worker.at))
    ensures states[k + 1].ran != [] && (states[m].worker.Running? || states[m].worker == Resting)
    ensures states[m].worker.Running? ==>
              var todo, before := states[m].worker.todo, states[k + 1].ran[|states[k + 1].ran| - 1].event;
              && BatchDue(todo, Reading(states[k].worker.at))
              && forall i :: 0 <= i < |todo| ==> before.Deadline() <= todo[i].Deadline()
    decreases m - k
  {
    hide BatchDue, Init, Reading, ShiftedUp, ShiftedDown, LastAtRoot, TopIsDue;
    if m == k + 1 {
      BatchRest(states[k].worker.todo, Reading(states[k].worker.at));
    } else {
      TodoLater(states, steps, k, m - 1);
      if steps[m - 1] == RunTask { BatchRest(states[m - 1].worker.todo, Reading(states[k].worker.at)); }
    }
  }

  lemma BatchRest(batch: seq<Event>, reading: nat)
    requires BatchDue(batch, reading) && batch != []
    ensures BatchDue(batch[1..], reading)
    ensures forall i :: 0 <= i < |batch| - 1 ==> batch[0].Deadline() <= batch[1..][i].Deadline()
  {
  }

  /** The tasks of one turn are run in the order of their deadlines. */
  lemma TurnInOrder(states: seq<State>, steps: seq<Step>, k: nat, m: nat)
    requires IsRun(states, steps) && k < m < |steps| && steps[k] == RunTask && steps[m] == RunTask
    requires forall j :: k < j < m ==> steps[j] != ReadClock
    ensures states[k + 1].ran != [] && states[m + 1].ran != []
    ensures states[k + 1].ran[|states[k + 1].ran| - 1].event.Deadline()
            <= states[m + 1].ran[|states[m + 1].ran| - 1].event.Deadline()
  {
    RunsKeepInv(states, steps, k);
    TodoLater(states, steps, k, m);
  }

  // ---------- Late ----------

  /** What a turn takes out and what it leaves is told apart by readings alone. */
  lemma DrainSplits(s: State)
    requires Reachable(s) && Enabled(s, WorkerLeaves)
    ensures forall e :: e in s.heap ==> Reading(e.Due()) > Reading(s.worker.at)
    ensures forall e :: e in s.worker.drained ==> Reading(e.Due()) <= Reading(s.worker.at)
  {
    hide Reachable, HeapOrdered, Reading, DeadlineAfter;
    LockProtectsHeap(s);
    ReachableInv(s);
    if s.heap != [] { TopIsEarliest(s.heap); }
    forall e: Event
      ensures e.Deadline() == Reading(e.Due())
    {
      DeadlineIsReading(e.posted, e.delay);
    }
  }

  /** The worker is about to leave the lock, and leaves an event in the heap although it is due. */
  ghost predicate LeavesOverdue(s: State, e: Event) {
    Enabled(s, WorkerLeaves) && e in s.heap && e.Due() <= s.worker.at
  }

  ghost predicate CanBeLeftOverdue(e: Event) {
    exists s :: Reachable(s) && LeavesOverdue(s, e)
  }

  /** An event is left although due only when the clock has wrapped and not yet come round to its deadline again. */
  lemma OverdueIsWrapped(s: State, e: Event)
    requires Reachable(s) && LeavesOverdue(s, e)
    ensures e.Due() / CLOCK_RANGE < s.worker.at / CLOCK_RANGE && Reading(s.worker.at) < Reading(e.Due())
  {
    hide Reachable;
    DrainSplits(s);
    WrapsBetween(e.Due(), s.worker.at);
  }

  lemma WrapsBetween(due: nat, at: nat)
    requires due <= at && Reading(at) < Reading(due)
    ensures due / CLOCK_RANGE < at / CLOCK_RANGE
  {
  }

  /** That can happen to every event but those due just when the clock shows 0. */
  lemma OverdueExactly(e: Event)
    requires e.delay < CLOCK_RANGE
    ensures CanBeLeftOverdue(e) <==> e.Due() % 0x1_0000_0000 != 0
  {
    hide Reachable, LeavesOverdue;
    if CanBeLeftOverdue(e) {
      var s :| Reachable(s) && LeavesOverdue(s, e);
      OverdueIsWrapped(s, e);
    }
    if Reading(e.Due()) != 0 {
      var s := OverdueRun(e);
    }
  }

  // ---------- Runs that show it ----------

  /** Nobody inside, one poster idle, nothing run yet. */
  function Quiet(time: nat, worker: Worker, heap: seq<Event>, posted: multiset<Event>): State {
    State(0, time, [Idle], worker, heap, posted, [])
  }

  /** One step further. */
  lemma Take(s: State, step: Step) returns (t: State)
    requires Reachable(s) && Enabled(s, step)
    ensures Reachable(t) && t == Apply(s, step)
  {
    hide Reachable, Enabled, Apply;
    ReachStep(s, step);
    t := Apply(s, step);
  }

  lemma OneEvent(e: Event)
    ensures ShiftedUp([] + [e], e) == [e] && LastAtRoot([e]) == []
  {
  }

  /** From a quiet state at the time it says, the event is posted and pushed. */
  lemma PostAndPush(worker: Worker, e: Event)
    requires Reachable(Quiet(e.posted, worker, [], multiset{})) && e.delay < CLOCK_RANGE
    ensures Reachable(Quiet(e.posted, worker, [e], multiset{e}))
  {
    hide Reachable, ShiftedUp, DeadlineAfter;
    OneEvent(e);
    var s := Take(Quiet(e.posted, worker, [], multiset{}), Post(0, e));
    s := Take(s, PosterEnters(0));
    s := Take(s, BeginPush(0));
    s := Take(s, EndPush(0));
    s := Take(s, PosterLeaves(0));
    assert s == Quiet(e.posted, worker, [e], multiset{e});
  }

  /** The worker, having read the clock, drains the event and runs it. */
  lemma DrainAndRun(time: nat, at: nat, e: Event) returns (s: State)
    requires Reachable(Quiet(time, WaitingToDrain(at), [e], multiset{e})) && e.Deadline() <= Reading(at)
    ensures Reachable(s) && s.ran == [Run(e, at, time)]
  {
    hide Reachable, LastAtRoot, Reading, DeadlineAfter;
    OneEvent(e);
    s := Take(Quiet(time, WaitingToDrain(at), [e], multiset{e}), WorkerEnters);
    s := Take(s, BeginPop);
    s := Take(s, EndPop);
    s := Take(s, WorkerLeaves);
    s := Take(s, RunTask);
  }

  /** Just before the clock wraps it shows more than any deadline. */
  lemma LastReading(due: nat)
    requires due >= CLOCK_RANGE
    ensures var turn := due / CLOCK_RANGE * CLOCK_RANGE - 1;
            0 <= turn < due && Reading(turn) == CLOCK_RANGE - 1
  {
    var k := due / CLOCK_RANGE;
    RemainderIs(k * CLOCK_RANGE - 1, k - 1, CLOCK_RANGE - 1, CLOCK_RANGE);
  }

  lemma StartQuiet(time: nat)
    ensures Reachable(Quiet(time, Resting, [], multiset{}))
  {
    hide Reachable;
    ReachInit(Quiet(time, Resting, [], multiset{}));
  }

  /** The worker reads the clock just before it wraps, and drains after it has. */
  lemma EarlyRun(e: Event) returns (s: State)
    requires 0 < e.delay < CLOCK_RANGE && e.Due() >= CLOCK_RANGE
    ensures Reachable(s) && RanEarly(s, e)
  {
    hide Reachable, Reading, DeadlineAfter;
    LastReading(e.Due());
    var turn := e.Due() / CLOCK_RANGE * CLOCK_RANGE - 1;
    if turn < e.posted {
      StartQuiet(turn);
      s := Take(Quiet(turn, Resting, [], multiset{}), ReadClock);
      s := Take(s, Tick(e.posted));
      PostAndPush(WaitingToDrain(turn), e);
      s := DrainAndRun(e.posted, turn, e);
    } else {
      StartQuiet(e.posted);
      PostAndPush(Resting, e);
      s := Take(Quiet(e.posted, Resting, [e], multiset{e}), Tick(turn));
      s := Take(s, ReadClock);
      s := DrainAndRun(turn, turn, e);
    }
    assert s.ran[0].event == e;
  }

  /** When the clock wraps it shows 0. */
  lemma WrappedReading(due: nat)
    ensures var turn := (due / CLOCK_RANGE + 1) * CLOCK_RANGE;
            due < turn && Reading(turn) == 0
  {
    var k := due / CLOCK_RANGE + 1;
    RemainderIs(k * CLOCK_RANGE, k, 0, CLOCK_RANGE);
  }

  /** The worker reads the clock when it has just wrapped. */
  lemma OverdueRun(e: Event) returns (s: State)
    requires e.delay < CLOCK_RANGE && Reading(e.Due()) != 0
    ensures Reachable(s) && LeavesOverdue(s, e)
  {
    hide Reachable, Reading, DeadlineAfter;
    WrappedReading(e.Due());
    DeadlineIsReading(e.posted, e.delay);
    var turn := (e.Due() / CLOCK_RANGE + 1) * CLOCK_RANGE;
    StartQuiet(e.posted);
    PostAndPush(Resting, e);
    s := Take(Quiet(e.posted, Resting, [e], multiset{e}), Tick(turn));
    s := Take(s, ReadClock);
    s := Take(s, WorkerEnters);
  }
}
