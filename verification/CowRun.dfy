/** Copy-on-write is invisible: any run on shared buffers looks like a run on values of one's own. */
module CowRuns {
  import opened H264
  import opened CowBuffers

  datatype Change =
    | SetData(bytes: seq<byte>)
    | AppendData(bytes: seq<byte>)
    | SetSize(size: nat)
    | EnsureCapacity(capacity: nat)
    | Clear
    | Write(index: nat, v: byte)

  /** Operations on handles, which are numbered in the order of their construction. */
  datatype Op =
    | Mutate(i: nat, change: Change)
    | AppendBuffer(i: nat, j: nat)
    | Assign(i: nat, j: nat)
    | Move(i: nat, j: nat)
    | Swap(i: nat, j: nat)
    | Construct
    | CopyConstruct(j: nat)
    | Destroy(i: nat)

  // ---------- The reference: every handle has bytes of its own ----------

  /**
   The checks of the source, on the view of the handle: writing inside, and not ending with a buffer of capacity 0,
   which is what appending nothing to a handle without a buffer does.
   */
  predicate Allowed(c: Change, v: View) {
    match c
    case AppendData(bytes) => v != Null || bytes != []
    case Write(index, _) => index < |Shown(v)|
    case _ => true
  }

  /** What a change does to the bytes of a handle; growing by SetSize leaves the new ones open. */
  ghost predicate Changed(c: Change, before: View, after: View)
    requires Allowed(c, before)
  {
    match c
    case SetData(bytes) => after == if before == Null && bytes == [] then Null else Filled(bytes)
    case AppendData(bytes) => after == Filled(Shown(before) + bytes)
    case SetSize(size) => Resized(before, size, after)
    case EnsureCapacity(capacity) => after == if before == Null && capacity > 0 then Filled([]) else before
    case Clear => after == if before == Null then Null else Filled([])
    case Write(index, v) => after == Filled(Shown(before)[index := v])
  }

  /** Handles exist and checks pass. */
  predicate Legal(op: Op, views: seq<View>) {
    var n := |views|;
    match op
    case Mutate(i, c) => i < n && Allowed(c, views[i])
    case AppendBuffer(i, j) => i < n && j < n && (views[i] != Null || Shown(views[j]) != [])
    case Assign(i, j) => i < n && j < n
    case Move(i, j) => i < n && j < n
    case Swap(i, j) => i < n && j < n
    case Construct => true
    case CopyConstruct(j) => j < n
    case Destroy(i) => i < n
  }

  function Without<T>(s: seq<T>, i: nat): seq<T>
    requires i < |s|
  {
    s[..i] + s[i + 1..]
  }

  ghost predicate Applied(op: Op, before: seq<View>, after: seq<View>)
    requires Legal(op, before)
  {
    match op
    case Mutate(i, c) => |after| == |before| && Changed(c, before[i], after[i]) && after == before[i := after[i]]
    case AppendBuffer(i, j) => after == before[i := Filled(Shown(before[i]) + Shown(before[j]))]
    case Assign(i, j) => after == before[i := before[j]]
    case Move(i, j) => after == if i == j then before else before[i := before[j]][j := Null]
    case Swap(i, j) => after == before[i := before[j]][j := before[i]]
    case Construct => after == before + [Null]
    case CopyConstruct(j) => after == before + [before[j]]
    case Destroy(i) => after == Without(before, i)
  }

  // ---------- The shared buffers ----------

  ghost predicate Distinct(hs: seq<CopyOnWriteBuffer>, handles: set<CopyOnWriteBuffer>) {
    && (forall k | 0 <= k < |hs| :: hs[k] in handles)
    && (forall k, l | 0 <= k < l < |hs| :: hs[k] != hs[l])
  }

  /** Carries out one change through a handle. */
  method ChangeThrough(h: CopyOnWriteBuffer, c: Change, ghost mem: Memory)
    requires mem.Shared() && h in mem.handles && Allowed(c, h.View())
    modifies h`buffer, h.Target(), h.Array(), mem`buffers, mem`arrays
    ensures mem.Shared() && Changed(c, old(h.View()), h.View())
    ensures forall g | g in mem.handles && g != h :: g.View() == old(g.View())
    ensures fresh(mem.buffers - old(mem.buffers)) && fresh(mem.arrays - old(mem.arrays))
  {
    hide Memory.Shared, Resized;
    match c
    case SetData(bytes) => h.SetData(bytes, mem);
    case AppendData(bytes) => h.AppendData(bytes, mem);
    case SetSize(size) => h.SetSize(size, mem);
    case EnsureCapacity(capacity) => h.EnsureCapacity(capacity, mem);
    case Clear => h.Clear(mem);
    case Write(index, v) => h.Write(index, v, mem);
  }

  ghost predicate Show(hs: seq<CopyOnWriteBuffer>, views: seq<View>)
    reads *
  {
    |hs| == |views| && forall k | 0 <= k < |hs| :: hs[k].View() == views[k]
  }

  method StepMutate(hs: seq<CopyOnWriteBuffer>, i: nat, c: Change, ghost before: seq<View>, ghost mem: Memory)
    returns (ghost after: seq<View>)
    requires mem.Shared() && Distinct(hs, mem.handles) && Show(hs, before)
    requires Legal(Mutate(i, c), before)
    modifies mem, mem.handles, mem.buffers, mem.arrays
    ensures mem.Shared() && Distinct(hs, mem.handles) && Show(hs, after) && Applied(Mutate(i, c), before, after)
    ensures fresh(mem.handles - old(mem.handles)) && fresh(mem.buffers - old(mem.buffers))
        && fresh(mem.arrays - old(mem.arrays))
  {
    hide Memory.Shared, Resized;
    hs[i].TargetIsLive(mem);
    ChangeThrough(hs[i], c, mem);
    after := before[i := hs[i].View()];
  }

  /** The one operation that reads an array no longer there. */
  predicate Dangles(hs: seq<CopyOnWriteBuffer>, op: Op)
    reads hs, if op.AppendBuffer? && op.i < |hs| then hs[op.i].Target() else {}
  {
    op.AppendBuffer? && op.i == op.j && op.i < |hs| && hs[op.i].MovesItself()
  }

  method StepAppendBuffer(hs: seq<CopyOnWriteBuffer>, i: nat, j: nat, ghost before: seq<View>, ghost mem: Memory)
    returns (ghost after: seq<View>)
    requires mem.Shared() && Distinct(hs, mem.handles) && Show(hs, before)
    requires Legal(AppendBuffer(i, j), before) && !Dangles(hs, AppendBuffer(i, j))
    modifies mem, mem.handles, mem.buffers, mem.arrays
    ensures mem.Shared() && Distinct(hs, mem.handles) && Show(hs, after) && Applied(AppendBuffer(i, j), before, after)
    ensures fresh(mem.handles - old(mem.handles)) && fresh(mem.buffers - old(mem.buffers))
        && fresh(mem.arrays - old(mem.arrays))
  {
    hide Memory.Shared, Resized;
    hs[i].TargetIsLive(mem);
    assert i == j || hs[i] != hs[j];
    ghost var alive := hs[i].AppendBuffer(hs[j], mem);
    after := before[i := hs[i].View()];
  }

  /** Bytes set in a new handle leave no room, so that appending the handle to itself reads the array it dropped. */
  method SetThenAppendSelf(bytes: seq<byte>, ghost mem: Memory) returns (h: CopyOnWriteBuffer, ghost alive: bool)
    requires mem.Shared() && bytes != []
    modifies mem, mem.buffers, mem.arrays
    ensures mem.Shared() && h in mem.handles && !alive
  {
    hide Memory.Shared, Memory.SharedWith;
    h := new CopyOnWriteBuffer(mem);
    h.TargetIsLive(mem);
    h.SetData(bytes, mem);
    h.TargetIsLive(mem);
    assert |Shown(h.View())| == |bytes|;
    alive := h.AppendBuffer(h, mem);
  }

  method StepAssign(hs: seq<CopyOnWriteBuffer>, i: nat, j: nat, ghost before: seq<View>, ghost mem: Memory)
    returns (ghost after: seq<View>)
    requires mem.Shared() && Distinct(hs, mem.handles) && Show(hs, before)
    requires Legal(Assign(i, j), before)
    modifies mem, mem.handles, mem.buffers, mem.arrays
    ensures mem.Shared() && Distinct(hs, mem.handles) && Show(hs, after) && Applied(Assign(i, j), before, after)
    ensures fresh(mem.handles - old(mem.handles)) && fresh(mem.buffers - old(mem.buffers))
        && fresh(mem.arrays - old(mem.arrays))
  {
    hide Memory.Shared, Resized;
    hs[i].TargetIsLive(mem);
    hs[j].TargetIsLive(mem);
    hs[i].Assign(hs[j], mem);
    after := before[i := before[j]];
  }

  method StepMove(hs: seq<CopyOnWriteBuffer>, i: nat, j: nat, ghost before: seq<View>, ghost mem: Memory)
    returns (ghost after: seq<View>)
    requires mem.Shared() && Distinct(hs, mem.handles) && Show(hs, before)
    requires Legal(Move(i, j), before)
    modifies mem, mem.handles, mem.buffers, mem.arrays
    ensures mem.Shared() && Distinct(hs, mem.handles) && Show(hs, after) && Applied(Move(i, j), before, after)
    ensures fresh(mem.handles - old(mem.handles)) && fresh(mem.buffers - old(mem.buffers))
        && fresh(mem.arrays - old(mem.arrays))
  {
    hide Memory.Shared, Resized;
    hs[i].TargetIsLive(mem);
    hs[i].Move(hs[j], mem);
    after := if i == j then before else before[i := before[j]][j := Null];
  }

  method StepSwap(hs: seq<CopyOnWriteBuffer>, i: nat, j: nat, ghost before: seq<View>, ghost mem: Memory)
    returns (ghost after: seq<View>)
    requires mem.Shared() && Distinct(hs, mem.handles) && Show(hs, before)
    requires Legal(Swap(i, j), before)
    modifies mem, mem.handles, mem.buffers, mem.arrays
    ensures mem.Shared() && Distinct(hs, mem.handles) && Show(hs, after) && Applied(Swap(i, j), before, after)
    ensures fresh(mem.handles - old(mem.handles)) && fresh(mem.buffers - old(mem.buffers))
        && fresh(mem.arrays - old(mem.arrays))
  {
    hide Memory.Shared, Resized;
    hs[i].Swap(hs[j], mem);
    after := before[i := before[j]][j := before[i]];
  }

  method StepConstruct(hs: seq<CopyOnWriteBuffer>, ghost before: seq<View>, ghost mem: Memory)
    returns (now: seq<CopyOnWriteBuffer>, ghost after: seq<View>)
    requires mem.Shared() && Distinct(hs, mem.handles) && Show(hs, before)
    modifies mem, mem.handles, mem.buffers, mem.arrays
    ensures mem.Shared() && Distinct(now, mem.handles) && Show(now, after) && after == before + [Null]
    ensures fresh(mem.handles - old(mem.handles)) && fresh(mem.buffers - old(mem.buffers))
        && fresh(mem.arrays - old(mem.arrays))
  {
    hide Memory.Shared, Resized;
    var h := new CopyOnWriteBuffer(mem);
    now, after := hs + [h], before + [Null];
  }

  method StepCopyConstruct(hs: seq<CopyOnWriteBuffer>, j: nat, ghost before: seq<View>, ghost mem: Memory)
    returns (now: seq<CopyOnWriteBuffer>, ghost after: seq<View>)
    requires mem.Shared() && Distinct(hs, mem.handles) && Show(hs, before) && j < |before|
    modifies mem, mem.handles, mem.buffers, mem.arrays
    ensures mem.Shared() && Distinct(now, mem.handles) && Show(now, after) && after == before + [before[j]]
    ensures fresh(mem.handles - old(mem.handles)) && fresh(mem.buffers - old(mem.buffers))
        && fresh(mem.arrays - old(mem.arrays))
  {
    hide Memory.Shared, Resized;
    hs[j].TargetIsLive(mem);
    var h := new CopyOnWriteBuffer.CopyOf(hs[j], mem);
    now, after := hs + [h], before + [before[j]];
  }

  method StepDestroy(hs: seq<CopyOnWriteBuffer>, i: nat, ghost before: seq<View>, ghost mem: Memory)
    returns (now: seq<CopyOnWriteBuffer>, ghost after: seq<View>)
    requires mem.Shared() && Distinct(hs, mem.handles) && Show(hs, before) && i < |before|
    modifies mem, mem.handles, mem.buffers, mem.arrays
    ensures mem.Shared() && Distinct(now, mem.handles) && Show(now, after) && after == Without(before, i)
    ensures fresh(mem.handles - old(mem.handles)) && fresh(mem.buffers - old(mem.buffers))
        && fresh(mem.arrays - old(mem.arrays))
  {
    hide Memory.Shared, Resized;
    hs[i].TargetIsLive(mem);
    hs[i].Destroy(mem);
    now, after := Without(hs, i), Without(before, i);
  }

  /** Carries out one operation. */
  method Step(hs: seq<CopyOnWriteBuffer>, op: Op, ghost before: seq<View>, ghost mem: Memory)
    returns (now: seq<CopyOnWriteBuffer>, ghost after: seq<View>)
    requires mem.Shared() && Distinct(hs, mem.handles) && Show(hs, before) && Legal(op, before) && !Dangles(hs, op)
    modifies mem, mem.handles, mem.buffers, mem.arrays
    ensures mem.Shared() && Distinct(now, mem.handles) && Show(now, after) && Applied(op, before, after)
    ensures fresh(mem.handles - old(mem.handles)) && fresh(mem.buffers - old(mem.buffers))
        && fresh(mem.arrays - old(mem.arrays))
  {
    hide Memory.Shared, Show, Distinct, Resized;
    now := hs;
    match op
    case Mutate(i, c) => after := StepMutate(hs, i, c, before, mem);
    case AppendBuffer(i, j) => after := StepAppendBuffer(hs, i, j, before, mem);
    case Assign(i, j) => after := StepAssign(hs, i, j, before, mem);
    case Move(i, j) => after := StepMove(hs, i, j, before, mem);
    case Swap(i, j) => after := StepSwap(hs, i, j, before, mem);
    case Construct => now, after := StepConstruct(hs, before, mem);
    case CopyConstruct(j) => now, after := StepCopyConstruct(hs, j, before, mem);
    case Destroy(i) => now, after := StepDestroy(hs, i, before, mem);
  }

  /** size(), and whether there is a buffer at all, are what the view says. */
  lemma SizeOfView(h: CopyOnWriteBuffer, v: View, mem: Memory)
    requires mem.Shared() && h in mem.handles && h.View() == v
    ensures h.buffer == null <==> v == Null
    ensures h.Size() == |Shown(v)|
  {
    h.TargetIsLive(mem);
  }

  /** The checks that stop a program: DCHECKs on the state of the handles. */
  method Check(hs: seq<CopyOnWriteBuffer>, op: Op, ghost views: seq<View>, ghost mem: Memory) returns (legal: bool)
    requires mem.Shared() && Distinct(hs, mem.handles) && Show(hs, views)
    ensures legal <==> Legal(op, views)
  {
    hide Memory.Shared, CopyOnWriteBuffer.View;
    match op
    case Mutate(i, c) =>
      if i >= |hs| { return false; }
      SizeOfView(hs[i], views[i], mem);
      legal := !(c.AppendData? && c.bytes == [] && hs[i].buffer == null) && !(c.Write? && c.index >= hs[i].Size());
    case AppendBuffer(i, j) =>
      if i >= |hs| || j >= |hs| { return false; }
      SizeOfView(hs[i], views[i], mem);
      SizeOfView(hs[j], views[j], mem);
      legal := hs[i].buffer != null || hs[j].Size() > 0;
    case Assign(i, j) => legal := i < |hs| && j < |hs|;
    case Move(i, j) => legal := i < |hs| && j < |hs|;
    case Swap(i, j) => legal := i < |hs| && j < |hs|;
    case Construct => legal := true;
    case CopyConstruct(j) => legal := j < |hs|;
    case Destroy(i) => legal := i < |hs|;
  }

  /** Legal operations, each applied to what the one before it left. */
  ghost predicate Run(ops: seq<Op>, trace: seq<seq<View>>) {
    |trace| == |ops| + 1
    && forall k | 0 <= k < |ops| :: Legal(ops[k], trace[k]) && Applied(ops[k], trace[k], trace[k + 1])
  }

  lemma RunExtends(ops: seq<Op>, trace: seq<seq<View>>, op: Op, after: seq<View>)
    requires Run(ops, trace) && Legal(op, trace[|ops|]) && Applied(op, trace[|ops|], after)
    ensures Run(ops + [op], trace + [after])
  {
  }

  method Execute(ops: seq<Op>, hs: seq<CopyOnWriteBuffer>, ghost before: seq<View>, ghost mem: Memory)
    returns (done: nat, now: seq<CopyOnWriteBuffer>, ghost trace: seq<seq<View>>)
    requires mem.Shared() && Distinct(hs, mem.handles) && Show(hs, before)
    modifies mem, mem.handles, mem.buffers, mem.arrays
    ensures done <= |ops| && Run(ops[..done], trace) && trace[0] == before
    ensures done < |ops| ==> !Legal(ops[done], trace[done]) || Dangles(now, ops[done])
    ensures mem.Shared() && Distinct(now, mem.handles) && Show(now, trace[done])
  {
    hide Memory.Shared, Show, Distinct, Applied;
    done, now, trace := 0, hs, [before];
    while done < |ops|
      invariant done <= |ops| && Run(ops[..done], trace) && trace[0] == before
      invariant mem.Shared() && Distinct(now, mem.handles) && Show(now, trace[done])
      invariant fresh(mem.handles - old(mem.handles)) && fresh(mem.buffers - old(mem.buffers))
          && fresh(mem.arrays - old(mem.arrays))
    {
      var legal := Check(now, ops[done], trace[done], mem);
      if !legal || Dangles(now, ops[done]) { return; }
      ghost var after;
      now, after := Step(now, ops[done], trace[done], mem);
      RunExtends(ops[..done], trace, ops[done], after);
      assert ops[..done] + [ops[done]] == ops[..done + 1];
      trace := trace + [after];
      done := done + 1;
    }
  }
}
