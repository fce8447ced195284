/** Copy-on-write handles on shared buffers (base/copy_on_write_buffer.*, base/scoped_refptr.h). */
module CowBuffers {
  import opened H264
  import opened Buffers

  /** What a handle shows: no buffer at all, or the bytes of its buffer. */
  datatype View = Null | Filled(bytes: seq<byte>)

  /** Which buffer each handle points at. */
  type Pointers = map<CopyOnWriteBuffer, Buffer?>

  ghost function Owners(m: Pointers, b: Buffer): set<CopyOnWriteBuffer> {
    set h | h in m && m[h] == b
  }

  /** What repointing one handle does to the owners of any buffer. */
  lemma OwnersMove(m: Pointers, h: CopyOnWriteBuffer, c: Buffer?, d: Buffer)
    requires h in m
    ensures |Owners(m[h := c], d)| == |Owners(m, d)| + (if c == d then 1 else 0) - (if m[h] == d then 1 else 0)
  {
    var before, after := Owners(m, d), Owners(m[h := c], d);
    if c == d {
      assert h in after;
      assert after == before + {h};
    } else {
      assert after == before - {h};
    }
  }

  /** A buffer with one owner is seen through no other handle. */
  lemma OnlyOwner(m: Pointers, b: Buffer, h: CopyOnWriteBuffer)
    requires h in m && m[h] == b && |Owners(m, b)| == 1
    ensures forall g | g in m && m[g] == b :: g == h
  {
    var s := Owners(m, b);
    assert h in s;
    assert |s - {h}| == 0;
    forall g | g in m && m[g] == b ensures g == h {
      assert g in s;
      assert g !in s - {h};
    }
  }

  /** All live handles, every buffer they ever had, and the arrays behind these. */
  class Memory {
    ghost var handles: set<CopyOnWriteBuffer>
    ghost var buffers: set<Buffer>
    ghost var arrays: set<array<byte>>

    ghost function Pointing(): Pointers
      reads `handles, handles`buffer
    {
      map h | h in handles :: h.buffer
    }

    /**
     * The count of a buffer is the number of its handles, and it is freed once there are none. A
     * buffer just allocated has no handle yet and is not freed.
     */
    ghost predicate Counts(m: Pointers, newborn: Buffer?)
      reads `buffers, buffers`refCount, buffers`freed
    {
      forall b | b in buffers ::
        b.refCount == |Owners(m, b)| && (b.freed ==> b.refCount == 0) && (b.refCount == 0 && b != newborn ==> b.freed)
    }

    /** Every buffer keeps its data in an array of its own. */
    ghost predicate Storage()
      reads `buffers, `arrays, buffers`size, buffers`capacity, buffers`data
    {
      && (forall b | b in buffers :: b.Valid() && b.data in arrays)
      && (forall b, c | b in buffers && c in buffers && b != c :: b.data != c.data)
    }

    /** No buffer has a capacity of 0. */
    ghost predicate Roomy()
      reads `buffers, buffers`capacity
    {
      forall b | b in buffers :: b.capacity > 0
    }

    /** An array lasts as long as a buffer that is not freed holds it; to reallocate is to drop the array before. */
    ghost predicate Alive(a: array<byte>)
      reads `buffers, buffers`freed, buffers`data
    {
      exists b | b in buffers :: !b.freed && b.data == a
    }

    ghost predicate Known(m: Pointers)
      reads `buffers
    {
      forall h | h in m && m[h] != null :: m[h] in buffers
    }

    /** What holds of the memory between any two operations. */
    ghost predicate Shared()
      reads this, handles`buffer, buffers
    {
      SharedWith(null) && Roomy()
    }

    /** The same, but for capacities and a buffer that no handle points at yet. */
    ghost predicate SharedWith(newborn: Buffer?)
      reads this, handles`buffer, buffers
    {
      Known(Pointing()) && Counts(Pointing(), newborn) && Storage()
    }

    /** A new handle, which has no buffer yet. */
    ghost method Enlist(h: CopyOnWriteBuffer)
      requires Shared() && h !in handles && h.buffer == null
      modifies `handles
      ensures Shared() && handles == old(handles) + {h}
    {
      var m := Pointing();
      handles := handles + {h};
      assert Pointing() == m[h := null];
      forall b | b in buffers ensures Owners(m[h := null], b) == Owners(m, b) {
      }
    }

    /** A handle that has let go of its buffer is gone. */
    ghost method Retire(h: CopyOnWriteBuffer)
      requires Shared() && h in handles && h.buffer == null
      modifies `handles
      ensures Shared() && handles == old(handles) - {h}
    {
      var m := Pointing();
      handles := handles - {h};
      assert forall g | g in Pointing() :: g in m && m[g] == Pointing()[g];
      forall b | b in buffers ensures Owners(Pointing(), b) == Owners(m, b) {
      }
    }

    /** Storage(), but for what it says of one buffer. */
    ghost predicate StorageBut(x: Buffer)
      reads `buffers, `arrays, (buffers - {x})`size, (buffers - {x})`capacity, (buffers - {x})`data
    {
      && (forall b | b in buffers - {x} :: b.Valid() && b.capacity > 0 && b.data in arrays)
      && (forall b, c | b in buffers - {x} && c in buffers - {x} && b != c :: b.data != c.data)
    }

    ghost predicate HasOwnArray(x: Buffer)
      reads `buffers, `arrays, (buffers - {x})`data, x`data
    {
      forall b | b in buffers - {x} :: b.data != x.data
    }

    /** Takes note of the array of a buffer that its only owner changed. */
    ghost method NoteArray(x: Buffer)
      requires x in buffers && StorageBut(x) && x.Valid() && x.capacity > 0
      requires x.data !in arrays || HasOwnArray(x)
      modifies `arrays
      ensures Storage() && Roomy() && arrays == old(arrays) + {x.data}
    {
      arrays := arrays + {x.data};
      forall b | b in buffers ensures b.Valid() && b.capacity > 0 && b.data in arrays {
        assert b != x ==> b in buffers - {x};
      }
      forall b, c | b in buffers && c in buffers && b != c ensures b.data != c.data {
        assert b != x ==> b in buffers - {x};
        assert c != x ==> c in buffers - {x};
      }
    }

    /** Takes note of a buffer just allocated. */
    ghost method Register(c: Buffer)
      requires Shared() && c !in buffers && c.data !in arrays
      requires c.Valid() && c.refCount == 0 && !c.freed
      modifies `buffers, `arrays
      ensures SharedWith(c) && (Roomy() <==> c.capacity > 0)
      ensures buffers == old(buffers) + {c} && arrays == old(arrays) + {c.data}
    {
      var m := Pointing();
      assert Owners(m, c) == {};
      buffers := buffers + {c};
      arrays := arrays + {c.data};
      assert Pointing() == m;
    }
  }

  class CopyOnWriteBuffer {
    var buffer: Buffer?

    ghost function Target(): (s: set<Buffer>)
      reads this
    {
      if buffer == null then {} else {buffer}
    }

    ghost function Array(): (s: set<array<byte>>)
      reads this, Target()`data
    {
      if buffer == null then {} else {buffer.data}
    }

    ghost function View(): View
      reads this, Target()`size, Target()`capacity, Target()`data, Array()
    {
      if buffer == null || !buffer.Valid() then Null else Filled(buffer.Contents())
    }

    function Size(): nat
      reads this, buffer
    {
      if buffer == null then 0 else buffer.size
    }

    function Capacity(): nat
      reads this, Target()`capacity
    {
      if buffer == null then 0 else buffer.capacity
    }

    /** This handle is the only one on its buffer. */
    predicate OwnsAlone()
      reads this, Target()`refCount
    {
      buffer != null && buffer.refCount == 1
    }

    /** The capacity after an operation that needs room for so many bytes: only a sole owner grows with headroom. */
    function CapacityFor(needed: nat): (r: nat)
      reads this, Target()
      ensures Capacity() <= r && needed <= r && (needed <= Capacity() ==> r == Capacity())
      ensures r == Capacity() || r == needed || (OwnsAlone() && r == 3 * Capacity() / 2)
    {
      if OwnsAlone() then Grown(Capacity(), needed, true) else Max(Capacity(), needed)
    }

    /** What the source asserts before and after every operation. */
    predicate IsConsistent()
      reads this, Target()`capacity
    {
      buffer == null || buffer.capacity > 0
    }

    /** The buffer of a handle is not freed, and sound. */
    lemma TargetIsLive(mem: Memory)
      requires mem.Shared() && this in mem.handles
      ensures mem.SharedWith(buffer)
      ensures buffer != null ==> buffer in mem.buffers && !buffer.freed && buffer.Valid() && buffer.capacity > 0
      ensures buffer != null ==> buffer.data in mem.arrays
    {
      var m := mem.Pointing();
      if buffer != null {
        assert m[this] == buffer;
        assert this in Owners(m, buffer);
      }
    }

    /** scoped_refptr::operator=: counts the new buffer first, then lets go of the old one. */
    method Repoint(c: Buffer?, ghost mem: Memory)
      requires mem.SharedWith(c) && this in mem.handles
      requires c != null ==> c in mem.buffers && !c.freed
      modifies `buffer, Target()`refCount, Target()`freed, (if c == null then {} else {c})`refCount
      ensures mem.SharedWith(null) && (old(mem.Roomy()) ==> mem.Shared()) && buffer == c
      ensures c != null && c != old(buffer) ==> c.refCount == old(c.refCount) + 1
    {
      hide Owners, Memory.Storage;
      ghost var m := mem.Pointing();
      if buffer != null { OwnersMove(m, this, null, buffer); }
      if c != null { c.AddRef(); }
      if buffer != null { buffer.Release(); }
      buffer := c;
      assert mem.Pointing() == m[this := c];
      forall d | d in mem.buffers ensures |Owners(m[this := c], d)| == d.refCount && (d.freed <==> d.refCount == 0) {
        OwnersMove(m, this, c, d);
      }
    }

    /** Points at a buffer just allocated. */
    method Replace(c: Buffer, ghost mem: Memory)
      requires mem.Shared() && this in mem.handles && c !in mem.buffers && c.data !in mem.arrays
      requires c.Valid() && c.refCount == 0 && !c.freed
      modifies `buffer, Target()`refCount, Target()`freed, c`refCount, mem`buffers, mem`arrays
      ensures mem.SharedWith(null) && (c.capacity > 0 ==> mem.Shared()) && buffer == c && c.refCount == 1
      ensures mem.buffers == old(mem.buffers) + {c} && mem.arrays == old(mem.arrays) + {c.data}
    {
      hide Owners, Memory.Storage, Memory.Counts;
      TargetIsLive(mem);
      mem.Register(c);
      Repoint(c, mem);
    }

    /** What one owner means: no other handle sees the buffer or its array. */
    lemma Exclusive(mem: Memory)
      requires mem.Shared() && this in mem.handles && buffer != null && buffer.refCount == 1
      ensures buffer in mem.buffers && buffer.data in mem.arrays && mem.StorageBut(buffer) && mem.HasOwnArray(buffer)
      ensures forall h | h in mem.handles && h != this && h.buffer != null ::
                h.buffer in mem.buffers && h.buffer != buffer && h.buffer.data != buffer.data
    {
      var m := mem.Pointing();
      assert m[this] == buffer;
      OnlyOwner(m, buffer, this);
      forall h | h in mem.handles && h != this && h.buffer != null
        ensures h.buffer in mem.buffers && h.buffer != buffer && h.buffer.data != buffer.data
      {
        assert m[h] == h.buffer;
      }
    }

    /** What more than one owner means. */
    lemma OtherOwner(mem: Memory) returns (h: CopyOnWriteBuffer)
      requires mem.Shared() && this in mem.handles && buffer != null && buffer.refCount != 1
      ensures h in mem.handles && h != this && h.buffer == buffer
    {
      var m := mem.Pointing();
      assert m[this] == buffer;
      var s := Owners(m, buffer);
      assert this in s;
      assert s != {this};
      h :| h in s && h != this;
    }

    /** Gives a handle that shares its buffer a copy of its own. */
    method CloneDataIfReferenced(newCapacity: nat, ghost mem: Memory)
      requires mem.Shared() && this in mem.handles && buffer != null && newCapacity > 0
      modifies `buffer, Target()`refCount, Target()`freed, mem`buffers, mem`arrays
      ensures mem.Shared() && buffer != null && buffer.refCount == 1
      ensures old(buffer.refCount) != 1 ==>
                fresh(buffer) && fresh(buffer.data) && buffer.capacity == Max(buffer.size, newCapacity)
      ensures old(buffer.refCount) == 1 ==>
                buffer == old(buffer) && buffer.data == old(buffer.data) && buffer.capacity == old(buffer.capacity)
      ensures View() == old(View()) && buffer.size == old(buffer.size)
      ensures forall h | h in mem.handles && h != this :: h.View() == old(h.View())
      ensures fresh(mem.buffers - old(mem.buffers)) && fresh(mem.arrays - old(mem.arrays))
    {
      hide Owners, Memory.Storage, Memory.Counts, Memory.Known;
      if buffer.HasOneRef() { return; }
      TargetIsLive(mem);
      var c := new Buffer.Copy(buffer.data[..buffer.size], newCapacity);
      Replace(c, mem);
    }

    // ---------- Taking over the buffer of another handle ----------

    constructor (ghost mem: Memory)
      requires mem.Shared()
      modifies mem`handles
      ensures mem.Shared() && mem.handles == old(mem.handles) + {this} && View() == Null
    {
      buffer := null;
      new;
      mem.Enlist(this);
    }

    /** The copy constructor. */
    constructor CopyOf(other: CopyOnWriteBuffer, ghost mem: Memory)
      requires mem.Shared() && other in mem.handles
      modifies mem`handles, other.Target()`refCount
      ensures mem.Shared() && mem.handles == old(mem.handles) + {this}
      ensures buffer == other.buffer && View() == old(other.View())
    {
      buffer := null;
      new;
      mem.Enlist(this);
      Assign(other, mem);
    }

    /** The destructor. */
    method Destroy(ghost mem: Memory)
      requires mem.Shared() && this in mem.handles
      modifies `buffer, Target()`refCount, Target()`freed, mem`handles
      ensures mem.Shared() && mem.handles == old(mem.handles) - {this}
    {
      Repoint(null, mem);
      mem.Retire(this);
    }

    /** operator=(const&) and SetData(const&). */
    method Assign(other: CopyOnWriteBuffer, ghost mem: Memory)
      requires mem.Shared() && this in mem.handles && other in mem.handles
      modifies `buffer, Target()`refCount, Target()`freed, other.Target()`refCount
      ensures mem.Shared() && buffer == old(other.buffer)
      ensures View() == old(other.View())
    {
      if other != this {
        other.TargetIsLive(mem);
        Repoint(other.buffer, mem);
      }
    }

    /** operator=(&&): a temporary takes the other's reference and leaves it null, then swaps. */
    method Move(other: CopyOnWriteBuffer, ghost mem: Memory)
      requires mem.Shared() && this in mem.handles && other in mem.handles
      modifies `buffer, other`buffer, Target()`refCount, Target()`freed
      ensures mem.Shared() && buffer == old(other.buffer) && (other != this ==> other.buffer == null)
      ensures View() == old(other.View())
    {
      hide Owners, Memory.Storage;
      TargetIsLive(mem);
      ghost var m := mem.Pointing();
      var taken := other.buffer;
      other.buffer := null;
      var dropped := buffer;
      buffer := taken;
      if dropped != null { dropped.Release(); }
      ghost var n: Pointers := m[other := null];
      assert mem.Pointing() == n[this := taken];
      forall d | d in mem.buffers
        ensures |Owners(n[this := taken], d)| == d.refCount && (d.freed <==> d.refCount == 0)
      {
        OwnersMove(m, other, null, d);
        OwnersMove(n, this, taken, d);
      }
    }

    /** Swaps the buffers of two handles. */
    method Swap(other: CopyOnWriteBuffer, ghost mem: Memory)
      requires mem.Shared() && this in mem.handles && other in mem.handles
      modifies `buffer, other`buffer
      ensures mem.Shared() && buffer == old(other.buffer) && other.buffer == old(buffer)
      ensures View() == old(other.View()) && other.View() == old(View())
    {
      hide Owners, Memory.Storage;
      ghost var m := mem.Pointing();
      var t := buffer;
      buffer := other.buffer;
      other.buffer := t;
      ghost var n: Pointers := m[this := m[other]];
      assert mem.Pointing() == n[other := m[this]];
      forall d | d in mem.buffers ensures |Owners(n[other := m[this]], d)| == |Owners(m, d)| {
        OwnersMove(m, this, m[other], d);
        OwnersMove(n, other, m[this], d);
      }
    }

    // ---------- Changing the bytes ----------

    /** Replaces the bytes of a buffer that no other handle points at. */
    method SetOwnData(bytes: seq<byte>, ghost mem: Memory)
      requires mem.Shared() && this in mem.handles && buffer != null && buffer.refCount == 1
      modifies Target(), Array(), mem`arrays
      ensures mem.Shared() && View() == Filled(bytes)
      ensures buffer.capacity == Grown(old(buffer.capacity), |bytes|, true)
      ensures forall h | h in mem.handles && h != this :: h.View() == old(h.View())
      ensures fresh(mem.arrays - old(mem.arrays))
    {
      hide Owners, Memory.Storage, Memory.Counts, Memory.Known;
      TargetIsLive(mem);
      Exclusive(mem);
      buffer.SetData(bytes);
      mem.NoteArray(buffer);
    }

    /** Adds bytes to a buffer that no other handle points at. */
    method AppendOwnData(bytes: seq<byte>, ghost mem: Memory)
      requires mem.Shared() && this in mem.handles && buffer != null && buffer.refCount == 1
      modifies Target(), Array(), mem`arrays
      ensures mem.Shared() && View() == Filled(Shown(old(View())) + bytes)
      ensures buffer.capacity == Grown(old(buffer.capacity), old(buffer.size) + |bytes|, true)
      ensures forall h | h in mem.handles && h != this :: h.View() == old(h.View())
      ensures fresh(mem.arrays - old(mem.arrays))
    {
      hide Owners, Memory.Storage, Memory.Counts, Memory.Known;
      TargetIsLive(mem);
      Exclusive(mem);
      buffer.AppendData(bytes);
      mem.NoteArray(buffer);
    }

    /** Sizes a buffer that no other handle points at; what it grows by is not initialized. */
    method SetOwnSize(size: nat, ghost mem: Memory)
      requires mem.Shared() && this in mem.handles && buffer != null && buffer.refCount == 1
      modifies Target(), mem`arrays
      ensures mem.Shared() && Resized(old(View()), size, View())
      ensures buffer.capacity == Grown(old(buffer.capacity), size, true)
      ensures forall h | h in mem.handles && h != this :: h.View() == old(h.View())
      ensures fresh(mem.arrays - old(mem.arrays))
    {
      hide Owners, Memory.Storage, Memory.Counts, Memory.Known;
      TargetIsLive(mem);
      Exclusive(mem);
      buffer.SetSize(size);
      mem.NoteArray(buffer);
    }

    /** Makes room in a buffer that no other handle points at. */
    method EnsureOwnCapacity(capacity: nat, ghost mem: Memory)
      requires mem.Shared() && this in mem.handles && buffer != null && buffer.refCount == 1
      modifies Target(), mem`arrays
      ensures mem.Shared() && View() == old(View()) && buffer.capacity == Max(old(buffer.capacity), capacity)
      ensures forall h | h in mem.handles && h != this :: h.View() == old(h.View())
      ensures fresh(mem.arrays - old(mem.arrays))
    {
      hide Owners, Memory.Storage, Memory.Counts, Memory.Known;
      TargetIsLive(mem);
      Exclusive(mem);
      buffer.EnsureCapacity(capacity);
      mem.NoteArray(buffer);
    }

    /** Empties a buffer that no other handle points at. */
    method ClearOwn(ghost mem: Memory)
      requires mem.Shared() && this in mem.handles && buffer != null && buffer.refCount == 1
      modifies Target(), mem`arrays
      ensures mem.Shared() && View() == Filled([])
      ensures buffer.capacity == old(buffer.capacity)
      ensures forall h | h in mem.handles && h != this :: h.View() == old(h.View())
      ensures fresh(mem.arrays - old(mem.arrays))
    {
      hide Owners, Memory.Storage, Memory.Counts, Memory.Known;
      TargetIsLive(mem);
      Exclusive(mem);
      buffer.Clear();
      mem.NoteArray(buffer);
    }

    method SetData(bytes: seq<byte>, ghost mem: Memory)
      requires mem.Shared() && this in mem.handles
      modifies `buffer, Target(), Array(), mem`buffers, mem`arrays
      ensures mem.Shared()
      ensures View() == if old(View()) == Null && bytes == [] then Null else Filled(bytes)
      ensures old(buffer) == null && buffer != null ==> buffer.refCount == 1 && buffer.capacity == |bytes|
      ensures Capacity() == old(CapacityFor(|bytes|))
      ensures forall h | h in mem.handles && h != this :: h.View() == old(h.View())
      ensures fresh(mem.buffers - old(mem.buffers)) && fresh(mem.arrays - old(mem.arrays))
    {
      hide Owners, Memory.Storage, Memory.Counts, Memory.Known;
      TargetIsLive(mem);
      if buffer == null {
        if |bytes| > 0 {
          var c := new Buffer.Copy(bytes, |bytes|);
          Replace(c, mem);
        }
      } else if !buffer.HasOneRef() {
        var c := new Buffer.Copy(bytes, buffer.capacity);
        Replace(c, mem);
      } else {
        SetOwnData(bytes, mem);
      }
    }

    /** Appending nothing to a handle without a buffer leaves it with one of capacity 0, against its own assertion. */
    method AppendData(bytes: seq<byte>, ghost mem: Memory)
      requires mem.Shared() && this in mem.handles
      modifies `buffer, Target(), Array(), mem`buffers, mem`arrays
      ensures IsConsistent() <==> old(buffer) != null || bytes != []
      ensures mem.SharedWith(null) && (IsConsistent() ==> mem.Shared())
      ensures View() == Filled(Shown(old(View())) + bytes)
      ensures Capacity() == old(CapacityFor(Size() + |bytes|))
      ensures forall h | h in mem.handles && h != this :: h.View() == old(h.View())
      ensures fresh(mem.buffers - old(mem.buffers)) && fresh(mem.arrays - old(mem.arrays))
    {
      hide Owners, Memory.Storage, Memory.Counts, Memory.Known;
      TargetIsLive(mem);
      if buffer == null {
        var c := new Buffer.Copy(bytes, |bytes|);
        Replace(c, mem);
        return;
      }
      CloneDataIfReferenced(Max(buffer.capacity, buffer.size + |bytes|), mem);
      AppendOwnData(bytes, mem);
      TargetIsLive(mem);
    }

    /** One owner, and too little room for the same bytes again. */
    predicate MovesItself()
      reads this, buffer
    {
      buffer != null && buffer.refCount == 1 && buffer.capacity < 2 * buffer.size
    }

    /** Makes room for more bytes, as an append does, in a buffer that no other handle points at. */
    method GrowOwn(needed: nat, ghost mem: Memory)
      requires mem.Shared() && this in mem.handles && buffer != null && buffer.refCount == 1
      modifies Target(), mem`arrays
      ensures mem.Shared() && View() == old(View())
      ensures buffer.refCount == 1 && buffer.size == old(buffer.size) && needed <= buffer.capacity
      ensures if needed <= old(buffer.capacity) then buffer.data == old(buffer.data) else fresh(buffer.data)
      ensures mem.Alive(old(buffer.data)) <==> needed <= old(buffer.capacity)
      ensures buffer.capacity == Grown(old(buffer.capacity), needed, true)
      ensures forall h | h in mem.handles && h != this :: h.View() == old(h.View())
      ensures fresh(mem.arrays - old(mem.arrays))
    {
      hide Owners, Memory.Storage, Memory.Counts, Memory.Known;
      TargetIsLive(mem);
      Exclusive(mem);
      buffer.EnsureCapacityWithHeadroom(needed, true);
      mem.NoteArray(buffer);
      assert forall b | b in mem.buffers :: b == buffer || b in mem.buffers - {buffer};
    }

    /** Copies bytes behind those of a buffer that no other handle points at. */
    method CopyIntoOwn(source: array<byte>, n: nat, ghost mem: Memory)
      requires mem.Shared() && this in mem.handles && buffer != null && buffer.refCount == 1
      requires buffer.size + n <= buffer.capacity && n <= source.Length && (source == buffer.data ==> n <= buffer.size)
      modifies Target(), Array(), mem`arrays
      ensures mem.Shared() && View() == Filled(Shown(old(View())) + old(source[..n]))
      ensures buffer.capacity == old(buffer.capacity)
      ensures forall h | h in mem.handles && h != this :: h.View() == old(h.View())
      ensures mem.arrays == old(mem.arrays)
    {
      hide Owners, Memory.Storage, Memory.Counts, Memory.Known;
      TargetIsLive(mem);
      Exclusive(mem);
      buffer.CopyIn(source, n);
      mem.NoteArray(buffer);
    }

    /**
     Which arrays last: reallocating in a sole owner drops the array it had, cloning leaves the array to the others.
     */
    method MakeRoom(other: CopyOnWriteBuffer, n: nat, ghost mem: Memory)
      requires mem.Shared() && this in mem.handles && other in mem.handles && buffer != null && other.buffer != null
      requires n == other.buffer.size
      modifies `buffer, Target(), mem`buffers, mem`arrays
      ensures mem.Shared() && View() == old(View()) && buffer != null && buffer.refCount == 1
      ensures buffer.size == old(buffer.size) && buffer.size + n <= buffer.capacity
      ensures Capacity() == old(CapacityFor(Size() + n))
      ensures forall h | h in mem.handles && h != this :: h.View() == old(h.View())
      ensures mem.Alive(old(other.buffer.data)) <==> !(other == this && old(MovesItself()))
      ensures buffer.data == old(other.buffer.data) ==> n <= buffer.size
      ensures buffer == old(buffer) || fresh(buffer)
      ensures buffer.data == old(buffer.data) || fresh(buffer.data)
      ensures fresh(mem.buffers - old(mem.buffers)) && fresh(mem.arrays - old(mem.arrays))
    {
      hide Owners, Memory.Storage, Memory.Counts, Memory.Known, Memory.Shared, Memory.SharedWith;
      hide CopyOnWriteBuffer.View, Buffer.Valid, Memory.StorageBut, Memory.HasOwnArray, Grown;
      TargetIsLive(mem);
      ghost var source, own, holder := other.buffer.data, buffer.refCount == 1, other;
      if own { Exclusive(mem); } else if other == this { holder := OtherOwner(mem); }
      CloneDataIfReferenced(Max(buffer.capacity, buffer.size + n), mem);
      GrowOwn(buffer.size + n, mem);
      TargetIsLive(mem);
      holder.TargetIsLive(mem);
      assert holder != this ==> holder.buffer in mem.buffers && !holder.buffer.freed && holder.buffer.data == source;
    }

    /** Appends from an array of another handle, or of this one. */
    method AppendFrom(other: CopyOnWriteBuffer, ghost mem: Memory) returns (ghost alive: bool)
      requires mem.Shared() && this in mem.handles && other in mem.handles && buffer != null && other.buffer != null
      modifies `buffer, Target(), Array(), mem`buffers, mem`arrays
      ensures alive <==> !(other == this && old(MovesItself()))
      ensures mem.Shared() && buffer != null
      ensures alive ==> View() == Filled(Shown(old(View())) + Shown(old(other.View())))
      ensures Capacity() == old(CapacityFor(Size() + other.Size()))
      ensures forall h | h in mem.handles && h != this :: h.View() == old(h.View())
      ensures fresh(mem.buffers - old(mem.buffers)) && fresh(mem.arrays - old(mem.arrays))
    {
      hide Owners, Memory.Storage, Memory.Counts, Memory.Known, CapacityFor, Memory.Shared, Memory.Alive;
      other.TargetIsLive(mem);
      var source, n := other.buffer.data, other.buffer.size;
      MakeRoom(other, n, mem);
      alive := mem.Alive(source);
      CopyIntoOwn(source, n, mem);
    }

    /**
     The bytes of a handle are read where they were when the append began. Whether that array is still there when they
     are copied depends on nothing but the two handles; if it is gone, nothing is said of what is copied.
     */
    method AppendBuffer(other: CopyOnWriteBuffer, ghost mem: Memory) returns (ghost alive: bool)
      requires mem.Shared() && this in mem.handles && other in mem.handles
      modifies `buffer, Target(), Array(), mem`buffers, mem`arrays
      ensures alive <==> !(other == this && old(MovesItself()))
      ensures IsConsistent() <==> old(buffer) != null || Shown(old(other.View())) != []
      ensures mem.SharedWith(null) && (IsConsistent() ==> mem.Shared())
      ensures alive ==> View() == Filled(Shown(old(View())) + Shown(old(other.View())))
      ensures Capacity() == old(CapacityFor(Size() + other.Size()))
      ensures forall h | h in mem.handles && h != this :: h.View() == old(h.View())
      ensures fresh(mem.buffers - old(mem.buffers)) && fresh(mem.arrays - old(mem.arrays))
    {
      hide Owners, Memory.Storage, Memory.Counts, Memory.Known;
      other.TargetIsLive(mem);
      if other.buffer == null {
        AppendData([], mem);
        return true;
      }
      var source, n := other.buffer.data, other.buffer.size;
      if buffer == null {
        alive := mem.Alive(source);
        var c := new Buffer.Copy(source[..n], n);
        Replace(c, mem);
        return;
      }
      alive := AppendFrom(other, mem);
      TargetIsLive(mem);
    }

    /** Gives a handle that shares its buffer a copy of what a given size keeps. */
    method CloneForSize(size: nat, ghost mem: Memory)
      requires mem.Shared() && this in mem.handles && buffer != null
      modifies `buffer, Target()`refCount, Target()`freed, mem`buffers, mem`arrays
      ensures mem.Shared() && buffer != null && buffer.refCount == 1
      ensures buffer == old(buffer) || (fresh(buffer) && fresh(buffer.data))
      ensures var bytes := Shown(old(View()));
              View() == (if buffer == old(buffer) then old(View()) else Filled(bytes[..Min(|bytes|, size)]))
      ensures buffer.capacity == if old(OwnsAlone()) then old(buffer.capacity) else Max(old(buffer.capacity), size)
      ensures old(buffer.refCount) == 1 ==> buffer == old(buffer)
      ensures fresh(mem.buffers - old(mem.buffers)) && fresh(mem.arrays - old(mem.arrays))
    {
      hide Owners, Memory.Storage, Memory.Counts, Memory.Known;
      TargetIsLive(mem);
      if !buffer.HasOneRef() {
        var c := new Buffer.Copy(buffer.data[..Min(buffer.size, size)], Max(buffer.capacity, size));
        Replace(c, mem);
      }
    }

    method SetSize(size: nat, ghost mem: Memory)
      requires mem.Shared() && this in mem.handles
      modifies `buffer, Target(), Array(), mem`buffers, mem`arrays
      ensures mem.Shared() && Resized(old(View()), size, View())
      ensures Capacity() == old(CapacityFor(size))
      ensures forall h | h in mem.handles && h != this :: h.View() == old(h.View())
      ensures fresh(mem.buffers - old(mem.buffers)) && fresh(mem.arrays - old(mem.arrays))
    {
      hide Owners, Memory.Storage, Memory.Counts, Memory.Known;
      TargetIsLive(mem);
      if buffer == null {
        if size > 0 {
          var c := new Buffer.Sized(size, size);
          Replace(c, mem);
        }
        return;
      }
      CloneForSize(size, mem);
      SetOwnSize(size, mem);
    }

    method EnsureCapacity(capacity: nat, ghost mem: Memory)
      requires mem.Shared() && this in mem.handles
      modifies `buffer, Target(), Array(), mem`buffers, mem`arrays
      ensures mem.Shared() && View() == if old(View()) == Null && capacity > 0 then Filled([]) else old(View())
      ensures Capacity() == Max(old(Capacity()), capacity)
      ensures forall h | h in mem.handles && h != this :: h.View() == old(h.View())
      ensures fresh(mem.buffers - old(mem.buffers)) && fresh(mem.arrays - old(mem.arrays))
    {
      hide Owners, Memory.Storage, Memory.Counts, Memory.Known;
      TargetIsLive(mem);
      if buffer == null {
        if capacity > 0 {
          var c := new Buffer.Sized(0, capacity);
          Replace(c, mem);
        }
        return;
      } else if capacity <= buffer.capacity {
        return;
      }
      CloneDataIfReferenced(Max(buffer.capacity, capacity), mem);
      EnsureOwnCapacity(capacity, mem);
    }

    method Clear(ghost mem: Memory)
      requires mem.Shared() && this in mem.handles
      modifies `buffer, Target(), Array(), mem`buffers, mem`arrays
      ensures mem.Shared() && View() == if old(View()) == Null then Null else Filled([])
      ensures Capacity() == old(Capacity())
      ensures forall h | h in mem.handles && h != this :: h.View() == old(h.View())
      ensures fresh(mem.buffers - old(mem.buffers)) && fresh(mem.arrays - old(mem.arrays))
    {
      hide Owners, Memory.Storage, Memory.Counts, Memory.Known;
      TargetIsLive(mem);
      if buffer == null { return; }
      if buffer.HasOneRef() {
        ClearOwn(mem);
      } else {
        var c := new Buffer.Sized(0, buffer.capacity);
        Replace(c, mem);
      }
    }

    /** Writing through operator[]. */
    method Write(index: nat, v: byte, ghost mem: Memory)
      requires mem.Shared() && this in mem.handles && index < |Shown(View())|
      modifies `buffer, Target(), Array(), mem`buffers, mem`arrays
      ensures mem.Shared() && View() == Filled(Shown(old(View()))[index := v])
      ensures Capacity() == old(Capacity())
      ensures forall h | h in mem.handles && h != this :: h.View() == old(h.View())
      ensures fresh(mem.buffers - old(mem.buffers)) && fresh(mem.arrays - old(mem.arrays))
    {
      hide Owners, Memory.Storage, Memory.Counts, Memory.Known;
      TargetIsLive(mem);
      CloneDataIfReferenced(buffer.capacity, mem);
      TargetIsLive(mem);
      Exclusive(mem);
      buffer.data[index] := v;
    }

    /** operator==. */
    predicate Equals(other: CopyOnWriteBuffer)
      reads this, other, buffer, other.buffer, Array(), other.Array()
      requires buffer != null ==> buffer.size <= buffer.data.Length
      requires other.buffer != null ==> other.buffer.size <= other.buffer.data.Length
    {
      || buffer == other.buffer
      || (buffer != null && other.buffer != null
          && buffer.data[..buffer.size] == other.buffer.data[..other.buffer.size])
    }

    /** A handle without a buffer differs from one whose buffer is empty. */
    lemma EqualsComparesViews(other: CopyOnWriteBuffer, mem: Memory)
      requires mem.Shared() && this in mem.handles && other in mem.handles
      ensures buffer != null ==> buffer.size <= buffer.data.Length
      ensures other.buffer != null ==> other.buffer.size <= other.buffer.data.Length
      ensures Equals(other) <==> View() == other.View()
    {
      TargetIsLive(mem);
      other.TargetIsLive(mem);
    }
  }

  function Shown(v: View): seq<byte> { if v.Null? then [] else v.bytes }

  /** A view of the given size that keeps what fits of the bytes before. */
  ghost predicate Resized(before: View, size: nat, after: View) {
    match before
    case Null => if size == 0 then after == Null else after.Filled? && |after.bytes| == size
    case Filled(bytes) =>
      && after.Filled? && |after.bytes| == size
      && after.bytes[..Min(size, |bytes|)] == bytes[..Min(size, |bytes|)]
  }
}
