/** A growable byte buffer (base/buffer.h) with an intrusive reference count (base/atomic_ops.h). */
module Buffers {
  import opened H264

  function Max(a: nat, b: nat): nat { if a < b then b else a }

  function Min(a: nat, b: nat): nat { if a < b then a else b }

  /** The capacity after asking for a given one, with or without headroom. */
  function Grown(capacity: nat, needed: nat, headroom: bool): (r: nat)
    ensures capacity <= r && needed <= r
    ensures needed <= capacity ==> r == capacity
    ensures needed > capacity ==> r == if headroom then Max(needed, 3 * capacity / 2) else needed
  {
    if needed <= capacity then capacity
    else if headroom then Max(needed, capacity + capacity / 2)
    else needed
  }

  /** RefCountedObject<Buffer>: bytes, and how many references there are to them. */
  class Buffer {
    var data: array<byte>
    var size: nat
    var capacity: nat
    var refCount: int
    /** Set by the release of the last reference, which deletes the buffer. */
    var freed: bool
    /** How many bytes reallocations have copied so far. */
    ghost var copied: nat

    ghost predicate Valid()
      reads `size, `capacity, `data
    {
      size <= capacity == data.Length
    }

    ghost function Contents(): (s: seq<byte>)
      requires Valid()
      reads `size, `capacity, `data, data
      ensures |s| == size
    {
      data[..size]
    }

    ghost function Growth(): Growth
      reads this
    {
      State(size, capacity, copied)
    }

    /** A buffer of uninitialized bytes. */
    constructor Sized(size: nat, capacity: nat)
      ensures Valid() && fresh(data) && refCount == 0 && !freed
      ensures Growth() == State(size, Max(size, capacity), 0)
    {
      this.size, this.capacity := size, Max(size, capacity);
      data := new byte[Max(size, capacity)];
      refCount, freed, copied := 0, false, 0;
    }

    /** A buffer holding the given bytes. */
    constructor Copy(bytes: seq<byte>, capacity: nat)
      ensures Valid() && fresh(data) && refCount == 0 && !freed
      ensures Contents() == bytes && Growth() == State(|bytes|, Max(|bytes|, capacity), 0)
    {
      size, this.capacity := |bytes|, Max(|bytes|, capacity);
      data := new byte[Max(|bytes|, capacity)];
      refCount, freed, copied := 0, false, 0;
      new;
      forall i | 0 <= i < |bytes| { data[i] := bytes[i]; }
    }

    method AddRef()
      modifies `refCount
      ensures refCount == old(refCount) + 1
    {
      refCount := refCount + 1;
    }

    /** Drops a reference; dropping the last one deletes the buffer. */
    method Release()
      requires !freed
      modifies `refCount, `freed
      ensures refCount == old(refCount) - 1 && (freed <==> refCount == 0)
    {
      refCount := refCount - 1;
      if refCount == 0 { freed := true; }
    }

    predicate HasOneRef()
      reads this
    {
      refCount == 1
    }

    method EnsureCapacityWithHeadroom(needed: nat, headroom: bool)
      requires Valid()
      modifies `data, `capacity, `copied
      ensures Valid() && Contents() == old(Contents())
      ensures capacity == Grown(old(capacity), needed, headroom)
      ensures copied == old(copied) + if needed <= old(capacity) then 0 else size
      ensures if needed <= old(capacity) then data == old(data) else fresh(data)
    {
      if needed <= capacity { return; }
      var newCapacity := if headroom then Max(needed, capacity + capacity / 2) else needed;
      var newData := new byte[newCapacity];
      forall i | 0 <= i < size { newData[i] := data[i]; }
      copied := copied + size;
      data := newData;
      capacity := newCapacity;
    }

    method EnsureCapacity(needed: nat)
      requires Valid()
      modifies `data, `capacity, `copied
      ensures Valid() && Contents() == old(Contents())
      ensures capacity == Max(old(capacity), needed)
      ensures data == old(data) || fresh(data)
    {
      EnsureCapacityWithHeadroom(needed, false);
    }

    /** The memcpy of an append: reads the source where it is, which may be the start of this buffer. */
    method CopyIn(source: array<byte>, n: nat)
      requires Valid() && size + n <= capacity && n <= source.Length && (source == data ==> n <= size)
      modifies `size, data
      ensures Valid() && Contents() == old(Contents()) + old(source[..n])
    {
      forall i | 0 <= i < n { data[size + i] := source[i]; }
      size := size + n;
    }

    method AppendData(bytes: seq<byte>)
      requires Valid()
      modifies `data, `size, `capacity, `copied, data
      ensures Valid() && Contents() == old(Contents()) + bytes
      ensures Growth() == Appended(old(Growth()), |bytes|)
      ensures data == old(data) || fresh(data)
    {
      var newSize := size + |bytes|;
      EnsureCapacityWithHeadroom(newSize, true);
      forall i | 0 <= i < |bytes| { data[size + i] := bytes[i]; }
      size := newSize;
    }

    method SetData(bytes: seq<byte>)
      requires Valid()
      modifies `data, `size, `capacity, `copied, data
      ensures Valid() && Contents() == bytes
      ensures Growth() == Appended(State(0, old(capacity), old(copied)), |bytes|)
      ensures data == old(data) || fresh(data)
    {
      size := 0;
      AppendData(bytes);
    }

    /** Bytes beyond the old size are whatever the memory holds. */
    method SetSize(newSize: nat)
      requires Valid()
      modifies `data, `size, `capacity, `copied
      ensures Valid() && size == newSize && capacity == Grown(old(capacity), newSize, true)
      ensures Contents()[..Min(newSize, old(size))] == old(Contents())[..Min(newSize, old(size))]
      ensures data == old(data) || fresh(data)
    {
      EnsureCapacityWithHeadroom(newSize, true);
      size := newSize;
    }

    method Clear()
      requires Valid()
      modifies `size
      ensures Valid() && Contents() == []
    {
      size := 0;
    }
  }

  // ---------- What appending costs ----------

  /** Sizes of a buffer, and the bytes copied by its reallocations. */
  datatype Growth = State(size: nat, capacity: nat, copied: nat)

  const NEW_BUFFER := State(0, 0, 0)

  function Appended(g: Growth, n: nat): Growth {
    var size := g.size + n;
    State(size, Grown(g.capacity, size, true), g.copied + if size <= g.capacity then 0 else g.size)
  }

  function AppendedAll(g: Growth, ns: seq<nat>): Growth
    decreases |ns|
  {
    if ns == [] then g else AppendedAll(Appended(g, ns[0]), ns[1..])
  }

  function Total(ns: seq<nat>): nat { if ns == [] then 0 else ns[0] + Total(ns[1..]) }

  /**
   * What every append keeps. A capacity c grows to at least c + c / 2 and by at least 1, so three
   * times the gain pays for copying c bytes, odd capacities included.
   */
  ghost predicate Amortized(g: Growth) {
    g.size <= g.capacity && g.copied <= 3 * g.capacity && g.copied <= 4 * g.size
  }

  lemma AppendKeepsAmortized(g: Growth, n: nat)
    requires Amortized(g)
    ensures Amortized(Appended(g, n))
  {
    var c := g.capacity;
    if g.size + n > c {
      var d := Grown(c, g.size + n, true);
      assert c <= 3 * (d - c);
    }
  }

  lemma {:induction false} AppendsKeepAmortized(g: Growth, ns: seq<nat>)
    requires Amortized(g)
    ensures Amortized(AppendedAll(g, ns)) && AppendedAll(g, ns).size == g.size + Total(ns)
    decreases |ns|
  {
    if ns == [] {
    } else {
      AppendKeepsAmortized(g, ns[0]);
      AppendsKeepAmortized(Appended(g, ns[0]), ns[1..]);
    }
  }

  /** Appending to an empty buffer copies, over any run, at most four times the final size. */
  lemma AppendingIsLinear(ns: seq<nat>)
    ensures AppendedAll(NEW_BUFFER, ns).size == Total(ns)
    ensures AppendedAll(NEW_BUFFER, ns).copied <= 4 * Total(ns)
  {
    AppendsKeepAmortized(NEW_BUFFER, ns);
  }

  /** A run of appends: the contents are all that was appended, at no more than four copies a byte. */
  method AppendAll(buffer: Buffer, chunks: seq<Bytes>)
    requires buffer.Valid() && buffer.Growth() == NEW_BUFFER
    modifies buffer`data, buffer`size, buffer`capacity, buffer`copied, buffer.data
    ensures buffer.Valid() && buffer.Contents() == Concat(chunks)
    ensures buffer.copied <= 4 * |Concat(chunks)|
  {
    for k := 0 to |chunks|
      invariant buffer.Valid() && buffer.Contents() == Concat(chunks[..k]) && Amortized(buffer.Growth())
      invariant buffer.data == old(buffer.data) || fresh(buffer.data)
    {
      AppendKeepsAmortized(buffer.Growth(), |chunks[k]|);
      ConcatAppend(chunks[..k], [chunks[k]]);
      ConcatOne(chunks[k]);
      assert chunks[..k + 1] == chunks[..k] + [chunks[k]];
      buffer.AppendData(chunks[k]);
    }
    assert chunks[..|chunks|] == chunks;
  }

  /** Growing without headroom, byte by byte, would copy quadratically many. */
  function EnsuredAll(g: Growth, k: nat): Growth {
    if k == 0 then g else
      var h := EnsuredAll(g, k - 1);
      State(h.size + 1, Grown(h.capacity, h.size + 1, false), h.copied + if h.size + 1 <= h.capacity then 0 else h.size)
  }

  lemma {:induction false} WithoutHeadroomIsQuadratic(k: nat)
    ensures EnsuredAll(NEW_BUFFER, k) == State(k, k, k * (k - 1) / 2)
  {
    if k == 0 {
    } else {
      WithoutHeadroomIsQuadratic(k - 1);
      assert k * (k - 1) == (k - 1) * (k - 2) + 2 * (k - 1);
    }
  }
}
