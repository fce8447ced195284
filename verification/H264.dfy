/** Bytes, NAL units and the bit fields of their headers (packetizer/h264_common.h, base/byte_rw.h). */
module H264 {

  type byte = b: int | 0 <= b < 256

  type Bytes = seq<byte>

  /** A NAL unit: its header byte and what follows. */
  type Nalu = seq<byte>

  const SPS: byte := 7
  const PPS: byte := 8
  const SEI: byte := 6
  const STAP_A: byte := 24
  const FU_A: byte := 28

  /** b & 0x1F */
  function TypeBits(b: byte): byte { b % 32 }

  /** b & 0xE0: the forbidden bit and the two NRI bits */
  function FAndNri(b: byte): byte { b / 32 * 32 }

  /** b & 0x80, as a truth value */
  predicate TopBit(b: byte) { b >= 128 }

  /** The arithmetic forms above are the masks and the bitwise ors of the source. */
  lemma MasksAreArithmetic(b: bv8, t: bv8)
    ensures b & 0x1F == b % 32
    ensures b & 0xE0 == b / 32 * 32
    ensures (b & 0x80 != 0) <==> b >= 128
    ensures t < 32 ==> (b & 0xE0) | t == b / 32 * 32 + t
    ensures (b & 0x80) | t == if t < 128 then b / 128 * 128 + t else t
  {
  }

  ghost predicate NonEmpty(nalus: seq<Nalu>) {
    forall i :: 0 <= i < |nalus| ==> nalus[i] != []
  }

  // ---------- Big-endian codecs ----------

  /** The low 16 bits of n, most significant byte first. */
  function WriteUint16(n: nat): (data: Bytes)
    ensures |data| == 2
  {
    [n / 256 % 256, n % 256]
  }

  function ReadUint16(data: Bytes): nat
    requires |data| == 2
  {
    data[0] as int * 256 + data[1] as int
  }

  function WriteUint32(n: nat): (data: Bytes)
    ensures |data| == 4
  {
    WriteUint16(n / 65536) + WriteUint16(n)
  }

  function ReadUint32(data: Bytes): nat
    requires |data| == 4
  {
    ReadUint16(data[..2]) * 65536 + ReadUint16(data[2..])
  }

  lemma Uint16RoundTrip(n: nat)
    ensures ReadUint16(WriteUint16(n)) == n % 65536
  {
    var q, r := n / 65536, n % 65536;
    assert n == q * 65536 + r;
    assert n / 256 == q * 256 + r / 256;
    assert n / 256 % 256 == r / 256;
    assert n % 256 == r % 256;
  }

  lemma Uint32RoundTrip(n: nat)
    ensures ReadUint32(WriteUint32(n)) == n % 0x1_0000_0000
  {
    Uint16RoundTrip(n / 65536);
    Uint16RoundTrip(n);
    var data := WriteUint32(n);
    assert data[..2] == WriteUint16(n / 65536) && data[2..] == WriteUint16(n);
    var q, r := n / 0x1_0000_0000, n % 0x1_0000_0000;
    assert n / 65536 == q * 65536 + r / 65536;
  }

  // ---------- Concatenation ----------

  function Concat(parts: seq<Bytes>): Bytes {
    if parts == [] then [] else parts[0] + Concat(parts[1..])
  }

  lemma {:induction false} ConcatAppend(xs: seq<Bytes>, ys: seq<Bytes>)
    ensures Concat(xs + ys) == Concat(xs) + Concat(ys)
  {
    if xs == [] {
      assert xs + ys == ys;
    } else {
      ConcatAppend(xs[1..], ys);
      assert (xs + ys)[1..] == xs[1..] + ys;
    }
  }

  lemma ConcatOne(data: Bytes)
    ensures Concat([data]) == data
  {
    var parts: seq<Bytes> := [data];
    assert parts[1..] == [];
  }

  lemma Associative<T>(a: seq<T>, b: seq<T>, c: seq<T>)
    ensures (a + b) + c == a + (b + c)
  {
  }

  lemma DropPrefix<T>(a: seq<T>, b: seq<T>)
    ensures (a + b)[|a|..] == b
  {
  }

  lemma ReplaceLast<T>(a: seq<T>, x: T, y: T)
    ensures (a + [x])[|a| := y] == a + [y]
  {
  }
}
