/** Integers in byte sequences: the generic codecs, their specializations, sign extension (base/byte_rw.h). */
module ByteRw {
  import opened Arithmetic
  import opened H264

  // ---------- Shifts and bitwise or ----------

  function Pow2(k: nat): (r: nat)
    ensures r >= 1
  {
    if k == 0 then 1 else 2 * Pow2(k - 1)
  }

  function Shl(v: nat, k: nat): nat { v * Pow2(k) }

  function Shr(v: nat, k: nat): nat { Quotient(v, Pow2(k)) }

  function Quotient(v: nat, p: nat): nat
    requires p >= 1
  {
    v / p
  }

  /** v >> k, cut to a byte. */
  function LowByte(v: nat, k: nat): byte { Shr(v, k) % 256 }

  /** Bitwise or, bit by bit. */
  function Or(a: nat, b: nat): nat
    decreases a + b
  {
    if a + b == 0 then 0 else 2 * Or(a / 2, b / 2) + if a % 2 == 1 || b % 2 == 1 then 1 else 0
  }

  lemma {:induction false} OrZero(a: nat)
    ensures Or(a, 0) == a
  {
    if a == 0 {
    } else {
      OrZero(a / 2);
    }
  }

  lemma {:induction false} OrCommutes(a: nat, b: nat)
    ensures Or(a, b) == Or(b, a)
    decreases a + b
  {
    if a + b == 0 {
    } else {
      OrCommutes(a / 2, b / 2);
    }
  }

  /** The or of numbers without common bits is their sum. */
  lemma {:induction false} OrAdds(m: nat, k: nat, b: nat)
    requires b < Pow2(k)
    ensures Or(m * Pow2(k), b) == m * Pow2(k) + b
  {
    if k == 0 {
      OrZero(m);
    } else {
      var h := m * Pow2(k - 1);
      assert m * Pow2(k) == 2 * h;
      OrAdds(m, k - 1, b / 2);
      assert 2 * h / 2 == h && 2 * h % 2 == 0;
      if 2 * h + b > 0 { assert Or(2 * h, b) == 2 * Or(h, b / 2) + b % 2; }
    }
  }

  lemma {:induction false} PowAdds(j: nat, k: nat)
    ensures Pow2(j + k) == Pow2(j) * Pow2(k)
  {
    if j == 0 {
    } else {
      PowAdds(j - 1, k);
    }
  }

  lemma Pow8()
    ensures Pow2(8) == 256
  {
    assert Pow2(4) == 16;
  }

  lemma NextByte(k: nat)
    ensures Pow2(k + 8) == 256 * Pow2(k)
  {
    PowAdds(8, k);
    Pow8();
  }

  // ---------- The values of byte sequences ----------

  /** The number that bytes show, most significant first. */
  function Big(s: Bytes): nat {
    if s == [] then 0 else Big(s[..|s| - 1]) * 256 + s[|s| - 1] as int
  }

  /** The number that bytes show, least significant first. */
  function Little(s: Bytes): nat {
    if s == [] then 0 else s[0] as int + 256 * Little(s[1..])
  }

  /** The low n bytes of v, most significant first. */
  function BigBytes(v: nat, n: nat): (s: Bytes)
    ensures |s| == n
  {
    if n == 0 then [] else BigBytes(v / 256, n - 1) + [v % 256]
  }

  /** The low n bytes of v, least significant first. */
  function LittleBytes(v: nat, n: nat): (s: Bytes)
    ensures |s| == n
  {
    if n == 0 then [] else [v % 256] + LittleBytes(v / 256, n - 1)
  }

  lemma {:induction false} BigIsBounded(s: Bytes)
    ensures Big(s) < Pow2(8 * |s|)
  {
    if s == [] {
    } else {
      BigIsBounded(s[..|s| - 1]);
      NextByte(8 * (|s| - 1));
    }
  }

  lemma {:induction false} LittleIsBounded(s: Bytes)
    ensures Little(s) < Pow2(8 * |s|)
  {
    if s == [] {
    } else {
      LittleIsBounded(s[1..]);
      NextByte(8 * (|s| - 1));
    }
  }

  lemma {:induction false} LittleAppends(s: Bytes, b: byte)
    ensures Little(s + [b]) == Little(s) + b as int * Pow2(8 * |s|)
  {
    if s == [] {
      assert s + [b] == [b];
      assert [b][1..] == [];
    } else {
      hide Pow2;
      LittleAppends(s[1..], b);
      assert (s + [b])[1..] == s[1..] + [b];
      NextByte(8 * (|s| - 1));
      Regroup(b, 256, Pow2(8 * (|s| - 1)));
    }
  }

  // ---------- Read after write ----------

  lemma RemainderStep(v: nat, p: nat)
    requires p >= 1
    ensures v % (256 * p) == (v / 256) % p * 256 + v % 256
  {
    var q, r := v / 256 / p, v / 256 % p;
    assert v / 256 == q * p + r;
    assert v == (q * p + r) * 256 + v % 256;
    assert v == q * (256 * p) + (r * 256 + v % 256);
    assert r * 256 + v % 256 < 256 * p;
    RemainderIs(v, q, r * 256 + v % 256, 256 * p);
  }

  /** Big-endian bytes read back, for any width. */
  lemma {:induction false} BigRoundTrip(v: nat, n: nat)
    ensures Big(BigBytes(v, n)) == v % Pow2(8 * n)
  {
    if n == 0 {
    } else {
      BigRoundTrip(v / 256, n - 1);
      NextByte(8 * (n - 1));
      RemainderStep(v, Pow2(8 * (n - 1)));
      assert BigBytes(v, n)[..n - 1] == BigBytes(v / 256, n - 1);
    }
  }

  /** Little-endian bytes read back, for any width. */
  lemma {:induction false} LittleRoundTrip(v: nat, n: nat)
    ensures Little(LittleBytes(v, n)) == v % Pow2(8 * n)
  {
    if n == 0 {
    } else {
      LittleRoundTrip(v / 256, n - 1);
      NextByte(8 * (n - 1));
      RemainderStep(v, Pow2(8 * (n - 1)));
      assert LittleBytes(v, n)[1..] == LittleBytes(v / 256, n - 1);
    }
  }

  /** Every byte sequence is what writing the number it shows writes. */
  lemma {:induction false} BigWriteAfterRead(s: Bytes)
    ensures BigBytes(Big(s), |s|) == s
  {
    if s == [] {
    } else {
      var rest, last := s[..|s| - 1], s[|s| - 1];
      BigWriteAfterRead(rest);
      RemainderIs(Big(s), Big(rest), last, 256);
      assert s == rest + [last];
    }
  }

  lemma {:induction false} LittleWriteAfterRead(s: Bytes)
    ensures LittleBytes(Little(s), |s|) == s
  {
    if s == [] {
    } else {
      LittleWriteAfterRead(s[1..]);
      RemainderIs(Little(s), Little(s[1..]), s[0], 256);
      assert s == [s[0]] + s[1..];
    }
  }

  // ---------- The generic loops ----------

  method ReadBigEndian(data: Bytes, n: nat) returns (val: nat)
    requires n <= |data|
    ensures val == Big(data[..n])
  {
    val := 0;
    for i := 0 to n
      invariant val == Big(data[..i]) * Pow2(8 * (n - i))
    {
      NextByte(8 * (n - 1 - i));
      assert data[..i + 1][..i] == data[..i];
      BigStep(Big(data[..i]), data[i], 8 * (n - 1 - i));
      val := Or(val, Shl(data[i], (n - 1 - i) * 8));
    }
  }

  lemma BigStep(m: nat, b: byte, k: nat)
    ensures Or(m * Pow2(k + 8), Shl(b, k)) == (m * 256 + b as int) * Pow2(k)
  {
    hide Pow2, Or;
    var p := Pow2(k);
    NextByte(k);
    MultipleGrows(b as int + 1, 256, p);
    MultipleGrows(b, b, p);
    OrAdds(m, k + 8, b as int * p);
    Regroup(m, 256, p);
    Together(m * 256, b, p);
  }

  lemma Together(a: int, b: int, p: int)
    ensures a * p + b * p == (a + b) * p
  {
  }

  method ReadLittleEndian(data: Bytes, n: nat) returns (val: nat)
    requires n <= |data|
    ensures val == Little(data[..n])
  {
    val := 0;
    for i := 0 to n
      invariant val == Little(data[..i])
    {
      assert data[..i + 1] == data[..i] + [data[i]];
      LittleStep(data[..i], data[i]);
      val := Or(val, Shl(data[i], i * 8));
    }
  }

  lemma LittleStep(s: Bytes, b: byte)
    ensures Or(Little(s), Shl(b, 8 * |s|)) == Little(s + [b])
  {
    LittleIsBounded(s);
    LittleAppends(s, b);
    OrAdds(b, 8 * |s|, Little(s));
    OrCommutes(Little(s), Shl(b, 8 * |s|));
  }

  method WriteBigEndian(data: array<byte>, n: nat, val: nat)
    requires n <= data.Length
    modifies data
    ensures data[..] == BigBytes(val, n) + old(data[n..])
  {
    assert Shr(val, 0) == val;
    hide Shr, Pow2;
    for i := 0 to n
      invariant data[..i] == BigBytes(Shr(val, 8 * (n - i)), i)
      invariant data[n..] == old(data[n..])
    {
      ShiftStep(val, 8 * (n - 1 - i));
      data[i] := LowByte(val, (n - 1 - i) * 8);
      assert data[..i + 1] == data[..i] + [data[i]];
    }
    assert data[..] == data[..n] + data[n..];
  }

  lemma ShiftStep(v: nat, k: nat)
    ensures Shr(v, k) / 256 == Shr(v, k + 8)
  {
    NextByte(k);
    QuotientOfQuotient(v, Pow2(k), 256);
  }

  method WriteLittleEndian(data: array<byte>, n: nat, val: nat)
    requires n <= data.Length
    modifies data
    ensures data[..] == LittleBytes(val, n) + old(data[n..])
  {
    for i := 0 to n
      invariant data[..i] == LittleBytes(val, i)
      invariant data[n..] == old(data[n..])
    {
      LittleBytesAppends(val, i);
      data[i] := LowByte(val, i * 8);
      assert data[..i + 1] == data[..i] + [data[i]];
    }
    assert data[..] == data[..n] + data[n..];
  }

  lemma {:induction false} LittleBytesAppends(v: nat, n: nat)
    ensures LittleBytes(v, n + 1) == LittleBytes(v, n) + [LowByte(v, 8 * n)]
  {
    if n == 0 {
    } else {
      LittleBytesAppends(v / 256, n - 1);
      assert LowByte(v / 256, 8 * (n - 1)) == LowByte(v, 8 * n) by {
        NextByte(8 * (n - 1));
        QuotientOfQuotient(v, 256, Pow2(8 * (n - 1)));
      }
      hide LowByte;
      Associative([v % 256], LittleBytes(v / 256, n - 1), [LowByte(v, 8 * n)]);
    }
  }

  // ---------- The specializations ----------

  function Read2Big(d: Bytes): nat
    requires |d| == 2
  {
    Or(Shl(d[0], 8), d[1])
  }

  function Read2Little(d: Bytes): nat
    requires |d| == 2
  {
    Or(d[0], Shl(d[1], 8))
  }

  function Read4Big(d: Bytes): nat
    requires |d| == 4
  {
    Or(Or(Or(Shl(d[0], 24), Shl(d[1], 16)), Shl(d[2], 8)), d[3])
  }

  function Read4Little(d: Bytes): nat
    requires |d| == 4
  {
    Or(Or(Or(d[0], Shl(d[1], 8)), Shl(d[2], 16)), Shl(d[3], 24))
  }

  function Read8Big(d: Bytes): nat
    requires |d| == 8
  {
    Or(Or(Or(Or(Or(Or(Or(Shl(d[0], 56), Shl(d[1], 48)), Shl(d[2], 40)), Shl(d[3], 32)),
                 Shl(d[4], 24)), Shl(d[5], 16)), Shl(d[6], 8)), d[7])
  }

  function Read8Little(d: Bytes): nat
    requires |d| == 8
  {
    Or(Or(Or(Or(Or(Or(Or(d[0], Shl(d[1], 8)), Shl(d[2], 16)), Shl(d[3], 24)),
                 Shl(d[4], 32)), Shl(d[5], 40)), Shl(d[6], 48)), Shl(d[7], 56))
  }

  /** The first i of n bytes, each shifted to its place, most significant first. */
  function OrBig(d: Bytes, n: nat, i: nat): nat
    requires 1 <= i <= n == |d|
  {
    var shifted := Shl(d[i - 1], 8 * (n - i));
    if i == 1 then shifted else Or(OrBig(d, n, i - 1), shifted)
  }

  function OrLittle(d: Bytes, i: nat): nat
    requires 1 <= i <= |d|
  {
    if i == 1 then d[0] as int else Or(OrLittle(d, i - 1), Shl(d[i - 1], 8 * (i - 1)))
  }

  lemma {:induction false} OrBigIsBig(d: Bytes, n: nat, i: nat)
    requires 1 <= i <= n == |d|
    ensures OrBig(d, n, i) == Big(d[..i]) * Pow2(8 * (n - i))
  {
    assert d[..i][..i - 1] == d[..i - 1];
    if i == 1 {
      assert Big(d[..0]) == 0;
    } else {
      OrBigIsBig(d, n, i - 1);
      BigStep(Big(d[..i - 1]), d[i - 1], 8 * (n - i));
    }
  }

  lemma {:induction false} OrLittleIsLittle(d: Bytes, i: nat)
    requires 1 <= i <= |d|
    ensures OrLittle(d, i) == Little(d[..i])
  {
    assert d[..i] == d[..i - 1] + [d[i - 1]];
    if i == 1 {
      LittleAppends(d[..0], d[0]);
    } else {
      OrLittleIsLittle(d, i - 1);
      LittleStep(d[..i - 1], d[i - 1]);
    }
  }

  lemma WholeSequence(d: Bytes)
    requires d != []
    ensures OrBig(d, |d|, |d|) == Big(d) && OrLittle(d, |d|) == Little(d)
  {
    hide OrBig, OrLittle, Big, Little;
    OrBigIsBig(d, |d|, |d|);
    OrLittleIsLittle(d, |d|);
    assert d[..|d|] == d;
    assert Pow2(8 * (|d| - |d|)) == 1;
  }

  lemma ShlZero(b: byte)
    ensures Shl(b, 0) == b as int
  {
  }

  /** The specialized readers read what the generic loops read. */
  lemma TwoByteReads(d: Bytes)
    requires |d| == 2
    ensures Read2Big(d) == Big(d) && Read2Little(d) == Little(d)
  {
    WholeSequence(d);
    hide Or, Shl;
    ShlZero(d[1]);
    assert OrBig(d, 2, 1) == Shl(d[0], 8);
  }

  lemma FourByteReads(d: Bytes)
    requires |d| == 4
    ensures Read4Big(d) == Big(d) && Read4Little(d) == Little(d)
  {
    WholeSequence(d);
    hide Or, Shl;
    ShlZero(d[3]);
    assert OrBig(d, 4, 2) == Or(Shl(d[0], 24), Shl(d[1], 16));
    assert OrLittle(d, 2) == Or(d[0], Shl(d[1], 8));
  }

  lemma EightByteReads(d: Bytes)
    requires |d| == 8
    ensures Read8Big(d) == Big(d) && Read8Little(d) == Little(d)
  {
    WholeSequence(d);
    hide Or, Shl;
    ShlZero(d[7]);
    assert OrBig(d, 8, 2) == Or(Shl(d[0], 56), Shl(d[1], 48));
    assert OrBig(d, 8, 4) == Or(Or(OrBig(d, 8, 2), Shl(d[2], 40)), Shl(d[3], 32));
    assert OrBig(d, 8, 6) == Or(Or(OrBig(d, 8, 4), Shl(d[4], 24)), Shl(d[5], 16));
    assert OrLittle(d, 2) == Or(d[0], Shl(d[1], 8));
    assert OrLittle(d, 4) == Or(Or(OrLittle(d, 2), Shl(d[2], 16)), Shl(d[3], 24));
    assert OrLittle(d, 6) == Or(Or(OrLittle(d, 4), Shl(d[4], 32)), Shl(d[5], 40));
  }

  /** Byte i of a big-endian number is its value shifted down and cut to a byte, as the writers store it. */
  lemma {:induction false} BigBytesAt(v: nat, n: nat, i: nat)
    requires i < n
    ensures BigBytes(v, n)[i] == LowByte(v, 8 * (n - 1 - i))
  {
    if i == n - 1 {
    } else {
      BigBytesAt(v / 256, n - 1, i);
      NextByte(8 * (n - 2 - i));
      QuotientOfQuotient(v, 256, Pow2(8 * (n - 2 - i)));
    }
  }

  lemma {:induction false} LittleBytesAt(v: nat, n: nat, i: nat)
    requires i < n
    ensures LittleBytes(v, n)[i] == LowByte(v, 8 * i)
  {
    if i == 0 {
    } else {
      LittleBytesAt(v / 256, n - 1, i - 1);
      NextByte(8 * (i - 1));
      QuotientOfQuotient(v, 256, Pow2(8 * (i - 1)));
    }
  }

  function Write2Big(v: nat): Bytes { [LowByte(v, 8), LowByte(v, 0)] }

  function Write4Big(v: nat): Bytes { [LowByte(v, 24), LowByte(v, 16), LowByte(v, 8), LowByte(v, 0)] }

  function Write8Big(v: nat): Bytes {
    [LowByte(v, 56), LowByte(v, 48), LowByte(v, 40), LowByte(v, 32),
     LowByte(v, 24), LowByte(v, 16), LowByte(v, 8), LowByte(v, 0)]
  }

  function Write2Little(v: nat): Bytes { [LowByte(v, 0), LowByte(v, 8)] }

  function Write4Little(v: nat): Bytes { [LowByte(v, 0), LowByte(v, 8), LowByte(v, 16), LowByte(v, 24)] }

  function Write8Little(v: nat): Bytes {
    [LowByte(v, 0), LowByte(v, 8), LowByte(v, 16), LowByte(v, 24),
     LowByte(v, 32), LowByte(v, 40), LowByte(v, 48), LowByte(v, 56)]
  }

  function Reversed(s: Bytes): (r: Bytes)
    ensures |r| == |s|
    ensures forall i :: 0 <= i < |s| ==> r[i] == s[|s| - 1 - i]
  {
    if s == [] then [] else Reversed(s[1..]) + [s[0]]
  }

  /** The two byte orders are each other's mirror image. */
  lemma OrdersMirror(v: nat, n: nat)
    ensures LittleBytes(v, n) == Reversed(BigBytes(v, n))
  {
    forall i | 0 <= i < n ensures LittleBytes(v, n)[i] == BigBytes(v, n)[n - 1 - i] {
      LittleBytesAt(v, n, i);
      BigBytesAt(v, n, n - 1 - i);
    }
  }

  lemma SpecializedLittleWrites(v: nat)
    ensures Write2Little(v) == LittleBytes(v, 2) && Write4Little(v) == LittleBytes(v, 4)
    ensures Write8Little(v) == LittleBytes(v, 8)
  {
    hide LittleBytes, LowByte;
    forall i | 0 <= i < 2 ensures LittleBytes(v, 2)[i] == LowByte(v, 8 * i) { LittleBytesAt(v, 2, i); }
    forall i | 0 <= i < 4 ensures LittleBytes(v, 4)[i] == LowByte(v, 8 * i) { LittleBytesAt(v, 4, i); }
    forall i | 0 <= i < 8 ensures LittleBytes(v, 8)[i] == LowByte(v, 8 * i) { LittleBytesAt(v, 8, i); }
  }

  /** The specialized writers write what the generic loops write. */
  lemma SpecializedWrites(v: nat)
    ensures Write2Big(v) == BigBytes(v, 2) && Write4Big(v) == BigBytes(v, 4) && Write8Big(v) == BigBytes(v, 8)
  {
    hide BigBytes, LowByte;
    forall i | 0 <= i < 2 ensures BigBytes(v, 2)[i] == LowByte(v, 8 * (1 - i)) { BigBytesAt(v, 2, i); }
    forall i | 0 <= i < 4 ensures BigBytes(v, 4)[i] == LowByte(v, 8 * (3 - i)) { BigBytesAt(v, 4, i); }
    forall i | 0 <= i < 8 ensures BigBytes(v, 8)[i] == LowByte(v, 8 * (7 - i)) { BigBytesAt(v, 8, i); }
  }

  /** The two- and four-byte codecs that the packet headers use are instances of the generic ones. */
  lemma HeaderWriters(n: nat)
    ensures WriteUint16(n) == BigBytes(n, 2) && WriteUint32(n) == BigBytes(n, 4)
  {
    TwoBytes(n);
    TwoBytes(n / 65536);
    QuotientOfQuotient(n, 256, 256);
    assert BigBytes(n, 4) == BigBytes(n / 256, 3) + [n % 256];
    assert BigBytes(n / 256, 3) == BigBytes(n / 256 / 256, 2) + [n / 256 % 256];
  }

  lemma HeaderReaders(d2: Bytes, d4: Bytes)
    requires |d2| == 2 && |d4| == 4
    ensures ReadUint16(d2) == Big(d2) && ReadUint32(d4) == Big(d4)
  {
    BigOfTwo(d2);
    BigOfTwo(d4[..2]);
    BigOfTwo(d4[2..]);
    assert d4[..3][..2] == d4[..2];
    assert Big(d4[..3]) == Big(d4[..2]) * 256 + d4[2] as int;
    assert Big(d4) == Big(d4[..3]) * 256 + d4[3] as int;
  }

  lemma TwoBytes(n: nat)
    ensures BigBytes(n, 2) == [n / 256 % 256, n % 256]
  {
    assert BigBytes(n / 256, 1) == BigBytes(n / 256 / 256, 0) + [n / 256 % 256];
  }

  lemma BigOfTwo(d: Bytes)
    requires |d| == 2
    ensures Big(d) == d[0] as int * 256 + d[1] as int
  {
    assert d[..1][..0] == [];
    assert Big(d[..1]) == d[0] as int;
  }

  // ---------- Signed integers ----------

  /** The two's complement reading of the low n bytes of v. */
  function Signed(v: nat, n: nat): int
    requires n >= 1
  {
    var r := v % Pow2(8 * n);
    if r < Pow2(8 * n - 1) then r else r - Pow2(8 * n)
  }

  predicate Negative(val: nat, n: nat)
    requires n >= 1
  {
    TopBit(LowByte(val, (n - 1) * 8))
  }

  const INT_WIDTH := 32

  /**
   * For a negative number the mask is computed from an int shifted by 8 bits for each byte read, less than a whole
   * word of them, which is defined below the width of an int only. Other numbers need no mask. (One byte is never read
   * into a wider integer: that does not compile.)
   */
  predicate IsDefined(val: nat, n: nat, w: nat)
    requires 1 <= n <= w
  {
    8 * (n % w) < INT_WIDTH || !Negative(val, n)
  }

  lemma DefinedExactly(val: nat, n: nat, w: nat)
    requires 1 <= n <= w
    ensures IsDefined(val, n, w) <==> n == w || n <= 3 || !Negative(val, n)
  {
    hide Negative;
    if n == w {
      assert n % w == 0;
    } else {
      assert n % w == n;
    }
  }

  /** Fills the bytes above the n that were read, in an integer of w bytes, with the sign. */
  function SignExtend(val: nat, n: nat, w: nat): nat
    requires 1 <= n < w && IsDefined(val, n, w)
  {
    if Negative(val, n) then Or(AllOnesAbove(n, w), val) else val
  }

  /** The inverted mask: ones in the upper w - n of w bytes. */
  function AllOnesAbove(n: nat, w: nat): (r: nat)
    requires n <= w
    ensures r + Pow2(8 * n) == Pow2(8 * w)
    ensures r == (Pow2(8 * (w - n)) - 1) * Pow2(8 * n)
  {
    PowAdds(8 * (w - n), 8 * n);
    Pow2(8 * w) - Pow2(8 * n)
  }

  /** An unsigned integer of w bytes seen as a signed one. */
  function ReinterpretAsSigned(u: nat, w: nat): int
    requires w >= 1
  {
    if Shr(u, 8 * w - 1) % 2 == 1 then u - Pow2(8 * w) else u
  }

  function ReadSigned(val: nat, n: nat, w: nat): int
    requires 1 <= n <= w && IsDefined(val, n, w)
  {
    ReinterpretAsSigned(if n < w then SignExtend(val, n, w) else val, w)
  }

  /** The top bit of a number of k bits tells whether it is in the upper half. */
  lemma TopHalf(v: nat, k: nat)
    requires k >= 1 && v < Pow2(k)
    ensures Shr(v, k - 1) == if v < Pow2(k - 1) then 0 else 1
  {
    var h := Pow2(k - 1);
    if v < h { RemainderIs(v, 0, v, h); } else { RemainderIs(v, 1, v - h, h); }
  }

  lemma TopByte(v: nat, n: nat)
    requires n >= 1 && v < Pow2(8 * n)
    ensures TopBit(LowByte(v, (n - 1) * 8)) <==> v >= Pow2(8 * n - 1)
  {
    var k := 8 * (n - 1);
    NextByte(k);
    PowAdds(7, k);
    assert Pow2(4) == 16 && Pow2(7) == 128;
    TopByteOf(v, Pow2(k));
  }

  lemma TopByteOf(v: nat, p: nat)
    requires p >= 1 && v < 256 * p
    ensures v / p % 256 >= 128 <==> v >= 128 * p
  {
    QuotientBelow(v, p, 256);
    QuotientBelow(v, p, 128);
  }

  /** Reading n bytes into a signed integer of w bytes gives their two's complement value. */
  lemma SignExtensionIsCorrect(val: nat, n: nat, w: nat)
    requires 1 <= n <= w && val < Pow2(8 * n) && IsDefined(val, n, w)
    ensures ReadSigned(val, n, w) == Signed(val, n)
  {
    hide Pow2, SignExtend, Shr;
    RemainderIs(val, 0, val, Pow2(8 * n));
    if n == w { TopHalf(val, 8 * n); } else { ExtendedValue(val, n, w); }
  }

  /** The extended integer has its top bit set exactly for the upper half, and then stands 2^(8n) below it. */
  lemma ExtendedValue(val: nat, n: nat, w: nat)
    requires 1 <= n < w && val < Pow2(8 * n) && IsDefined(val, n, w)
    ensures var u := SignExtend(val, n, w);
            if val < Pow2(8 * n - 1) then u == val && Shr(u, 8 * w - 1) == 0
            else u == Pow2(8 * w) - Pow2(8 * n) + val && Shr(u, 8 * w - 1) == 1
  {
    hide Pow2, Shr, LowByte, TopBit, Or;
    TopByte(val, n);
    OrAdds(Pow2(8 * (w - n)) - 1, 8 * n, val);
    if val >= Pow2(8 * n - 1) {
      UpperHalf(val, n, w);
    } else {
      PowGrows(8 * n - 1, 8 * w - 1);
      PowGrows(8 * n, 8 * w);
      TopHalf(val, 8 * w);
    }
  }

  lemma PowGrows(j: nat, k: nat)
    requires j <= k
    ensures Pow2(j) <= Pow2(k)
  {
    PowAdds(j, k - j);
    assert Pow2(j) * Pow2(k - j) >= Pow2(j);
  }

  lemma UpperHalf(val: nat, n: nat, w: nat)
    requires 1 <= n < w && Pow2(8 * n - 1) <= val < Pow2(8 * n)
    ensures Shr(AllOnesAbove(n, w) + val, 8 * w - 1) == 1
  {
    hide Shr;
    PowGrows(8 * n, 8 * w - 1);
    PowAdds(1, 8 * w - 1);
    TopHalf(AllOnesAbove(n, w) + val, 8 * w);
  }

  /**
   A signed value that fits n bytes, written in w-byte form and cut to n bytes, is read back whenever reading is
   defined: for a negative one in 4 or more bytes that are not the whole word it is not.
   */
  lemma SignedRoundTrip(x: int, n: nat, w: nat)
    requires 1 <= n <= w
    requires -(Pow2(8 * n - 1) as int) <= x < Pow2(8 * n - 1)
    ensures var u := x % Pow2(8 * w);
            && Big(BigBytes(u, n)) == Little(LittleBytes(u, n)) == u % Pow2(8 * n)
            && (IsDefined(u % Pow2(8 * n), n, w) <==> n == w || n <= 3 || x >= 0)
            && (IsDefined(u % Pow2(8 * n), n, w) ==> ReadSigned(u % Pow2(8 * n), n, w) == x)
  {
    hide Pow2, ReadSigned, Negative, IsDefined;
    var u := x % Pow2(8 * w);
    DefinedExactly(u % Pow2(8 * n), n, w);
    BigRoundTrip(u, n);
    LittleRoundTrip(u, n);
    SignedCut(x, n, w);
    NegativeExactly(u % Pow2(8 * n), n);
    if IsDefined(u % Pow2(8 * n), n, w) { SignExtensionIsCorrect(u % Pow2(8 * n), n, w); }
  }

  lemma NegativeExactly(val: nat, n: nat)
    requires n >= 1 && val < Pow2(8 * n)
    ensures Negative(val, n) <==> Signed(val, n) < 0
  {
    TopByte(val, n);
    hide Pow2, LowByte, TopBit;
    RemainderIs(val, 0, val, Pow2(8 * n));
  }

  lemma SignedCut(x: int, n: nat, w: nat)
    requires 1 <= n <= w && -(Pow2(8 * n - 1) as int) <= x < Pow2(8 * n - 1)
    ensures var u := x % Pow2(8 * w);
            u % Pow2(8 * n) < Pow2(8 * n) && Signed(u % Pow2(8 * n), n) == x
  {
    var q := Pow2(8 * (w - n)) - 1;
    assert Pow2(8 * n) == 2 * Pow2(8 * n - 1);
    hide Pow2;
    var ones := AllOnesAbove(n, w);
    CutTwice(x, Pow2(8 * n), q, Pow2(8 * w));
    SignedOfRemainder(x, n, x % Pow2(8 * w) % Pow2(8 * n));
  }

  lemma CutTwice(x: int, p: nat, q: nat, m: nat)
    requires p >= 1 && m == q * p + p && -(p as int) <= x < p
    ensures x % m % p == if x >= 0 then x else x + p
  {
    assert q * p >= 0;
    if x >= 0 {
      RemainderIs(x, 0, x, m);
      RemainderIs(x, 0, x, p);
    } else {
      RemainderIs(x, -1, x + m, m);
      RemainderIs(x + m, q, x + p, p);
    }
  }

  lemma SignedOfRemainder(x: int, n: nat, r: nat)
    requires n >= 1 && -(Pow2(8 * n - 1) as int) <= x < Pow2(8 * n - 1)
    requires r == if x >= 0 then x else x + Pow2(8 * n)
    ensures r < Pow2(8 * n) && Signed(r, n) == x
  {
    assert Pow2(8 * n) == 2 * Pow2(8 * n - 1);
    hide Pow2;
    RemainderIs(r, 0, r, Pow2(8 * n));
  }
}
