/** Bytes, powers of two and the bitwise operators the decoders and the tables use.
    Words are natural numbers; `|` and `&` are defined bit by bit on them. */
module Bits {

  type byte = b: int | 0 <= b < 256

  const TWO_31 := 0x8000_0000
  const TWO_32 := 0x1_0000_0000
  const TWO_63 := 0x8000_0000_0000_0000
  const TWO_64 := 0x1_0000_0000_0000_0000

  /** What a read at an address yields: a value and the bytes it took, or
      nothing when C leaves the read or the shift it needs undefined. */
  datatype Read<+T> = Ok(value: T, size: nat) | Undefined

  function Pow2(n: nat): (p: nat)
    ensures p >= 1
  {
    if n == 0 then 1 else 2 * Pow2(n - 1)
  }

  lemma {:induction false} Pow2Add(a: nat, b: nat)
    ensures Pow2(a + b) == Pow2(a) * Pow2(b)
  {
    if a > 0 {
      Pow2Add(a - 1, b);
      assert Pow2(a + b) == 2 * (Pow2(a - 1) * Pow2(b));
    }
  }

  lemma {:induction false} Pow2Monotone(a: nat, b: nat)
    requires a <= b
    ensures Pow2(a) <= Pow2(b)
  {
    if a < b { Pow2Monotone(a, b - 1); }
  }

  lemma Pow2Of64()
    ensures Pow2(8) == 256 && Pow2(32) == TWO_32 && Pow2(64) == TWO_64
  {
    assert Pow2(8) == 256;
    hide Pow2;
    Pow2Add(8, 8);
    Pow2Add(16, 16);
    Pow2Add(32, 32);
  }

  /** C's `a | b` on unsigned operands. */
  function Or(a: nat, b: nat): nat
    decreases a + b
  {
    if a == 0 then b
    else if b == 0 then a
    else 2 * Or(a / 2, b / 2) + (if a % 2 == 1 || b % 2 == 1 then 1 else 0)
  }

  /** C's `a & b` on unsigned operands. */
  function And(a: nat, b: nat): nat
    decreases a + b
  {
    if a == 0 || b == 0 then 0
    else 2 * And(a / 2, b / 2) + (if a % 2 == 1 && b % 2 == 1 then 1 else 0)
  }

  /** Bit k of x. */
  predicate Bit(x: nat, k: nat)
    decreases k
  {
    if k == 0 then x % 2 == 1 else Bit(x / 2, k - 1)
  }

  /** Joining a group of high bits to a number that lies below them adds them. */
  lemma {:induction false} OrDisjoint(low: nat, group: nat, shift: nat)
    requires low < Pow2(shift)
    ensures Or(low, group * Pow2(shift)) == low + group * Pow2(shift)
  {
    if shift > 0 && low > 0 && group > 0 {
      var half := group * Pow2(shift - 1);
      assert group * Pow2(shift) == 2 * half;
      OrDisjoint(low / 2, group, shift - 1);
    }
  }

  lemma {:induction false} OrBit(a: nat, b: nat, k: nat)
    ensures Bit(Or(a, b), k) == (Bit(a, k) || Bit(b, k))
    decreases k
  {
    if a == 0 || b == 0 {
      ZeroBit(k);
    } else {
      var low := if a % 2 == 1 || b % 2 == 1 then 1 else 0;
      assert Or(a, b) == 2 * Or(a / 2, b / 2) + low;
      Halve(Or(a / 2, b / 2), low);
      if k > 0 {
        OrBit(a / 2, b / 2, k - 1);
      }
    }
  }

  lemma Halve(h: nat, low: nat)
    requires low < 2
    ensures (2 * h + low) / 2 == h && (2 * h + low) % 2 == low
  {
  }

  lemma {:induction false} ZeroBit(k: nat)
    ensures !Bit(0, k)
  {
    if k > 0 { ZeroBit(k - 1); }
  }

  lemma {:induction false} Pow2Bit(i: nat, k: nat)
    ensures Bit(Pow2(i), k) == (i == k)
  {
    if k == 0 {
    } else if i == 0 {
      ZeroBit(k - 1);
    } else {
      Pow2Bit(i - 1, k - 1);
    }
  }

  /** Masking with a single bit tests exactly that bit. */
  lemma {:induction false} AndPow2(w: nat, k: nat)
    ensures And(w, Pow2(k)) == if Bit(w, k) then Pow2(k) else 0
    decreases k
  {
    if w == 0 {
      ZeroBit(k);
    } else if k > 0 {
      AndPow2(w / 2, k - 1);
      assert Pow2(k) / 2 == Pow2(k - 1) && Pow2(k) % 2 == 0;
    } else {
      assert And(w / 2, 0) == 0;
    }
  }

  /** Or stays within the width of its operands. */
  lemma {:induction false} OrBound(a: nat, b: nat, n: nat)
    requires a < Pow2(n) && b < Pow2(n)
    ensures Or(a, b) < Pow2(n)
    decreases n
  {
    if a != 0 && b != 0 {
      OrBound(a / 2, b / 2, n - 1);
    }
  }

  /** A signed 32-bit value stored in 64 bits: truncation to 32 bits, then sign extension. */
  function Widen32(x: nat): (w: nat)
    ensures w < TWO_64
  {
    var t := x % TWO_32;
    if t >= TWO_31 then t + TWO_64 - TWO_32 else t
  }

  /** The signed reading of a 64-bit pattern. */
  function Signed64(x: nat): (v: int)
    requires x < TWO_64
    ensures -TWO_63 <= v < TWO_63
  {
    if x >= TWO_63 then x - TWO_64 else x
  }

  // ----- fixed-width little-endian fields

  /** The value of a little-endian field. */
  function FromBytes(bs: seq<byte>): nat {
    if bs == [] then 0 else bs[0] + 256 * FromBytes(bs[1..])
  }

  /** The low n bytes of v, least significant first. */
  function ToBytes(v: nat, n: nat): (bs: seq<byte>)
    ensures |bs| == n
    decreases n
  {
    if n == 0 then [] else [v % 256] + ToBytes(v / 256, n - 1)
  }

  lemma {:induction false} FromToBytes(v: nat, n: nat)
    requires v < Pow2(8 * n)
    ensures FromBytes(ToBytes(v, n)) == v
    decreases n
  {
    if n > 0 {
      Pow2Add(8, 8 * (n - 1));
      assert Pow2(8) == 256;
      assert v / 256 < Pow2(8 * (n - 1));
      FromToBytes(v / 256, n - 1);
      assert ToBytes(v, n)[1..] == ToBytes(v / 256, n - 1);
    }
  }

  lemma {:induction false} FromBytesBound(bs: seq<byte>)
    ensures FromBytes(bs) < Pow2(8 * |bs|)
  {
    if bs != [] {
      FromBytesBound(bs[1..]);
      Pow2Add(8, 8 * (|bs| - 1));
      assert Pow2(8) == 256;
    }
  }

  /** The bytes `part` are what memory holds from `at` on. */
  predicate Holds(mem: seq<byte>, at: nat, part: seq<byte>) {
    at + |part| <= |mem| && mem[at..at + |part|] == part
  }

  lemma HoldsSplit(mem: seq<byte>, at: nat, a: seq<byte>, b: seq<byte>)
    requires Holds(mem, at, a + b)
    ensures Holds(mem, at, a) && Holds(mem, at + |a|, b)
  {
    var whole := mem[at..at + |a + b|];
    assert mem[at..at + |a|] == whole[..|a|];
    assert mem[at + |a|..at + |a| + |b|] == whole[|a|..];
  }

  // ----- words in the byte order of the object

  function Reverse(bs: seq<byte>): (r: seq<byte>)
    ensures |r| == |bs|
    ensures forall i :: 0 <= i < |bs| ==> r[i] == bs[|bs| - 1 - i]
  {
    seq(|bs|, i requires 0 <= i < |bs| => bs[|bs| - 1 - i])
  }

  function InOrder(bs: seq<byte>, bigEndian: bool): (r: seq<byte>)
    ensures |r| == |bs|
  {
    if bigEndian then Reverse(bs) else bs
  }

  /** READ_UNALIGNED: n bytes at `at`, as a number. */
  function ReadWord(mem: seq<byte>, at: nat, n: nat, bigEndian: bool): nat
    requires at + n <= |mem|
  {
    FromBytes(InOrder(mem[at..at + n], bigEndian))
  }

  function WriteWord(v: nat, n: nat, bigEndian: bool): (bs: seq<byte>)
    ensures |bs| == n
  {
    InOrder(ToBytes(v, n), bigEndian)
  }

  lemma ReadWritten(mem: seq<byte>, at: nat, v: nat, n: nat, bigEndian: bool)
    requires Holds(mem, at, WriteWord(v, n, bigEndian)) && v < Pow2(8 * n)
    ensures ReadWord(mem, at, n, bigEndian) == v
  {
    assert InOrder(InOrder(ToBytes(v, n), bigEndian), bigEndian) == ToBytes(v, n);
    FromToBytes(v, n);
  }
}
