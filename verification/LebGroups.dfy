/** LEB128 encodings of any shape, the longer ones than necessary included: every byte holds its group of the
    value. And the two's complement readings that the decoders cut their values to. */
module LebGroups {
  import opened Bits
  import opened Leb128

  /** An encoding lasts up to the first byte without the continuation bit. */
  lemma {:induction false} LengthIsFirstEnd(mem: seq<byte>, at: nat)
    ensures LebLen(mem, at) == 0 <==> forall k :: at <= k < |mem| ==> mem[k] >= 128
    ensures LebLen(mem, at) > 0 ==>
              && at + LebLen(mem, at) <= |mem| && mem[at + LebLen(mem, at) - 1] < 128
              && forall k :: at <= k < at + LebLen(mem, at) - 1 ==> mem[k] >= 128
    decreases |mem| - at
  {
    if at < |mem| && mem[at] >= 128 {
      LengthIsFirstEnd(mem, at + 1);
    }
  }

  lemma DivideTwice(x: nat, w: nat)
    requires w > 0
    ensures x / (128 * w) == x / 128 / w
  {
    var q, r := x / 128 / w, x / 128 % w;
    var low := x % 128;
    assert x / 128 == q * w + r && x == 128 * (q * w + r) + low;
    assert 128 * (q * w + r) == q * (128 * w) + 128 * r;
    QuotientIs(x, 128 * w, q, 128 * r + low);
  }

  lemma QuotientIs(x: nat, d: nat, q: nat, r: nat)
    requires d > 0 && r < d && x == q * d + r
    ensures x / d == q
  {
    var y := x / d;
    if y < q { Times(y + 1, q, d); }
    if q < y { Times(q + 1, y, d); }
  }

  lemma Times(n: nat, m: nat, k: nat)
    requires n <= m
    ensures n * k <= m * k
  {
  }

  lemma FirstGroup(mem: seq<byte>, at: nat)
    requires LebLen(mem, at) > 0
    ensures at < |mem| && mem[at] % 128 == LebSum(mem, at) % 128
    ensures LebLen(mem, at) > 1 ==>
              LebLen(mem, at + 1) == LebLen(mem, at) - 1 && LebSum(mem, at) / 128 == LebSum(mem, at + 1)
  {
  }

  lemma WeightStep(i: nat)
    requires i > 0
    ensures Weight(i) == 128 * Weight(i - 1) && Weight(0) == 1
  {
  }

  /** For any bytes: the i-th one holds the i-th group of the sum, which has no more groups than bytes. */
  lemma {:induction false} ByteIsGroup(mem: seq<byte>, at: nat, i: nat)
    requires i < LebLen(mem, at)
    ensures at + i < |mem| && mem[at + i] % 128 == LebSum(mem, at) / Weight(i) % 128
    ensures LebSum(mem, at) < Weight(LebLen(mem, at))
    decreases i
  {
    hide LebLen, LebSum, Weight;
    LebSumBound(mem, at);
    FirstGroup(mem, at);
    WeightStep(i + 1);
    if i > 0 {
      WeightStep(i);
      ByteIsGroup(mem, at + 1, i - 1);
      DivideTwice(LebSum(mem, at), Weight(i - 1));
    }
  }

  /** The sign is bit 6 of the last byte, and the signed reading is the sum less the weight of all groups. */
  lemma SignIsLastBit(mem: seq<byte>, at: nat)
    requires LebLen(mem, at) > 0
    ensures at + LebLen(mem, at) <= |mem|
    ensures LebSigned(mem, at)
         == LebSum(mem, at) - if mem[at + LebLen(mem, at) - 1] >= 64 then Weight(LebLen(mem, at)) else 0
  {
    SignFromLast(mem, at, LebLen(mem, at) - 1);
  }

  /** What dwarfdump's unsigned decoder gives: the low 32 bits of the sum, with their sign, in 64. */
  lemma IntPattern(x: nat)
    ensures Widen32(x) % TWO_32 == x % TWO_32
    ensures Widen32(x) < TWO_31 || TWO_64 - TWO_31 <= Widen32(x) < TWO_64
  {
  }

  /** What the signed decoders give: the one signed value with these 64 bits. */
  lemma SignedPatternIs(x: nat)
    requires x < TWO_64
    ensures -TWO_63 <= Signed64(x) < TWO_63 && Signed64(x) % TWO_64 == x
  {
  }
}
