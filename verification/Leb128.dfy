/** The LEB128 integers of DWARF 3 section 7.6: dwarfdump's own two decoders,
    libdwarf's decoders with their unrolled fast path, and libdwarf's producers. */
module Leb128 {
  import opened Bits

  // ----- what section 7.6 says an encoding means

  /** The weight of the i-th seven-bit group. */
  function Weight(i: nat): (w: nat)
    ensures w >= 1
  {
    if i == 0 then 1 else 128 * Weight(i - 1)
  }

  lemma {:induction false} WeightIsPow2(i: nat)
    ensures Weight(i) == Pow2(7 * i)
  {
    if i > 0 {
      WeightIsPow2(i - 1);
      Pow2Add(7, 7 * (i - 1));
    }
  }

  lemma {:induction false} WeightMonotone(i: nat, j: nat)
    requires i <= j
    ensures Weight(i) <= Weight(j)
  {
    if i < j { WeightMonotone(i, j - 1); }
  }

  /** Bytes up to and including the first one without the continuation bit; 0 when memory ends before it. */
  function LebLen(mem: seq<byte>, at: nat): (n: nat)
    ensures at + n <= |mem| || n == 0
    decreases |mem| - at
  {
    if at >= |mem| then 0
    else if mem[at] < 128 then 1
    else
      var n := LebLen(mem, at + 1);
      if n == 0 then 0 else n + 1
  }

  /** The weighted sum of the seven-bit groups. */
  function LebSum(mem: seq<byte>, at: nat): nat
    requires LebLen(mem, at) > 0
    decreases |mem| - at
  {
    if mem[at] < 128 then mem[at] else mem[at] - 128 + 128 * LebSum(mem, at + 1)
  }

  /** The sign bit: bit 6 of the last group. */
  predicate LebNegative(mem: seq<byte>, at: nat)
    requires LebLen(mem, at) > 0
    decreases |mem| - at
  {
    if mem[at] < 128 then mem[at] >= 64 else LebNegative(mem, at + 1)
  }

  /** The two's complement reading of the groups. */
  function LebSigned(mem: seq<byte>, at: nat): int
    requires LebLen(mem, at) > 0
  {
    LebSum(mem, at) - (if LebNegative(mem, at) then Weight(LebLen(mem, at)) else 0)
  }

  lemma {:induction false} LebSumBound(mem: seq<byte>, at: nat)
    requires LebLen(mem, at) > 0
    ensures LebSum(mem, at) < Weight(LebLen(mem, at))
    decreases |mem| - at
  {
    if mem[at] >= 128 {
      LebSumBound(mem, at + 1);
    }
  }

  // ----- what each decoder delivers, for every byte string

  /** dwarfdump's unsigned decoder shifts an int: five groups fit, and the fifth may reach the int's sign bit. */
  function LocalULeb(mem: seq<byte>, at: nat): Read<nat> {
    var n := LebLen(mem, at);
    if 0 < n <= 5 then Ok(Widen32(LebSum(mem, at)), n) else Undefined
  }

  /** libdwarf's unsigned decoder shifts 64-bit words. */
  function ULeb(mem: seq<byte>, at: nat): Read<nat> {
    var n := LebLen(mem, at);
    if 0 < n <= 10 then Ok(LebSum(mem, at) % TWO_64, n) else Undefined
  }

  /** Both signed decoders. */
  function SLeb(mem: seq<byte>, at: nat): Read<int> {
    var n := LebLen(mem, at);
    if 0 < n <= 10 then Ok(Signed64(LebSigned(mem, at) % TWO_64), n) else Undefined
  }

  // ----- one accumulation step of each loop

  lemma WeightValues()
    ensures Weight(0) == 1 && Weight(1) == 128 && Weight(2) == 0x4000 && Weight(3) == 0x20_0000
    ensures Weight(4) == 0x1000_0000 && Weight(5) == 8 * TWO_32
    ensures Weight(9) == TWO_63 && Weight(10) == 64 * TWO_64
  {
  }

  /** A group joined above a shorter number. */
  lemma OrGroup(number: nat, group: nat, i: nat, w: nat)
    requires w == Weight(i) && number < w
    ensures Or(number, group * w) == number + w * group
  {
    WeightIsPow2(i);
    OrDisjoint(number, group, 7 * i);
  }

  lemma GroupBelow(number: nat, group: nat, w: nat)
    requires number < w && group < 128
    ensures group * w == w * group <= number + w * group < w * 128
  {
  }

  lemma Widen32Small(x: nat)
    requires x < TWO_31
    ensures Widen32(x) == x
  {
  }

  lemma ModSmall(x: nat)
    requires x < TWO_64
    ensures x % TWO_64 == x
  {
  }

  /** `number |= (byte & 0x7f) << shift` where the shift is done in a 32-bit int. */
  lemma AccumulateInt(number: nat, group: nat, i: nat, w: nat)
    requires i <= 4 && w == Weight(i)
    requires number < w && group < 128
    ensures Or(number, Widen32(group * w)) == Widen32(number + w * group)
    ensures i < 4 ==> Widen32(number + w * group) == number + w * group < w * 128
  {
    if i < 4 {
      GroupBelow(number, group, w);
      WeightMonotone(i, 3);
      WeightValues();
      Widen32Small(group * w);
      Widen32Small(number + w * group);
      OrGroup(number, group, i, w);
    } else {
      WeightValues();
      AccumulateFifth(number, group);
    }
  }

  /** The fifth group: four of its bits fit in the int, and the highest of these becomes its sign. */
  function FifthGroup(group: nat): nat {
    if group % 16 >= 8 then group % 16 + 0xF_FFFF_FFF0 else group % 16
  }

  lemma AccumulateFifth(number: nat, group: nat)
    requires number < 0x1000_0000 && group < 128
    ensures Or(number, Widen32(group * 0x1000_0000)) == Widen32(number + 0x1000_0000 * group)
  {
    Widen32Fifth(0, group);
    Widen32Fifth(number, group);
    WeightValues();
    OrGroup(number, FifthGroup(group), 4, 0x1000_0000);
  }

  lemma Widen32Fifth(number: nat, group: nat)
    requires number < 0x1000_0000 && group < 128
    ensures Widen32(number + group * 0x1000_0000) == number + FifthGroup(group) * 0x1000_0000
  {
    assert (number + group * 0x1000_0000) % TWO_32 == number + group % 16 * 0x1000_0000 by {
      assert group == group / 16 * 16 + group % 16;
    }
  }

  /** The same step in 64 bits. */
  lemma AccumulateWord(number: nat, group: nat, i: nat, w: nat)
    requires i <= 9 && w == Weight(i)
    requires number < w && group < 128
    ensures Or(number, group * w % TWO_64) == (number + w * group) % TWO_64
    ensures i < 9 ==> (number + w * group) % TWO_64 == number + w * group < w * 128
  {
    if i < 9 {
      GroupBelow(number, group, w);
      WeightMonotone(i + 1, 9);
      WeightValues();
      ModSmall(group * w);
      ModSmall(number + w * group);
      OrGroup(number, group, i, w);
    } else {
      WeightValues();
      AccumulateTenth(number, group);
    }
  }

  lemma AccumulateTenth(number: nat, group: nat)
    requires number < TWO_63
    ensures Or(number, group * TWO_63 % TWO_64) == (number + TWO_63 * group) % TWO_64
  {
    TenthMod(0, group);
    TenthMod(number, group);
    WeightValues();
    OrGroup(number, group % 2, 9, TWO_63);
  }

  lemma TenthMod(number: nat, group: nat)
    requires number < TWO_63
    ensures (number + group * TWO_63) % TWO_64 == number + group % 2 * TWO_63
  {
    assert group == group / 2 * 2 + group % 2;
  }

  /** `number |= -((Dwarf_Signed) 1 << shift)` fills the bits above the groups. */
  lemma SignMask(number: nat, n: nat, w: nat)
    requires n <= 9 && w == Weight(n) && number < w
    ensures w <= TWO_63
    ensures Or(number, TWO_64 - w) == number + TWO_64 - w
  {
    WeightMonotone(n, 9);
    WeightValues();
    var k := WeightDivides(n);
    assert (2 * k - 1) * w == 2 * (k * w) - w;
    OrGroup(number, 2 * k - 1, n, w);
  }

  lemma {:induction false} WeightDivides(n: nat) returns (k: nat)
    requires n <= 9
    ensures k >= 1 && k * Weight(n) == TWO_63
    decreases 9 - n
  {
    if n == 9 {
      WeightValues();
      k := 1;
    } else {
      var j := WeightDivides(n + 1);
      k := 128 * j;
      assert k * Weight(n) == j * (128 * Weight(n));
    }
  }

  // ----- where a loop stands after i bytes

  /** The first i bytes all carry the continuation bit. */
  ghost predicate Passed(mem: seq<byte>, at: nat, i: nat) {
    (LebLen(mem, at) == 0 <==> LebLen(mem, at + i) == 0) &&
    (LebLen(mem, at) > 0 ==> LebLen(mem, at) == i + LebLen(mem, at + i))
  }

  /** ... and their groups add up to `number`. */
  ghost predicate Absorbed(mem: seq<byte>, at: nat, i: nat, number: nat) {
    Passed(mem, at, i) && number < Weight(i) &&
    (LebLen(mem, at) > 0 ==> LebSum(mem, at) == number + Weight(i) * LebSum(mem, at + i))
  }

  lemma AbsorbedParts(mem: seq<byte>, at: nat, i: nat, number: nat)
    requires Absorbed(mem, at, i, number)
    ensures Passed(mem, at, i) && number < Weight(i)
  {
  }

  lemma AbsorbNone(mem: seq<byte>, at: nat)
    ensures Absorbed(mem, at, 0, 0)
  {
  }

  lemma PassMore(mem: seq<byte>, at: nat, i: nat)
    requires Passed(mem, at, i) && at + i < |mem| && mem[at + i] >= 128
    ensures Passed(mem, at, i + 1)
  {
    assert at + (i + 1) == at + i + 1;
  }

  lemma AbsorbMore(mem: seq<byte>, at: nat, i: nat, number: nat, group: nat)
    requires Absorbed(mem, at, i, number) && at + i < |mem| && mem[at + i] == 128 + group
    ensures Absorbed(mem, at, i + 1, number + Weight(i) * group)
  {
    PassMore(mem, at, i);
    GroupBelow(number, group, Weight(i));
    if LebLen(mem, at) > 0 {
      GroupStep(Weight(i), group, LebSum(mem, at + i + 1));
    }
  }

  lemma GroupStep(p: nat, group: nat, rest: nat)
    ensures p * (group + 128 * rest) == p * group + (p * 128) * rest
  {
  }

  lemma AbsorbLast(mem: seq<byte>, at: nat, i: nat, number: nat)
    requires Absorbed(mem, at, i, number) && at + i < |mem| && mem[at + i] < 128
    ensures LebLen(mem, at) == i + 1
    ensures LebSum(mem, at) == number + Weight(i) * mem[at + i]
    ensures LebNegative(mem, at) == (mem[at + i] >= 64)
  {
    SignFromLast(mem, at, i);
  }

  lemma SignFromLast(mem: seq<byte>, at: nat, i: nat)
    requires LebLen(mem, at) == i + 1
    ensures LebNegative(mem, at) == (mem[at + i] >= 64)
    decreases i
  {
    if mem[at] >= 128 {
      SignFromLast(mem, at + 1, i - 1);
    }
  }

  // ----- the decoders

  /** `number |= (byte & 0x7f) << shift` where the shift is an int's. */
  method JoinInt(number: nat, group: nat, i: nat) returns (joined: nat)
    requires i <= 4 && number < Weight(i) && group < 128
    ensures joined == Widen32(number + Weight(i) * group)
    ensures i < 4 ==> joined == number + Weight(i) * group
  {
    hide Or, Widen32;
    var w := Weight(i);
    AccumulateInt(number, group, i, w);
    joined := Or(number, Widen32(group * w));
  }

  /** local_dwarf_decode_u_leb128 */
  method LocalDecodeULeb(mem: seq<byte>, at: nat) returns (r: Read<nat>)
    ensures r == LocalULeb(mem, at)
  {
    hide Widen32;
    var number: nat, byteLength: nat, leb128 := 0, 1, at;
    AbsorbNone(mem, at);
    while true
      invariant 1 <= byteLength <= 6 && leb128 == at + byteLength - 1
      invariant Passed(mem, at, byteLength - 1)
      invariant byteLength <= 5 ==> Absorbed(mem, at, byteLength - 1, number)
      decreases |mem| - leb128
    {
      var shift := 7 * (byteLength - 1);
      if leb128 >= |mem| || shift >= 32 {
        return Undefined;
      }
      var group: nat := mem[leb128] % 128;
      var joined := JoinInt(number, group, byteLength - 1);
      if mem[leb128] < 128 {
        AbsorbLast(mem, at, byteLength - 1, number);
        return Ok(joined, byteLength);
      }
      PassMore(mem, at, byteLength - 1);
      AbsorbMore(mem, at, byteLength - 1, number, group);
      number := joined;
      byteLength := byteLength + 1;
      leb128 := leb128 + 1;
    }
  }

  /** `word_number |= (*(leb128 + i) & 0x7f) << 7 * i`, one of the unrolled statements. */
  method JoinUnrolled(mem: seq<byte>, at: nat, i: nat, number: nat) returns (word: nat)
    requires i <= 3 && Absorbed(mem, at, i, number) && at + i < |mem|
    ensures mem[at + i] < 128 ==> ULeb(mem, at) == Ok(word, i + 1)
    ensures mem[at + i] >= 128 ==> Absorbed(mem, at, i + 1, word)
  {
    word := JoinInt(number, mem[at + i] % 128, i);
    if mem[at + i] < 128 {
      FinishShort(mem, at, i, number);
    } else {
      AbsorbMore(mem, at, i, number, mem[at + i] % 128);
    }
  }

  lemma FinishShort(mem: seq<byte>, at: nat, i: nat, number: nat)
    requires i <= 8 && Absorbed(mem, at, i, number) && at + i < |mem| && mem[at + i] < 128
    ensures ULeb(mem, at) == Ok(number + Weight(i) * mem[at + i], i + 1)
  {
    AbsorbLast(mem, at, i, number);
    LebSumBound(mem, at);
    WeightMonotone(i + 1, 9);
    WeightValues();
    ModSmall(LebSum(mem, at));
  }

  /** _dwarf_decode_u_leb128: encodings of up to four bytes are unrolled and shift ints, longer ones loop. */
  method DecodeULeb(mem: seq<byte>, at: nat) returns (r: Read<nat>)
    ensures r == ULeb(mem, at)
  {
    AbsorbNone(mem, at);
    if at >= |mem| { return Undefined; }
    var word := JoinUnrolled(mem, at, 0, 0);
    if mem[at] < 128 { return Ok(word, 1); }
    if at + 1 >= |mem| { return Undefined; }
    word := JoinUnrolled(mem, at, 1, word);
    if mem[at + 1] < 128 { return Ok(word, 2); }
    if at + 2 >= |mem| { return Undefined; }
    word := JoinUnrolled(mem, at, 2, word);
    if mem[at + 2] < 128 { return Ok(word, 3); }
    if at + 3 >= |mem| { return Undefined; }
    word := JoinUnrolled(mem, at, 3, word);
    if mem[at + 3] < 128 { return Ok(word, 4); }
    r := DecodeLong(mem, at);
  }

  /** `number |= group << shift` in 64 bits, for the group at `at + i`. */
  method JoinWord(mem: seq<byte>, at: nat, i: nat, number: nat) returns (joined: nat)
    requires i <= 9 && Absorbed(mem, at, i, number) && at + i < |mem|
    ensures mem[at + i] < 128 ==> LebLen(mem, at) == i + 1 && joined == LebSum(mem, at) % TWO_64
    ensures mem[at + i] < 128 ==> LebNegative(mem, at) == (mem[at + i] >= 64)
    ensures mem[at + i] >= 128 ==> Passed(mem, at, i + 1)
    ensures mem[at + i] >= 128 && i < 9 ==> Absorbed(mem, at, i + 1, joined)
  {
    hide Or, Weight, LebLen, LebSum, LebNegative, Passed, Absorbed;
    var w, group: nat := Weight(i), mem[at + i] % 128;
    AbsorbedParts(mem, at, i, number);
    AccumulateWord(number, group, i, w);
    joined := Or(number, group * w % TWO_64);
    if mem[at + i] < 128 {
      AbsorbLast(mem, at, i, number);
    } else {
      PassMore(mem, at, i);
      AbsorbMore(mem, at, i, number, group);
    }
  }

  /** The loop behind the unrolled cases; it decodes short encodings to the same values. */
  method DecodeLong(mem: seq<byte>, at: nat) returns (r: Read<nat>)
    ensures r == ULeb(mem, at)
  {
    var number: nat, byteLength: nat := 0, 1;
    AbsorbNone(mem, at);
    while true
      invariant 1 <= byteLength <= 11
      invariant Passed(mem, at, byteLength - 1)
      invariant byteLength <= 10 ==> Absorbed(mem, at, byteLength - 1, number)
      decreases 11 - byteLength
    {
      var leb128, shift := at + byteLength - 1, 7 * (byteLength - 1);
      if leb128 >= |mem| || shift >= 64 {
        return Undefined;
      }
      number := JoinWord(mem, at, byteLength - 1, number);
      if mem[leb128] < 128 {
        return Ok(number, byteLength);
      }
      byteLength := byteLength + 1;
    }
  }

  /** local_dwarf_decode_s_leb128, and _dwarf_decode_s_leb128, which is the same loop. */
  method DecodeSLeb(mem: seq<byte>, at: nat) returns (r: Read<int>)
    ensures r == SLeb(mem, at)
  {
    hide LebSum, LebNegative, Signed64;
    var number: nat, byteLength: nat := 0, 1;
    var sign := false;
    AbsorbNone(mem, at);
    while true
      invariant 1 <= byteLength <= 11
      invariant Passed(mem, at, byteLength - 1)
      invariant byteLength <= 10 ==> Absorbed(mem, at, byteLength - 1, number)
      decreases 11 - byteLength
    {
      var leb128, shift := at + byteLength - 1, 7 * (byteLength - 1);
      if leb128 >= |mem| || shift >= 64 {
        return Undefined;
      }
      sign := mem[leb128] % 128 >= 64;
      number := JoinWord(mem, at, byteLength - 1, number);
      if mem[leb128] < 128 {
        break;
      }
      byteLength := byteLength + 1;
    }
    LebSumBound(mem, at);
    number := ExtendSign(number, LebSum(mem, at), byteLength, sign);
    return Ok(Signed64(number), byteLength);
  }

  /** `number |= -((Dwarf_Signed) 1 << shift)`, when the shift leaves room for it. */
  method ExtendSign(number: nat, ghost sum: nat, n: nat, sign: bool) returns (extended: nat)
    requires 0 < n <= 10 && sum < Weight(n) && number == sum % TWO_64
    ensures extended == (sum - (if sign then Weight(n) else 0)) % TWO_64
  {
    var w := Weight(n);
    SignedPattern(sum, n, w);
    extended := number;
    if 7 * n < 64 && sign {
      extended := Or(number, TWO_64 - w);
    }
  }

  /** The 64-bit pattern of a sign-extended sum, with or without room left for the mask. */
  lemma SignedPattern(sum: nat, n: nat, w: nat)
    requires 0 < n <= 10 && w == Weight(n) && sum < w
    ensures n <= 9 ==> w <= TWO_63 && (sum - w) % TWO_64 == Or(sum % TWO_64, TWO_64 - w)
    ensures n == 10 ==> (sum - w) % TWO_64 == sum % TWO_64
  {
    if n <= 9 {
      SignMask(sum, n, w);
      ModSmall(sum);
      NegativeMod(sum, w);
    } else {
      WeightValues();
      assert (sum - 64 * TWO_64) % TWO_64 == sum % TWO_64;
    }
  }

  lemma NegativeMod(sum: nat, w: nat)
    requires sum < w <= TWO_63
    ensures (sum - w) % TWO_64 == sum + TWO_64 - w
  {
  }

  // ----- encodings (DWARF 3 section 7.6)

  /** The shortest unsigned encoding of v. */
  function EncodeULeb(v: nat): (bs: seq<byte>)
    ensures |bs| >= 1
  {
    if v < 128 then [v] else [128 + v % 128] + EncodeULeb(v / 128)
  }

  /** v's low group is its whole value, sign included. */
  predicate OneGroup(v: int) { -64 <= v < 64 }

  /** The shortest signed encoding of v. */
  function EncodeSLeb(v: int): (bs: seq<byte>)
    ensures |bs| >= 1
    decreases if v < 0 then -v else v
  {
    if OneGroup(v) then [v % 128] else [128 + v % 128] + EncodeSLeb(v / 128)
  }

  lemma {:induction false} ReadEncodedULeb(mem: seq<byte>, at: nat, v: nat)
    requires Holds(mem, at, EncodeULeb(v))
    ensures LebLen(mem, at) == |EncodeULeb(v)|
    ensures LebSum(mem, at) == v
    decreases v
  {
    if v >= 128 {
      HoldsSplit(mem, at, [128 + v % 128], EncodeULeb(v / 128));
      assert mem[at..at + 1] == [128 + v % 128];
      assert mem[at] == mem[at..at + 1][0];
      ReadEncodedULeb(mem, at + 1, v / 128);
    } else {
      assert mem[at] == mem[at..at + 1][0];
    }
  }

  lemma {:induction false} ReadEncodedSLeb(mem: seq<byte>, at: nat, v: int)
    requires Holds(mem, at, EncodeSLeb(v))
    ensures LebLen(mem, at) == |EncodeSLeb(v)|
    ensures LebNegative(mem, at) == (v < 0)
    ensures LebSigned(mem, at) == v
    decreases if v < 0 then -v else v
  {
    if OneGroup(v) {
      assert mem[at] == mem[at..at + 1][0];
      assert Weight(1) == 128;
    } else {
      HoldsSplit(mem, at, [128 + v % 128], EncodeSLeb(v / 128));
      assert mem[at] == mem[at..at + 1][0];
      ReadEncodedSLeb(mem, at + 1, v / 128);
      assert Weight(LebLen(mem, at)) == 128 * Weight(LebLen(mem, at + 1));
    }
  }

  /** How long the encodings are, in terms of the value. */
  lemma {:induction false} EncodeULebLength(v: nat, n: nat)
    requires n > 0
    ensures |EncodeULeb(v)| <= n <==> v < Weight(n)
    decreases v
  {
    if v < 128 {
      assert Weight(1) == 128;
      WeightMonotone(1, n);
    } else if n > 1 {
      EncodeULebLength(v / 128, n - 1);
    } else {
      assert Weight(1) == 128;
    }
  }

  lemma {:induction false} EncodeSLebLength(v: int, n: nat)
    requires n > 0
    ensures |EncodeSLeb(v)| <= n <==> -64 * Weight(n - 1) <= v < 64 * Weight(n - 1)
    decreases if v < 0 then -v else v
  {
    if OneGroup(v) {
      WeightMonotone(0, n - 1);
    } else if n > 1 {
      EncodeSLebLength(v / 128, n - 1);
    }
  }

  // ----- round trips

  /** dwarfdump's unsigned decoder recovers an encoded value exactly when it is below 2^31. */
  lemma LocalULebRoundTrip(mem: seq<byte>, at: nat, v: nat)
    requires Holds(mem, at, EncodeULeb(v))
    ensures LocalULeb(mem, at) == Ok(v, |EncodeULeb(v)|) <==> v < TWO_31
    ensures TWO_31 <= v < TWO_32 ==> LocalULeb(mem, at) == Ok(v + TWO_64 - TWO_32, 5)
    ensures v >= 8 * TWO_32 ==> LocalULeb(mem, at) == Undefined
  {
    ReadEncodedULeb(mem, at, v);
    EncodeULebLength(v, 5);
    EncodeULebLength(v, 4);
    WeightValues();
    hide EncodeULeb, Weight, LebLen, LebSum, Holds;
  }

  /** libdwarf's recovers exactly the 64-bit values. */
  lemma ULebRoundTrip(mem: seq<byte>, at: nat, v: nat)
    requires Holds(mem, at, EncodeULeb(v))
    ensures ULeb(mem, at) == Ok(v, |EncodeULeb(v)|) <==> v < TWO_64
  {
    ReadEncodedULeb(mem, at, v);
    EncodeULebLength(v, 10);
    WeightValues();
  }

  /** The signed decoders recover exactly the signed 64-bit values. */
  lemma SLebRoundTrip(mem: seq<byte>, at: nat, v: int)
    requires Holds(mem, at, EncodeSLeb(v))
    ensures SLeb(mem, at) == Ok(v, |EncodeSLeb(v)|) <==> -TWO_63 <= v < TWO_63
  {
    ReadEncodedSLeb(mem, at, v);
    EncodeSLebLength(v, 10);
    WeightValues();
    SignedOfPattern(v);
  }

  lemma SignedOfPattern(v: int)
    ensures Signed64(v % TWO_64) == v <==> -TWO_63 <= v < TWO_63
  {
  }

  /** The sign bit of an unsigned encoding: set when the value fills the upper half of its last group. */
  lemma {:induction false} SignOfULeb(mem: seq<byte>, at: nat, v: nat)
    requires Holds(mem, at, EncodeULeb(v))
    ensures LebLen(mem, at) > 0
    ensures LebNegative(mem, at) <==> v >= 64 * Weight(|EncodeULeb(v)| - 1)
    decreases v
  {
    ReadEncodedULeb(mem, at, v);
    if v >= 128 {
      HoldsSplit(mem, at, [128 + v % 128], EncodeULeb(v / 128));
      assert mem[at] == mem[at..at + 1][0];
      SignOfULeb(mem, at + 1, v / 128);
      assert Weight(|EncodeULeb(v)| - 1) == 128 * Weight(|EncodeULeb(v / 128)| - 1);
    } else {
      assert mem[at] == mem[at..at + 1][0];
    }
  }

  /** The signed decoders on an unsigned encoding, which is what they meet in the operand of val_offset: the
      value is right exactly when it has 63 bits and leaves the sign bit of its last group clear. Below 2^63
      the error is the weight of the whole encoding, above it 2^64. */
  lemma ULebReadAsSLeb(mem: seq<byte>, at: nat, v: nat)
    requires Holds(mem, at, EncodeULeb(v))
    ensures var n := |EncodeULeb(v)|;
            && (SLeb(mem, at) == Ok(v, n) <==> v < TWO_63 && v < 64 * Weight(n - 1))
            && (v < TWO_63 ==> SLeb(mem, at) == Ok(if v < 64 * Weight(n - 1) then v else v - Weight(n), n))
            && (TWO_63 <= v < TWO_64 ==> SLeb(mem, at) == Ok(v - TWO_64, n))
            && (v >= 64 * TWO_64 ==> SLeb(mem, at) == Undefined)
  {
    ReadEncodedULeb(mem, at, v);
    SignOfULeb(mem, at, v);
    SLebOfULeb(mem, at, v);
  }

  lemma SLebOfULeb(mem: seq<byte>, at: nat, v: nat)
    requires LebLen(mem, at) == |EncodeULeb(v)| && LebSum(mem, at) == v
    requires LebNegative(mem, at) <==> v >= 64 * Weight(|EncodeULeb(v)| - 1)
    ensures var n := |EncodeULeb(v)|;
            && (SLeb(mem, at) == Ok(v, n) <==> v < TWO_63 && v < 64 * Weight(n - 1))
            && (v < TWO_63 ==> SLeb(mem, at) == Ok(if v < 64 * Weight(n - 1) then v else v - Weight(n), n))
            && (TWO_63 <= v < TWO_64 ==> SLeb(mem, at) == Ok(v - TWO_64, n))
            && (v >= 64 * TWO_64 ==> SLeb(mem, at) == Undefined)
  {
    var n := |EncodeULeb(v)|;
    EncodeULebLength(v, n);
    EncodeULebLength(v, 9);
    EncodeULebLength(v, 10);
    if n <= 9 { WeightMonotone(n, 9); }
    WeightValues();
    hide LebSum, LebLen, LebNegative, EncodeULeb, Weight;
    SignedOfPattern(LebSigned(mem, at));
  }

  /** The offset 64 is encoded in one byte, whose sign bit it sets. */
  lemma SixtyFourReadAsNegative()
    ensures EncodeULeb(64) == [64] && SLeb([64], 0) == Ok(-64, 1)
  {
    assert Holds([64], 0, EncodeULeb(64));
    ULebReadAsSLeb([64], 0, 64);
    WeightValues();
  }

  // ----- the producers

  /** _dwarf_pro_encode_leb128_nm: fails exactly when the encoding does not fit the space. */
  method ProEncodeULeb(value: nat, space: array<byte>) returns (ok: bool, nbytes: nat)
    requires value < TWO_64
    modifies space
    ensures ok <==> |EncodeULeb(value)| <= space.Length
    ensures ok ==> nbytes == |EncodeULeb(value)| && space[..nbytes] == EncodeULeb(value)
    ensures ok ==> forall k :: nbytes <= k < space.Length ==> space[k] == old(space[k])
  {
    hide EncodeULeb;
    var val, a := value, 0;
    nbytes := 0;
    while true
      invariant 0 <= a <= space.Length
      invariant EncodeULeb(value) == space[..a] + EncodeULeb(val)
      invariant forall k :: a <= k < space.Length ==> space[k] == old(space[k])
      decreases val
    {
      if a >= space.Length {
        return false, 0;
      }
      var uc := val % 128;
      EncodeULebStep(val);
      val := val / 128;
      if val != 0 {
        uc := uc + 128;
      }
      space[a] := uc;
      assert space[..a + 1] == space[..a] + [uc];
      a := a + 1;
      if val == 0 {
        break;
      }
    }
    return true, a;
  }

  lemma EncodeULebStep(v: nat)
    ensures EncodeULeb(v) == if v / 128 == 0 then [v % 128] else [v % 128 + 128] + EncodeULeb(v / 128)
  {
  }

  /** The producer's stopping test: what is left is only sign, and the group's top bit already shows it. */
  lemma SLebStep(v: int)
    ensures var sign := if v < 0 then -1 else 0;
            (v / 128 == sign && (v % 128 >= 64) == (sign == -1)) <==> OneGroup(v)
    ensures !OneGroup(v) ==> (v / 128 < 0 <==> v < 0)
    ensures !OneGroup(v) ==> (if v < 0 then -(v / 128) < -v else v / 128 < v)
  {
  }

  /** The next byte of a signed encoding, what is left to encode, and whether anything is. */
  method NextSignedByte(value: int, sign: int) returns (b: byte, rest: int, more: bool)
    requires sign == if value < 0 then -1 else 0
    ensures EncodeSLeb(value) == [b] + if more then EncodeSLeb(rest) else []
    ensures more ==> sign == if rest < 0 then -1 else 0
    ensures more ==> if value < 0 then -rest < -value else rest < value
  {
    SLebStep(value);
    var low := value % 128;
    rest := value / 128;
    more := !(rest == sign && (low >= 64) == (sign == -1));
    b := if more then low + 128 else low;
  }

  lemma JoinByte(head: seq<byte>, b: byte, rest: seq<byte>)
    ensures head + ([b] + rest) == (head + [b]) + rest
  {
  }

  /** _dwarf_pro_encode_signed_leb128_nm */
  method ProEncodeSLeb(given: int, space: array<byte>) returns (ok: bool, nbytes: nat)
    requires -TWO_63 <= given < TWO_63
    modifies space
    ensures ok <==> |EncodeSLeb(given)| <= space.Length
    ensures ok ==> nbytes == |EncodeSLeb(given)| && space[..nbytes] == EncodeSLeb(given)
    ensures ok ==> forall k :: nbytes <= k < space.Length ==> space[k] == old(space[k])
  {
    hide *;
    var value, str, more := given, 0, true;
    var sign := if value < 0 then -1 else 0;
    ghost var all := EncodeSLeb(given);
    nbytes := 0;
    while more
      invariant 0 <= str <= space.Length
      invariant more ==> sign == if value < 0 then -1 else 0
      invariant all == space[..str] + if more then EncodeSLeb(value) else []
      invariant forall k :: str <= k < space.Length ==> space[k] == old(space[k])
      decreases more, if value < 0 then -value else value
    {
      var b, rest, again := NextSignedByte(value, sign);
      if str >= space.Length {
        return false, 0;
      }
      space[str] := b;
      JoinByte(space[..str], b, if again then EncodeSLeb(rest) else []);
      assert space[..str + 1] == space[..str] + [b];
      value, more, str := rest, again, str + 1;
    }
    return true, str;
  }
}
