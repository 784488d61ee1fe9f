/** The two sweeps over .debug_aranges when the sizes differ: one reads a range's length in the size of its
    address, the other in the size of offsets. */
module ArangeSizes {
  import opened Bits
  import opened ArangeSets

  // ----- how many tuples a stretch of bytes holds

  /** One step of a successful read. */
  lemma TuplesStep(s: Section, p: nat, a: nat, l: nat)
    requires a > 0 && ReadTuples(s, p, a, l).Success?
    ensures p + a + l <= |s.bytes|
    ensures var (tuples, end) := ReadTuples(s, p, a, l).value;
            if s.Word(p, a) == 0 && s.Word(p + a, l) == 0 then tuples == [] && end == p + a + l
            else
              var rest := ReadTuples(s, p + a + l, a, l);
              rest.Success? && |tuples| == |rest.value.0| + 1 && end == rest.value.1
  {
    hide ReadWord;
  }

  /** The bytes that n tuples and the pair of zeros take. */
  function Extent(n: nat, size: nat): nat { (n + 1) * size }

  lemma OneMore(n: nat, size: nat)
    ensures Extent(0, size) == size && size + Extent(n, size) == Extent(n + 1, size)
  {
  }

  lemma {:induction false} TuplesEnd(s: Section, p: nat, a: nat, l: nat)
    requires a > 0 && ReadTuples(s, p, a, l).Success?
    ensures var (tuples, end) := ReadTuples(s, p, a, l).value; end == p + Extent(|tuples|, a + l)
    decreases |s.bytes| - p
  {
    hide ReadWord, ReadTuples, Extent;
    TuplesStep(s, p, a, l);
    OneMore(0, a + l);
    if !(s.Word(p, a) == 0 && s.Word(p + a, l) == 0) {
      TuplesEnd(s, p + a + l, a, l);
      OneMore(|ReadTuples(s, p + a + l, a, l).value.0|, a + l);
    }
  }

  lemma Times(n: nat, m: nat, k: nat)
    requires n <= m
    ensures n * k <= m * k && (n < m && k > 0 ==> n * k < m * k)
  {
  }

  /** Tuples of two sizes in one stretch: the smaller ones are more, if both fill it or the larger ones may
      leave some bytes. */
  lemma MoreOfTheSmaller(n: nat, m: nat, small: nat, large: nat)
    requires small < large && Extent(n, large) <= Extent(m, small)
    ensures n < m
  {
    Times(small, large, n + 1);
    if m <= n { Times(m + 1, n + 1, small); }
  }

  /** What both sweeps know of a set with pointer-size addresses that both accept. */
  lemma SetExtent(s: Section, at: nat, a: nat)
    requires a > 0 && |s.bytes| < TWO_64 && ReadSet(s, at).Success? && ReadSetOffsets(s, at, a).Success?
    requires ReadHeader(s, at).Success? && ReadHeader(s, at).value.addressSize == a
    ensures var h, one, two := ReadHeader(s, at).value, ReadSet(s, at).value, ReadSetOffsets(s, at, a).value;
            && one.1 == two.1 && two.1 == h.tuples + Extent(|two.0|, a + h.area.lengthSize)
            && h.tuples + Extent(|one.0|, a + a) <= one.1
            && (Filled(s, at) ==> h.tuples + Extent(|one.0|, a + a) == one.1)
  {
    hide *;
    HeaderArea(s, at);
    AreaLengthBelow(s, at);
    SetUnfolds(s, at);
    OffsetsUnfold(s, at, a);
    FilledIs(s, at);
    var h := ReadHeader(s, at).value;
    TuplesEnd(s, h.tuples, a, a);
    TuplesEnd(s, h.tuples, a, h.area.lengthSize);
    MultipleBelow(h.area.next + h.area.length - ReadTuples(s, h.tuples, a, h.area.lengthSize).value.1);
  }

  lemma FilledIs(s: Section, at: nat)
    requires ReadSet(s, at).Success? && ReadHeader(s, at).Success?
    ensures Filled(s, at) <==>
              var h := ReadHeader(s, at).value;
              ReadTuples(s, h.tuples, h.addressSize, h.addressSize).Success?
              && ReadTuples(s, h.tuples, h.addressSize, h.addressSize).value.1 == h.area.next + h.area.length
  {
    SetUnfolds(s, at);
    hide ReadHeader, ReadSet, ReadTuples;
  }

  lemma HeaderArea(s: Section, at: nat)
    requires ReadHeader(s, at).Success?
    ensures ReadAreaLength(s, at).Success? && ReadHeader(s, at).value.area == ReadAreaLength(s, at).value
  {
    hide ReadAreaLength, ReadWord;
  }

  /** One set with pointer-size addresses. If offsets are smaller and both sweeps accept it, the second one
      lists more ranges; if they are larger and no bytes are left behind the ranges, it lists fewer. */
  lemma SizesDiffer(s: Section, at: nat, a: nat)
    requires a > 0 && |s.bytes| < TWO_64 && ReadSet(s, at).Success? && ReadSetOffsets(s, at, a).Success?
    requires ReadHeader(s, at).Success? && ReadHeader(s, at).value.addressSize == a
    ensures ReadSet(s, at).value.1 == ReadSetOffsets(s, at, a).value.1
    ensures ReadHeader(s, at).value.area.lengthSize < a ==>
              |ReadSet(s, at).value.0| < |ReadSetOffsets(s, at, a).value.0|
    ensures ReadHeader(s, at).value.area.lengthSize > a && Filled(s, at) ==>
              |ReadSet(s, at).value.0| > |ReadSetOffsets(s, at, a).value.0|
  {
    hide *;
    SetExtent(s, at, a);
    var h := ReadHeader(s, at).value;
    var n, m := |ReadSet(s, at).value.0|, |ReadSetOffsets(s, at, a).value.0|;
    if h.area.lengthSize < a {
      MoreOfTheSmaller(n, m, a + h.area.lengthSize, a + a);
    } else if h.area.lengthSize > a && Filled(s, at) {
      MoreOfTheSmaller(m, n, a + a, a + h.area.lengthSize);
    }
  }

  /** The set has no bytes behind its tuples. */
  ghost predicate Filled(s: Section, at: nat) {
    ReadSet(s, at).Success? ==>
      var h := ReadHeader(s, at).value;
      ReadTuples(s, h.tuples, h.addressSize, h.addressSize).value.1 == h.area.next + h.area.length
  }

  // ----- a whole section

  /** Every set has pointer-size addresses, and offsets that are no larger. */
  ghost predicate Native(s: Section, at: nat, a: nat)
    decreases |s.bytes| - at
  {
    ReadHeader(s, at).Success? ==>
      var h := ReadHeader(s, at).value;
      && h.addressSize == a && h.area.lengthSize <= a
      && (ReadSet(s, at).Success? && ReadSet(s, at).value.1 < |s.bytes| ==> Native(s, ReadSet(s, at).value.1, a))
  }

  /** When the first sweep accepts such a section, the two sweeps list equally many ranges, and then the same
      ones, exactly when all offsets have the pointer's size and no set has bytes behind its tuples. In
      particular the two lists of a section with 32-bit offsets and 8-byte addresses never agree. */
  lemma NativeSweepsAgree(s: Section, at: nat, a: nat)
    requires a > 0 && |s.bytes| < TWO_64 && Native(s, at, a) && Sweep(s, at).Success?
    ensures SweepOffsets(s, at, a).Success? && |SweepOffsets(s, at, a).value| == |Sweep(s, at).value|
            <==> Uniform(s, at, a) && Unpadded(s, at)
    ensures SweepOffsets(s, at, a).Success? && Agree(s, Sweep(s, at).value, SweepOffsets(s, at, a).value, a)
            <==> Uniform(s, at, a) && Unpadded(s, at)
    ensures SweepOffsets(s, at, a).Success? ==> |SweepOffsets(s, at, a).value| >= |Sweep(s, at).value|
  {
    if Uniform(s, at, a) { SweepsAgree(s, at, a); }
    if SweepOffsets(s, at, a).Success? { NativeCounts(s, at, a); }
    hide Sweep, SweepOffsets, Uniform, Unpadded, Native, StoredAt;
  }

  lemma SweepStep(s: Section, at: nat)
    requires Sweep(s, at).Success?
    ensures ReadSet(s, at).Success? && ReadHeader(s, at).Success?
    ensures var (group, next) := ReadSet(s, at).value;
            && next <= |s.bytes|
            && (next == |s.bytes| ==> Sweep(s, at).value == group)
            && (next < |s.bytes| ==> Sweep(s, next).Success? && Sweep(s, at).value == group + Sweep(s, next).value)
  {
    SetUnfolds(s, at);
    hide ReadHeader, ReadTuples, ReadSet;
  }

  lemma SweepOffsetsStep(s: Section, at: nat, a: nat)
    requires a > 0 && SweepOffsets(s, at, a).Success?
    ensures ReadSetOffsets(s, at, a).Success?
    ensures var (group, next) := ReadSetOffsets(s, at, a).value;
            var rest := SweepOffsets(s, next, a);
            if next < |s.bytes| then rest.Success? && SweepOffsets(s, at, a).value == group + rest.value
            else SweepOffsets(s, at, a).value == group
  {
    hide ReadSetOffsets;
  }

  lemma NativeStep(s: Section, at: nat, a: nat)
    requires Native(s, at, a) && ReadHeader(s, at).Success? && ReadSet(s, at).Success?
    ensures ReadHeader(s, at).value.addressSize == a && ReadHeader(s, at).value.area.lengthSize <= a
    ensures ReadSet(s, at).value.1 < |s.bytes| ==> Native(s, ReadSet(s, at).value.1, a)
    ensures (ReadHeader(s, at).value.area.lengthSize == a
             && (ReadSet(s, at).value.1 < |s.bytes| ==> Uniform(s, ReadSet(s, at).value.1, a)))
            ==> Uniform(s, at, a)
  {
    hide ReadHeader, ReadSet;
  }

  lemma {:induction false} NativeCounts(s: Section, at: nat, a: nat)
    requires a > 0 && |s.bytes| < TWO_64 && Native(s, at, a) && Sweep(s, at).Success?
    requires SweepOffsets(s, at, a).Success?
    ensures |SweepOffsets(s, at, a).value| >= |Sweep(s, at).value|
    ensures |SweepOffsets(s, at, a).value| == |Sweep(s, at).value| ==> Uniform(s, at, a)
    decreases |s.bytes| - at
  {
    hide ReadHeader, ReadSet, ReadSetOffsets, Sweep, SweepOffsets, Native, Uniform, ReadTuples, Filled;
    SweepStep(s, at);
    SweepOffsetsStep(s, at, a);
    NativeStep(s, at, a);
    SizesDiffer(s, at, a);
    SameSize(s, at, a);
    var next := ReadSet(s, at).value.1;
    if next < |s.bytes| { NativeCounts(s, next, a); }
  }

  lemma SameSize(s: Section, at: nat, a: nat)
    requires a > 0 && |s.bytes| < TWO_64 && ReadSet(s, at).Success? && ReadSetOffsets(s, at, a).Success?
    requires ReadHeader(s, at).Success? && ReadHeader(s, at).value.addressSize == a
    ensures ReadHeader(s, at).value.area.lengthSize == a ==>
              |ReadSet(s, at).value.0| == |ReadSetOffsets(s, at, a).value.0|
  {
    SetUnfolds(s, at);
    OffsetsUnfold(s, at, a);
    hide ReadHeader, ReadSet, ReadSetOffsets, ReadTuples;
  }

  // ----- written sections

  /** Where the reads of a written set end. */
  lemma WrittenExtent(s: Section, at: nat, group: Set)
    requires WellFormed(group, s.infoSize, s.bigEndian) && Holds(s.bytes, at, EncodeSet(group, s.bigEndian))
    ensures ReadHeader(s, at).Success?
    ensures var h := ReadHeader(s, at).value;
            var end := at + |EncodeSet(group, s.bigEndian)|;
            && h.addressSize == group.addressSize && h.area.lengthSize == group.format.OffsetSize()
            && h.area.next + h.area.length == end && ReadSet(s, at) == Success((ArangesOf(group), end))
            && ReadTuples(s, h.tuples, h.addressSize, h.addressSize).Success?
            && ReadTuples(s, h.tuples, h.addressSize, h.addressSize).value.1 == end - |group.trailing|
  {
    hide *;
    SizeOfAddresses(group, s.infoSize, s.bigEndian);
    ReadSetWritten(s, at, group);
    SetLayout(s, at, group);
    ReadHeaderWritten(s, at, group);
    ReadEncodedRanges(s, ReadHeader(s, at).value.tuples, group.ranges, group.addressSize);
  }

  lemma SizeOfAddresses(group: Set, infoSize: nat, bigEndian: bool)
    requires WellFormed(group, infoSize, bigEndian)
    ensures 1 <= group.addressSize <= 8
    ensures forall r <- group.ranges :: RangeFits(r, group.addressSize) && r != Range(0, 0)
  {
    hide EncodeBody, RangeFits;
  }

  lemma UniformOne(s: Section, at: nat, a: nat)
    requires ReadHeader(s, at).Success? && ReadSet(s, at).Success?
    ensures Uniform(s, at, a) <==>
              && ReadHeader(s, at).value.addressSize == ReadHeader(s, at).value.area.lengthSize == a
              && (ReadSet(s, at).value.1 < |s.bytes| ==> Uniform(s, ReadSet(s, at).value.1, a))
    ensures Unpadded(s, at) <==>
              && Filled(s, at)
              && (ReadSet(s, at).value.1 < |s.bytes| ==> Unpadded(s, ReadSet(s, at).value.1))
  {
    hide ReadHeader, ReadSet, ReadTuples;
  }

  ghost predicate AllOfSize(sets: seq<Set>, a: nat) {
    forall group <- sets :: group.addressSize == group.format.OffsetSize() == a
  }

  ghost predicate NoneTrailing(sets: seq<Set>) {
    forall group <- sets :: group.trailing == []
  }

  lemma {:induction false} WrittenIsUniform(s: Section, at: nat, sets: seq<Set>, a: nat)
    requires sets != [] && AllWellFormed(sets, s.infoSize, s.bigEndian) && AllOfSize(sets, a)
    requires at <= |s.bytes| && s.bytes[at..] == EncodeSets(sets, s.bigEndian)
    ensures Uniform(s, at, a)
    ensures Unpadded(s, at) <==> NoneTrailing(sets)
    decreases |sets|
  {
    hide EncodeSet, ReadSet, ReadHeader, ReadTuples, WellFormed, Uniform, Unpadded;
    var first, rest := EncodeSet(sets[0], s.bigEndian), EncodeSets(sets[1..], s.bigEndian);
    assert s.bytes[at..at + |first|] == s.bytes[at..][..|first|] == first;
    assert s.bytes[at + |first|..] == s.bytes[at..][|first|..] == rest;
    assert WellFormed(sets[0], s.infoSize, s.bigEndian);
    WrittenExtent(s, at, sets[0]);
    FilledIs(s, at);
    UniformOne(s, at, a);
    assert sets == [sets[0]] + sets[1..];
    if sets[1..] == [] {
      assert |s.bytes| == at + |first|;
    } else {
      NotEmpty(sets[1..], s.bigEndian);
      WrittenIsUniform(s, at + |first|, sets[1..], a);
    }
  }

  /** The second sweep over the encoding of any sets of the pointer's size: it accepts them exactly when none
      has trailing bytes, and then lists what the first one lists, with the place of each range. */
  lemma SecondSweepOfWritten(s: Section, sets: seq<Set>, a: nat)
    requires sets != [] && AllWellFormed(sets, s.infoSize, s.bigEndian) && AllOfSize(sets, a) && a > 0
    requires s.bytes == EncodeSets(sets, s.bigEndian) && |s.bytes| < TWO_64
    ensures SweepOffsets(s, 0, a).Success? <==> NoneTrailing(sets)
    ensures SweepOffsets(s, 0, a).Success? ==> Agree(s, AllAranges(sets), SweepOffsets(s, 0, a).value, a)
  {
    assert s.bytes[0..] == s.bytes;
    SweepRoundTrip(s, 0, sets);
    WrittenIsUniform(s, 0, sets, a);
    SweepsAgree(s, 0, a);
  }

  // ----- inputs on which the sweeps differ, and one on which the lookup fails

  lemma OnlyOne(group: Set, bigEndian: bool)
    ensures EncodeSets([group], bigEndian) == EncodeSet(group, bigEndian) && AllAranges([group]) == ArangesOf(group)
  {
    assert [group][1..] == [];
    assert EncodeSet(group, bigEndian) + [] == EncodeSet(group, bigEndian);
    assert ArangesOf(group) + [] == ArangesOf(group);
  }

  /** A set without ranges and with one trailing byte. */
  const PADDED := Set(Dwarf32, 0, 4, [0, 0, 0, 0], [], [0])

  /** The first sweep accepts it, the second refuses it. */
  lemma TrailingByteDiffers()
    ensures var s := Section(EncodeSets([PADDED], false), 1, false);
            Sweep(s, 0) == Success([]) && SweepOffsets(s, 0, 4).Failure?
  {
    var s := Section(EncodeSets([PADDED], false), 1, false);
    PaddedIsSet();
    OnlyOne(PADDED, false);
    hide EncodeSets, Sweep, SweepOffsets, EncodeSet, WellFormed;
    assert s.bytes[0..] == s.bytes;
    SweepRoundTrip(s, 0, [PADDED]);
    assert ArangesOf(PADDED) == [];
    assert PADDED in [PADDED];
    SecondSweepOfWritten(s, [PADDED], 4);
  }

  lemma PaddedIsSet()
    ensures WellFormed(PADDED, 1, false) && |EncodeSet(PADDED, false)| == 25
  {
    assert PADDED.ranges + [Range(0, 0)] == [Range(0, 0)] && [Range(0, 0)][1..] == [];
    Pow2Of64();
  }

  lemma FirstByte(b: byte, rest: seq<byte>)
    ensures FromBytes([b] + rest) == b + 256 * FromBytes(rest)
  {
    assert ([b] + rest)[1..] == rest;
  }

  lemma LowWord(b: byte, rest: seq<byte>)
    ensures FromBytes([b, 0, 0, 0] + rest) == b + TWO_32 * FromBytes(rest)
  {
    FirstByte(0, rest);
    FirstByte(0, [0] + rest);
    FirstByte(0, [0] + ([0] + rest));
    FirstByte(b, [0] + ([0] + ([0] + rest)));
    assert [b] + ([0] + ([0] + ([0] + rest))) == [b, 0, 0, 0] + rest;
  }

  /** A word of four bytes with a small value. */
  function Low(b: byte): seq<byte> { [b, 0, 0, 0] }

  /** A word of eight bytes that holds two small ones. */
  lemma TwoWords(s: Section, at: nat, low: byte, high: byte)
    requires !s.bigEndian && Holds(s.bytes, at, Low(low)) && Holds(s.bytes, at + 4, Low(high))
    ensures s.Word(at, 4) == low && s.Word(at, 8) == low + TWO_32 * high
  {
    LowWord(low, []);
    LowWord(high, []);
    LowWord(low, [high, 0, 0, 0]);
    hide FromBytes;
    assert [low, 0, 0, 0] + [] == [low, 0, 0, 0] && [high, 0, 0, 0] + [] == [high, 0, 0, 0];
    EightIsTwice(s.bytes, at);
    assert FromBytes([]) == 0 by { NoBytes(); }
  }

  lemma EightIsTwice(mem: seq<byte>, at: nat)
    requires at + 8 <= |mem|
    ensures mem[at..at + 8] == mem[at..at + 4] + mem[at + 4..at + 8]
  {
  }

  lemma NoBytes()
    ensures FromBytes([]) == 0
  {
  }

  /** Two ranges with addresses of eight bytes, in a set with offsets of four. */
  const WIDE := Set(Dwarf32, 0, 8, [0, 0, 0, 0], [Range(1, 1), Range(1, 1)], [])

  lemma WriteOneZero()
    ensures WriteWord(1, 8, false) == Low(1) + Low(0) && WriteWord(0, 8, false) == Low(0) + Low(0)
  {
    assert ToBytes(0, 3) == [0, 0, 0];
    assert ToBytes(0, 7) == [0, 0, 0, 0] + ToBytes(0, 3);
    assert ToBytes(1, 8) == [1] + ToBytes(0, 7) && ToBytes(0, 8) == [0] + ToBytes(0, 7);
  }

  lemma RangesOf(r: Range, rest: seq<Range>)
    ensures EncodeRanges([r] + rest, 8, false)
         == WriteWord(r.address, 8, false) + (WriteWord(r.length, 8, false) + EncodeRanges(rest, 8, false))
    ensures EncodeRanges([], 8, false) == []
  {
    hide WriteWord;
    assert ([r] + rest)[1..] == rest;
  }

  /** The tuples of the set lie at 16, in words of four bytes. */
  lemma WideTuples(mem: seq<byte>, at: nat)
    requires Holds(mem, at, EncodeRanges(WIDE.ranges + [Range(0, 0)], 8, false))
    ensures |EncodeRanges(WIDE.ranges + [Range(0, 0)], 8, false)| == 48
    ensures Holds(mem, at, Low(1)) && Holds(mem, at + 4, Low(0)) && Holds(mem, at + 8, Low(1)) && Holds(mem, at + 12, Low(0))
    ensures Holds(mem, at + 16, Low(1)) && Holds(mem, at + 20, Low(0)) && Holds(mem, at + 24, Low(1)) && Holds(mem, at + 28, Low(0))
    ensures Holds(mem, at + 32, Low(0)) && Holds(mem, at + 36, Low(0)) && Holds(mem, at + 40, Low(0)) && Holds(mem, at + 44, Low(0))
  {
    WriteOneZero();
    var one, zero, last := WriteWord(1, 8, false), WriteWord(0, 8, false), [Range(0, 0)];
    hide WriteWord, EncodeRanges, Holds;
    assert WIDE.ranges + last == [Range(1, 1)] + ([Range(1, 1)] + (last + []));
    RangesOf(Range(0, 0), []);
    RangesOf(Range(1, 1), last + []);
    RangesOf(Range(1, 1), [Range(1, 1)] + (last + []));
    HoldsSplit(mem, at, one, one + (one + (one + (zero + (zero + [])))));
    HoldsSplit(mem, at + 8, one, one + (one + (zero + (zero + []))));
    HoldsSplit(mem, at + 16, one, one + (zero + (zero + [])));
    HoldsSplit(mem, at + 24, one, zero + (zero + []));
    HoldsSplit(mem, at + 32, zero, zero + []);
    HoldsSplit(mem, at + 40, zero, []);
    HoldsSplit(mem, at, Low(1), Low(0));
    HoldsSplit(mem, at + 8, Low(1), Low(0));
    HoldsSplit(mem, at + 16, Low(1), Low(0));
    HoldsSplit(mem, at + 24, Low(1), Low(0));
    HoldsSplit(mem, at + 32, Low(0), Low(0));
    HoldsSplit(mem, at + 40, Low(0), Low(0));
  }

  lemma WideIsSet()
    ensures WellFormed(WIDE, 1, false) && |EncodeSet(WIDE, false)| == 64
  {
    var all := EncodeRanges(WIDE.ranges + [Range(0, 0)], 8, false);
    assert Holds(all, 0, all);
    WideTuples(all, 0);
    Pow2Of64();
    hide EncodeRanges, WriteWord;
  }

  /** Both sweeps accept it, and the second one lists three ranges, of which only the first is there. */
  lemma WideSetDiffers()
    ensures var s := Section(EncodeSets([WIDE], false), 1, false);
            && Sweep(s, 0) == Success([Arange(1, 1, 0), Arange(1, 1, 0)])
            && SweepOffsets(s, 0, 8) == Success([Tuple(1, 1, 16), Tuple(TWO_32, 0, 28), Tuple(1, 0, 40)])
  {
    var s := Section(EncodeSets([WIDE], false), 1, false);
    OnlyOne(WIDE, false);
    WideFirst(s);
    hide EncodeSets, Sweep, SweepOffsets, EncodeSet;
    WideSecond(s);
  }

  lemma WideFirst(s: Section)
    requires s == Section(EncodeSets([WIDE], false), 1, false)
    ensures Sweep(s, 0) == Success([Arange(1, 1, 0), Arange(1, 1, 0)])
  {
    WideIsSet();
    OnlyOne(WIDE, false);
    hide EncodeSets, Sweep, EncodeSet, WellFormed;
    assert s.bytes[0..] == s.bytes;
    SweepRoundTrip(s, 0, [WIDE]);
    assert ArangesOf(WIDE) == [Arange(1, 1, 0), Arange(1, 1, 0)];
  }

  lemma WideSecond(s: Section)
    requires s.infoSize == 1 && !s.bigEndian && s.bytes == EncodeSet(WIDE, false)
    ensures SweepOffsets(s, 0, 8) == Success([Tuple(1, 1, 16), Tuple(TWO_32, 0, 28), Tuple(1, 0, 40)])
  {
    hide EncodeSet, EncodeRanges, ReadSetOffsets, ReadHeader, ReadTuples, Holds;
    WideHeader(s);
    WideRead(s);
    OffsetsUnfold(s, 0, 8);
  }

  lemma WideHeader(s: Section)
    requires s.infoSize == 1 && !s.bigEndian && s.bytes == EncodeSet(WIDE, false)
    ensures ReadHeader(s, 0) == Success(Header(Area(60, 4, 4), 0, 8, 16)) && |s.bytes| == 64
    ensures Holds(s.bytes, 16, EncodeRanges(WIDE.ranges + [Range(0, 0)], 8, false))
  {
    hide *;
    WideIsSet();
    WideFields(s.bytes, false);
    SetLayout(s, 0, WIDE);
    ReadHeaderWritten(s, 0, WIDE);
  }

  lemma WideFields(mem: seq<byte>, bigEndian: bool)
    requires mem == EncodeSet(WIDE, bigEndian)
    ensures Holds(mem, 0, EncodeSet(WIDE, bigEndian)) && |mem| == 4 + |EncodeBody(WIDE, bigEndian)|
    ensures WIDE.format.OffsetSize() == WIDE.format.FieldSize() == |WIDE.padding| == 4
    ensures WIDE.infoOffset == 0 && WIDE.addressSize == 8
  {
    hide EncodeBody, WriteWord;
  }

  lemma WideRead(s: Section)
    requires !s.bigEndian && Holds(s.bytes, 16, EncodeRanges(WIDE.ranges + [Range(0, 0)], 8, false)) && |s.bytes| == 64
    ensures ReadTuples(s, 16, 8, 4) == Success(([Tuple(1, 1, 16), Tuple(TWO_32, 0, 28), Tuple(1, 0, 40)], 64))
  {
    hide ReadTuples, ReadWord, EncodeRanges, Holds;
    WideWords(s);
    TupleThen(s, 52, [], 64);
    TupleThen(s, 40, [], 64);
    assert [Tuple(1, 0, 40)] + [] == [Tuple(1, 0, 40)];
    TupleThen(s, 28, [Tuple(1, 0, 40)], 64);
    assert [Tuple(TWO_32, 0, 28)] + [Tuple(1, 0, 40)] == [Tuple(TWO_32, 0, 28), Tuple(1, 0, 40)];
    TupleThen(s, 16, [Tuple(TWO_32, 0, 28), Tuple(1, 0, 40)], 64);
    assert [Tuple(1, 1, 16)] + [Tuple(TWO_32, 0, 28), Tuple(1, 0, 40)]
        == [Tuple(1, 1, 16), Tuple(TWO_32, 0, 28), Tuple(1, 0, 40)];
  }

  lemma WideWords(s: Section)
    requires !s.bigEndian && Holds(s.bytes, 16, EncodeRanges(WIDE.ranges + [Range(0, 0)], 8, false)) && |s.bytes| == 64
    ensures s.Word(16, 8) == 1 && s.Word(24, 4) == 1 && s.Word(28, 8) == TWO_32 && s.Word(36, 4) == 0
    ensures s.Word(40, 8) == 1 && s.Word(48, 4) == 0 && s.Word(52, 8) == 0 && s.Word(60, 4) == 0
  {
    hide *;
    WideTuples(s.bytes, 16);
    TwoWords(s, 16, 1, 0);
    TwoWords(s, 24, 1, 0);
    TwoWords(s, 28, 0, 1);
    TwoWords(s, 36, 0, 1);
    TwoWords(s, 40, 1, 0);
    TwoWords(s, 48, 0, 0);
    TwoWords(s, 52, 0, 0);
    LastWord(s);
  }

  lemma LastWord(s: Section)
    requires !s.bigEndian && Holds(s.bytes, 60, Low(0))
    ensures s.Word(60, 4) == 0
  {
    LowWord(0, []);
    NoBytes();
    hide FromBytes;
    assert Low(0) + [] == Low(0);
  }

  /** One tuple of eight and four bytes, when the rest is known. */
  lemma TupleThen(s: Section, p: nat, rest: seq<Tuple>, end: nat)
    requires p + 12 <= |s.bytes|
    requires !(s.Word(p, 8) == 0 && s.Word(p + 8, 4) == 0) ==> ReadTuples(s, p + 12, 8, 4) == Success((rest, end))
    ensures ReadTuples(s, p, 8, 4)
         == if s.Word(p, 8) == 0 && s.Word(p + 8, 4) == 0 then Success(([], p + 12))
            else Success(([Tuple(s.Word(p, 8), s.Word(p + 8, 4), p)] + rest, end))
  {
    hide ReadWord;
  }

  /** A range that ends with the address space covers its one address, and the lookup does not find it. */
  lemma TopRangeNotFound()
    ensures var top := Arange(TWO_64 - 1, 1, 0); Covers(top, TWO_64 - 1) && !TestsCovered(top, TWO_64 - 1)
    ensures var group := Set(Dwarf64, 0, 8, [0, 0, 0, 0, 0, 0, 0, 0], [Range(TWO_64 - 1, 1)], []);
            var s := Section(EncodeSets([group], false), 1, false);
            Sweep(s, 0) == Success([Arange(TWO_64 - 1, 1, 0)])
  {
    var group := Set(Dwarf64, 0, 8, [0, 0, 0, 0, 0, 0, 0, 0], [Range(TWO_64 - 1, 1)], []);
    var s := Section(EncodeSets([group], false), 1, false);
    TopIsSet(group);
    OnlyOne(group, false);
    hide EncodeSets, Sweep, EncodeSet, WellFormed;
    assert s.bytes[0..] == s.bytes;
    SweepRoundTrip(s, 0, [group]);
    assert ArangesOf(group) == [Arange(TWO_64 - 1, 1, 0)];
  }

  lemma TopIsSet(group: Set)
    requires group == Set(Dwarf64, 0, 8, [0, 0, 0, 0, 0, 0, 0, 0], [Range(TWO_64 - 1, 1)], [])
    ensures WellFormed(group, 1, false)
  {
    Pow2Of64();
    var all := group.ranges + [Range(0, 0)];
    hide WriteWord, EncodeRanges, ReadWord, Pow2;
    RangesOf(Range(0, 0), []);
    RangesOf(Range(TWO_64 - 1, 1), [Range(0, 0)]);
    assert all == [Range(TWO_64 - 1, 1)] + ([Range(0, 0)] + []);
  }
}
