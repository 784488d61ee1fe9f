/** The .debug_aranges section (DWARF 3 sections 6.1.2, 7.4 and 7.20): how it is read, set by
    set, and how it is written. */
module ArangeSets {
  import opened Bits

  datatype Error = VersionStamp | OffsetBad | SegmentSizeBad | LengthBad | DecodeError | OutOfSection

  datatype Result<+T> = Success(value: T) | Failure(error: Error)

  const DISTINGUISHED_VALUE: nat := 0xffff_ffff
  const CURRENT_VERSION_STAMP: nat := 2

  /** The section, the size of .debug_info, and the object's byte order. */
  datatype Section = Section(bytes: seq<byte>, infoSize: nat, bigEndian: bool) {
    function Word(at: nat, n: nat): nat
      requires at + n <= |bytes|
    {
      ReadWord(bytes, at, n, bigEndian)
    }
  }

  // ----- reading

  /** READ_AREA_LENGTH: the length, the size of offsets, and the place behind the length field. */
  datatype Area = Area(length: nat, lengthSize: nat, next: nat)

  function ReadAreaLength(s: Section, at: nat): (r: Result<Area>)
    ensures r.Success? ==> (r.value.lengthSize == 4 || r.value.lengthSize == 8)
                           && at < r.value.next <= at + 12 && r.value.next <= |s.bytes|
  {
    if at + 4 > |s.bytes| then Failure(OutOfSection)
    else if s.Word(at, 4) == DISTINGUISHED_VALUE then
      if at + 12 > |s.bytes| then Failure(OutOfSection) else Success(Area(s.Word(at + 4, 8), 8, at + 12))
    else if s.Word(at, 4) == 0 && s.bigEndian then
      if at + 8 > |s.bytes| then Failure(OutOfSection) else Success(Area(s.Word(at, 8), 8, at + 8))
    else Success(Area(s.Word(at, 4), 4, at + 4))
  }

  /** A set's header, up to its first tuple. */
  datatype Header = Header(area: Area, infoOffset: nat, addressSize: nat, tuples: nat)

  /** Bytes that bring a header of n bytes to a multiple of twice the address size. */
  function Padding(n: nat, addressSize: nat): nat
    requires addressSize > 0
  {
    var remainder := n % (2 * addressSize);
    if remainder == 0 then 0 else 2 * addressSize - remainder
  }

  function ReadHeader(s: Section, at: nat): (r: Result<Header>)
    ensures r.Success? ==> r.value.addressSize > 0 && at < r.value.area.next <= r.value.tuples
  {
    match ReadAreaLength(s, at)
    case Failure(e) => Failure(e)
    case Success(area) =>
      var fields := area.next + 2 + area.lengthSize;
      if area.next + 2 > |s.bytes| then Failure(OutOfSection)
      else if s.Word(area.next, 2) != CURRENT_VERSION_STAMP then Failure(VersionStamp)
      else if fields > |s.bytes| then Failure(OutOfSection)
      else if s.Word(area.next + 2, area.lengthSize) >= s.infoSize then Failure(OffsetBad)
      else if fields + 2 > |s.bytes| then Failure(OutOfSection)
      else if s.bytes[fields + 1] != 0 then Failure(SegmentSizeBad)
      else if s.bytes[fields] == 0 then Failure(OutOfSection)
      else
        var addressSize := s.bytes[fields];
        Success(Header(area, s.Word(area.next + 2, area.lengthSize), addressSize,
                       fields + 2 + Padding(fields + 2 - at, addressSize)))
  }

  /** A tuple and the place where it is stored. */
  datatype Tuple = Tuple(address: nat, length: nat, at: nat)

  /** Tuples up to the pair of zeros, the address and the length of each in their own width. */
  function ReadTuples(s: Section, p: nat, a: nat, l: nat): (r: Result<(seq<Tuple>, nat)>)
    requires a > 0
    ensures r.Success? ==> p < r.value.1 <= |s.bytes|
    decreases |s.bytes| - p
  {
    if a > 8 || l > 8 || p + a + l > |s.bytes| then Failure(OutOfSection)
    else
      var address, length := s.Word(p, a), s.Word(p + a, l);
      if address == 0 && length == 0 then Success(([], p + a + l))
      else
        match ReadTuples(s, p + a + l, a, l)
        case Failure(e) => Failure(e)
        case Success((rest, end)) => Success(([Tuple(address, length, p)] + rest, end))
  }

  datatype Arange = Arange(address: nat, length: nat, infoOffset: nat)

  function Aranges(tuples: seq<Tuple>, infoOffset: nat): (r: seq<Arange>)
    ensures |r| == |tuples|
    ensures forall i :: 0 <= i < |r| ==> r[i] == Arange(tuples[i].address, tuples[i].length, infoOffset)
  {
    seq(|tuples|, i requires 0 <= i < |tuples| => Arange(tuples[i].address, tuples[i].length, infoOffset))
  }

  /** One set as dwarf_get_aranges reads it: the set ends where its length says, and its tuples may
      end earlier. */
  function ReadSet(s: Section, at: nat): (r: Result<(seq<Arange>, nat)>)
    ensures r.Success? ==> at < r.value.1
  {
    match ReadHeader(s, at)
    case Failure(e) => Failure(e)
    case Success(h) =>
      match ReadTuples(s, h.tuples, h.addressSize, h.addressSize)
      case Failure(e) => Failure(e)
      case Success((tuples, end)) =>
        if h.area.next + h.area.length < end then Failure(LengthBad)
        else Success((Aranges(tuples, h.infoOffset), h.area.next + h.area.length))
  }

  /** All sets from `at` on; the last one must end with the section. */
  function Sweep(s: Section, at: nat): Result<seq<Arange>>
    decreases |s.bytes| - at
  {
    match ReadSet(s, at)
    case Failure(e) => Failure(e)
    case Success((group, next)) =>
      if next < |s.bytes| then
        match Sweep(s, next)
        case Failure(e) => Failure(e)
        case Success(rest) => Success(group + rest)
      else if next == |s.bytes| then Success(group)
      else Failure(DecodeError)
  }

  /** One set as _dwarf_get_aranges_addr_offsets reads it: addresses have the object's pointer size,
      lengths the size of offsets, and the set must end with its tuples. */
  function ReadSetOffsets(s: Section, at: nat, pointerSize: nat): (r: Result<(seq<Tuple>, nat)>)
    requires pointerSize > 0
    ensures r.Success? ==> at < r.value.1 <= |s.bytes|
  {
    match ReadHeader(s, at)
    case Failure(e) => Failure(e)
    case Success(h) =>
      match ReadTuples(s, h.tuples, pointerSize, h.area.lengthSize)
      case Failure(e) => Failure(e)
      case Success((tuples, end)) =>
        if (h.area.next + h.area.length - end) % TWO_64 != 0 then Failure(LengthBad) else Success((tuples, end))
  }

  function SweepOffsets(s: Section, at: nat, pointerSize: nat): Result<seq<Tuple>>
    requires pointerSize > 0
    decreases |s.bytes| - at
  {
    match ReadSetOffsets(s, at, pointerSize)
    case Failure(e) => Failure(e)
    case Success((tuples, next)) =>
      if next < |s.bytes| then
        match SweepOffsets(s, next, pointerSize)
        case Failure(e) => Failure(e)
        case Success(rest) => Success(tuples + rest)
      else Success(tuples)
  }

  lemma SetUnfolds(s: Section, at: nat)
    ensures ReadHeader(s, at).Failure? ==> ReadSet(s, at) == Failure(ReadHeader(s, at).error)
    ensures ReadHeader(s, at).Success? ==>
              var h := ReadHeader(s, at).value;
              var tuples := ReadTuples(s, h.tuples, h.addressSize, h.addressSize);
              var pastEnd := h.area.next + h.area.length;
              ReadSet(s, at) ==
                if tuples.Failure? then Failure(tuples.error)
                else if pastEnd < tuples.value.1 then Failure(LengthBad)
                else Success((Aranges(tuples.value.0, h.infoOffset), pastEnd))
  {
    hide ReadHeader, ReadTuples;
  }

  lemma OffsetsUnfold(s: Section, at: nat, pointerSize: nat)
    requires pointerSize > 0
    ensures ReadHeader(s, at).Failure? ==> ReadSetOffsets(s, at, pointerSize) == Failure(ReadHeader(s, at).error)
    ensures ReadHeader(s, at).Success? ==>
              var h := ReadHeader(s, at).value;
              var tuples := ReadTuples(s, h.tuples, pointerSize, h.area.lengthSize);
              ReadSetOffsets(s, at, pointerSize) ==
                if tuples.Failure? then Failure(tuples.error)
                else if (h.area.length - (tuples.value.1 - h.area.next)) % TWO_64 != 0 then Failure(LengthBad)
                else Success(tuples.value)
  {
    hide ReadHeader, ReadTuples;
  }

  // ----- the two sweeps against each other

  /** Every set the first sweep comes to has tuples of the pointer's and the offset's size. */
  ghost predicate Uniform(s: Section, at: nat, pointerSize: nat)
    decreases |s.bytes| - at
  {
    ReadHeader(s, at).Success? ==>
      var h := ReadHeader(s, at).value;
      && h.addressSize == h.area.lengthSize == pointerSize
      && (ReadSet(s, at).Success? && ReadSet(s, at).value.1 < |s.bytes| ==>
            Uniform(s, ReadSet(s, at).value.1, pointerSize))
  }

  /** ... and none has bytes behind its last tuple. */
  ghost predicate Unpadded(s: Section, at: nat)
    decreases |s.bytes| - at
  {
    ReadSet(s, at).Success? ==>
      var h := ReadHeader(s, at).value;
      var tuples := ReadTuples(s, h.tuples, h.addressSize, h.addressSize);
      && tuples.value.1 == h.area.next + h.area.length
      && (ReadSet(s, at).value.1 < |s.bytes| ==> Unpadded(s, ReadSet(s, at).value.1))
  }

  /** The tuple is the one stored at its place. */
  predicate StoredAt(s: Section, t: Tuple, a: nat) {
    t.at + 2 * a <= |s.bytes| && s.Word(t.at, a) == t.address && s.Word(t.at + a, a) == t.length
  }

  /** The two sweeps list the same ranges in the same order, one with info offsets, one with places. */
  ghost predicate Agree(s: Section, aranges: seq<Arange>, tuples: seq<Tuple>, a: nat) {
    |aranges| == |tuples| && forall i :: 0 <= i < |tuples| ==>
      tuples[i].address == aranges[i].address && tuples[i].length == aranges[i].length && StoredAt(s, tuples[i], a)
  }

  lemma {:induction false} TuplesStored(s: Section, p: nat, a: nat)
    requires a > 0 && ReadTuples(s, p, a, a).Success?
    ensures forall t <- ReadTuples(s, p, a, a).value.0 :: StoredAt(s, t, a)
    decreases |s.bytes| - p
  {
    if !(s.Word(p, a) == 0 && s.Word(p + a, a) == 0) {
      TuplesStored(s, p + a + a, a);
    }
  }

  lemma WordBelow(s: Section, at: nat, n: nat)
    requires at + n <= |s.bytes| && n <= 8
    ensures s.Word(at, n) < TWO_64
  {
    FromBytesBound(InOrder(s.bytes[at..at + n], s.bigEndian));
    Pow2Monotone(8 * n, 64);
    Pow2Of64();
  }

  lemma AreaLengthBelow(s: Section, at: nat)
    requires ReadAreaLength(s, at).Success?
    ensures ReadAreaLength(s, at).value.length < TWO_64
  {
    WordBelow(s, at, 4);
    if at + 8 <= |s.bytes| { WordBelow(s, at, 8); }
    if at + 12 <= |s.bytes| { WordBelow(s, at + 4, 8); }
  }

  /** One set: the second sweep accepts it exactly when the first does and its tuples fill it. */
  lemma SetsAgree(s: Section, at: nat, a: nat)
    requires a > 0 && |s.bytes| < TWO_64
    requires ReadHeader(s, at).Success? ==>
               ReadHeader(s, at).value.addressSize == ReadHeader(s, at).value.area.lengthSize == a
    ensures var one, two := ReadSet(s, at), ReadSetOffsets(s, at, a);
            && (two.Success? <==> one.Success?
                                  && ReadTuples(s, ReadHeader(s, at).value.tuples, a, a).value.1 == one.value.1)
            && (two.Success? ==> two.value.1 == one.value.1 && Agree(s, one.value.0, two.value.0, a))
  {
    var header := ReadHeader(s, at);
    if header.Success? {
      AreaLengthBelow(s, at);
      assert header.value.area == ReadAreaLength(s, at).value;
      hide ReadHeader;
      var h := header.value;
      var tuples := ReadTuples(s, h.tuples, a, a);
      SetUnfolds(s, at);
      OffsetsUnfold(s, at, a);
      hide ReadSet, ReadSetOffsets, ReadTuples, ReadWord;
      if tuples.Success? {
        TuplesStored(s, h.tuples, a);
        MultipleBelow(h.area.next + h.area.length - tuples.value.1);
      }
    }
  }

  lemma MultipleBelow(x: int)
    requires -TWO_64 < x < TWO_64
    ensures x % TWO_64 == 0 <==> x == 0
  {
  }

  lemma AgreeConcat(s: Section, a1: seq<Arange>, t1: seq<Tuple>, a2: seq<Arange>, t2: seq<Tuple>, a: nat)
    requires Agree(s, a1, t1, a) && Agree(s, a2, t2, a)
    ensures Agree(s, a1 + a2, t1 + t2, a)
  {
    hide StoredAt;
    forall i | 0 <= i < |t1 + t2|
      ensures (t1 + t2)[i].address == (a1 + a2)[i].address && (t1 + t2)[i].length == (a1 + a2)[i].length
      ensures StoredAt(s, (t1 + t2)[i], a)
    {
      if i >= |t1| {
        assert (t1 + t2)[i] == t2[i - |t1|] && (a1 + a2)[i] == a2[i - |a1|];
      }
    }
  }

  /** With one size for addresses, pointers and offsets, for any bytes: the second sweep succeeds exactly
      when the first does and no set has bytes behind its tuples; then they list the same ranges. */
  lemma {:induction false} SweepsAgree(s: Section, at: nat, a: nat)
    requires a > 0 && |s.bytes| < TWO_64 && Uniform(s, at, a)
    ensures SweepOffsets(s, at, a).Success? <==> Sweep(s, at).Success? && Unpadded(s, at)
    ensures SweepOffsets(s, at, a).Success? ==> Agree(s, Sweep(s, at).value, SweepOffsets(s, at, a).value, a)
    decreases |s.bytes| - at
  {
    hide ReadTuples, ReadHeader, Agree;
    SetsAgree(s, at, a);
    var two := ReadSetOffsets(s, at, a);
    if ReadSet(s, at).Success? && ReadSet(s, at).value.1 < |s.bytes| {
      SweepsAgree(s, ReadSet(s, at).value.1, a);
    }
    if SweepOffsets(s, at, a).Success? && two.value.1 < |s.bytes| {
      AgreeConcat(s, ReadSet(s, at).value.0, two.value.0,
                  Sweep(s, two.value.1).value, SweepOffsets(s, two.value.1, a).value, a);
    }
  }

  // ----- writing

  /** The three ways a length is stored: 32 bits, the 64-bit extension, and IRIX's plain 64 bits. */
  datatype Format = Dwarf32 | Dwarf64 | Irix64 {
    function OffsetSize(): nat { if Dwarf32? then 4 else 8 }
    function FieldSize(): nat { match this case Dwarf32 => 4 case Dwarf64 => 12 case Irix64 => 8 }

    predicate Holds(length: nat, bigEndian: bool) {
      match this
      case Dwarf32 => length < DISTINGUISHED_VALUE && (length > 0 || !bigEndian)
      case Dwarf64 => length < TWO_64
      case Irix64 => bigEndian && length < TWO_32
    }
  }

  function LengthField(f: Format, length: nat, bigEndian: bool): (bs: seq<byte>)
    ensures |bs| == f.FieldSize()
  {
    match f
    case Dwarf32 => WriteWord(length, 4, bigEndian)
    case Dwarf64 => WriteWord(DISTINGUISHED_VALUE, 4, bigEndian) + WriteWord(length, 8, bigEndian)
    case Irix64 => WriteWord(length, 8, bigEndian)
  }

  datatype Range = Range(address: nat, length: nat)

  datatype Set = Set(format: Format, infoOffset: nat, addressSize: byte, padding: seq<byte>,
                     ranges: seq<Range>, trailing: seq<byte>)

  function EncodeRanges(ranges: seq<Range>, a: nat, bigEndian: bool): seq<byte> {
    if ranges == [] then []
    else
      WriteWord(ranges[0].address, a, bigEndian) + WriteWord(ranges[0].length, a, bigEndian)
      + EncodeRanges(ranges[1..], a, bigEndian)
  }

  /** Everything behind the length field. */
  function EncodeBody(group: Set, bigEndian: bool): seq<byte>
  {
    WriteWord(CURRENT_VERSION_STAMP, 2, bigEndian)
    + (WriteWord(group.infoOffset, group.format.OffsetSize(), bigEndian)
       + ([group.addressSize, 0]
          + (group.padding
             + (EncodeRanges(group.ranges + [Range(0, 0)], group.addressSize, bigEndian) + group.trailing))))
  }

  function EncodeSet(group: Set, bigEndian: bool): (bs: seq<byte>)
    ensures |bs| >= 4
  {
    var body := EncodeBody(group, bigEndian);
    LengthField(group.format, |body|, bigEndian) + body
  }

  predicate RangeFits(r: Range, a: nat) {
    r.address < Pow2(8 * a) && r.length < Pow2(8 * a)
  }

  predicate WellFormed(group: Set, infoSize: nat, bigEndian: bool) {
    && 1 <= group.addressSize <= 8
    && group.infoOffset < infoSize && group.infoOffset < Pow2(8 * group.format.OffsetSize())
    && |group.padding| == Padding(group.format.FieldSize() + 4 + group.format.OffsetSize(), group.addressSize)
    && (forall r <- group.ranges :: RangeFits(r, group.addressSize) && r != Range(0, 0))
    && group.format.Holds(|EncodeBody(group, bigEndian)|, bigEndian)
  }

  // ----- reading undoes writing

  lemma ReadAreaWritten(s: Section, at: nat, f: Format, length: nat)
    requires Holds(s.bytes, at, LengthField(f, length, s.bigEndian)) && f.Holds(length, s.bigEndian)
    ensures ReadAreaLength(s, at) == Success(Area(length, f.OffsetSize(), at + f.FieldSize()))
  {
    var big := s.bigEndian;
    Pow2Of64();
    match f
    case Dwarf32 =>
      ReadWritten(s.bytes, at, length, 4, big);
    case Dwarf64 =>
      HoldsSplit(s.bytes, at, WriteWord(DISTINGUISHED_VALUE, 4, big), WriteWord(length, 8, big));
      ReadWritten(s.bytes, at, DISTINGUISHED_VALUE, 4, big);
      ReadWritten(s.bytes, at + 4, length, 8, big);
    case Irix64 =>
      ReadWritten(s.bytes, at, length, 8, big);
      HighHalf(length);
      HoldsSplit(s.bytes, at, WriteWord(0, 4, true), WriteWord(length, 4, true));
      ReadWritten(s.bytes, at, 0, 4, true);
  }

  lemma HighHalf(v: nat)
    requires v < TWO_32
    ensures WriteWord(v, 8, true) == WriteWord(0, 4, true) + WriteWord(v, 4, true)
  {
    Pow2Of64();
    ToBytesShort(v, 4, 4);
    assert Reverse(ToBytes(v, 4) + ToBytes(0, 4)) == Reverse(ToBytes(0, 4)) + Reverse(ToBytes(v, 4));
  }

  /** A value that needs n bytes, written in more, has zeros on top. */
  lemma {:induction false} ToBytesShort(v: nat, n: nat, m: nat)
    requires v < Pow2(8 * n)
    ensures ToBytes(v, n + m) == ToBytes(v, n) + ToBytes(0, m)
    decreases n
  {
    if n > 0 {
      Pow2Add(8, 8 * (n - 1));
      Pow2Of64();
      ToBytesShort(v / 256, n - 1, m);
    }
  }

  /** The ranges read are the ranges written. */
  predicate SameRanges(tuples: seq<Tuple>, ranges: seq<Range>) {
    |tuples| == |ranges| && forall i :: 0 <= i < |tuples| ==>
      tuples[i].address == ranges[i].address && tuples[i].length == ranges[i].length
  }

  lemma ReadFirstRange(s: Section, p: nat, all: seq<Range>, a: nat)
    requires 1 <= a <= 8 && all != [] && RangeFits(all[0], a)
    requires Holds(s.bytes, p, EncodeRanges(all, a, s.bigEndian))
    ensures p + a + a <= |s.bytes|
    ensures s.Word(p, a) == all[0].address && s.Word(p + a, a) == all[0].length
    ensures Holds(s.bytes, p + a + a, EncodeRanges(all[1..], a, s.bigEndian))
    ensures |EncodeRanges(all, a, s.bigEndian)| == a + a + |EncodeRanges(all[1..], a, s.bigEndian)|
  {
    hide ReadWord, WriteWord, Holds;
    var big := s.bigEndian;
    var address, length := WriteWord(all[0].address, a, big), WriteWord(all[0].length, a, big);
    HoldsSplit(s.bytes, p, address + length, EncodeRanges(all[1..], a, big));
    HoldsSplit(s.bytes, p, address, length);
    ReadWritten(s.bytes, p, all[0].address, a, big);
    ReadWritten(s.bytes, p + a, all[0].length, a, big);
  }

  lemma {:induction false} ReadEncodedRanges(s: Section, p: nat, ranges: seq<Range>, a: nat)
    requires 1 <= a <= 8
    requires forall r <- ranges :: RangeFits(r, a) && r != Range(0, 0)
    requires Holds(s.bytes, p, EncodeRanges(ranges + [Range(0, 0)], a, s.bigEndian))
    ensures var r := ReadTuples(s, p, a, a);
            && r.Success? && SameRanges(r.value.0, ranges)
            && r.value.1 == p + |EncodeRanges(ranges + [Range(0, 0)], a, s.bigEndian)|
    decreases ranges
  {
    hide EncodeRanges, WriteWord, ReadWord, Holds;
    var all := ranges + [Range(0, 0)];
    assert RangeFits(all[0], a) by { ZeroFits(a); }
    ReadFirstRange(s, p, all, a);
    if ranges != [] {
      assert all[1..] == ranges[1..] + [Range(0, 0)];
      ReadEncodedRanges(s, p + a + a, ranges[1..], a);
      var rest := ReadTuples(s, p + a + a, a, a).value.0;
      assert SameRanges([Tuple(ranges[0].address, ranges[0].length, p)] + rest, ranges);
    } else {
      assert all[1..] == [];
      NoRanges(a, s.bigEndian);
    }
  }

  lemma NoRanges(a: nat, bigEndian: bool)
    ensures EncodeRanges([], a, bigEndian) == []
  {
  }

  lemma ZeroFits(a: nat)
    ensures RangeFits(Range(0, 0), a)
  {
  }

  /** Where the fields of an encoded set lie. */
  lemma SetLayout(s: Section, at: nat, group: Set)
    requires Holds(s.bytes, at, EncodeSet(group, s.bigEndian))
    ensures var f, big, p := group.format, s.bigEndian, at + group.format.FieldSize();
            var ranges := EncodeRanges(group.ranges + [Range(0, 0)], group.addressSize, big);
            var tuples := p + 4 + f.OffsetSize() + |group.padding|;
            && Holds(s.bytes, at, LengthField(f, |EncodeBody(group, big)|, big))
            && Holds(s.bytes, p, WriteWord(CURRENT_VERSION_STAMP, 2, big))
            && Holds(s.bytes, p + 2, WriteWord(group.infoOffset, f.OffsetSize(), big))
            && Holds(s.bytes, p + 2 + f.OffsetSize(), [group.addressSize, 0])
            && Holds(s.bytes, tuples, ranges)
            && tuples + |ranges| + |group.trailing| == at + |EncodeSet(group, big)| == p + |EncodeBody(group, big)|
  {
    hide WriteWord, EncodeRanges, LengthField, Holds;
    var f, big := group.format, s.bigEndian;
    var ranges := EncodeRanges(group.ranges + [Range(0, 0)], group.addressSize, big);
    var p := at + f.FieldSize();
    var version, info := WriteWord(CURRENT_VERSION_STAMP, 2, big), WriteWord(group.infoOffset, f.OffsetSize(), big);
    var sizes: seq<byte> := [group.addressSize, 0];
    var rest := group.padding + (ranges + group.trailing);
    HoldsSplit(s.bytes, at, LengthField(f, |EncodeBody(group, big)|, big), EncodeBody(group, big));
    HoldsSplit(s.bytes, p, version, info + (sizes + rest));
    HoldsSplit(s.bytes, p + 2, info, sizes + rest);
    HoldsSplit(s.bytes, p + 2 + |info|, sizes, rest);
    HoldsSplit(s.bytes, p + 4 + |info|, group.padding, ranges + group.trailing);
    HoldsSplit(s.bytes, p + 4 + |info| + |group.padding|, ranges, group.trailing);
  }

  lemma HoldsTwo(mem: seq<byte>, at: nat, x: byte, y: byte)
    requires Holds(mem, at, [x, y])
    ensures at + 2 <= |mem| && mem[at] == x && mem[at + 1] == y
  {
    assert mem[at] == mem[at..at + 2][0] && mem[at + 1] == mem[at..at + 2][1];
  }

  lemma ReadHeaderWritten(s: Section, at: nat, group: Set)
    requires WellFormed(group, s.infoSize, s.bigEndian) && Holds(s.bytes, at, EncodeSet(group, s.bigEndian))
    ensures var f := group.format;
            ReadHeader(s, at) == Success(Header(
              Area(|EncodeBody(group, s.bigEndian)|, f.OffsetSize(), at + f.FieldSize()),
              group.infoOffset, group.addressSize, at + f.FieldSize() + 4 + f.OffsetSize() + |group.padding|))
  {
    hide WriteWord, EncodeRanges, LengthField, Holds, ReadAreaLength, EncodeSet, EncodeBody, ReadWord, Padding;
    var f, big, p := group.format, s.bigEndian, at + group.format.FieldSize();
    SetLayout(s, at, group);
    ReadAreaWritten(s, at, f, |EncodeBody(group, big)|);
    VersionFits();
    ReadWritten(s.bytes, p, CURRENT_VERSION_STAMP, 2, big);
    ReadWritten(s.bytes, p + 2, group.infoOffset, f.OffsetSize(), big);
    HoldsTwo(s.bytes, p + 2 + f.OffsetSize(), group.addressSize, 0);
  }

  /** A written set is read back: its ranges in order, each with the set's info offset. */
  lemma ReadSetWritten(s: Section, at: nat, group: Set)
    requires WellFormed(group, s.infoSize, s.bigEndian) && Holds(s.bytes, at, EncodeSet(group, s.bigEndian))
    ensures ReadSet(s, at) == Success((ArangesOf(group), at + |EncodeSet(group, s.bigEndian)|))
  {
    hide EncodeRanges, LengthField, Holds, EncodeSet, EncodeBody, ReadHeader, ReadTuples;
    SetLayout(s, at, group);
    ReadHeaderWritten(s, at, group);
    ReadEncodedRanges(s, ReadHeader(s, at).value.tuples, group.ranges, group.addressSize);
    var tuples := ReadTuples(s, ReadHeader(s, at).value.tuples, group.addressSize, group.addressSize).value.0;
    assert Aranges(tuples, group.infoOffset) == ArangesOf(group);
  }

  function ArangesOf(group: Set): (r: seq<Arange>)
    ensures |r| == |group.ranges|
    ensures forall i :: 0 <= i < |r| ==> r[i] == Arange(group.ranges[i].address, group.ranges[i].length, group.infoOffset)
  {
    seq(|group.ranges|, i requires 0 <= i < |group.ranges| =>
      Arange(group.ranges[i].address, group.ranges[i].length, group.infoOffset))
  }

  predicate AllWellFormed(sets: seq<Set>, infoSize: nat, bigEndian: bool) {
    forall group <- sets :: WellFormed(group, infoSize, bigEndian)
  }

  function EncodeSets(sets: seq<Set>, bigEndian: bool): seq<byte>
  {
    if sets == [] then [] else EncodeSet(sets[0], bigEndian) + EncodeSets(sets[1..], bigEndian)
  }

  function AllAranges(sets: seq<Set>): seq<Arange> {
    if sets == [] then [] else ArangesOf(sets[0]) + AllAranges(sets[1..])
  }

  /** Sweeping the encoding of any non-empty list of sets, with any formats, address sizes and trailing
      bytes, gives all their ranges in order with their info offsets. */
  lemma {:induction false} SweepRoundTrip(s: Section, at: nat, sets: seq<Set>)
    requires sets != [] && AllWellFormed(sets, s.infoSize, s.bigEndian)
    requires at <= |s.bytes| && s.bytes[at..] == EncodeSets(sets, s.bigEndian)
    ensures Sweep(s, at) == Success(AllAranges(sets))
    decreases sets
  {
    hide EncodeSet, ReadSet, WellFormed;
    var first, rest := EncodeSet(sets[0], s.bigEndian), EncodeSets(sets[1..], s.bigEndian);
    assert s.bytes[at..at + |first|] == s.bytes[at..][..|first|] == first;
    assert s.bytes[at + |first|..] == s.bytes[at..][|first|..] == rest;
    ReadSetWritten(s, at, sets[0]);
    assert WellFormed(sets[0], s.infoSize, s.bigEndian);
    if sets[1..] == [] {
      assert |s.bytes| == at + |first|;
      assert AllAranges(sets) == ArangesOf(sets[0]) + [] == ArangesOf(sets[0]);
    } else {
      NotEmpty(sets[1..], s.bigEndian);
      SweepRoundTrip(s, at + |first|, sets[1..]);
    }
  }

  lemma NotEmpty(sets: seq<Set>, bigEndian: bool)
    requires sets != []
    ensures EncodeSets(sets, bigEndian) != []
  {
  }

  lemma VersionFits()
    ensures CURRENT_VERSION_STAMP < Pow2(16)
  {
    Pow2Monotone(8, 16);
    Pow2Of64();
  }

  // ----- looking an address up

  /** The address lies in the range. */
  predicate Covers(r: Arange, address: nat) { r.address <= address < r.address + r.length }

  /** The test dwarf_get_arange makes, in 64-bit arithmetic. */
  predicate TestsCovered(r: Arange, address: nat) {
    address >= r.address && address < (r.address + r.length) % TWO_64
  }

  /** The sum in the test wraps for a range that reaches the end of the address space: the test finds
      exactly the covered addresses of all other ranges, and none of such a range. */
  lemma TestIsCovers(r: Arange, address: nat)
    requires r.address < TWO_64 && r.length < TWO_64 && address < TWO_64
    ensures TestsCovered(r, address) <==> Covers(r, address) && r.address + r.length < TWO_64
  {
    var end := r.address + r.length;
    assert end % TWO_64 == if end < TWO_64 then end else end - TWO_64;
  }
}
