/** Which bytes a sweep over .debug_aranges accepts, and what it finds there: the encodings of sets, with the
    first tuple of each set at the next multiple of the tuple's size. */
module ArangeFacts {
  import opened Bits
  import opened ArangeSets

  // ----- where the tuples start

  lemma PaddingAligns(n: nat, a: nat)
    requires a > 0
    ensures (n + Padding(n, a)) % (2 * a) == 0 && Padding(n, a) < 2 * a
  {
    var d := 2 * a;
    var q := n / d;
    if n % d == 0 { RemainderIs(n + Padding(n, a), d, q); } else { RemainderIs(n + Padding(n, a), d, q + 1); }
  }

  lemma RemainderIs(x: nat, d: nat, q: nat)
    requires d > 0 && x == d * q
    ensures x % d == 0
  {
    var y, r := x / d, x % d;
    assert d * q == d * y + r;
    if q > y { Times(y + 1, q, d); }
    if q < y { Times(q + 1, y, d); }
  }

  lemma Times(n: nat, m: nat, d: nat)
    requires n <= m
    ensures d * n <= d * m
  {
  }

  lemma HeaderEnds(s: Section, at: nat)
    requires ReadHeader(s, at).Success?
    ensures var h := ReadHeader(s, at).value;
            var header := h.area.next + 4 + h.area.lengthSize;
            header >= at && h.tuples == header + Padding(header - at, h.addressSize)
  {
    hide Padding, ReadAreaLength, ReadWord;
  }

  /** For any bytes: the tuples start at the first place behind the header that lies a multiple of a tuple's size
      from the set's start. */
  lemma TuplesAreAligned(s: Section, at: nat)
    requires ReadHeader(s, at).Success?
    ensures var h := ReadHeader(s, at).value;
            && h.tuples >= at && (h.tuples - at) % (2 * h.addressSize) == 0
            && 0 <= h.tuples - (h.area.next + 4 + h.area.lengthSize) < 2 * h.addressSize
  {
    hide *;
    HeaderEnds(s, at);
    var h := ReadHeader(s, at).value;
    PaddingAligns(h.area.next + 4 + h.area.lengthSize - at, h.addressSize);
  }

  /** Where the ranges of an encoded set start. */
  function RangesAt(group: Set): nat {
    group.format.FieldSize() + 4 + group.format.OffsetSize() + |group.padding|
  }

  /** ... the same of every encoding. */
  lemma RangesAreAligned(group: Set, infoSize: nat, bigEndian: bool)
    requires WellFormed(group, infoSize, bigEndian)
    ensures RangesAt(group) % (2 * group.addressSize) == 0
    ensures |group.padding| < 2 * group.addressSize
    ensures Holds(EncodeSet(group, bigEndian), RangesAt(group),
                  EncodeRanges(group.ranges + [Range(0, 0)], group.addressSize, bigEndian))
  {
    hide Padding, EncodeSet, EncodeBody, Holds, EncodeRanges, LengthField;
    PaddingAligns(group.format.FieldSize() + 4 + group.format.OffsetSize(), group.addressSize);
    var bytes := EncodeSet(group, bigEndian);
    HoldsItself(bytes);
    SetLayout(Section(bytes, infoSize, bigEndian), 0, group);
  }

  lemma HoldsItself(bs: seq<byte>)
    ensures Holds(bs, 0, bs)
  {
    assert bs[0..|bs|] == bs;
  }

  // ----- reading as the inverse of writing

  lemma {:induction false} ToFromBytes(bs: seq<byte>)
    ensures ToBytes(FromBytes(bs), |bs|) == bs
  {
    if bs != [] {
      ToFromBytes(bs[1..]);
      LowByte(bs[0], FromBytes(bs[1..]), |bs| - 1);
      hide ToBytes;
      assert FromBytes(bs) == bs[0] as nat + 256 * FromBytes(bs[1..]);
    }
  }

  lemma LowByte(b: byte, high: nat, n: nat)
    ensures ToBytes(b as nat + 256 * high, n + 1) == [b] + ToBytes(high, n)
  {
    var v := b as nat + 256 * high;
    assert v / 256 == high && v % 256 == b;
  }

  /** A word that is read is the one that was written there. */
  lemma WordBack(s: Section, at: nat, n: nat)
    requires at + n <= |s.bytes|
    ensures WriteWord(s.Word(at, n), n, s.bigEndian) == s.bytes[at..at + n] && s.Word(at, n) < Pow2(8 * n)
  {
    hide FromBytes, ToBytes, Pow2;
    var bs := s.bytes[at..at + n];
    ToFromBytes(InOrder(bs, s.bigEndian));
    FromBytesBound(InOrder(bs, s.bigEndian));
    assert InOrder(InOrder(bs, s.bigEndian), s.bigEndian) == bs;
  }

  lemma Joined(bs: seq<byte>, from: nat, mid: nat, to: nat)
    requires from <= mid <= to <= |bs|
    ensures bs[from..to] == bs[from..mid] + bs[mid..to]
  {
  }

  /** The form of the length field at a place. */
  function FormatAt(s: Section, at: nat): Format
    requires ReadAreaLength(s, at).Success?
  {
    if s.Word(at, 4) == DISTINGUISHED_VALUE then Dwarf64
    else if s.Word(at, 4) == 0 && s.bigEndian then Irix64
    else Dwarf32
  }

  lemma ZeroHighHalf(s: Section, at: nat)
    requires at + 8 <= |s.bytes| && s.bigEndian && s.Word(at, 4) == 0
    ensures s.Word(at, 8) == s.Word(at + 4, 4) < TWO_32
  {
    var bs := s.bytes;
    WordBack(s, at + 4, 4);
    Pow2Of64();
    WordBack(s, at, 4);
    HighHalf(s.Word(at + 4, 4));
    Joined(bs, at, at + 4, at + 8);
    Pow2Monotone(32, 64);
    ReadWritten(bs, at, s.Word(at + 4, 4), 8, true);
  }

  /** The length field at a place is the encoding of what it is read as. */
  ghost predicate AreaEncoded(s: Section, at: nat, area: Area, f: Format) {
    && area.lengthSize == f.OffsetSize() && area.next == at + f.FieldSize() <= |s.bytes|
    && f.Holds(area.length, s.bigEndian)
    && s.bytes[at..area.next] == LengthField(f, area.length, s.bigEndian)
  }

  lemma AreaIsEncoding(s: Section, at: nat)
    requires ReadAreaLength(s, at).Success?
    ensures AreaEncoded(s, at, ReadAreaLength(s, at).value, FormatAt(s, at))
  {
    hide AreaEncoded, ReadWord;
    AreaCases(s, at);
    match FormatAt(s, at)
    case Dwarf32 => PlainArea(s, at);
    case Dwarf64 => ExtendedArea(s, at);
    case Irix64 => IrixArea(s, at);
  }

  lemma AreaCases(s: Section, at: nat)
    requires ReadAreaLength(s, at).Success?
    ensures at + 4 <= |s.bytes|
    ensures var f := FormatAt(s, at);
            && (f.Dwarf32? ==> s.Word(at, 4) != DISTINGUISHED_VALUE && (s.Word(at, 4) > 0 || !s.bigEndian)
                               && ReadAreaLength(s, at).value == Area(s.Word(at, 4), 4, at + 4))
            && (f.Dwarf64? ==> at + 12 <= |s.bytes| && s.Word(at, 4) == DISTINGUISHED_VALUE
                               && ReadAreaLength(s, at).value == Area(s.Word(at + 4, 8), 8, at + 12))
            && (f.Irix64? ==> at + 8 <= |s.bytes| && s.Word(at, 4) == 0 && s.bigEndian
                              && ReadAreaLength(s, at).value == Area(s.Word(at, 8), 8, at + 8))
  {
    hide ReadWord;
  }

  lemma PlainArea(s: Section, at: nat)
    requires at + 4 <= |s.bytes| && s.Word(at, 4) != DISTINGUISHED_VALUE && (s.Word(at, 4) > 0 || !s.bigEndian)
    ensures AreaEncoded(s, at, Area(s.Word(at, 4), 4, at + 4), Dwarf32)
  {
    hide ReadWord, WriteWord, Pow2;
    WordBack(s, at, 4);
    Pow2Of64();
  }

  lemma ExtendedArea(s: Section, at: nat)
    requires at + 12 <= |s.bytes| && s.Word(at, 4) == DISTINGUISHED_VALUE
    ensures AreaEncoded(s, at, Area(s.Word(at + 4, 8), 8, at + 12), Dwarf64)
  {
    hide ReadWord, WriteWord, Pow2;
    WordBack(s, at, 4);
    WordBack(s, at + 4, 8);
    Pow2Of64();
    Joined(s.bytes, at, at + 4, at + 12);
  }

  lemma IrixArea(s: Section, at: nat)
    requires at + 8 <= |s.bytes| && s.Word(at, 4) == 0 && s.bigEndian
    ensures AreaEncoded(s, at, Area(s.Word(at, 8), 8, at + 8), Irix64)
  {
    hide ReadWord, WriteWord, Pow2;
    ZeroHighHalf(s, at);
    WordBack(s, at, 8);
  }

  lemma EncodedArea(s: Section, at: nat)
    requires ReadAreaLength(s, at).Success?
    ensures var area, f := ReadAreaLength(s, at).value, FormatAt(s, at);
            && area.lengthSize == f.OffsetSize() && area.next == at + f.FieldSize() <= |s.bytes|
            && f.Holds(area.length, s.bigEndian)
            && s.bytes[at..area.next] == LengthField(f, area.length, s.bigEndian)
  {
    AreaIsEncoding(s, at);
    hide LengthField, ReadAreaLength, FormatAt;
  }

  /** The bytes between the length field and the padding. */
  lemma HeaderIsEncoding(s: Section, at: nat)
    requires ReadHeader(s, at).Success?
    ensures var h, big := ReadHeader(s, at).value, s.bigEndian;
            var p, size := h.area.next, h.area.lengthSize;
            && ReadAreaLength(s, at) == Success(h.area) && p + 4 + size <= |s.bytes|
            && 0 < h.addressSize < 256 && h.infoOffset < s.infoSize && h.infoOffset < Pow2(8 * size)
            && s.bytes[p..p + 2] == WriteWord(CURRENT_VERSION_STAMP, 2, big)
            && s.bytes[p + 2..p + 2 + size] == WriteWord(h.infoOffset, size, big)
            && s.bytes[p + 2 + size..p + 4 + size] == [h.addressSize, 0]
            && h.tuples == p + 4 + size + Padding(p + 4 + size - at, h.addressSize)
  {
    hide Padding, ReadAreaLength, ReadWord, WriteWord, Pow2;
    var area := ReadAreaLength(s, at).value;
    WordBack(s, area.next, 2);
    WordBack(s, area.next + 2, area.lengthSize);
  }

  function RangesOf(tuples: seq<Tuple>): (ranges: seq<Range>)
    ensures SameRanges(tuples, ranges)
  {
    seq(|tuples|, i requires 0 <= i < |tuples| => Range(tuples[i].address, tuples[i].length))
  }

  /** Tuples that are read are the encoding of their ranges, of which only the closing one is a pair of zeros. */
  lemma {:induction false} TuplesAreEncoding(s: Section, p: nat, a: nat)
    requires a > 0 && ReadTuples(s, p, a, a).Success?
    ensures var (tuples, end) := ReadTuples(s, p, a, a).value;
            && a <= 8 && p < end <= |s.bytes|
            && s.bytes[p..end] == EncodeRanges(RangesOf(tuples) + [Range(0, 0)], a, s.bigEndian)
            && forall r <- RangesOf(tuples) :: RangeFits(r, a) && r != Range(0, 0)
    decreases |s.bytes| - p
  {
    hide EncodeRanges, ReadWord, WriteWord, Pow2;
    var (tuples, end) := ReadTuples(s, p, a, a).value;
    var address, length := s.Word(p, a), s.Word(p + a, a);
    WordBack(s, p, a);
    WordBack(s, p + a, a);
    if address == 0 && length == 0 {
      NoRanges(a, s.bigEndian);
      OneRange(s, p, a, Range(0, 0), end, []);
      assert RangesOf(tuples) + [Range(0, 0)] == [Range(0, 0)] + [];
    } else {
      TuplesAreEncoding(s, p + a + a, a);
      var rest := ReadTuples(s, p + a + a, a, a).value.0;
      assert RangesOf(tuples) == [Range(address, length)] + RangesOf(rest);
      OneRange(s, p, a, Range(address, length), end, RangesOf(rest) + [Range(0, 0)]);
      assert [Range(address, length)] + (RangesOf(rest) + [Range(0, 0)]) == RangesOf(tuples) + [Range(0, 0)];
    }
  }

  lemma OneRange(s: Section, p: nat, a: nat, r: Range, end: nat, rest: seq<Range>)
    requires p + a + a <= end <= |s.bytes|
    requires s.bytes[p..p + a] == WriteWord(r.address, a, s.bigEndian)
    requires s.bytes[p + a..p + a + a] == WriteWord(r.length, a, s.bigEndian)
    requires s.bytes[p + a + a..end] == EncodeRanges(rest, a, s.bigEndian)
    ensures s.bytes[p..end] == EncodeRanges([r] + rest, a, s.bigEndian)
  {
    hide WriteWord, ReadWord;
    Joined(s.bytes, p, p + a, p + a + a);
    Joined(s.bytes, p, p + a + a, end);
    assert ([r] + rest)[1..] == rest;
  }

  /** The set that stands at a place. */
  function SetAt(s: Section, at: nat): Set
    requires ReadSet(s, at).Success? && ReadSet(s, at).value.1 <= |s.bytes|
  {
    SetParts(s, at);
    var h := ReadHeader(s, at).value;
    var (tuples, end) := ReadTuples(s, h.tuples, h.addressSize, h.addressSize).value;
    Set(FormatAt(s, at), h.infoOffset, h.addressSize, s.bytes[h.area.next + 4 + h.area.lengthSize..h.tuples],
        RangesOf(tuples), s.bytes[end..ReadSet(s, at).value.1])
  }

  lemma SetParts(s: Section, at: nat)
    requires ReadSet(s, at).Success? && ReadSet(s, at).value.1 <= |s.bytes|
    ensures ReadHeader(s, at).Success? && ReadAreaLength(s, at) == Success(ReadHeader(s, at).value.area)
    ensures var h := ReadHeader(s, at).value;
            var tuples := ReadTuples(s, h.tuples, h.addressSize, h.addressSize);
            && 0 < h.addressSize < 256 && h.area.next + 4 + h.area.lengthSize <= h.tuples && tuples.Success?
            && h.tuples < tuples.value.1 <= h.area.next + h.area.length == ReadSet(s, at).value.1
            && ReadSet(s, at).value.0 == Aranges(tuples.value.0, h.infoOffset)
  {
    hide *;
    SetUnfolds(s, at);
    HeaderIsEncoding(s, at);
  }

  lemma BodyIs(group: Set, bigEndian: bool, version: seq<byte>, info: seq<byte>, sizes: seq<byte>, ranges: seq<byte>)
    requires version == WriteWord(CURRENT_VERSION_STAMP, 2, bigEndian) && sizes == [group.addressSize, 0]
    requires info == WriteWord(group.infoOffset, group.format.OffsetSize(), bigEndian)
    requires ranges == EncodeRanges(group.ranges + [Range(0, 0)], group.addressSize, bigEndian)
    ensures EncodeBody(group, bigEndian)
         == version + (info + (sizes + (group.padding + (ranges + group.trailing))))
  {
    hide WriteWord, EncodeRanges;
  }

  lemma JoinedSix(bs: seq<byte>, a: nat, b: nat, c: nat, d: nat, e: nat, f: nat, g: nat)
    requires a <= b <= c <= d <= e <= f <= g <= |bs|
    ensures bs[a..g] == bs[a..b] + (bs[b..c] + (bs[c..d] + (bs[d..e] + (bs[e..f] + bs[f..g]))))
  {
    Joined(bs, a, b, g);
    Joined(bs, b, c, g);
    Joined(bs, c, d, g);
    Joined(bs, d, e, g);
    Joined(bs, e, f, g);
  }

  /** Where the parts of the set come from. */
  lemma SetFields(s: Section, at: nat)
    requires ReadSet(s, at).Success? && ReadSet(s, at).value.1 <= |s.bytes|
    ensures ReadHeader(s, at).Success? && ReadAreaLength(s, at).Success?
    ensures var h, group := ReadHeader(s, at).value, SetAt(s, at);
            var tuples := ReadTuples(s, h.tuples, h.addressSize, h.addressSize);
            && tuples.Success? && h.area.next + 4 + h.area.lengthSize <= h.tuples <= tuples.value.1 <= ReadSet(s, at).value.1
            && ReadSet(s, at).value.1 == h.area.next + h.area.length && ReadAreaLength(s, at).value == h.area
            && group.format == FormatAt(s, at) && group.infoOffset == h.infoOffset && group.addressSize == h.addressSize
            && group.padding == s.bytes[h.area.next + 4 + h.area.lengthSize..h.tuples]
            && group.ranges == RangesOf(tuples.value.0) && group.trailing == s.bytes[tuples.value.1..ReadSet(s, at).value.1]
  {
    SetParts(s, at);
    hide ReadHeader, ReadTuples, ReadSet, ReadAreaLength, FormatAt, RangesOf;
  }

  lemma BodyIsEncoding(s: Section, at: nat)
    requires ReadSet(s, at).Success? && ReadSet(s, at).value.1 <= |s.bytes|
    ensures at <= ReadHeader(s, at).value.area.next <= ReadSet(s, at).value.1
    ensures s.bytes[ReadHeader(s, at).value.area.next..ReadSet(s, at).value.1] == EncodeBody(SetAt(s, at), s.bigEndian)
  {
    hide *;
    SetFields(s, at);
    HeaderIsEncoding(s, at);
    EncodedArea(s, at);
    var h := ReadHeader(s, at).value;
    var p, size := h.area.next, h.area.lengthSize;
    var end, next := ReadTuples(s, h.tuples, h.addressSize, h.addressSize).value.1, ReadSet(s, at).value.1;
    TuplesAreEncoding(s, h.tuples, h.addressSize);
    JoinedSix(s.bytes, p, p + 2, p + 2 + size, p + 4 + size, h.tuples, end, next);
    BodyIs(SetAt(s, at), s.bigEndian, s.bytes[p..p + 2], s.bytes[p + 2..p + 2 + size],
           s.bytes[p + 2 + size..p + 4 + size], s.bytes[h.tuples..end]);
  }

  lemma SetIsWellFormed(s: Section, at: nat)
    requires ReadSet(s, at).Success? && ReadSet(s, at).value.1 <= |s.bytes|
    ensures WellFormed(SetAt(s, at), s.infoSize, s.bigEndian)
  {
    SetFields(s, at);
    HeaderIsEncoding(s, at);
    EncodedArea(s, at);
    BodyIsEncoding(s, at);
    var h := ReadHeader(s, at).value;
    TuplesAreEncoding(s, h.tuples, h.addressSize);
    assert |s.bytes[h.area.next..ReadSet(s, at).value.1]| == h.area.length;
    hide ReadHeader, ReadTuples, ReadSet, ReadAreaLength, FormatAt, RangesOf, SetAt, EncodeBody, LengthField, RangeFits;
    hide Pow2, Padding, ReadWord, WriteWord, EncodeRanges;
  }

  /** A set that can be read is the encoding of a well-formed one, from its place to where the next one stands. */
  lemma SetIsEncoding(s: Section, at: nat)
    requires ReadSet(s, at).Success? && ReadSet(s, at).value.1 <= |s.bytes|
    ensures at < ReadSet(s, at).value.1 && WellFormed(SetAt(s, at), s.infoSize, s.bigEndian)
    ensures s.bytes[at..ReadSet(s, at).value.1] == EncodeSet(SetAt(s, at), s.bigEndian)
  {
    hide *;
    SetIsWellFormed(s, at);
    SetFields(s, at);
    EncodedArea(s, at);
    BodyIsEncoding(s, at);
    Joined(s.bytes, at, ReadHeader(s, at).value.area.next, ReadSet(s, at).value.1);
    TwoHalves(SetAt(s, at), s.bigEndian);
  }

  lemma TwoHalves(group: Set, bigEndian: bool)
    ensures EncodeSet(group, bigEndian)
         == LengthField(group.format, |EncodeBody(group, bigEndian)|, bigEndian) + EncodeBody(group, bigEndian)
  {
    hide EncodeBody, LengthField;
  }

  /** The sets that a sweep comes to. */
  function SetsAt(s: Section, at: nat): seq<Set>
    requires Sweep(s, at).Success?
    decreases |s.bytes| - at
  {
    var next := ReadSet(s, at).value.1;
    [SetAt(s, at)] + if next < |s.bytes| then SetsAt(s, next) else []
  }

  lemma {:induction false} SweepIsEncoding(s: Section, at: nat)
    requires at <= |s.bytes| && Sweep(s, at).Success?
    ensures SetsAt(s, at) != [] && AllWellFormed(SetsAt(s, at), s.infoSize, s.bigEndian)
    ensures s.bytes[at..] == EncodeSets(SetsAt(s, at), s.bigEndian)
    decreases |s.bytes| - at
  {
    hide ReadSet, SetAt, WellFormed, EncodeSet;
    SetIsEncoding(s, at);
    var sets, next := SetsAt(s, at), ReadSet(s, at).value.1;
    Joined(s.bytes, at, next, |s.bytes|);
    assert s.bytes[next..|s.bytes|] == s.bytes[next..];
    if next < |s.bytes| {
      SweepIsEncoding(s, next);
      assert sets[1..] == SetsAt(s, next);
    } else {
      assert sets[1..] == [];
    }
  }

  /** The sweep accepts exactly the encodings of non-empty lists of well-formed sets, and lists their ranges. */
  lemma SweepIsDecoding(s: Section)
    ensures Sweep(s, 0).Success? <==>
            exists sets :: sets != [] && AllWellFormed(sets, s.infoSize, s.bigEndian) && s.bytes == EncodeSets(sets, s.bigEndian)
    ensures forall sets | sets != [] && AllWellFormed(sets, s.infoSize, s.bigEndian) && s.bytes == EncodeSets(sets, s.bigEndian)
              :: Sweep(s, 0) == Success(AllAranges(sets))
  {
    hide *;
    assert s.bytes[0..] == s.bytes;
    if Sweep(s, 0).Success? {
      SweepIsEncoding(s, 0);
    }
    forall sets | sets != [] && AllWellFormed(sets, s.infoSize, s.bigEndian) && s.bytes == EncodeSets(sets, s.bigEndian)
      ensures Sweep(s, 0) == Success(AllAranges(sets))
    {
      SweepRoundTrip(s, 0, sets);
    }
  }

  // ----- tuples by their places, and the errors of a header

  /** Where the i-th of some tuples stands. */
  function Place(p: nat, i: nat, a: nat, l: nat): nat { p + i * (a + l) }

  lemma NextPlace(p: nat, i: nat, a: nat, l: nat)
    ensures Place(p, 0, a, l) == p && Place(p + a + l, i, a, l) == Place(p, i + 1, a, l)
  {
    var size := a + l;
    assert (i + 1) * size == i * size + size;
  }

  ghost predicate InSection(s: Section, at: nat, a: nat, l: nat) { at + a + l <= |s.bytes| }

  ghost predicate ZerosAt(s: Section, at: nat, a: nat, l: nat) {
    InSection(s, at, a, l) && s.Word(at, a) == 0 && s.Word(at + a, l) == 0
  }

  /** A tuple other than zeros, as it is stored. */
  ghost predicate TupleAt(s: Section, at: nat, a: nat, l: nat, t: Tuple) {
    InSection(s, at, a, l) && t == Tuple(s.Word(at, a), s.Word(at + a, l), at) && !ZerosAt(s, at, a, l)
  }

  /** Tuples of any two widths: those from p on, one behind the other, up to the first zeros. They can be read
      exactly when there are zeros at such a place, and no width is above eight. */
  lemma {:induction false} TuplesByPlace(s: Section, p: nat, a: nat, l: nat)
    requires a > 0
    ensures ReadTuples(s, p, a, l).Success? <==> a <= 8 && l <= 8 && exists n: nat :: ZerosAt(s, Place(p, n, a, l), a, l)
    ensures ReadTuples(s, p, a, l).Success? ==>
              var (tuples, end) := ReadTuples(s, p, a, l).value;
              && (forall i :: 0 <= i < |tuples| ==> TupleAt(s, Place(p, i, a, l), a, l, tuples[i]))
              && ZerosAt(s, Place(p, |tuples|, a, l), a, l) && end == Place(p, |tuples|, a, l) + a + l
    ensures ReadTuples(s, p, a, l).Failure? ==> ReadTuples(s, p, a, l) == Failure(OutOfSection)
    decreases |s.bytes| - p
  {
    hide ReadWord, Place;
    var next, r := p + a + l, ReadTuples(s, p, a, l);
    NextPlace(p, 0, a, l);
    forall n: nat ensures Place(next, n, a, l) == Place(p, n + 1, a, l) { NextPlace(p, n, a, l); }
    if !InSection(s, p, a, l) {
      forall n: nat ensures !ZerosAt(s, Place(p, n, a, l), a, l) { PlaceBehind(p, n, a, l); }
    } else if a <= 8 && l <= 8 && !ZerosAt(s, p, a, l) {
      TuplesByPlace(s, next, a, l);
      var rest := ReadTuples(s, next, a, l);
      if n: nat :| ZerosAt(s, Place(p, n, a, l), a, l) {
        assert ZerosAt(s, Place(next, n - 1, a, l), a, l);
      }
      if rest.Success? {
        forall i | 0 < i < |r.value.0| ensures TupleAt(s, Place(p, i, a, l), a, l, r.value.0[i]) {
          assert r.value.0[i] == rest.value.0[i - 1] && Place(next, i - 1, a, l) == Place(p, i, a, l);
        }
      }
    }
  }

  lemma PlaceBehind(p: nat, n: nat, a: nat, l: nat)
    ensures Place(p, n, a, l) >= p
  {
  }

  /** The length field, the version, the offset into .debug_info and the two sizes. */
  function HeaderBytes(f: Format, length: nat, version: nat, info: nat, addressSize: byte, segmentSize: byte, big: bool): seq<byte> {
    LengthField(f, length, big) + (WriteWord(version, 2, big) + (WriteWord(info, f.OffsetSize(), big) + [addressSize, segmentSize]))
  }

  /** Any header that lies in the section: the first of its fields that is wrong makes the error. */
  lemma HeaderErrors(s: Section, at: nat, f: Format, length: nat, version: nat, info: nat, addressSize: byte, segmentSize: byte)
    requires f.Holds(length, s.bigEndian) && version < Pow2(16) && info < Pow2(8 * f.OffsetSize())
    requires Holds(s.bytes, at, HeaderBytes(f, length, version, info, addressSize, segmentSize, s.bigEndian))
    ensures ReadHeader(s, at)
         == if version != 2 then Failure(VersionStamp)
            else if info >= s.infoSize then Failure(OffsetBad)
            else if segmentSize != 0 then Failure(SegmentSizeBad)
            else if addressSize == 0 then Failure(OutOfSection)
            else
              var header := f.FieldSize() + 4 + f.OffsetSize();
              Success(Header(Area(length, f.OffsetSize(), at + f.FieldSize()), info, addressSize,
                             at + header + Padding(header, addressSize)))
  {
    hide WriteWord, LengthField, Holds, ReadAreaLength, ReadWord, Padding, Pow2;
    var big, p := s.bigEndian, at + f.FieldSize();
    var first, second := WriteWord(version, 2, big), WriteWord(info, f.OffsetSize(), big);
    var sizes: seq<byte> := [addressSize, segmentSize];
    HoldsSplit(s.bytes, at, LengthField(f, length, big), first + (second + sizes));
    HoldsSplit(s.bytes, p, first, second + sizes);
    HoldsSplit(s.bytes, p + 2, second, sizes);
    ReadAreaWritten(s, at, f, length);
    ReadWritten(s.bytes, p, version, 2, big);
    ReadWritten(s.bytes, p + 2, info, f.OffsetSize(), big);
    HoldsTwo(s.bytes, p + 2 + f.OffsetSize(), addressSize, segmentSize);
  }

  // ----- words, byte by byte

  lemma TwoBytes(s: Section, at: nat)
    requires at + 2 <= |s.bytes|
    ensures s.Word(at, 2)
         == s.bytes[if s.bigEndian then at + 1 else at] as nat + 256 * s.bytes[if s.bigEndian then at else at + 1] as nat
  {
    var x, y := s.bytes[at], s.bytes[at + 1];
    assert s.bytes[at..at + 2] == [x, y] && Reverse([x, y]) == [y, x];
    TwoValues(x, y);
    TwoValues(y, x);
    hide FromBytes;
  }

  lemma TwoValues(x: byte, y: byte)
    ensures FromBytes([x, y]) == x as nat + 256 * y as nat
  {
    var one: seq<byte> := [y];
    assert one[1..] == [] && FromBytes([]) == 0;
    assert FromBytes(one) == y as nat;
    assert [x, y][1..] == one;
  }

  lemma FourBytes(s: Section, at: nat)
    requires at + 4 <= |s.bytes|
    ensures s.Word(at, 4)
         == if s.bigEndian then s.Word(at + 2, 2) + 0x1_0000 * s.Word(at, 2) else s.Word(at, 2) + 0x1_0000 * s.Word(at + 2, 2)
  {
    var bs := InOrder(s.bytes[at..at + 4], s.bigEndian);
    var first, second := InOrder(s.bytes[at..at + 2], s.bigEndian), InOrder(s.bytes[at + 2..at + 4], s.bigEndian);
    assert bs == if s.bigEndian then second + first else first + second;
    assert bs[..2] == if s.bigEndian then second else first;
    assert bs[2..] == if s.bigEndian then first else second;
    hide FromBytes;
    FourValues(bs);
  }

  lemma FourValues(bs: seq<byte>)
    requires |bs| == 4
    ensures FromBytes(bs) == FromBytes(bs[..2]) + 0x1_0000 * FromBytes(bs[2..])
  {
    assert bs[1..][1..] == bs[2..] && bs[..2] == [bs[0], bs[1]];
    TwoValues(bs[0], bs[1]);
    OneByteMore(bs);
    OneByteMore(bs[1..]);
    hide FromBytes;
  }

  lemma OneByteMore(bs: seq<byte>)
    requires bs != []
    ensures FromBytes(bs) == bs[0] as nat + 256 * FromBytes(bs[1..])
  {
  }

  /** A 32-bit set with 2-byte addresses, whose header needs no padding, and the range from 16 to 20. */
  const ALIGNED: seq<byte> := [16, 0, 0, 0, 2, 0, 0, 0, 0, 0, 2, 0, 16, 0, 4, 0, 0, 0, 0, 0]

  /** Its bytes in the other order. */
  const BIG_ALIGNED: seq<byte> := [0, 0, 0, 16, 0, 2, 0, 0, 0, 0, 2, 0, 0, 16, 0, 4, 0, 0, 0, 0]

  lemma AlignedSet()
    ensures Sweep(Section(ALIGNED, 1, false), 0) == Success([Arange(16, 4, 0)])
    ensures Sweep(Section(BIG_ALIGNED, 1, true), 0) == Success([Arange(16, 4, 0)])
  {
    hide *;
    LittleWords(Section(ALIGNED, 1, false));
    BigWords(Section(BIG_ALIGNED, 1, true));
    ListsAligned(Section(ALIGNED, 1, false));
    ListsAligned(Section(BIG_ALIGNED, 1, true));
  }

  ghost predicate Aligned(s: Section) {
    && |s.bytes| == 20 && s.infoSize == 1 && s.bytes[10] == 2 && s.bytes[11] == 0
    && s.Word(0, 4) == 16 && s.Word(4, 2) == 2 && s.Word(6, 4) == 0
    && s.Word(12, 2) == 16 && s.Word(14, 2) == 4 && s.Word(16, 2) == 0 && s.Word(18, 2) == 0
  }

  lemma LittleWords(s: Section)
    requires s == Section(ALIGNED, 1, false)
    ensures Aligned(s)
  {
    hide ReadWord;
    TwoBytes(s, 0);
    TwoBytes(s, 2);
    TwoBytes(s, 4);
    TwoBytes(s, 6);
    TwoBytes(s, 8);
    TwoBytes(s, 12);
    TwoBytes(s, 14);
    TwoBytes(s, 16);
    TwoBytes(s, 18);
    FourBytes(s, 0);
    FourBytes(s, 6);
  }

  lemma BigWords(s: Section)
    requires s == Section(BIG_ALIGNED, 1, true)
    ensures Aligned(s)
  {
    hide ReadWord;
    TwoBytes(s, 0);
    TwoBytes(s, 2);
    TwoBytes(s, 4);
    TwoBytes(s, 6);
    TwoBytes(s, 8);
    TwoBytes(s, 12);
    TwoBytes(s, 14);
    TwoBytes(s, 16);
    TwoBytes(s, 18);
    FourBytes(s, 0);
    FourBytes(s, 6);
  }

  lemma ListsAligned(s: Section)
    requires Aligned(s)
    ensures Sweep(s, 0) == Success([Arange(16, 4, 0)])
  {
    hide ReadWord;
    assert ReadHeader(s, 0) == Success(Header(Area(16, 4, 4), 0, 2, 12));
    AlignedTuples(s);
    assert Aranges([Tuple(16, 4, 12)], 0) == [Arange(16, 4, 0)];
  }

  lemma AlignedTuples(s: Section)
    requires Aligned(s)
    ensures ReadTuples(s, 12, 2, 2) == Success(([Tuple(16, 4, 12)], 20))
  {
    hide ReadWord;
    assert ReadTuples(s, 16, 2, 2) == Success(([], 20));
    assert [Tuple(16, 4, 12)] + [] == [Tuple(16, 4, 12)];
  }
}
