/** The two sweeps over .debug_aranges as libdwarf runs them: a moving pointer, a length that is
    counted down, and a chain of ranges that is copied into a block at the end. */
module ArangeReader {
  import opened Bits
  import opened ArangeSets

  // ----- the chain

  class Link<T> {
    var item: T
    var next: Link?<T>

    constructor (item: T)
      ensures this.item == item && next == null
    {
      this.item, this.next := item, null;
    }
  }

  /** A singly linked list built at its end, and the items on it. */
  class Chain<T> {
    var head: Link?<T>
    var prev: Link?<T>
    var count: nat
    ghost var repr: set<Link<T>>
    ghost var links: seq<Link<T>>
    ghost var items: seq<T>

    ghost predicate Valid()
      reads this, repr
    {
      && (forall link <- links :: link in repr)
      && count == |links| == |items|
      && (forall i :: 0 <= i < |links| ==> links[i].item == items[i])
      && (forall i :: 0 <= i < |links| - 1 ==> links[i].next == links[i + 1])
      && (forall i, j :: 0 <= i < j < |links| ==> links[i] != links[j])
      && (if links == [] then head == null
          else head == links[0] && prev == links[|links| - 1] && prev.next == null)
    }

    constructor ()
      ensures Valid() && items == [] && repr == {}
    {
      head, prev, count, repr, links, items := null, null, 0, {}, [], [];
    }

    /** `if head is NULL then head = prev = curr, else prev.next = curr and prev = curr` */
    method Append(item: T)
      requires Valid()
      modifies this, repr
      ensures Valid() && items == old(items) + [item] && fresh(repr - old(repr))
    {
      var curr := new Link(item);
      if head == null {
        head := curr;
        prev := curr;
      } else {
        prev.next := curr;
        prev := curr;
      }
      count := count + 1;
      repr, links := repr + {curr}, links + [curr];
      items := items + [item];
    }

    /** Following the chain from its head copies the items in order. */
    method ToSeq() returns (block: seq<T>)
      requires Valid()
      ensures block == items
    {
      var curr := head;
      block := [];
      var i := 0;
      while i < count
        invariant i <= count && block == items[..i]
        invariant i < count ==> curr == links[i]
      {
        block := block + [curr.item];
        curr := curr.next;
        i := i + 1;
      }
    }
  }

  // ----- the part the sweeps share

  /** A set's header; `length` is left counting the bytes from the first tuple on, modulo 2^64. */
  method ReadSetHeader(s: Section, headerPtr: nat) returns (r: Result<Header>, length: nat)
    ensures r == ReadHeader(s, headerPtr)
    ensures r.Success? ==> length == (r.value.area.length - (r.value.tuples - r.value.area.next)) % TWO_64
  {
    hide ReadAreaLength, ReadWord;
    length := 0;
    var area := ReadAreaLength(s, headerPtr);
    if area.Failure? { return Failure(area.error), 0; }
    var lengthSize := area.value.lengthSize;
    var arangePtr := area.value.next;
    ghost var taken := 0;
    length := area.value.length % TWO_64;

    if arangePtr + 2 > |s.bytes| { return Failure(OutOfSection), 0; }
    var version := s.Word(arangePtr, 2);
    arangePtr, length := arangePtr + 2, CountDown(area.value.length, 0, length, 2);
    if version != CURRENT_VERSION_STAMP { return Failure(VersionStamp), 0; }

    if arangePtr + lengthSize > |s.bytes| { return Failure(OutOfSection), 0; }
    var infoOffset := s.Word(arangePtr, lengthSize);
    arangePtr, length := arangePtr + lengthSize, CountDown(area.value.length, 2, length, lengthSize);
    if infoOffset >= s.infoSize { return Failure(OffsetBad), 0; }

    if arangePtr + 2 > |s.bytes| { return Failure(OutOfSection), 0; }
    var addressSize := s.bytes[arangePtr];
    arangePtr, length := arangePtr + 1, CountDown(area.value.length, 2 + lengthSize, length, 1);
    var segmentSize := s.bytes[arangePtr];
    arangePtr, length := arangePtr + 1, CountDown(area.value.length, 3 + lengthSize, length, 1);
    if segmentSize != 0 { return Failure(SegmentSizeBad), 0; }

    if addressSize == 0 { return Failure(OutOfSection), 0; }
    var remainder := (arangePtr - headerPtr) % (2 * addressSize);
    if remainder != 0 {
      arangePtr, length := arangePtr + 2 * addressSize - remainder,
                           CountDown(area.value.length, 4 + lengthSize, length, 2 * addressSize - remainder);
    }
    return Success(Header(area.value, infoOffset, addressSize, arangePtr)), length;
  }

  /** `length = length - n` in 64 bits, when `taken` bytes have been counted off already. */
  function CountDown(ghost whole: nat, ghost taken: nat, length: nat, n: nat): (rest: nat)
    requires length == (whole - taken) % TWO_64
    ensures rest == (whole - (taken + n)) % TWO_64
  {
    CountDownMod(whole - taken, n);
    (length - n) % TWO_64
  }

  lemma CountDownMod(x: int, n: nat)
    ensures (x % TWO_64 - n) % TWO_64 == (x - n) % TWO_64
  {
    assert x == x / TWO_64 * TWO_64 + x % TWO_64;
  }

  // ----- dwarf_get_aranges

  /** What a read of tuples gives once `done` have been read before it. */
  ghost function After(done: seq<Tuple>, rest: Result<(seq<Tuple>, nat)>): Result<(seq<Tuple>, nat)> {
    match rest
    case Failure(e) => Failure(e)
    case Success((tuples, end)) => Success((done + tuples, end))
  }

  /** One step of ReadTuples, put behind what is done. */
  lemma AfterOne(s: Section, done: seq<Tuple>, p: nat, a: nat, l: nat)
    requires 0 < a <= 8 && l <= 8 && p + a + l <= |s.bytes|
    ensures var address, length := s.Word(p, a), s.Word(p + a, l);
            After(done, ReadTuples(s, p, a, l)) ==
            if address == 0 && length == 0 then Success((done, p + a + l))
            else After(done + [Tuple(address, length, p)], ReadTuples(s, p + a + l, a, l))
  {
    hide ReadWord;
    var rest := ReadTuples(s, p + a + l, a, l);
    assert done + [] == done;
    if rest.Success? {
      var t := Tuple(s.Word(p, a), s.Word(p + a, l), p);
      assert done + ([t] + rest.value.0) == done + [t] + rest.value.0;
    }
  }

  /** The inner loop: tuples are chained until the pair of zeros, which ends the set. */
  method ChainTuples(s: Section, ptr: nat, addressSize: nat, infoOffset: nat, chain: Chain<Arange>)
    returns (r: Result<nat>)
    requires addressSize > 0 && chain.Valid()
    modifies chain, chain.repr
    ensures chain.Valid() && fresh(chain.repr - old(chain.repr))
    ensures match ReadTuples(s, ptr, addressSize, addressSize)
            case Failure(e) => r == Failure(e)
            case Success((tuples, end)) => r == Success(end) && chain.items == old(chain.items) + Aranges(tuples, infoOffset)
  {
    hide ReadWord, ReadTuples;
    var arangePtr := ptr;
    ghost var done := [];
    AfterNone(ReadTuples(s, ptr, addressSize, addressSize));
    while true
      invariant chain.Valid() && fresh(chain.repr - old(chain.repr))
      invariant ReadTuples(s, ptr, addressSize, addressSize)
                == After(done, ReadTuples(s, arangePtr, addressSize, addressSize))
      invariant chain.items == old(chain.items) + Aranges(done, infoOffset)
      decreases |s.bytes| - arangePtr
    {
      if addressSize > 8 || arangePtr + 2 * addressSize > |s.bytes| {
        TuplesOutside(s, arangePtr, addressSize, addressSize);
        return Failure(OutOfSection);
      }
      AfterOne(s, done, arangePtr, addressSize, addressSize);
      var rangeAddress := s.Word(arangePtr, addressSize);
      var rangeLength := s.Word(arangePtr + addressSize, addressSize);
      ghost var tuple := Tuple(rangeAddress, rangeLength, arangePtr);
      arangePtr := arangePtr + addressSize + addressSize;
      if rangeAddress == 0 && rangeLength == 0 {
        return Success(arangePtr);
      }
      chain.Append(Arange(rangeAddress, rangeLength, infoOffset));
      assert Aranges(done + [tuple], infoOffset)
          == Aranges(done, infoOffset) + [Arange(rangeAddress, rangeLength, infoOffset)];
      done := done + [tuple];
    }
  }

  lemma AfterNone(rest: Result<(seq<Tuple>, nat)>)
    ensures After([], rest) == rest
  {
    if rest.Success? { assert [] + rest.value.0 == rest.value.0; }
  }

  lemma TuplesOutside(s: Section, p: nat, a: nat, l: nat)
    requires 0 < a && (a > 8 || l > 8 || p + a + l > |s.bytes|)
    ensures ReadTuples(s, p, a, l) == Failure(OutOfSection)
  {
  }

  /** What a sweep gives once the sets before `at` have been read. */
  ghost function AfterSets<T>(done: seq<T>, rest: Result<seq<T>>): Result<seq<T>> {
    match rest
    case Failure(e) => Failure(e)
    case Success(more) => Success(done + more)
  }

  /** One turn of the outer loop. */
  lemma AfterSet(s: Section, done: seq<Arange>, at: nat)
    ensures AfterSets(done, Sweep(s, at)) ==
            match ReadSet(s, at)
            case Failure(e) => Failure(e)
            case Success((group, next)) =>
              if next < |s.bytes| then AfterSets(done + group, Sweep(s, next))
              else if next == |s.bytes| then Success(done + group)
              else Failure(DecodeError)
  {
    hide ReadSet;
    if ReadSet(s, at).Success? && ReadSet(s, at).value.1 < |s.bytes| {
      var group, rest := ReadSet(s, at).value.0, Sweep(s, ReadSet(s, at).value.1);
      if rest.Success? { assert done + (group + rest.value) == done + group + rest.value; }
    }
  }

  /** dwarf_get_aranges: all ranges of the section, in order, each with its set's info offset. */
  method DwarfGetAranges(s: Section) returns (r: Result<seq<Arange>>)
    ensures r == Sweep(s, 0)
  {
    hide ReadHeader, ReadTuples, Sweep, ReadSet;
    var chain := new Chain<Arange>();
    var arangePtr := 0;
    assert AfterSets([], Sweep(s, 0)) == Sweep(s, 0) by { NothingBefore(Sweep(s, 0)); }
    while true
      invariant chain.Valid() && fresh(chain) && fresh(chain.repr)
      invariant Sweep(s, 0) == AfterSets(chain.items, Sweep(s, arangePtr))
      decreases |s.bytes| - arangePtr
    {
      AfterSet(s, chain.items, arangePtr);
      SetUnfolds(s, arangePtr);
      var header, _ := ReadSetHeader(s, arangePtr);
      if header.Failure? { return Failure(header.error); }
      var h := header.value;
      var arangePtrPastEnd := h.area.next + h.area.length;
      var end := ChainTuples(s, h.tuples, h.addressSize, h.infoOffset, chain);
      if end.Failure? { return Failure(end.error); }
      if arangePtrPastEnd < end.value { return Failure(LengthBad); }
      arangePtr := arangePtrPastEnd;
      if arangePtr >= |s.bytes| { break; }
    }
    if arangePtr != |s.bytes| { return Failure(DecodeError); }
    var block := chain.ToSeq();
    return Success(block);
  }

  lemma NothingBefore<T>(rest: Result<seq<T>>)
    ensures AfterSets([], rest) == rest
  {
    if rest.Success? { assert [] + rest.value == rest.value; }
  }

  // ----- _dwarf_get_aranges_addr_offsets

  /** Ranges chained with the place of each instead of its set's info offset. */
  ghost function Placed(tuples: seq<Tuple>): (r: seq<Arange>)
    ensures |r| == |tuples|
  {
    seq(|tuples|, i requires 0 <= i < |tuples| => Arange(tuples[i].address, tuples[i].length, tuples[i].at))
  }

  /** The inner loop; `length` is the count of bytes that the set still has. */
  method ChainPlaces(s: Section, ptr: nat, pointerSize: nat, lengthSize: nat, ghost whole: nat, ghost start: nat,
                     lengthIn: nat, chain: Chain<Arange>)
    returns (r: Result<nat>, length: nat)
    requires pointerSize > 0 && chain.Valid() && lengthIn == (whole - (ptr - start)) % TWO_64 && start <= ptr
    modifies chain, chain.repr
    ensures chain.Valid() && fresh(chain.repr - old(chain.repr))
    ensures var read := ReadTuples(s, ptr, pointerSize, lengthSize);
            && (read.Failure? ==> r == Failure(read.error))
            && (read.Success? ==> r == Success(read.value.1)
                                  && length == (whole - (read.value.1 - start)) % TWO_64
                                  && chain.items == old(chain.items) + Placed(read.value.0))
  {
    hide ReadWord, ReadTuples;
    var arangePtr := ptr;
    length := lengthIn;
    ghost var done := [];
    AfterNone(ReadTuples(s, ptr, pointerSize, lengthSize));
    while true
      invariant chain.Valid() && fresh(chain.repr - old(chain.repr))
      invariant start <= arangePtr && length == (whole - (arangePtr - start)) % TWO_64
      invariant ReadTuples(s, ptr, pointerSize, lengthSize)
                == After(done, ReadTuples(s, arangePtr, pointerSize, lengthSize))
      invariant chain.items == old(chain.items) + Placed(done)
      decreases |s.bytes| - arangePtr
    {
      if pointerSize > 8 || lengthSize > 8 || arangePtr + pointerSize + lengthSize > |s.bytes| {
        TuplesOutside(s, arangePtr, pointerSize, lengthSize);
        return Failure(OutOfSection), length;
      }
      AfterOne(s, done, arangePtr, pointerSize, lengthSize);
      var arangeStartPtr := arangePtr;
      var rangeAddress := s.Word(arangePtr, pointerSize);
      length := CountDown(whole, arangePtr - start, length, pointerSize);
      arangePtr := arangePtr + pointerSize;
      var rangeLength := s.Word(arangePtr, lengthSize);
      length := CountDown(whole, arangePtr - start, length, lengthSize);
      arangePtr := arangePtr + lengthSize;
      if rangeAddress == 0 && rangeLength == 0 {
        return Success(arangePtr), length;
      }
      chain.Append(Arange(rangeAddress, rangeLength, arangeStartPtr));
      ghost var tuple := Tuple(rangeAddress, rangeLength, arangeStartPtr);
      assert Placed(done + [tuple]) == Placed(done) + [Arange(rangeAddress, rangeLength, arangeStartPtr)];
      done := done + [tuple];
    }
  }

  /** One turn of the outer loop. */
  lemma AfterSetOffsets(s: Section, done: seq<Tuple>, at: nat, pointerSize: nat)
    requires pointerSize > 0
    ensures AfterSets(done, SweepOffsets(s, at, pointerSize)) ==
            match ReadSetOffsets(s, at, pointerSize)
            case Failure(e) => Failure(e)
            case Success((group, next)) =>
              if next < |s.bytes| then AfterSets(done + group, SweepOffsets(s, next, pointerSize))
              else Success(done + group)
  {
    hide ReadSetOffsets;
    var one := ReadSetOffsets(s, at, pointerSize);
    if one.Success? && one.value.1 < |s.bytes| {
      var rest := SweepOffsets(s, one.value.1, pointerSize);
      if rest.Success? { assert done + (one.value.0 + rest.value) == done + one.value.0 + rest.value; }
    }
  }

  /** The last loop: the chain is copied into two arrays. */
  method CopyPlaces(chain: Chain<Arange>) returns (addrs: seq<nat>, offsets: seq<nat>)
    requires chain.Valid()
    ensures |addrs| == |offsets| == |chain.items|
    ensures forall i :: 0 <= i < |addrs| ==>
              addrs[i] == chain.items[i].address && offsets[i] == chain.items[i].infoOffset
  {
    var curr := chain.head;
    addrs, offsets := [], [];
    var i := 0;
    while i < chain.count
      invariant i <= chain.count && |addrs| == |offsets| == i
      invariant i < chain.count ==> curr == chain.links[i]
      invariant forall j :: 0 <= j < i ==>
                  addrs[j] == chain.items[j].address && offsets[j] == chain.items[j].infoOffset
    {
      addrs, offsets := addrs + [curr.item.address], offsets + [curr.item.infoOffset];
      curr := curr.next;
      i := i + 1;
    }
  }

  /** _dwarf_get_aranges_addr_offsets: the addresses of all ranges and the places where they are stored. */
  method DwarfGetArangesAddrOffsets(s: Section, pointerSize: nat) returns (r: Result<(seq<nat>, seq<nat>)>)
    requires pointerSize > 0
    ensures var swept := SweepOffsets(s, 0, pointerSize);
            && (swept.Failure? ==> r == Failure(swept.error))
            && (swept.Success? ==> r.Success? && |r.value.0| == |r.value.1| == |swept.value|
                                   && forall i :: 0 <= i < |swept.value| ==>
                                        r.value.0[i] == swept.value[i].address && r.value.1[i] == swept.value[i].at)
  {
    hide ReadHeader, ReadTuples, SweepOffsets, ReadSetOffsets;
    var chain := new Chain<Arange>();
    var arangePtr := 0;
    ghost var done := [];
    NothingBefore(SweepOffsets(s, 0, pointerSize));
    while true
      invariant chain.Valid() && fresh(chain) && fresh(chain.repr)
      invariant chain.items == Placed(done)
      invariant SweepOffsets(s, 0, pointerSize) == AfterSets(done, SweepOffsets(s, arangePtr, pointerSize))
      decreases |s.bytes| - arangePtr
    {
      AfterSetOffsets(s, done, arangePtr, pointerSize);
      OffsetsUnfold(s, arangePtr, pointerSize);
      var header, length := ReadSetHeader(s, arangePtr);
      if header.Failure? { return Failure(header.error); }
      var h := header.value;
      ghost var read := ReadTuples(s, h.tuples, pointerSize, h.area.lengthSize);
      var end, rest := ChainPlaces(s, h.tuples, pointerSize, h.area.lengthSize, h.area.length, h.area.next, length, chain);
      if end.Failure? { return Failure(end.error); }
      if rest != 0 { return Failure(LengthBad); }
      assert Placed(done + read.value.0) == Placed(done) + Placed(read.value.0);
      done := done + read.value.0;
      arangePtr := end.value;
      if arangePtr >= |s.bytes| { break; }
    }
    if arangePtr != |s.bytes| { return Failure(DecodeError); }
    var addrs, offsets := CopyPlaces(chain);
    return Success((addrs, offsets));
  }

  // ----- dwarf_get_arange

  /** The first range whose test succeeds: the first that covers the address, of those that end below
      the end of the address space. NO_ENTRY exactly when there is none. */
  method DwarfGetArange(aranges: seq<Arange>, address: nat) returns (found: bool, r: Arange)
    requires address < TWO_64 && forall a <- aranges :: a.address < TWO_64 && a.length < TWO_64
    ensures found <==> exists a <- aranges :: Covers(a, address) && a.address + a.length < TWO_64
    ensures found ==> exists i :: 0 <= i < |aranges| && r == aranges[i]
                                  && Covers(r, address) && r.address + r.length < TWO_64
                                  && forall j :: 0 <= j < i ==> !(Covers(aranges[j], address)
                                                                  && aranges[j].address + aranges[j].length < TWO_64)
  {
    var i := 0;
    while i < |aranges|
      invariant i <= |aranges|
      invariant forall j :: 0 <= j < i ==> !(Covers(aranges[j], address)
                                             && aranges[j].address + aranges[j].length < TWO_64)
    {
      var currArange := aranges[i];
      TestIsCovers(currArange, address);
      if address >= currArange.address && address < (currArange.address + currArange.length) % TWO_64 {
        return true, currArange;
      }
      i := i + 1;
    }
    return false, Arange(0, 0, 0);
  }
}
