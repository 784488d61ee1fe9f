/** The .debug_abbrev section (DWARF 3 section 7.5.3): declarations as dwarf_get_abbrev walks them, their
    attributes as dwarf_get_abbrev_entry finds them again, and the listing dwarfdump makes of both.
    The section is mem[..size]; what lies behind it can be read too, and C knows it only afterwards. */
module Abbreviations {
  import opened Bits
  import opened Leb128

  // ----- what the two walks find

  const HALF := 0x1_0000

  /** An attribute and its form, each cut to a Dwarf_Half, and where they are encoded. */
  datatype Pair = Pair(attr: nat, form: nat, at: nat) {
    predicate Zero() { attr == 0 && form == 0 }
  }

  function ReadPair(mem: seq<byte>, p: nat): (r: Read<Pair>)
    ensures r.Ok? ==> r.size >= 2 && p + r.size <= |mem|
  {
    match ULeb(mem, p)
    case Undefined => Undefined
    case Ok(attr, n) =>
      match ULeb(mem, p + n)
      case Undefined => Undefined
      case Ok(form, m) => Ok(Pair(attr % HALF, form % HALF, p), n + m)
  }

  /** The pairs from p on, up to the pair of zeros or the first one that reaches the section's end. */
  function ReadPairs(mem: seq<byte>, size: nat, p: nat): (r: Read<seq<Pair>>)
    ensures r.Ok? ==> r.value != [] && r.size >= 2 && p + r.size <= |mem|
    decreases |mem| - p
  {
    match ReadPair(mem, p)
    case Undefined => Undefined
    case Ok(pair, n) =>
      if p + n < size && !pair.Zero() then
        match ReadPairs(mem, size, p + n)
        case Undefined => Undefined
        case Ok(rest, m) => Ok([pair] + rest, n + m)
      else Ok([pair], n)
  }

  /** The pairs whose attribute is not zero. */
  function Counted(pairs: seq<Pair>): (n: nat)
    ensures n <= |pairs|
  {
    if pairs == [] then 0 else (if pairs[0].attr != 0 then 1 else 0) + Counted(pairs[1..])
  }

  datatype Outcome<+T> = Found(value: T) | NoEntry | DecodeError | Unreadable

  /** A Dwarf_Abbrev: `pairs` is where its attributes start. */
  datatype Abbrev = Abbrev(code: nat, tag: nat, hasChild: byte, pairs: nat)

  datatype Declared = Declared(abbrev: Abbrev, length: nat, count: nat)

  /** dwarf_get_abbrev, for any bytes. */
  function GetAbbrev(mem: seq<byte>, size: nat, offset: nat): (r: Outcome<Declared>)
    ensures r.Found? ==> r.value.length >= 1 && offset + r.value.length <= size
  {
    if offset >= size then NoEntry
    else match ULeb(mem, offset)
      case Undefined => Unreadable
      case Ok(code, n) =>
        if code == 0 then Found(Declared(Abbrev(0, 0, 0, 0), 1, 0))
        else match ULeb(mem, offset + n)
          case Undefined => Unreadable
          case Ok(tag, m) =>
            if offset + n + m >= |mem| then Unreadable
            else
              var p := offset + n + m + 1;
              match ReadPairs(mem, size, p)
              case Undefined => Unreadable
              case Ok(pairs, k) =>
                if p + k > size then DecodeError
                else Found(Declared(Abbrev(code, tag, mem[p - 1], p), p + k - offset, Counted(pairs)))
  }

  /** The abbreviation is one that dwarf_get_abbrev handed out. */
  ghost predicate HandedOut(mem: seq<byte>, size: nat, abbrev: Abbrev) {
    abbrev.code != 0 ==>
      && ReadPairs(mem, size, abbrev.pairs).Ok?
      && abbrev.pairs + ReadPairs(mem, size, abbrev.pairs).size <= size
  }

  lemma FoundIsHandedOut(mem: seq<byte>, size: nat, offset: nat)
    requires GetAbbrev(mem, size, offset).Found?
    ensures HandedOut(mem, size, GetAbbrev(mem, size, offset).value.abbrev)
  {
    hide ReadPairs, ULeb;
  }

  /** The walk of a handed-out abbreviation stopped at the section's end. */
  predicate AtEnd(mem: seq<byte>, size: nat, abbrev: Abbrev)
    requires abbrev.code != 0 && HandedOut(mem, size, abbrev)
  {
    abbrev.pairs + ReadPairs(mem, size, abbrev.pairs).size == size
  }

  /** dwarf_get_abbrev_entry in terms of the first walk: the index-th pair of it, the closing zeros
      included; but the last pair, and the news that there are no more, only when the section goes on. */
  function Entry(mem: seq<byte>, size: nat, abbrev: Abbrev, index: int): Outcome<Pair>
    requires HandedOut(mem, size, abbrev)
  {
    if index < 0 || abbrev.code == 0 then NoEntry
    else
      var pairs := ReadPairs(mem, size, abbrev.pairs).value;
      if index >= |pairs| - 1 && AtEnd(mem, size, abbrev) then DecodeError
      else if index < |pairs| then Found(pairs[index])
      else NoEntry
  }

  // ----- the two walks

  method DwarfGetAbbrev(mem: seq<byte>, size: nat, offset: nat) returns (r: Outcome<Declared>)
    ensures r == GetAbbrev(mem, size, offset)
  {
    hide ULeb, ReadPairs, ReadPair;
    if offset >= size { return NoEntry; }
    var abbrevPtr := offset;
    var code := DecodeULeb(mem, abbrevPtr);
    if code.Undefined? { return Unreadable; }
    abbrevPtr := abbrevPtr + code.size;
    if code.value == 0 { return Found(Declared(Abbrev(0, 0, 0, 0), 1, 0)); }
    var tag := DecodeULeb(mem, abbrevPtr);
    if tag.Undefined? { return Unreadable; }
    abbrevPtr := abbrevPtr + tag.size;
    if abbrevPtr >= |mem| { return Unreadable; }
    var hasChild := mem[abbrevPtr];
    abbrevPtr := abbrevPtr + 1;
    var abbrev := Abbrev(code.value, tag.value, hasChild, abbrevPtr);
    var count := 0;
    ghost var all := ReadPairs(mem, size, abbrevPtr);
    while true
      invariant abbrev.pairs <= abbrevPtr
      invariant Ahead(all, abbrevPtr - abbrev.pairs, count, ReadPairs(mem, size, abbrevPtr))
      decreases |mem| - abbrevPtr
    {
      PairsUnfold(mem, size, abbrevPtr);
      var pair := DecodePair(mem, abbrevPtr);
      if pair.Undefined? { return Unreadable; }
      abbrevPtr := abbrevPtr + pair.size;
      if pair.value.attr != 0 { count := count + 1; }
      if !(abbrevPtr < size && !pair.value.Zero()) { break; }
    }
    if abbrevPtr > size { return DecodeError; }
    return Found(Declared(abbrev, abbrevPtr - offset, count));
  }

  /** The whole walk, against what is left of it when `taken` bytes with `count` attributes are behind. */
  ghost predicate Ahead(all: Read<seq<Pair>>, taken: nat, count: nat, rest: Read<seq<Pair>>) {
    && (all.Ok? <==> rest.Ok?)
    && (all.Ok? ==> all.size == taken + rest.size && Counted(all.value) == count + Counted(rest.value))
  }

  lemma PairsUnfold(mem: seq<byte>, size: nat, p: nat)
    ensures ReadPair(mem, p).Undefined? ==> ReadPairs(mem, size, p).Undefined?
    ensures ReadPair(mem, p).Ok? ==>
              var pair, n := ReadPair(mem, p).value, ReadPair(mem, p).size;
              var rest, attrs := ReadPairs(mem, size, p + n), if pair.attr != 0 then 1 else 0;
              if p + n < size && !pair.Zero() then
                && (ReadPairs(mem, size, p).Ok? <==> rest.Ok?)
                && (rest.Ok? ==> ReadPairs(mem, size, p) == Ok([pair] + rest.value, n + rest.size)
                                 && Counted([pair] + rest.value) == attrs + Counted(rest.value))
              else ReadPairs(mem, size, p) == Ok([pair], n) && Counted([pair]) == attrs
  {
    hide ReadPair;
    if ReadPair(mem, p).Ok? {
      var rest := ReadPairs(mem, size, p + ReadPair(mem, p).size);
      if rest.Ok? {
        assert ([ReadPair(mem, p).value] + rest.value)[1..] == rest.value;
      }
    }
  }

  method DecodePair(mem: seq<byte>, p: nat) returns (r: Read<Pair>)
    ensures r == ReadPair(mem, p)
  {
    hide ULeb;
    var attr := DecodeULeb(mem, p);
    if attr.Undefined? { return Undefined; }
    var form := DecodeULeb(mem, p + attr.size);
    if form.Undefined? { return Undefined; }
    return Ok(Pair(attr.value % HALF, form.value % HALF, p), attr.size + form.size);
  }

  method DwarfGetAbbrevEntry(mem: seq<byte>, size: nat, abbrev: Abbrev, givenIndex: int) returns (r: Outcome<Pair>)
    requires HandedOut(mem, size, abbrev)
    ensures r == Entry(mem, size, abbrev, givenIndex)
  {
    hide ULeb, ReadPairs, ReadPair;
    if givenIndex < 0 || abbrev.code == 0 { return NoEntry; }
    var index, abbrevPtr := givenIndex, abbrev.pairs;
    ghost var all := ReadPairs(mem, size, abbrevPtr);
    ghost var done := 0;
    var last := Pair(1, 1, 0);
    while index >= 0 && abbrevPtr < size && !last.Zero()
      invariant -1 <= index && index == givenIndex - done && done <= |all.value|
      invariant abbrev.pairs <= abbrevPtr <= size
      invariant done < |all.value| ==>
                  var rest := ReadPairs(mem, size, abbrevPtr);
                  && rest.Ok? && all.value[done..] == rest.value && all.size == abbrevPtr - abbrev.pairs + rest.size
                  && !last.Zero()
      invariant done == |all.value| ==> all.size == abbrevPtr - abbrev.pairs && (abbrevPtr < size ==> last.Zero())
      invariant done > 0 ==> last == all.value[done - 1]
      decreases index + 1
    {
      PairsUnfold(mem, size, abbrevPtr);
      var pair := DecodePair(mem, abbrevPtr);
      if pair.Undefined? { assert false; return Unreadable; }
      last := pair.value;
      abbrevPtr := abbrevPtr + pair.size;
      assert all.value[done + 1..] == all.value[done..][1..];
      done := done + 1;
      index := index - 1;
    }
    if abbrevPtr >= size { return DecodeError; }
    if index >= 0 { return NoEntry; }
    return Found(last);
  }

  // ----- counted attributes against entries

  lemma {:induction false} CountedSplit(pairs: seq<Pair>, k: nat)
    requires k <= |pairs|
    ensures Counted(pairs) == Counted(pairs[..k]) + Counted(pairs[k..])
  {
    if k > 0 {
      CountedSplit(pairs[1..], k - 1);
      assert pairs[..k][1..] == pairs[1..][..k - 1] && pairs[k..] == pairs[1..][k - 1..];
    } else {
      assert pairs[..0] == [] && pairs[0..] == pairs;
    }
  }

  lemma {:induction false} CountedExtremes(pairs: seq<Pair>)
    ensures Counted(pairs) == |pairs| <==> forall pair <- pairs :: pair.attr != 0
    ensures Counted(pairs) == 0 <==> forall pair <- pairs :: pair.attr == 0
  {
    if pairs != [] {
      CountedExtremes(pairs[1..]);
      assert pairs == [pairs[0]] + pairs[1..];
    }
  }

  /** All attributes come before the zero ones, and the walk did not end on an attribute. */
  predicate Tidy(pairs: seq<Pair>) {
    && pairs != [] && pairs[|pairs| - 1].attr == 0
    && forall i, j :: 0 <= i < j < |pairs| && pairs[j].attr != 0 ==> pairs[i].attr != 0
  }

  /** For any bytes: the indices below the count that dwarf_get_abbrev reports all name attributes exactly
      when the declaration's attributes come first and zeros close it. */
  lemma CountedEntries(mem: seq<byte>, size: nat, offset: nat)
    requires GetAbbrev(mem, size, offset).Found? && GetAbbrev(mem, size, offset).value.abbrev.code != 0
    requires HandedOut(mem, size, GetAbbrev(mem, size, offset).value.abbrev)
    ensures var d := GetAbbrev(mem, size, offset).value;
            (forall i :: 0 <= i < d.count ==> (Entry(mem, size, d.abbrev, i).Found?
                                              && Entry(mem, size, d.abbrev, i).value.attr != 0))
            <==> Tidy(ReadPairs(mem, size, d.abbrev.pairs).value)
  {
    var d := GetAbbrev(mem, size, offset).value;
    var read := ReadPairs(mem, size, d.abbrev.pairs);
    CountIs(mem, size, offset);
    OpenAtEnd(mem, size, d.abbrev.pairs);
    hide ReadPairs, GetAbbrev, ULeb, Counted;
    CountedMeans(read.value);
    assert d.count == |read.value| ==> Entry(mem, size, d.abbrev, d.count - 1).DecodeError?;
    if forall i :: 0 <= i < d.count ==> (Entry(mem, size, d.abbrev, i).Found?
                                         && Entry(mem, size, d.abbrev, i).value.attr != 0) {
      assert forall i :: 0 <= i < d.count ==> read.value[i].attr != 0 by {
        forall i | 0 <= i < d.count ensures read.value[i].attr != 0 { assert Entry(mem, size, d.abbrev, i).Found?; }
      }
    }
  }

  lemma CountIs(mem: seq<byte>, size: nat, offset: nat)
    requires GetAbbrev(mem, size, offset).Found? && GetAbbrev(mem, size, offset).value.abbrev.code != 0
    ensures var d := GetAbbrev(mem, size, offset).value;
            var read := ReadPairs(mem, size, d.abbrev.pairs);
            read.Ok? && d.count == Counted(read.value) && d.abbrev.pairs + read.size == offset + d.length <= size
  {
    hide ReadPairs, ULeb, Counted;
  }

  /** A walk that ends on a pair other than the zeros ends at the section's end or behind it. */
  lemma {:induction false} OpenAtEnd(mem: seq<byte>, size: nat, p: nat)
    requires ReadPairs(mem, size, p).Ok?
    ensures var read := ReadPairs(mem, size, p);
            read.value[|read.value| - 1].Zero() || p + read.size >= size
    decreases |mem| - p
  {
    hide ULeb, ReadPair, ReadPairs;
    PairsUnfold(mem, size, p);
    var pair := ReadPair(mem, p);
    if p + pair.size < size && !pair.value.Zero() {
      OpenAtEnd(mem, size, p + pair.size);
    }
  }

  lemma CountedBefore(pairs: seq<Pair>, n: nat)
    requires n <= |pairs|
    ensures Counted(pairs[..n]) == n <==> forall i :: 0 <= i < n ==> pairs[i].attr != 0
  {
    CountedExtremes(pairs[..n]);
    hide Counted;
    assert forall i :: 0 <= i < n ==> pairs[..n][i] == pairs[i] && pairs[i] in pairs[..n];
  }

  lemma CountedBehind(pairs: seq<Pair>, n: nat)
    requires n <= |pairs|
    ensures Counted(pairs[n..]) == 0 <==> forall i :: n <= i < |pairs| ==> pairs[i].attr == 0
  {
    CountedExtremes(pairs[n..]);
    hide Counted;
    assert forall i :: n <= i < |pairs| ==> pairs[n..][i - n] == pairs[i] && pairs[i] in pairs[n..];
  }

  /** The counted ones come first exactly when only zero ones come behind them. */
  lemma CountedFirst(pairs: seq<Pair>)
    ensures (forall i :: 0 <= i < Counted(pairs) ==> pairs[i].attr != 0)
            <==> (forall i :: Counted(pairs) <= i < |pairs| ==> pairs[i].attr == 0)
  {
    hide Counted;
    var n := Counted(pairs);
    CountedSplit(pairs, n);
    CountedBefore(pairs, n);
    CountedBehind(pairs, n);
  }

  lemma CountedMeans(pairs: seq<Pair>)
    requires pairs != []
    ensures Tidy(pairs) <==> Counted(pairs) < |pairs| && forall i :: 0 <= i < Counted(pairs) ==> pairs[i].attr != 0
    ensures Counted(pairs) == |pairs| ==> pairs[|pairs| - 1].attr != 0
  {
    hide Counted;
    CountedFirst(pairs);
    CountedExtremes(pairs);
  }

  // ----- the listing

  datatype Line =
    | NullLine(number: nat, offset: nat)
    | DeclarationLine(number: nat, offset: nat, code: nat, tag: nat, hasChild: byte, attributes: seq<Pair>)

  /** How the listing ends: at the section's end, with an error, or with a read outside of memory. */
  datatype Ending = Whole | Failed | Outside

  /** The entries print_abbrevs asks for, one for each counted attribute, and whether it gets them all: the last
      one is an error when no zeros follow it. */
  function Attributes(mem: seq<byte>, size: nat, d: Declared): (seq<Pair>, bool)
    requires HandedOut(mem, size, d.abbrev) && d.abbrev.code != 0
    requires d.count == Counted(ReadPairs(mem, size, d.abbrev.pairs).value) > 0
  {
    var pairs := ReadPairs(mem, size, d.abbrev.pairs).value;
    if d.count == |pairs| && AtEnd(mem, size, d.abbrev) then (pairs[..d.count - 1], false) else (pairs[..d.count], true)
  }

  /** All entries from `offset` on, as far as they can be read. One without attributes is listed as a null entry. */
  function Listing(mem: seq<byte>, size: nat, offset: nat, number: nat): (seq<Line>, Ending)
    decreases size - offset
  {
    match GetAbbrev(mem, size, offset)
    case NoEntry => ([], Whole)
    case DecodeError => ([], Failed)
    case Unreadable => ([], Outside)
    case Found(d) =>
      if d.count == 0 then Before(NullLine(number, offset), Listing(mem, size, offset + d.length, number + 1))
      else
        assert d.abbrev.code != 0;
        FoundIsHandedOut(mem, size, offset);
        CountIs(mem, size, offset);
        var (pairs, complete) := Attributes(mem, size, d);
        var line := DeclarationLine(number, offset, d.abbrev.code, d.abbrev.tag % HALF, d.abbrev.hasChild, pairs);
        if complete then Before(line, Listing(mem, size, offset + d.length, number + 1)) else ([line], Failed)
  }

  function Before(line: Line, rest: (seq<Line>, Ending)): (seq<Line>, Ending) { ([line] + rest.0, rest.1) }

  // ----- the encoding, as the producer writes it

  datatype Item = Null | Declaration(code: nat, tag: nat, hasChild: byte, attributes: seq<(nat, nat)>)

  /** Any attribute and form of 64 bits, unless the attribute is zero when it is cut to a Dwarf_Half. */
  predicate AttributeFits(a: (nat, nat)) { a.0 < TWO_64 && a.0 % HALF != 0 && a.1 < TWO_64 }

  predicate WellFormed(item: Item) {
    item.Declaration? ==>
      && 0 < item.code < TWO_64 && item.tag < TWO_64
      && forall a <- item.attributes :: AttributeFits(a)
  }

  function EncodePairs(attributes: seq<(nat, nat)>): (bs: seq<byte>) {
    if attributes == [] then [0, 0]
    else EncodeULeb(attributes[0].0) + EncodeULeb(attributes[0].1) + EncodePairs(attributes[1..])
  }

  function Encode(item: Item): (bs: seq<byte>)
    ensures |bs| >= 1
  {
    match item
    case Null => [0]
    case Declaration(code, tag, hasChild, attributes) =>
      EncodeULeb(code) + (EncodeULeb(tag) + ([hasChild] + EncodePairs(attributes)))
  }

  function EncodeAll(items: seq<Item>): seq<byte> {
    if items == [] then [] else Encode(items[0]) + EncodeAll(items[1..])
  }

  /** The attributes where EncodePairs puts them. */
  function Placed(attributes: seq<(nat, nat)>, p: nat): (pairs: seq<Pair>)
    ensures |pairs| == |attributes|
  {
    if attributes == [] then []
    else [Pair(attributes[0].0 % HALF, attributes[0].1 % HALF, p)]
         + Placed(attributes[1..], p + |EncodeULeb(attributes[0].0)| + |EncodeULeb(attributes[0].1)|)
  }

  /** What the listing should say: every item, at its place, with its attributes at theirs. */
  function Listed(items: seq<Item>, offset: nat, number: nat): seq<Line>
  {
    if items == [] then []
    else
      [match items[0]
       case Null => NullLine(number, offset)
       case Declaration(code, tag, hasChild, attributes) =>
         if attributes == [] then NullLine(number, offset)
         else DeclarationLine(number, offset, code, tag % HALF, hasChild,
                              Placed(attributes, offset + |EncodeULeb(code)| + |EncodeULeb(tag)| + 1))]
      + Listed(items[1..], offset + |Encode(items[0])|, number + 1)
  }

  lemma {:induction false} ReadEncodedPairs(mem: seq<byte>, size: nat, p: nat, attributes: seq<(nat, nat)>)
    requires forall a <- attributes :: AttributeFits(a)
    requires Holds(mem, p, EncodePairs(attributes)) && p + |EncodePairs(attributes)| <= size
    ensures var read := ReadPairs(mem, size, p);
            var end := p + |EncodePairs(attributes)| - 2;
            && read == Ok(Placed(attributes, p) + [Pair(0, 0, end)], end + 2 - p)
            && Counted(read.value) == |attributes|
    decreases attributes
  {
    hide ULeb, EncodeULeb, ReadPair, ReadPairs, Holds;
    PairsUnfold(mem, size, p);
    if attributes == [] {
      ReadZeros(mem, p);
      assert Placed(attributes, p) + [Pair(0, 0, p)] == [Pair(0, 0, p)];
    } else {
      var (a, f) := attributes[0];
      var rest := attributes[1..];
      assert attributes[0] in attributes && AttributeFits(attributes[0]);
      ReadOnePair(mem, p, a, f, EncodePairs(rest));
      PairsLonger(rest);
      var next := p + |EncodeULeb(a)| + |EncodeULeb(f)|;
      ReadEncodedPairs(mem, size, next, rest);
      var end := p + |EncodePairs(attributes)| - 2;
      assert Placed(attributes, p) + [Pair(0, 0, end)] == [Pair(a % HALF, f % HALF, p)] + (Placed(rest, next) + [Pair(0, 0, end)]);
    }
  }

  lemma PairsLonger(attributes: seq<(nat, nat)>)
    ensures |EncodePairs(attributes)| >= 2
  {
  }

  lemma ReadZeros(mem: seq<byte>, p: nat)
    requires Holds(mem, p, [0, 0])
    ensures ReadPair(mem, p) == Ok(Pair(0, 0, p), 2)
  {
    assert [0, 0] == EncodeULeb(0) + EncodeULeb(0);
    HoldsSplit(mem, p, EncodeULeb(0), EncodeULeb(0));
    ULebRoundTrip(mem, p, 0);
    ULebRoundTrip(mem, p + 1, 0);
  }

  lemma ReadOnePair(mem: seq<byte>, p: nat, a: nat, f: nat, rest: seq<byte>)
    requires a < TWO_64 && f < TWO_64 && Holds(mem, p, EncodeULeb(a) + EncodeULeb(f) + rest)
    ensures ReadPair(mem, p) == Ok(Pair(a % HALF, f % HALF, p), |EncodeULeb(a)| + |EncodeULeb(f)|)
    ensures Holds(mem, p + |EncodeULeb(a)| + |EncodeULeb(f)|, rest)
  {
    hide ULeb, EncodeULeb, Holds;
    HoldsSplit(mem, p, EncodeULeb(a) + EncodeULeb(f), rest);
    HoldsSplit(mem, p, EncodeULeb(a), EncodeULeb(f));
    ULebRoundTrip(mem, p, a);
    ULebRoundTrip(mem, p + |EncodeULeb(a)|, f);
  }

  /** Where an encoded declaration's attributes start, and where it ends. */
  function PairsAt(offset: nat, item: Item): nat
    requires item.Declaration?
  {
    offset + |EncodeULeb(item.code)| + |EncodeULeb(item.tag)| + 1
  }

  lemma DeclarationParts(offset: nat, item: Item)
    requires item.Declaration? && WellFormed(item)
    ensures Encode(item)
         == EncodeULeb(item.code) + (EncodeULeb(item.tag) + ([item.hasChild] + EncodePairs(item.attributes)))
    ensures PairsAt(offset, item) == offset + |EncodeULeb(item.code)| + |EncodeULeb(item.tag)| + 1
    ensures 0 < item.code < TWO_64 && item.tag < TWO_64
    ensures forall a <- item.attributes :: AttributeFits(a)
  {
    hide EncodeULeb, EncodePairs;
  }

  lemma DeclarationLayout(mem: seq<byte>, offset: nat, item: Item)
    requires item.Declaration? && WellFormed(item) && Holds(mem, offset, Encode(item))
    ensures var n, p := |EncodeULeb(item.code)|, PairsAt(offset, item);
            && p == offset + n + |EncodeULeb(item.tag)| + 1
            && Holds(mem, offset, EncodeULeb(item.code)) && Holds(mem, offset + n, EncodeULeb(item.tag))
            && p <= |mem| && mem[p - 1] == item.hasChild && Holds(mem, p, EncodePairs(item.attributes))
            && offset + |Encode(item)| == p + |EncodePairs(item.attributes)| && |EncodePairs(item.attributes)| >= 2
            && 0 < item.code < TWO_64 && item.tag < TWO_64
            && forall a <- item.attributes :: AttributeFits(a)
  {
    hide *;
    var Declaration(code, tag, hasChild, attributes) := item;
    var n, m := |EncodeULeb(code)|, |EncodeULeb(tag)|;
    PairsLonger(attributes);
    DeclarationParts(offset, item);
    HoldsSplit(mem, offset, EncodeULeb(code), EncodeULeb(tag) + ([hasChild] + EncodePairs(attributes)));
    HoldsSplit(mem, offset + n, EncodeULeb(tag), [hasChild] + EncodePairs(attributes));
    HoldsSplit(mem, offset + n + m, [hasChild], EncodePairs(attributes));
    HoldsByte(mem, offset + n + m, hasChild);
  }

  lemma ReadDeclaration(mem: seq<byte>, size: nat, offset: nat, item: Item)
    requires item.Declaration? && WellFormed(item)
    requires Holds(mem, offset, Encode(item)) && offset + |Encode(item)| <= size
    ensures var p, end := PairsAt(offset, item), offset + |Encode(item)|;
            && p + 2 <= end && ReadPairs(mem, size, p) == Ok(Placed(item.attributes, p) + [Pair(0, 0, end - 2)], end - p)
            && GetAbbrev(mem, size, offset)
               == Found(Declared(Abbrev(item.code, item.tag, item.hasChild, p), |Encode(item)|, |item.attributes|))
  {
    hide *;
    DeclarationLayout(mem, offset, item);
    ULebRoundTrip(mem, offset, item.code);
    ULebRoundTrip(mem, offset + |EncodeULeb(item.code)|, item.tag);
    ReadEncodedPairs(mem, size, PairsAt(offset, item), item.attributes);
    FoundFrom(mem, size, offset, |EncodeULeb(item.code)|, |EncodeULeb(item.tag)|);
  }

  /** dwarf_get_abbrev when its parts are known. */
  lemma FoundFrom(mem: seq<byte>, size: nat, offset: nat, n: nat, m: nat)
    requires ULeb(mem, offset).Ok? && ULeb(mem, offset).size == n && ULeb(mem, offset).value != 0
    requires ULeb(mem, offset + n).Ok? && ULeb(mem, offset + n).size == m && offset < size && offset + n + m < |mem|
    requires var p := offset + n + m + 1; ReadPairs(mem, size, p).Ok? && p + ReadPairs(mem, size, p).size <= size
    ensures GetAbbrev(mem, size, offset)
         == var p, read := offset + n + m + 1, ReadPairs(mem, size, offset + n + m + 1);
            Found(Declared(Abbrev(ULeb(mem, offset).value, ULeb(mem, offset + n).value, mem[p - 1], p),
                           p + read.size - offset, Counted(read.value)))
  {
    hide ULeb, ReadPairs, Counted;
  }

  /** An encoded item is read back: its code, tag, child flag and attribute count, and its exact length. */
  lemma ReadEncodedItem(mem: seq<byte>, size: nat, offset: nat, item: Item)
    requires WellFormed(item) && Holds(mem, offset, Encode(item)) && offset + |Encode(item)| <= size
    ensures item.Null? ==> GetAbbrev(mem, size, offset) == Found(Declared(Abbrev(0, 0, 0, 0), |Encode(item)|, 0))
    ensures item.Declaration? ==>
              && GetAbbrev(mem, size, offset)
                 == Found(Declared(Abbrev(item.code, item.tag, item.hasChild, PairsAt(offset, item)),
                                   |Encode(item)|, |item.attributes|))
              && PairsAt(offset, item) + 2 <= offset + |Encode(item)|
              && ReadPairs(mem, size, PairsAt(offset, item))
                 == Ok(Placed(item.attributes, PairsAt(offset, item)) + [Pair(0, 0, offset + |Encode(item)| - 2)],
                       offset + |Encode(item)| - PairsAt(offset, item))
  {
    hide ULeb, EncodeULeb, ReadPairs, EncodePairs, Holds, PairsAt;
    if item.Null? {
      NullCode();
      ULebRoundTrip(mem, offset, 0);
    } else {
      ReadDeclaration(mem, size, offset, item);
    }
  }

  /** The entries of an abbreviation whose pairs are some attributes and the zeros. */
  lemma EntryFrom(mem: seq<byte>, size: nat, abbrev: Abbrev, attributes: seq<Pair>, zeros: Pair, taken: nat, index: int)
    requires abbrev.code != 0 && ReadPairs(mem, size, abbrev.pairs) == Ok(attributes + [zeros], taken)
    requires abbrev.pairs + taken <= size
    ensures HandedOut(mem, size, abbrev)
    ensures Entry(mem, size, abbrev, index) ==
            if index < 0 then NoEntry
            else if index < |attributes| then Found(attributes[index])
            else if abbrev.pairs + taken == size then DecodeError
            else if index == |attributes| then Found(zeros)
            else NoEntry
  {
    hide ReadPairs;
  }

  /** The entries of an encoded declaration: below the count its attributes where they are encoded, at the count
      the closing zeros, behind it none. But when the declaration ends the section, the last two are errors. */
  lemma EncodedEntries(mem: seq<byte>, size: nat, offset: nat, item: Item, index: int)
    requires item.Declaration? && WellFormed(item)
    requires Holds(mem, offset, Encode(item)) && offset + |Encode(item)| <= size
    ensures GetAbbrev(mem, size, offset).Found? && offset + |Encode(item)| >= 2
    ensures HandedOut(mem, size, GetAbbrev(mem, size, offset).value.abbrev)
    ensures GetAbbrev(mem, size, offset).value.count == |item.attributes|
    ensures Entry(mem, size, GetAbbrev(mem, size, offset).value.abbrev, index) ==
            if index < 0 then NoEntry
            else if index < |item.attributes| then Found(Placed(item.attributes, PairsAt(offset, item))[index])
            else if offset + |Encode(item)| == size then DecodeError
            else if index == |item.attributes| then Found(Pair(0, 0, offset + |Encode(item)| - 2))
            else NoEntry
  {
    hide *;
    NullOrNot(item);
    var p, end := PairsAt(offset, item), offset + |Encode(item)|;
    ReadDeclaration(mem, size, offset, item);
    EntryFrom(mem, size, Abbrev(item.code, item.tag, item.hasChild, p), Placed(item.attributes, p), Pair(0, 0, end - 2),
              end - p, index);
  }

  const LAST := Declaration(1, 17, 0, [(3, 8)])
  const TIGHT: seq<byte> := [1, 17, 0, 3, 8, 0, 0]
  const LOOSE: seq<byte> := [1, 17, 0, 3, 8, 0, 0, 0]

  lemma LastEncoded()
    ensures Encode(LAST) == TIGHT && |TIGHT| == 7 && WellFormed(LAST) && LAST.Declaration? && |LAST.attributes| == 1
    ensures Holds(TIGHT, 0, TIGHT) && Holds(LOOSE, 0, TIGHT)
  {
    assert EncodeULeb(1) == [1] && EncodeULeb(17) == [17] && EncodeULeb(3) == [3] && EncodeULeb(8) == [8];
    assert LAST.attributes[1..] == [] && EncodePairs([]) == [0, 0];
    assert EncodePairs(LAST.attributes) == [3, 8, 0, 0];
  }

  /** A declaration with one attribute that ends the section: the index at the count is an error. With one more
      byte behind it, the same index delivers the zeros. */
  lemma LastDeclarationErrs()
    ensures var r := GetAbbrev(TIGHT, 7, 0);
            && r.Found? && r.value.count == 1 && HandedOut(TIGHT, 7, r.value.abbrev)
            && Entry(TIGHT, 7, r.value.abbrev, 1) == DecodeError
    ensures var r := GetAbbrev(LOOSE, 8, 0);
            && r.Found? && r.value.count == 1 && HandedOut(LOOSE, 8, r.value.abbrev)
            && Entry(LOOSE, 8, r.value.abbrev, 1) == Found(Pair(0, 0, 5))
  {
    hide *;
    LastEncoded();
    EncodedEntries(TIGHT, 7, 0, LAST, 1);
    EncodedEntries(LOOSE, 8, 0, LAST, 1);
  }

  lemma NullCode()
    ensures EncodeULeb(0) == [0]
  {
  }

  lemma HoldsByte(mem: seq<byte>, at: nat, b: byte)
    requires Holds(mem, at, [b])
    ensures at < |mem| && mem[at] == b
  {
    assert mem[at] == mem[at..at + 1][0];
  }

  /** Listing the encoding of any items: the section is stepped through exactly, and each item is listed at
      its place with its attributes at theirs. */
  lemma {:induction false} ListingOfEncoding(mem: seq<byte>, size: nat, offset: nat, number: nat, items: seq<Item>)
    requires forall item <- items :: WellFormed(item)
    requires Holds(mem, offset, EncodeAll(items)) && size == offset + |EncodeAll(items)|
    ensures Listing(mem, size, offset, number) == (Listed(items, offset, number), Whole)
    decreases items
  {
    hide GetAbbrev, Holds, Encode, EncodeULeb, WellFormed, ReadPairs, Placed;
    if items != [] {
      var first, rest := items[0], Listing(mem, size, offset + |Encode(items[0])|, number + 1);
      HoldsSplit(mem, offset, Encode(first), EncodeAll(items[1..]));
      ReadEncodedItem(mem, size, offset, first);
      ListingOfEncoding(mem, size, offset + |Encode(first)|, number + 1, items[1..]);
      NullOrNot(first);
      if first.Declaration? && first.attributes != [] {
        var p := PairsAt(offset, first);
        var placed := Placed(first.attributes, p);
        assert (placed + [Pair(0, 0, offset + |Encode(first)| - 2)])[..|placed|] == placed;
      }
    } else {
      NothingLeft(mem, size, offset);
    }
  }

  lemma NothingLeft(mem: seq<byte>, size: nat, offset: nat)
    requires offset >= size
    ensures GetAbbrev(mem, size, offset) == NoEntry
  {
  }

  lemma NullOrNot(item: Item)
    requires WellFormed(item)
    ensures item.Declaration? ==> item.code > 0
  {
  }

  /** print_abbrevs, up to the section's end or the first error. */
  method PrintAbbrevs(mem: seq<byte>, size: nat) returns (lines: seq<Line>, ending: Ending)
    ensures (lines, ending) == Listing(mem, size, 0, 1)
  {
    hide ULeb, ReadPairs, GetAbbrev;
    var offset, number := 0, 1;
    lines := [];
    NoLinesYet(Listing(mem, size, 0, 1));
    while true
      invariant Listing(mem, size, 0, 1) == Printed(lines, Listing(mem, size, offset, number))
      decreases size - offset
    {
      var found := DwarfGetAbbrev(mem, size, offset);
      assert lines + [] == lines;
      match found
      case NoEntry => return lines, Whole;
      case DecodeError => return lines, Failed;
      case Unreadable => return lines, Outside;
      case Found(d) =>
        var line, complete := NullLine(number, offset), true;
        if d.count != 0 {
          AttributesCode(mem, size, offset);
          FoundIsHandedOut(mem, size, offset);
          CountIs(mem, size, offset);
          var attributes;
          attributes, complete := PrintAttributes(mem, size, d);
          line := DeclarationLine(number, offset, d.abbrev.code, d.abbrev.tag % HALF, d.abbrev.hasChild, attributes);
        }
        if !complete { return lines + [line], Failed; }
        PrintedMore(lines, line, Listing(mem, size, offset + d.length, number + 1));
        lines, offset, number := lines + [line], offset + d.length, number + 1;
    }
  }

  ghost function Printed(lines: seq<Line>, rest: (seq<Line>, Ending)): (seq<Line>, Ending) { (lines + rest.0, rest.1) }

  lemma NoLinesYet(rest: (seq<Line>, Ending))
    ensures Printed([], rest) == rest
  {
    assert [] + rest.0 == rest.0;
  }

  lemma PrintedMore(lines: seq<Line>, line: Line, rest: (seq<Line>, Ending))
    ensures Printed(lines, Before(line, rest)) == Printed(lines + [line], rest)
  {
    assert lines + ([line] + rest.0) == lines + [line] + rest.0;
  }

  lemma AttributesCode(mem: seq<byte>, size: nat, offset: nat)
    requires GetAbbrev(mem, size, offset).Found? && GetAbbrev(mem, size, offset).value.count > 0
    ensures GetAbbrev(mem, size, offset).value.abbrev.code != 0
  {
  }

  /** The attributes of one declaration, up to an error. */
  method PrintAttributes(mem: seq<byte>, size: nat, d: Declared) returns (attributes: seq<Pair>, complete: bool)
    requires HandedOut(mem, size, d.abbrev) && d.abbrev.code != 0
    requires d.count == Counted(ReadPairs(mem, size, d.abbrev.pairs).value) > 0
    ensures (attributes, complete) == Attributes(mem, size, d)
  {
    hide ReadPairs, ULeb;
    ghost var all := ReadPairs(mem, size, d.abbrev.pairs).value;
    attributes := [];
    var i := 0;
    while i < d.count
      invariant 0 <= i <= d.count && attributes == all[..i]
      invariant AtEnd(mem, size, d.abbrev) ==> i <= |all| - 1
    {
      var entry := DwarfGetAbbrevEntry(mem, size, d.abbrev, i);
      if entry.DecodeError? { return attributes, false; }
      attributes := attributes + [entry.value];
      i := i + 1;
    }
    return attributes, true;
  }
}
