/** What the reader of .debug_abbrev finds, by the places in the section: for any bytes, the encodings that no
    producer writes included. */
module AbbrevFacts {
  import opened Bits
  import opened Leb128
  import opened Abbreviations

  // ----- the pairs of a declaration

  /** The pair that stands at its place: two unsigned numbers, of which the low 16 bits are kept. */
  ghost predicate StandsAt(mem: seq<byte>, pair: Pair, next: nat) {
    var attr := ULeb(mem, pair.at);
    && attr.Ok? && pair.attr == attr.value % 0x1_0000
    && var form := ULeb(mem, pair.at + attr.size);
       form.Ok? && pair.form == form.value % 0x1_0000 && next == pair.at + attr.size + form.size
  }

  /** Where the pair behind the k-th one starts. */
  function Next(pairs: seq<Pair>, end: nat, k: nat): nat
    requires k < |pairs|
  {
    if k + 1 < |pairs| then pairs[k + 1].at else end
  }

  lemma FirstPair(mem: seq<byte>, p: nat)
    requires ReadPair(mem, p).Ok?
    ensures ReadPair(mem, p).value.at == p && StandsAt(mem, ReadPair(mem, p).value, p + ReadPair(mem, p).size)
  {
    hide ULeb;
  }

  /** The pairs stand one behind the other. The walk goes on exactly behind a pair that is not zero and ends before
      the section does. */
  lemma {:induction false} PairsAre(mem: seq<byte>, size: nat, p: nat)
    requires ReadPairs(mem, size, p).Ok?
    ensures var pairs, end := ReadPairs(mem, size, p).value, p + ReadPairs(mem, size, p).size;
            && pairs != [] && pairs[0].at == p
            && (forall k :: 0 <= k < |pairs| ==> StandsAt(mem, pairs[k], Next(pairs, end, k)))
            && (forall k :: 0 <= k < |pairs| - 1 ==> Next(pairs, end, k) < size && (pairs[k].attr != 0 || pairs[k].form != 0))
            && (end >= size || (pairs[|pairs| - 1].attr == 0 && pairs[|pairs| - 1].form == 0))
    decreases |mem| - p
  {
    hide ULeb, ReadPair, ReadPairs, StandsAt, Counted;
    PairsUnfold(mem, size, p);
    FirstPair(mem, p);
    var pair, n := ReadPair(mem, p).value, ReadPair(mem, p).size;
    if p + n < size && !pair.Zero() {
      PairsAre(mem, size, p + n);
      var pairs, rest := ReadPairs(mem, size, p).value, ReadPairs(mem, size, p + n).value;
      var end := p + ReadPairs(mem, size, p).size;
      assert Next(pairs, end, 0) == rest[0].at == p + n;
      forall k | 0 < k < |pairs| ensures pairs[k] == rest[k - 1] && Next(pairs, end, k) == Next(rest, end, k - 1) {}
    }
  }

  /** The count is the number of pairs with an attribute. */
  lemma {:induction false} CountIsNumber(pairs: seq<Pair>)
    ensures Counted(pairs) == |set k | 0 <= k < |pairs| && pairs[k].attr != 0|
  {
    var all := set k | 0 <= k < |pairs| && pairs[k].attr != 0;
    if pairs == [] {
      assert all == {};
    } else {
      var n := |pairs| - 1;
      var before := set k | 0 <= k < n && pairs[..n][k].attr != 0;
      CountIsNumber(pairs[..n]);
      CountedSplit(pairs, n);
      assert pairs[n..] == [pairs[n]];
      assert Counted([pairs[n]]) == if pairs[n].attr != 0 then 1 else 0;
      assert all == before + if pairs[n].attr != 0 then {n} else {};
    }
  }

  // ----- a declaration

  /** dwarf_get_abbrev, by what stands at the offset and behind it. The code's number ends the entry when it is zero,
      and its length is then one whatever its encoding takes. */
  lemma FoundIs(mem: seq<byte>, size: nat, offset: nat)
    requires GetAbbrev(mem, size, offset).Found?
    ensures var d, code := GetAbbrev(mem, size, offset).value, ULeb(mem, offset);
            && offset < size && code.Ok? && d.abbrev.code == code.value
            && (code.value == 0 ==> d.length == 1 && d.count == 0)
            && (code.value != 0 ==>
                  var tag := ULeb(mem, offset + code.size);
                  && tag.Ok? && d.abbrev.tag == tag.value
                  && d.abbrev.pairs == offset + code.size + tag.size + 1 <= |mem|
                  && d.abbrev.hasChild == mem[d.abbrev.pairs - 1]
                  && var read := ReadPairs(mem, size, d.abbrev.pairs);
                     && read.Ok? && d.abbrev.pairs + read.size == offset + d.length <= size
                     && d.count == |set k | 0 <= k < |read.value| && read.value[k].attr != 0|)
  {
    hide ULeb, ReadPairs, Counted;
    if GetAbbrev(mem, size, offset).value.abbrev.code != 0 {
      CountIsNumber(ReadPairs(mem, size, GetAbbrev(mem, size, offset).value.abbrev.pairs).value);
    }
  }

  /** An unsigned zero may be written with any number of bytes. */
  lemma {:induction false} LongZero(mem: seq<byte>, at: nat, n: nat)
    requires at + n < |mem| && (forall k :: at <= k < at + n ==> mem[k] == 128) && mem[at + n] == 0
    ensures LebLen(mem, at) == n + 1 && LebSum(mem, at) == 0
    decreases n
  {
    if n > 0 {
      LongZero(mem, at + 1, n - 1);
    }
  }

  /** A null entry whose zero takes two bytes is listed twice: its second byte is read as an entry of its own. */
  lemma TwoByteNull()
    ensures Listing([128, 0], 2, 0, 1) == ([NullLine(1, 0), NullLine(2, 1)], Whole)
  {
    var mem: seq<byte> := [128, 0];
    LongZero(mem, 0, 1);
    LongZero(mem, 1, 0);
    assert ULeb(mem, 0) == Ok(0, 2) && ULeb(mem, 1) == Ok(0, 1);
    hide ULeb;
    assert Listing(mem, 2, 2, 3) == ([], Whole);
    assert [NullLine(2, 1)] + [] == [NullLine(2, 1)];
    assert Listing(mem, 2, 1, 2) == ([NullLine(2, 1)], Whole);
    assert [NullLine(1, 0)] + [NullLine(2, 1)] == [NullLine(1, 0), NullLine(2, 1)];
  }

  // ----- entries and lines

  /** The attributes that are listed are the entries at the indices below the count, and the listing of them is
      complete exactly when there is an entry at each. */
  lemma AttributesAreEntries(mem: seq<byte>, size: nat, d: Declared)
    requires HandedOut(mem, size, d.abbrev) && d.abbrev.code != 0
    requires d.count == Counted(ReadPairs(mem, size, d.abbrev.pairs).value) > 0
    ensures var (attributes, complete) := Attributes(mem, size, d);
            && (forall i :: 0 <= i < |attributes| ==> Entry(mem, size, d.abbrev, i) == Found(attributes[i]))
            && (complete <==> forall i :: 0 <= i < d.count ==> Entry(mem, size, d.abbrev, i).Found?)
            && |attributes| == (if complete then d.count else d.count - 1)
            && (!complete ==> Entry(mem, size, d.abbrev, d.count - 1) == DecodeError)
  {
    hide ReadPairs, Counted;
    assert !Attributes(mem, size, d).1 ==> Entry(mem, size, d.abbrev, d.count - 1) == DecodeError;
  }

  /** What the line of an entry shows. */
  ghost predicate Shows(mem: seq<byte>, size: nat, line: Line) {
    GetAbbrev(mem, size, line.offset).Found?
    && var d := GetAbbrev(mem, size, line.offset).value;
       if d.count == 0 then line.NullLine?
       else
         && line.DeclarationLine? && line.code == d.abbrev.code && line.tag == d.abbrev.tag % 0x1_0000
         && line.hasChild == d.abbrev.hasChild && HandedOut(mem, size, d.abbrev) && |line.attributes| <= d.count
         && forall i :: 0 <= i < |line.attributes| ==> Entry(mem, size, d.abbrev, i) == Found(line.attributes[i])
  }

  /** Every attribute that is counted is on the line. */
  ghost predicate ShowsAll(mem: seq<byte>, size: nat, line: Line)
    requires Shows(mem, size, line)
  {
    line.DeclarationLine? ==> |line.attributes| == GetAbbrev(mem, size, line.offset).value.count
  }

  /** The entry of the second line stands at the end of that of the first, of which all attributes are shown. */
  ghost predicate Follows(mem: seq<byte>, size: nat, line: Line, next: Line) {
    Shows(mem, size, line)
    && var d := GetAbbrev(mem, size, line.offset).value;
       ShowsAll(mem, size, line) && next.offset == line.offset + d.length && next.number == line.number + 1
  }

  /** Lines for the entries from a place on. */
  ghost predicate Steps(mem: seq<byte>, size: nat, offset: nat, number: nat, lines: seq<Line>) {
    && (lines != [] ==> lines[0].offset == offset && lines[0].number == number)
    && (forall line <- lines :: Shows(mem, size, line))
    && (forall j, k :: 0 <= j < k < |lines| && k == j + 1 ==> Follows(mem, size, lines[j], lines[k]))
  }

  lemma StepsMore(mem: seq<byte>, size: nat, line: Line, rest: seq<Line>)
    requires Shows(mem, size, line) && GetAbbrev(mem, size, line.offset).Found?
    requires rest != [] ==> ShowsAll(mem, size, line)
    requires Steps(mem, size, line.offset + GetAbbrev(mem, size, line.offset).value.length, line.number + 1, rest)
    ensures Steps(mem, size, line.offset, line.number, [line] + rest)
  {
    var lines := [line] + rest;
    if rest != [] { assert Follows(mem, size, line, rest[0]) by { hide GetAbbrev; } }
    hide Shows, Follows;
    forall j, k | 0 <= j < k < |lines| && k == j + 1 ensures Follows(mem, size, lines[j], lines[k]) {
      if j > 0 { assert lines[j] == rest[j - 1] && lines[k] == rest[k - 1]; }
    }
  }

  /** Where the entry behind the last line's would stand. */
  function EndOf(mem: seq<byte>, size: nat, offset: nat, lines: seq<Line>): nat {
    if lines == [] || !GetAbbrev(mem, size, lines[|lines| - 1].offset).Found? then offset
    else lines[|lines| - 1].offset + GetAbbrev(mem, size, lines[|lines| - 1].offset).value.length
  }

  /** The last line does not show all attributes. */
  ghost predicate CutShort(mem: seq<byte>, size: nat, lines: seq<Line>) {
    lines != [] && Shows(mem, size, lines[|lines| - 1]) && !ShowsAll(mem, size, lines[|lines| - 1])
  }

  /** The listing is whole when it ends at the section's end or behind it and every line shows all attributes; it fails
      in the attributes of its last line or at an entry that the section's end cuts off; otherwise C would read outside
      of memory. */
  ghost predicate EndsAs(mem: seq<byte>, size: nat, end: nat, cut: bool, ending: Ending) {
    && (ending == Whole <==> end >= size && !cut)
    && (ending == Failed <==> cut || GetAbbrev(mem, size, end) == DecodeError)
    && (ending == Outside <==> !cut && GetAbbrev(mem, size, end) == Unreadable)
  }

  /** The listing steps through the section entry by entry, and how it ends. */
  lemma {:induction false} ListingSteps(mem: seq<byte>, size: nat, offset: nat, number: nat)
    ensures var (lines, ending) := Listing(mem, size, offset, number);
            && Steps(mem, size, offset, number, lines)
            && EndsAs(mem, size, EndOf(mem, size, offset, lines), CutShort(mem, size, lines), ending)
    decreases size - offset
  {
    hide *;
    var (lines, ending) := Listing(mem, size, offset, number);
    if GetAbbrev(mem, size, offset).Found? {
      var next := offset + GetAbbrev(mem, size, offset).value.length;
      FoundAdvances(mem, size, offset);
      FirstLine(mem, size, offset, number);
      var rest := Listing(mem, size, next, number + 1).0;
      if ShowsAll(mem, size, lines[0]) {
        ListingSteps(mem, size, next, number + 1);
        StepsMore(mem, size, lines[0], rest);
        EndMore(mem, size, next, lines[0], rest);
      } else {
        NoSteps(mem, size, next, number + 1);
        StepsMore(mem, size, lines[0], []);
        assert [lines[0]] + [] == lines;
        CutEnds(mem, size, EndOf(mem, size, offset, lines), lines);
      }
    } else {
      NothingListed(mem, size, offset, number);
    }
  }

  lemma FoundAdvances(mem: seq<byte>, size: nat, offset: nat)
    requires GetAbbrev(mem, size, offset).Found?
    ensures offset < offset + GetAbbrev(mem, size, offset).value.length <= size
  {
    hide GetAbbrev;
  }

  lemma NothingListed(mem: seq<byte>, size: nat, offset: nat, number: nat)
    requires !GetAbbrev(mem, size, offset).Found?
    ensures var (lines, ending) := Listing(mem, size, offset, number);
            && Steps(mem, size, offset, number, lines)
            && EndsAs(mem, size, EndOf(mem, size, offset, lines), CutShort(mem, size, lines), ending)
  {
    EndIs(mem, size, offset);
    hide GetAbbrev;
  }

  lemma EndIs(mem: seq<byte>, size: nat, offset: nat)
    ensures GetAbbrev(mem, size, offset) == NoEntry <==> offset >= size
  {
    hide ULeb, ReadPairs, Counted;
  }

  lemma NoSteps(mem: seq<byte>, size: nat, offset: nat, number: nat)
    ensures Steps(mem, size, offset, number, [])
  {
  }

  lemma FirstLine(mem: seq<byte>, size: nat, offset: nat, number: nat)
    requires GetAbbrev(mem, size, offset).Found?
    ensures var (lines, ending) := Listing(mem, size, offset, number);
            && lines != [] && lines[0].offset == offset && lines[0].number == number && Shows(mem, size, lines[0])
            && var rest := Listing(mem, size, offset + GetAbbrev(mem, size, offset).value.length, number + 1);
               if ShowsAll(mem, size, lines[0]) then lines == [lines[0]] + rest.0 && ending == rest.1
               else lines == [lines[0]] && ending == Failed
  {
    hide GetAbbrev, ReadPairs, Counted, Entry;
    var d := GetAbbrev(mem, size, offset).value;
    if d.count != 0 {
      AttributesCode(mem, size, offset);
      FoundIsHandedOut(mem, size, offset);
      CountIs(mem, size, offset);
      AttributesAreEntries(mem, size, d);
    }
  }

  lemma ShowsFound(mem: seq<byte>, size: nat, line: Line)
    requires Shows(mem, size, line)
    ensures GetAbbrev(mem, size, line.offset).Found?
  {
    hide GetAbbrev;
  }

  lemma EndMore(mem: seq<byte>, size: nat, next: nat, line: Line, rest: seq<Line>)
    requires Shows(mem, size, line) && ShowsAll(mem, size, line) && GetAbbrev(mem, size, line.offset).Found?
    requires next == line.offset + GetAbbrev(mem, size, line.offset).value.length
    requires Steps(mem, size, next, line.number + 1, rest)
    ensures EndOf(mem, size, line.offset, [line] + rest) == EndOf(mem, size, next, rest)
    ensures CutShort(mem, size, [line] + rest) == CutShort(mem, size, rest)
  {
    hide GetAbbrev, Shows, ShowsAll, Follows;
    if rest != [] {
      assert rest[|rest| - 1] in rest;
      ShowsFound(mem, size, rest[|rest| - 1]);
    }
  }

  lemma CutEnds(mem: seq<byte>, size: nat, end: nat, lines: seq<Line>)
    requires lines != [] && Shows(mem, size, lines[|lines| - 1]) && !ShowsAll(mem, size, lines[|lines| - 1])
    ensures CutShort(mem, size, lines) && EndsAs(mem, size, end, CutShort(mem, size, lines), Failed)
  {
    hide GetAbbrev, Shows, ShowsAll;
  }
}
