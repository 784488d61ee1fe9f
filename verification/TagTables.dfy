/** The tables of legal tag/child and tag/attribute combinations: tag_tree and tag_attr pack lists of
    groups into bit words or extension rows, and dwarfdump's checks unpack them. */
module TagTables {
  import opened Bits

  // ----- the lists and what they say

  const MAGIC_TOKEN_VALUE := 0xffff_ffff
  const BITS_PER_WORD := 32
  /** A Dwarf_Half, in which tags and attributes are given to the checks, is below this. */
  const HALF := 0x1_0000

  /** A kind of table and its size. */
  datatype Shape = Shape(standard: bool, rows: nat, columns: nat)

  const STD_TAG_TREE := Shape(true, 0x41, 2)
  const EXT_TAG_TREE := Shape(false, 5, 4)
  const STD_TAG_ATTR := Shape(true, 0x41, 4)
  const EXT_TAG_ATTR := Shape(false, 4, 4)

  /** A tag and the children or attributes listed for it. */
  datatype Group = Group(tag: nat, values: seq<nat>)

  ghost predicate Lists(groups: seq<Group>, tag: nat, value: nat) {
    exists g <- groups :: g.tag == tag && value in g.values
  }

  datatype Error = EmptyInput | NoMagic | TagTooLarge | TooManyRows | NotTerminated | TooManyValues

  datatype Result<+T> = Success(value: T) | Failure(error: Error)

  /** The groups that a list of numbers holds, or the first complaint about it. */
  function ReadTable(tokens: seq<nat>, shape: Shape): Result<seq<Group>> {
    if tokens == [] then Failure(EmptyInput)
    else if tokens[0] != MAGIC_TOKEN_VALUE then Failure(NoMagic)
    else ReadGroups(tokens[1..], 0, shape)
  }

  function ReadGroups(tokens: seq<nat>, row: nat, shape: Shape): Result<seq<Group>>
    decreases |tokens|
  {
    if tokens == [] then Success([])
    else if shape.standard && tokens[0] >= shape.rows then Failure(TagTooLarge)
    else if !shape.standard && row >= shape.rows then Failure(TooManyRows)
    else
      match ReadValues(tokens[1..], 1, shape)
      case Failure(e) => Failure(e)
      case Success((values, rest)) => Before([Group(tokens[0], values)], ReadGroups(rest, row + 1, shape))
  }

  function Before(groups: seq<Group>, rest: Result<seq<Group>>): Result<seq<Group>> {
    if rest.Success? then Success(groups + rest.value) else rest
  }

  /** A group's values, up to the magic number, and what follows it. */
  function ReadValues(tokens: seq<nat>, column: nat, shape: Shape): (r: Result<(seq<nat>, seq<nat>)>)
    ensures r.Success? ==> |r.value.1| < |tokens|
  {
    if tokens == [] then Failure(NotTerminated)
    else if tokens[0] == MAGIC_TOKEN_VALUE then Success(([], tokens[1..]))
    else if (if shape.standard then tokens[0] / BITS_PER_WORD else column) >= shape.columns then Failure(TooManyValues)
    else BeforeValues([tokens[0]], ReadValues(tokens[1..], column + 1, shape))
  }

  function BeforeValues(values: seq<nat>, rest: Result<(seq<nat>, seq<nat>)>): (r: Result<(seq<nat>, seq<nat>)>)
    ensures r.Success? ==> rest.Success? && r.value.1 == rest.value.1
  {
    if rest.Success? then Success((values + rest.value.0, rest.value.1)) else rest
  }

  /** The groups have room in a table. */
  ghost predicate Fits(groups: seq<Group>, shape: Shape) {
    if shape.standard then
      forall g <- groups :: g.tag < shape.rows && forall v <- g.values :: v / BITS_PER_WORD < shape.columns
    else |groups| <= shape.rows && forall g <- groups :: |g.values| < shape.columns
  }

  /** The list that holds given groups. */
  function Write(groups: seq<Group>): seq<nat> { [MAGIC_TOKEN_VALUE] + WriteGroups(groups) }

  function WriteGroups(groups: seq<Group>): seq<nat> {
    if groups == [] then []
    else [groups[0].tag] + groups[0].values + [MAGIC_TOKEN_VALUE] + WriteGroups(groups[1..])
  }

  /** Groups that fit are read back from their list. */
  lemma ReadWritten(groups: seq<Group>, shape: Shape)
    requires Fits(groups, shape) && forall g <- groups :: MAGIC_TOKEN_VALUE !in g.values
    ensures ReadTable(Write(groups), shape) == Success(groups)
  {
    ReadWrittenGroups(groups, 0, shape);
    assert Write(groups)[1..] == WriteGroups(groups);
  }

  lemma {:induction false} ReadWrittenGroups(groups: seq<Group>, row: nat, shape: Shape)
    requires forall g <- groups :: MAGIC_TOKEN_VALUE !in g.values
    requires if shape.standard then Fits(groups, shape)
             else row + |groups| <= shape.rows && forall g <- groups :: |g.values| < shape.columns
    ensures ReadGroups(WriteGroups(groups), row, shape) == Success(groups)
    decreases groups
  {
    hide ReadValues;
    if groups != [] {
      var tokens, g := WriteGroups(groups), groups[0];
      assert tokens[1..] == g.values + [MAGIC_TOKEN_VALUE] + WriteGroups(groups[1..]);
      ReadWrittenValues(g.values, 1, shape, WriteGroups(groups[1..]));
      ReadWrittenGroups(groups[1..], row + 1, shape);
      assert [g] + groups[1..] == groups;
    }
  }

  lemma {:induction false} ReadWrittenValues(values: seq<nat>, column: nat, shape: Shape, rest: seq<nat>)
    requires MAGIC_TOKEN_VALUE !in values
    requires if shape.standard then forall v <- values :: v / BITS_PER_WORD < shape.columns
             else column + |values| <= shape.columns
    ensures ReadValues(values + [MAGIC_TOKEN_VALUE] + rest, column, shape) == Success((values, rest))
    decreases values
  {
    var tokens := values + [MAGIC_TOKEN_VALUE] + rest;
    if values != [] {
      assert tokens[1..] == values[1..] + [MAGIC_TOKEN_VALUE] + rest;
      assert values[0] in values && forall v <- values[1..] :: v in values;
      ReadWrittenValues(values[1..], column + 1, shape, rest);
      assert [values[0]] + values[1..] == values;
    } else {
      assert tokens[1..] == rest;
    }
  }

  // ----- the tables

  /** Cell c of an extension row: the tag, its values, then zeros. */
  function Cell(groups: seq<Group>, r: nat, c: nat): nat {
    if r >= |groups| then 0
    else if c == 0 then groups[r].tag
    else if c - 1 < |groups[r].values| then groups[r].values[c - 1]
    else 0
  }

  /** The table holds exactly the groups. */
  ghost predicate Packs(table: array2<nat>, shape: Shape, groups: seq<Group>)
    reads table
  {
    && table.Length0 >= shape.rows && table.Length1 >= shape.columns && Fits(groups, shape)
    && forall r, c :: 0 <= r < shape.rows && 0 <= c < shape.columns ==>
         if shape.standard then PacksWord(table[r, c], groups, r, c) else table[r, c] == Cell(groups, r, c)
  }

  /** The bits of word c in a tag's row. */
  ghost predicate PacksWord(word: nat, groups: seq<Group>, tag: nat, c: nat) {
    word < TWO_32 && forall b :: 0 <= b < BITS_PER_WORD ==> (Bit(word, b) <==> Lists(groups, tag, BITS_PER_WORD * c + b))
  }

  /** One more value in the last group. */
  lemma ListsMore(done: seq<Group>, tag: nat, values: seq<nat>, num: nat, t: nat, v: nat)
    ensures Lists(done + [Group(tag, values + [num])], t, v)
       <==> Lists(done + [Group(tag, values)], t, v) || (t == tag && v == num)
  {
    var before, after := done + [Group(tag, values)], done + [Group(tag, values + [num])];
    if Lists(before, t, v) {
      var g :| g in before && g.tag == t && v in g.values;
      if g !in done { assert after[|done|].tag == t && v in after[|done|].values; } else { assert g in after; }
    }
    if t == tag && v == num {
      assert after[|done|] in after && v in after[|done|].values;
    }
    if Lists(after, t, v) {
      var g :| g in after && g.tag == t && v in g.values;
      if g in done { assert g in before; }
      else { assert before[|done|] in before && (v in values || v == num); }
    }
  }

  lemma ListsNoMore(done: seq<Group>, tag: nat, t: nat, v: nat)
    ensures Lists(done + [Group(tag, [])], t, v) <==> Lists(done, t, v)
  {
    var after := done + [Group(tag, [])];
    if Lists(done, t, v) {
      var g :| g in done && g.tag == t && v in g.values;
      assert g in after;
    }
  }

  /** `word |= (1 << bit)` */
  lemma WordMore(word: nat, done: seq<Group>, tag: nat, values: seq<nat>, num: nat)
    requires PacksWord(word, done + [Group(tag, values)], tag, num / BITS_PER_WORD)
    ensures PacksWord(Or(word, Pow2(num % BITS_PER_WORD)), done + [Group(tag, values + [num])], tag, num / BITS_PER_WORD)
  {
    hide Lists;
    var bit, c := num % BITS_PER_WORD, num / BITS_PER_WORD;
    var joined := Or(word, Pow2(bit));
    Pow2Of64();
    BitBelow(bit);
    OrBound(word, Pow2(bit), 32);
    forall b | 0 <= b < BITS_PER_WORD
      ensures Bit(joined, b) <==> Lists(done + [Group(tag, values + [num])], tag, BITS_PER_WORD * c + b)
    {
      OrBit(word, Pow2(bit), b);
      Pow2Bit(bit, b);
      ListsMore(done, tag, values, num, tag, BITS_PER_WORD * c + b);
      assert BITS_PER_WORD * c + b == num <==> b == bit;
    }
  }

  lemma BitBelow(bit: nat)
    requires bit < 32
    ensures Pow2(bit) < Pow2(32)
  {
    Pow2Monotone(bit + 1, 32);
  }

  /** The other words stay as they are. */
  lemma WordSame(word: nat, done: seq<Group>, tag: nat, values: seq<nat>, num: nat, t: nat, c: nat)
    requires PacksWord(word, done + [Group(tag, values)], t, c) && (t != tag || c != num / BITS_PER_WORD)
    ensures PacksWord(word, done + [Group(tag, values + [num])], t, c)
  {
    hide Lists;
    forall b | 0 <= b < BITS_PER_WORD
      ensures Bit(word, b) <==> Lists(done + [Group(tag, values + [num])], t, BITS_PER_WORD * c + b)
    {
      ListsMore(done, tag, values, num, t, BITS_PER_WORD * c + b);
      assert c != num / BITS_PER_WORD ==> BITS_PER_WORD * c + b != num;
    }
  }

  lemma WordNoMore(word: nat, done: seq<Group>, tag: nat, t: nat, c: nat)
    requires PacksWord(word, done, t, c)
    ensures PacksWord(word, done + [Group(tag, [])], t, c)
  {
    hide Lists;
    forall b | 0 <= b < BITS_PER_WORD
      ensures Bit(word, b) <==> Lists(done + [Group(tag, [])], t, BITS_PER_WORD * c + b)
    {
      ListsNoMore(done, tag, t, BITS_PER_WORD * c + b);
    }
  }

  // ----- the builder

  /** A new group: in the extension table its tag opens a row. */
  method OpenGroup(table: array2<nat>, shape: Shape, ghost done: seq<Group>, currentRow: nat, tag: nat)
    requires Packs(table, shape, done) && currentRow == |done| && shape.columns > 0
    requires if shape.standard then tag < shape.rows else currentRow < shape.rows
    modifies table
    ensures Packs(table, shape, done + [Group(tag, [])])
  {
    hide PacksWord;
    if !shape.standard {
      table[currentRow, 0] := tag;
    } else {
      forall r, c | 0 <= r < shape.rows && 0 <= c < shape.columns
        ensures PacksWord(table[r, c], done + [Group(tag, [])], r, c)
      {
        assert PacksWord(table[r, c], done, r, c);
        WordNoMore(table[r, c], done, tag, r, c);
      }
    }
  }

  /** A value of the group: its bit is set, or it takes the next cell of the row. */
  method AddValue(table: array2<nat>, shape: Shape, ghost done: seq<Group>, currentRow: nat, tag: nat,
                  ghost values: seq<nat>, column: nat, num: nat)
    requires Packs(table, shape, done + [Group(tag, values)]) && currentRow == |done| && column == |values| + 1
    requires (if shape.standard then num / BITS_PER_WORD else column) < shape.columns
    modifies table
    ensures Packs(table, shape, done + [Group(tag, values + [num])])
  {
    hide PacksWord;
    ghost var before, after := done + [Group(tag, values)], done + [Group(tag, values + [num])];
    assert forall i :: 0 <= i < |done| ==> before[i] == after[i] == done[i];
    assert before[|done|] == Group(tag, values) && after[|done|] == Group(tag, values + [num]);
    if shape.standard {
      var idx, bit := num / BITS_PER_WORD, num % BITS_PER_WORD;
      assert before[|done|] in before;
      assert PacksWord(table[tag, idx], before, tag, idx);
      WordMore(table[tag, idx], done, tag, values, num);
      table[tag, idx] := Or(table[tag, idx], Pow2(bit));
      forall r, c | 0 <= r < shape.rows && 0 <= c < shape.columns
        ensures PacksWord(table[r, c], after, r, c)
      {
        if !(r == tag && c == idx) {
          assert table[r, c] == old(table[r, c]);
          WordSame(table[r, c], done, tag, values, num, r, c);
        }
      }
      FitsMore(done, tag, values, num, shape);
    } else {
      FitsMore(done, tag, values, num, shape);
      table[currentRow, column] := num;
    }
  }

  lemma FitsMore(done: seq<Group>, tag: nat, values: seq<nat>, num: nat, shape: Shape)
    requires Fits(done + [Group(tag, values)], shape)
    requires (if shape.standard then num / BITS_PER_WORD else |values| + 1) < shape.columns
    ensures Fits(done + [Group(tag, values + [num])], shape)
  {
    var before := done + [Group(tag, values)];
    assert before[|done|] in before;
    assert forall g <- done :: g in before;
  }

  /** The body of main, in both tag_tree and tag_attr: the table is filled with the groups of the list,
      or the first complaint about it is made. */
  method Build(tokens: seq<nat>, shape: Shape, table: array2<nat>) returns (r: Result<()>)
    requires table.Length0 >= shape.rows && table.Length1 >= shape.columns > 0
    requires forall i, j :: 0 <= i < table.Length0 && 0 <= j < table.Length1 ==> table[i, j] == 0
    modifies table
    ensures match ReadTable(tokens, shape)
            case Failure(e) => r == Failure(e)
            case Success(groups) => r == Success(()) && Packs(table, shape, groups)
  {
    hide ReadGroups, ReadValues, Packs;
    if |tokens| == 0 { return Failure(EmptyInput); }
    if tokens[0] != MAGIC_TOKEN_VALUE { return Failure(NoMagic); }
    var at, currentRow := 1, 0;
    ghost var done := [];
    NothingPacked(table, shape);
    NothingBefore(ReadGroups(tokens[1..], 0, shape));
    while at < |tokens|
      invariant 1 <= at <= |tokens| && currentRow == |done|
      invariant Packs(table, shape, done)
      invariant ReadTable(tokens, shape) == Before(done, ReadGroups(tokens[at..], currentRow, shape))
      decreases |tokens| - at
    {
      GroupsUnfold(tokens, at, currentRow, shape, done);
      var tag := tokens[at];
      at := at + 1;
      if shape.standard {
        if tag >= shape.rows { return Failure(TagTooLarge); }
      } else {
        if currentRow >= shape.rows { return Failure(TooManyRows); }
      }
      OpenGroup(table, shape, done, currentRow, tag);
      ghost var all := ReadValues(tokens[at..], 1, shape);
      ghost var values: seq<nat> := [];
      NoValuesBefore(all);
      var column := 1;
      while true
        invariant 1 <= at <= |tokens| && column == |values| + 1
        invariant Packs(table, shape, done + [Group(tag, values)])
        invariant all == BeforeValues(values, ReadValues(tokens[at..], column, shape))
        decreases |tokens| - at
      {
        ValuesUnfold(tokens, at, column, shape, values);
        if at >= |tokens| { return Failure(NotTerminated); }
        var num := tokens[at];
        at := at + 1;
        if num == MAGIC_TOKEN_VALUE { break; }
        if (if shape.standard then num / BITS_PER_WORD else column) >= shape.columns { return Failure(TooManyValues); }
        AddValue(table, shape, done, currentRow, tag, values, column, num);
        values, column := values + [num], column + 1;
      }
      done := done + [Group(tag, values)];
      currentRow := currentRow + 1;
    }
    GroupsEnd(tokens, at, currentRow, shape, done);
    return Success(());
  }

  lemma NothingPacked(table: array2<nat>, shape: Shape)
    requires table.Length0 >= shape.rows && table.Length1 >= shape.columns > 0
    requires forall i, j :: 0 <= i < table.Length0 && 0 <= j < table.Length1 ==> table[i, j] == 0
    ensures Packs(table, shape, [])
  {
    forall b: nat ensures !Bit(0, b) { ZeroBit(b); }
  }

  lemma NothingBefore(rest: Result<seq<Group>>)
    ensures Before([], rest) == rest
  {
    if rest.Success? { assert [] + rest.value == rest.value; }
  }

  lemma NoValuesBefore(rest: Result<(seq<nat>, seq<nat>)>)
    ensures BeforeValues([], rest) == rest
  {
    if rest.Success? { assert [] + rest.value.0 == rest.value.0; }
  }

  /** One turn of the outer loop. */
  lemma GroupsUnfold(tokens: seq<nat>, at: nat, row: nat, shape: Shape, done: seq<Group>)
    requires at < |tokens|
    ensures var left := Before(done, ReadGroups(tokens[at..], row, shape));
            var tag, values := tokens[at], ReadValues(tokens[at + 1..], 1, shape);
            if shape.standard && tag >= shape.rows then left == Failure(TagTooLarge)
            else if !shape.standard && row >= shape.rows then left == Failure(TooManyRows)
            else if values.Failure? then left == Failure(values.error)
            else left == Before(done + [Group(tag, values.value.0)], ReadGroups(values.value.1, row + 1, shape))
  {
    hide ReadValues;
    assert tokens[at..][1..] == tokens[at + 1..];
    var values := ReadValues(tokens[at + 1..], 1, shape);
    if values.Success? {
      var g, rest := Group(tokens[at], values.value.0), ReadGroups(values.value.1, row + 1, shape);
      if rest.Success? { assert done + ([g] + rest.value) == done + [g] + rest.value; }
    }
  }

  lemma GroupsEnd(tokens: seq<nat>, at: nat, row: nat, shape: Shape, done: seq<Group>)
    requires at == |tokens|
    ensures Before(done, ReadGroups(tokens[at..], row, shape)) == Success(done)
  {
    assert tokens[at..] == [] && done + [] == done;
  }

  /** One turn of the inner loop. */
  lemma ValuesUnfold(tokens: seq<nat>, at: nat, column: nat, shape: Shape, values: seq<nat>)
    requires at <= |tokens|
    ensures var left := BeforeValues(values, ReadValues(tokens[at..], column, shape));
            if at == |tokens| then left == Failure(NotTerminated)
            else if tokens[at] == MAGIC_TOKEN_VALUE then left == Success((values, tokens[at + 1..]))
            else if (if shape.standard then tokens[at] / BITS_PER_WORD else column) >= shape.columns then
              left == Failure(TooManyValues)
            else left == BeforeValues(values + [tokens[at]], ReadValues(tokens[at + 1..], column + 1, shape))
  {
    if at < |tokens| {
      assert tokens[at..][1..] == tokens[at + 1..];
      var rest := ReadValues(tokens[at + 1..], column + 1, shape);
      if rest.Success? {
        assert values + ([tokens[at]] + rest.value.0) == values + [tokens[at]] + rest.value.0;
      }
      assert values + [] == values;
    }
  }

  // ----- the checks

  /** A row of the extension table is not full, and its zeros read as the value zero. */
  ghost predicate ZeroFilled(ext: seq<Group>, tag: nat, columns: nat) {
    exists g <- ext :: g.tag == tag && |g.values| < columns - 1
  }

  /** What the checks decide for a tag and a child or attribute. */
  ghost predicate Judged(std: seq<Group>, ext: seq<Group>, columns: nat, suppress: bool, tag: nat, value: nat) {
    tag != 0 && (Lists(std, tag, value)
                 || (!suppress && (Lists(ext, tag, value) || (value == 0 && ZeroFilled(ext, tag, columns)))))
  }

  /** What the lists say. */
  ghost predicate Legal(std: seq<Group>, ext: seq<Group>, suppress: bool, tag: nat, value: nat) {
    tag != 0 && (Lists(std, tag, value) || (!suppress && Lists(ext, tag, value)))
  }

  /** legal_tag_tree_combination and legal_tag_attr_combination, on tables packed with any groups. */
  method LegalCombination(stdTable: array2<nat>, stdShape: Shape, ghost std: seq<Group>,
                          extTable: array2<nat>, extShape: Shape, ghost ext: seq<Group>,
                          suppress: bool, tag: nat, value: nat)
    returns (legal: bool)
    requires stdShape.standard && Packs(stdTable, stdShape, std)
    requires !extShape.standard && extShape.columns > 0 && Packs(extTable, extShape, ext)
    ensures legal <==> Judged(std, ext, extShape.columns, suppress, tag, value)
  {
    if tag == 0 { return false; }
    if tag < stdShape.rows {
      var index := value / BITS_PER_WORD;
      if index < stdShape.columns {
        var bitflag := Pow2(value % BITS_PER_WORD);
        var known := And(stdTable[tag, index], bitflag) > 0;
        MaskTests(stdTable[tag, index], std, tag, value);
        if known { return true; }
      }
    }
    StandardOutside(std, stdShape, tag, value);
    if suppress { return false; }
    var r := 0;
    while r < extShape.rows
      invariant 0 <= r <= extShape.rows
      invariant forall i :: 0 <= i < r && i < |ext| ==> !RowHas(ext[i], tag, value, extShape.columns)
    {
      if tag == extTable[r, 0] {
        assert r < |ext| && ext[r].tag == tag;
        var c := 1;
        while c < extShape.columns
          invariant 1 <= c
          invariant forall j :: 1 <= j < c && j < extShape.columns ==> extTable[r, j] != value
        {
          if extTable[r, c] == value {
            RowJudged(ext, r, c, tag, value, extShape.columns);
            return true;
          }
          c := c + 1;
        }
        RowLacks(ext, r, tag, value, extShape.columns);
      }
      r := r + 1;
    }
    NoRow(ext, tag, value, extShape.columns);
    return false;
  }

  /** `table[tag][index] & bitflag` */
  lemma MaskTests(word: nat, groups: seq<Group>, tag: nat, value: nat)
    requires PacksWord(word, groups, tag, value / BITS_PER_WORD)
    ensures And(word, Pow2(value % BITS_PER_WORD)) > 0 <==> Lists(groups, tag, value)
  {
    hide Lists;
    AndPow2(word, value % BITS_PER_WORD);
    assert value == BITS_PER_WORD * (value / BITS_PER_WORD) + value % BITS_PER_WORD;
  }

  /** What does not fit into the standard table is not listed for it. */
  lemma StandardOutside(std: seq<Group>, shape: Shape, tag: nat, value: nat)
    requires shape.standard && Fits(std, shape)
    ensures Lists(std, tag, value) ==> tag < shape.rows && value / BITS_PER_WORD < shape.columns
  {
  }

  /** A row of the extension table answers for the tag and the value. */
  predicate RowHas(g: Group, tag: nat, value: nat, columns: nat) {
    g.tag == tag && (value in g.values || (value == 0 && |g.values| < columns - 1))
  }

  lemma RowJudged(ext: seq<Group>, r: nat, c: nat, tag: nat, value: nat, columns: nat)
    requires r < |ext| && ext[r].tag == tag && 1 <= c < columns && Cell(ext, r, c) == value
    ensures Lists(ext, tag, value) || (value == 0 && ZeroFilled(ext, tag, columns))
  {
  }

  lemma RowLacks(ext: seq<Group>, r: nat, tag: nat, value: nat, columns: nat)
    requires r < |ext| && |ext[r].values| < columns && forall c :: 1 <= c < columns ==> Cell(ext, r, c) != value
    ensures !RowHas(ext[r], tag, value, columns)
  {
    var g := ext[r];
    forall i | 0 <= i < |g.values| ensures g.values[i] != value { assert Cell(ext, r, i + 1) == g.values[i]; }
    if |g.values| < columns - 1 { assert Cell(ext, r, columns - 1) == 0; }
  }

  lemma NoRow(ext: seq<Group>, tag: nat, value: nat, columns: nat)
    requires forall i :: 0 <= i < |ext| ==> !RowHas(ext[i], tag, value, columns)
    ensures !Lists(ext, tag, value) && !(value == 0 && ZeroFilled(ext, tag, columns))
  {
  }

  /** The checks follow the lists for every value but zero, and for zero too when no unfinished extension
      row of a tag stands in for it; and this is exact. */
  lemma JudgedIsLegal(std: seq<Group>, ext: seq<Group>, columns: nat, suppress: bool)
    ensures forall tag: nat, value: nat :: value != 0 ==>
              (Judged(std, ext, columns, suppress, tag, value) <==> Legal(std, ext, suppress, tag, value))
    ensures (forall tag: nat :: tag < HALF ==>
               (Judged(std, ext, columns, suppress, tag, 0) <==> Legal(std, ext, suppress, tag, 0)))
            <==> suppress || forall g <- ext :: 0 < g.tag < HALF && |g.values| < columns - 1 ==>
                   Lists(std, g.tag, 0) || Lists(ext, g.tag, 0)
  {
    hide Lists;
    if forall tag: nat :: tag < HALF ==>
         (Judged(std, ext, columns, suppress, tag, 0) <==> Legal(std, ext, suppress, tag, 0)) {
      forall g <- ext | !suppress && 0 < g.tag < HALF && |g.values| < columns - 1
        ensures Lists(std, g.tag, 0) || Lists(ext, g.tag, 0)
      {
        assert Judged(std, ext, columns, suppress, g.tag, 0);
      }
    }
  }

  /** From the lists to the verdict: both tables are built and then checked. */
  method BuildAndCheck(stdTokens: seq<nat>, stdShape: Shape, extTokens: seq<nat>, extShape: Shape,
                       suppress: bool, tag: nat, value: nat)
    returns (built: bool, legal: bool)
    requires stdShape.standard && !extShape.standard && stdShape.columns > 0 && extShape.columns > 0
    ensures built <==> ReadTable(stdTokens, stdShape).Success? && ReadTable(extTokens, extShape).Success?
    ensures built ==>
              (legal <==> Judged(ReadTable(stdTokens, stdShape).value, ReadTable(extTokens, extShape).value,
                                 extShape.columns, suppress, tag, value))
    ensures built && value != 0 ==>
              (legal <==> Legal(ReadTable(stdTokens, stdShape).value, ReadTable(extTokens, extShape).value, suppress, tag, value))
  {
    var stdTable := new nat[stdShape.rows, stdShape.columns]((_, _) => 0);
    var extTable := new nat[extShape.rows, extShape.columns]((_, _) => 0);
    var stdResult := Build(stdTokens, stdShape, stdTable);
    var extResult := Build(extTokens, extShape, extTable);
    if stdResult.Failure? || extResult.Failure? { return false, false; }
    ghost var std, ext := ReadTable(stdTokens, stdShape).value, ReadTable(extTokens, extShape).value;
    legal := LegalCombination(stdTable, stdShape, std, extTable, extShape, ext, suppress, tag, value);
    JudgedIsLegal(std, ext, extShape.columns, suppress);
    built := true;
  }

  /** A list that tag_tree accepts for the extension table, with one child for one tag. The check then finds
      child 0 legal, which the list does not say. */
  lemma ShortRowMakesZeroLegal()
    ensures var ext := ReadTable([MAGIC_TOKEN_VALUE, 5, 7, MAGIC_TOKEN_VALUE], EXT_TAG_TREE);
            && ext == Success([Group(5, [7])])
            && Judged([], ext.value, EXT_TAG_TREE.columns, false, 5, 0) && !Legal([], ext.value, false, 5, 0)
  {
    var groups := [Group(5, [7])];
    assert Write(groups) == [MAGIC_TOKEN_VALUE, 5, 7, MAGIC_TOKEN_VALUE] by {
      assert groups[1..] == [] && WriteGroups([]) == [];
    }
    hide ReadTable;
    ReadWritten(groups, EXT_TAG_TREE);
    assert groups[0] in groups && ZeroFilled(groups, 5, 4);
  }
}
