/** Which lists of numbers tag_tree and tag_attr accept, and what they complain about in the others. */
module TagFacts {
  import opened TagTables

  predicate NoMagicIn(values: seq<nat>) { MAGIC_TOKEN_VALUE !in values }

  ghost predicate Plain(groups: seq<Group>) { forall g <- groups :: NoMagicIn(g.values) }

  /** A value has no room in the given column. */
  predicate TooMany(value: nat, column: nat, shape: Shape) {
    (if shape.standard then value / 32 else column) >= shape.columns
  }

  /** Values that have room from the given column on. */
  ghost predicate ValuesFit(values: seq<nat>, column: nat, shape: Shape) {
    forall i :: 0 <= i < |values| ==> !TooMany(values[i], column + i, shape)
  }

  /** A group can follow as many groups before it. */
  predicate HasRoom(tag: nat, row: nat, shape: Shape) { if shape.standard then tag < shape.rows else row < shape.rows }

  ghost predicate GroupsFit(groups: seq<Group>, row: nat, shape: Shape) {
    forall i :: 0 <= i < |groups| ==> HasRoom(groups[i].tag, row + i, shape) && ValuesFit(groups[i].values, 1, shape)
  }

  lemma FitsIs(groups: seq<Group>, shape: Shape)
    requires shape.columns > 0
    ensures Fits(groups, shape) <==> GroupsFit(groups, 0, shape)
  {
    if Fits(groups, shape) {
      forall i | 0 <= i < |groups| ensures HasRoom(groups[i].tag, i, shape) && ValuesFit(groups[i].values, 1, shape) {
        assert groups[i] in groups;
        assert forall k :: 0 <= k < |groups[i].values| ==> groups[i].values[k] in groups[i].values;
      }
    }
    if GroupsFit(groups, 0, shape) {
      forall g | g in groups
        ensures if shape.standard then g.tag < shape.rows && forall v <- g.values :: v / BITS_PER_WORD < shape.columns
                else |g.values| < shape.columns
      {
        var i :| 0 <= i < |groups| && groups[i] == g;
        assert HasRoom(g.tag, 0 + i, shape);
        if !shape.standard && g.values != [] { assert !TooMany(g.values[|g.values| - 1], 1 + (|g.values| - 1), shape); }
        if shape.standard {
          forall v | v in g.values ensures v / BITS_PER_WORD < shape.columns {
            var k :| 0 <= k < |g.values| && g.values[k] == v;
            assert !TooMany(v, 1 + k, shape);
          }
        }
      }
      if !shape.standard && groups != [] { assert HasRoom(groups[|groups| - 1].tag, 0 + (|groups| - 1), shape); }
    }
  }

  // ----- a list is read from the front

  lemma {:induction false} ValuesRead(values: seq<nat>, column: nat, shape: Shape, rest: seq<nat>)
    requires NoMagicIn(values) && ValuesFit(values, column, shape)
    ensures ReadValues(values + rest, column, shape) == BeforeValues(values, ReadValues(rest, column + |values|, shape))
    decreases values
  {
    var tokens := values + rest;
    if values == [] {
      assert tokens == rest;
      var r := ReadValues(rest, column, shape);
      if r.Success? { assert [] + r.value.0 == r.value.0; }
    } else {
      assert tokens[1..] == values[1..] + rest && values[0] in values;
      assert !TooMany(values[0], column + 0, shape);
      assert forall i :: 0 <= i < |values[1..]| ==> values[1..][i] == values[i + 1];
      forall i | 0 <= i < |values[1..]| ensures !TooMany(values[1..][i], column + 1 + i, shape) {
        assert !TooMany(values[i + 1], column + (i + 1), shape);
      }
      ValuesRead(values[1..], column + 1, shape, rest);
      var r := ReadValues(rest, column + |values|, shape);
      if r.Success? { assert [values[0]] + (values[1..] + r.value.0) == values + r.value.0; }
    }
  }

  lemma OneGroup(g: Group, shape: Shape, behind: seq<nat>)
    requires NoMagicIn(g.values) && ValuesFit(g.values, 1, shape)
    ensures ReadValues(g.values + ([MAGIC_TOKEN_VALUE] + behind), 1, shape) == Success((g.values, behind))
  {
    ValuesRead(g.values, 1, shape, [MAGIC_TOKEN_VALUE] + behind);
    assert ([MAGIC_TOKEN_VALUE] + behind)[1..] == behind && g.values + [] == g.values;
    hide ValuesFit;
  }

  lemma FirstReads(g: Group, row: nat, shape: Shape, behind: seq<nat>)
    requires HasRoom(g.tag, row, shape) && NoMagicIn(g.values) && ValuesFit(g.values, 1, shape)
    ensures ReadGroups([g.tag] + (g.values + ([MAGIC_TOKEN_VALUE] + behind)), row, shape)
         == Before([g], ReadGroups(behind, row + 1, shape))
  {
    hide ReadValues, ValuesFit, Before, NoMagicIn;
    OneGroup(g, shape, behind);
    var tokens := [g.tag] + (g.values + ([MAGIC_TOKEN_VALUE] + behind));
    assert tokens[1..] == g.values + ([MAGIC_TOKEN_VALUE] + behind);
  }

  lemma WrittenFirst(groups: seq<Group>, rest: seq<nat>)
    requires groups != []
    ensures WriteGroups(groups) + rest
         == [groups[0].tag] + (groups[0].values + ([MAGIC_TOKEN_VALUE] + (WriteGroups(groups[1..]) + rest)))
  {
  }

  lemma BeforeTwice(groups: seq<Group>, r: Result<seq<Group>>)
    ensures groups == [] ==> Before(groups, r) == r
    ensures groups != [] ==> Before([groups[0]], Before(groups[1..], r)) == Before(groups, r)
  {
    if r.Success? {
      assert [] + r.value == r.value;
      if groups != [] { assert [groups[0]] + (groups[1..] + r.value) == groups + r.value; }
    }
  }

  lemma FitsRest(groups: seq<Group>, row: nat, shape: Shape)
    requires groups != [] && Plain(groups) && GroupsFit(groups, row, shape)
    ensures HasRoom(groups[0].tag, row, shape) && NoMagicIn(groups[0].values) && ValuesFit(groups[0].values, 1, shape)
    ensures Plain(groups[1..]) && GroupsFit(groups[1..], row + 1, shape)
  {
    hide ValuesFit, HasRoom, NoMagicIn;
    assert groups[0] in groups && HasRoom(groups[0].tag, row + 0, shape);
    forall i | 0 <= i < |groups[1..]|
      ensures HasRoom(groups[1..][i].tag, row + 1 + i, shape) && ValuesFit(groups[1..][i].values, 1, shape)
    {
      assert HasRoom(groups[i + 1].tag, row + (i + 1), shape);
    }
  }

  /** Groups at the front that have room, and what follows them. */
  lemma {:induction false} GroupsRead(groups: seq<Group>, row: nat, shape: Shape, rest: seq<nat>)
    requires Plain(groups) && GroupsFit(groups, row, shape)
    ensures ReadGroups(WriteGroups(groups) + rest, row, shape) == Before(groups, ReadGroups(rest, row + |groups|, shape))
    decreases groups
  {
    hide *;
    BeforeTwice(groups, ReadGroups(rest, row + |groups|, shape));
    if groups == [] {
      NothingWritten(rest);
    } else {
      FitsRest(groups, row, shape);
      WrittenFirst(groups, rest);
      FirstReads(groups[0], row, shape, WriteGroups(groups[1..]) + rest);
      GroupsRead(groups[1..], row + 1, shape, rest);
    }
  }

  lemma NothingWritten(rest: seq<nat>)
    ensures WriteGroups([]) + rest == rest
  {
  }

  // ----- which lists are accepted

  lemma {:induction false} ValuesWere(tokens: seq<nat>, column: nat, shape: Shape)
    requires ReadValues(tokens, column, shape).Success?
    ensures var (values, rest) := ReadValues(tokens, column, shape).value;
            tokens == values + ([MAGIC_TOKEN_VALUE] + rest) && NoMagicIn(values) && ValuesFit(values, column, shape)
    decreases |tokens|
  {
    if tokens[0] == MAGIC_TOKEN_VALUE {
      assert tokens == [] + ([MAGIC_TOKEN_VALUE] + tokens[1..]);
    } else {
      ValuesWere(tokens[1..], column + 1, shape);
      var (values, rest) := ReadValues(tokens, column, shape).value;
      var more := ReadValues(tokens[1..], column + 1, shape).value.0;
      assert values == [tokens[0]] + more;
      assert tokens == [tokens[0]] + tokens[1..];
      forall i | 0 <= i < |values| ensures !TooMany(values[i], column + i, shape) {
        if i > 0 { assert !TooMany(more[i - 1], column + 1 + (i - 1), shape); }
      }
    }
  }

  lemma FirstWas(tokens: seq<nat>, row: nat, shape: Shape)
    requires ReadGroups(tokens, row, shape).Success? && tokens != []
    ensures HasRoom(tokens[0], row, shape) && ReadValues(tokens[1..], 1, shape).Success?
    ensures var (values, rest) := ReadValues(tokens[1..], 1, shape).value;
            && ReadGroups(rest, row + 1, shape).Success?
            && ReadGroups(tokens, row, shape).value
               == [Group(tokens[0], values)] + ReadGroups(rest, row + 1, shape).value
  {
    hide ReadValues;
  }

  lemma MoreGroups(g: Group, more: seq<Group>, row: nat, shape: Shape)
    requires Plain(more) && GroupsFit(more, row + 1, shape)
    requires HasRoom(g.tag, row, shape) && ValuesFit(g.values, 1, shape) && NoMagicIn(g.values)
    ensures Plain([g] + more) && GroupsFit([g] + more, row, shape)
    ensures WriteGroups([g] + more) == [g.tag] + g.values + [MAGIC_TOKEN_VALUE] + WriteGroups(more)
  {
    hide ValuesFit, HasRoom, NoMagicIn;
    var groups := [g] + more;
    assert groups[1..] == more;
    forall i | 0 <= i < |groups| ensures HasRoom(groups[i].tag, row + i, shape) && ValuesFit(groups[i].values, 1, shape) {
      if i > 0 { assert groups[i] == more[i - 1] && HasRoom(more[i - 1].tag, row + 1 + (i - 1), shape); }
    }
  }

  lemma Rejoined(tokens: seq<nat>, values: seq<nat>, magic: nat, rest: seq<nat>)
    requires tokens != [] && tokens[1..] == values + ([magic] + rest)
    ensures tokens == [tokens[0]] + values + [magic] + rest
  {
    assert tokens == [tokens[0]] + tokens[1..];
  }

  lemma {:induction false} GroupsWere(tokens: seq<nat>, row: nat, shape: Shape)
    requires ReadGroups(tokens, row, shape).Success?
    ensures var groups := ReadGroups(tokens, row, shape).value;
            tokens == WriteGroups(groups) && Plain(groups) && GroupsFit(groups, row, shape)
    decreases |tokens|
  {
    if tokens != [] {
      hide *;
      FirstWas(tokens, row, shape);
      ValuesWere(tokens[1..], 1, shape);
      var (values, rest) := ReadValues(tokens[1..], 1, shape).value;
      var more := ReadGroups(rest, row + 1, shape).value;
      GroupsWere(rest, row + 1, shape);
      MoreGroups(Group(tokens[0], values), more, row, shape);
      Rejoined(tokens, values, MAGIC_TOKEN_VALUE, rest);
    }
  }

  /** A list is accepted exactly when it is written from groups that fit the table and have no magic number among
      their values; these groups are what is read. */
  lemma AcceptedAreWritten(tokens: seq<nat>, shape: Shape)
    requires shape.columns > 0
    ensures ReadTable(tokens, shape).Success? <==> exists groups :: Fits(groups, shape) && Plain(groups) && tokens == Write(groups)
    ensures forall groups | Fits(groups, shape) && Plain(groups) && tokens == Write(groups)
              :: ReadTable(tokens, shape) == Success(groups)
  {
    hide Fits, ReadGroups, WriteGroups, GroupsFit;
    if ReadTable(tokens, shape).Success? {
      var groups := ReadTable(tokens, shape).value;
      GroupsWere(tokens[1..], 0, shape);
      FitsIs(groups, shape);
      assert tokens == [tokens[0]] + tokens[1..] == Write(groups);
    }
    forall groups | Fits(groups, shape) && Plain(groups) && tokens == Write(groups)
      ensures ReadTable(tokens, shape) == Success(groups)
    {
      ReadWritten(groups, shape);
    }
  }

  // ----- the complaints

  /** Behind groups that fit: a group with no room, values that do not end, or a value with no room. The first such
      thing is what is complained about; a list that does not begin with the magic number is refused at once. */
  lemma Complaints(groups: seq<Group>, tag: nat, values: seq<nat>, value: nat, rest: seq<nat>, shape: Shape)
    requires Plain(groups) && GroupsFit(groups, 0, shape) && NoMagicIn(values) && ValuesFit(values, 1, shape)
    ensures ReadTable([], shape) == Failure(EmptyInput)
    ensures tag != MAGIC_TOKEN_VALUE ==> ReadTable([tag] + rest, shape) == Failure(NoMagic)
    ensures !HasRoom(tag, |groups|, shape) ==>
              ReadTable(Write(groups) + ([tag] + rest), shape) == Failure(if shape.standard then TagTooLarge else TooManyRows)
    ensures HasRoom(tag, |groups|, shape) ==>
              ReadTable(Write(groups) + ([tag] + values), shape) == Failure(NotTerminated)
    ensures HasRoom(tag, |groups|, shape) && value != MAGIC_TOKEN_VALUE && TooMany(value, 1 + |values|, shape) ==>
              ReadTable(Write(groups) + ([tag] + (values + ([value] + rest))), shape) == Failure(TooManyValues)
  {
    hide ReadGroups, ReadValues, GroupsFit, ValuesFit, WriteGroups;
    Behind(groups, [tag] + rest, shape);
    NoRoom(tag, |groups|, rest, shape);
    Behind(groups, [tag] + values, shape);
    Unended(values, shape);
    BadGroup(tag, |groups|, values, shape);
    Behind(groups, [tag] + (values + ([value] + rest)), shape);
    Overfull(values, value, rest, shape);
    BadGroup(tag, |groups|, values + ([value] + rest), shape);
  }

  lemma Behind(groups: seq<Group>, rest: seq<nat>, shape: Shape)
    requires Plain(groups) && GroupsFit(groups, 0, shape)
    ensures ReadGroups(rest, |groups|, shape).Failure? ==>
              ReadTable(Write(groups) + rest, shape) == ReadGroups(rest, |groups|, shape)
  {
    assert (Write(groups) + rest)[1..] == WriteGroups(groups) + rest;
    GroupsRead(groups, 0, shape, rest);
    hide ReadGroups, WriteGroups, GroupsFit;
  }

  lemma NoRoom(tag: nat, row: nat, rest: seq<nat>, shape: Shape)
    ensures !HasRoom(tag, row, shape) ==>
              ReadGroups([tag] + rest, row, shape) == Failure(if shape.standard then TagTooLarge else TooManyRows)
  {
  }

  lemma BadGroup(tag: nat, row: nat, behind: seq<nat>, shape: Shape)
    ensures HasRoom(tag, row, shape) && ReadValues(behind, 1, shape).Failure? ==>
              ReadGroups([tag] + behind, row, shape) == Failure(ReadValues(behind, 1, shape).error)
  {
    hide ReadValues;
    assert ([tag] + behind)[1..] == behind;
  }

  lemma Unended(values: seq<nat>, shape: Shape)
    requires NoMagicIn(values) && ValuesFit(values, 1, shape)
    ensures ReadValues(values, 1, shape) == Failure(NotTerminated)
  {
    assert values + [] == values;
    ValuesRead(values, 1, shape, []);
  }

  lemma Overfull(values: seq<nat>, value: nat, rest: seq<nat>, shape: Shape)
    requires NoMagicIn(values) && ValuesFit(values, 1, shape)
    ensures value != MAGIC_TOKEN_VALUE && TooMany(value, 1 + |values|, shape) ==>
              ReadValues(values + ([value] + rest), 1, shape) == Failure(TooManyValues)
  {
    ValuesRead(values, 1, shape, [value] + rest);
  }
}
