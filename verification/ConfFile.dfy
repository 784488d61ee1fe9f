/** A whole dwarfdump.conf: blocks for several ABIs with blank and comment lines between them, of which the one
    asked for is read. */
module ConfFile {
  import opened RegisterTable
  import opened ConfLines
  import opened ConfParser
  import opened ConfRoundTrip

  // ----- files

  /** What a file is made of. */
  datatype Item =
    | Between(tail: Tail)
    | Block(name: string, begin: Bracket, lines: seq<Line>, end: Bracket)

  /** Every line of it fits the smaller of the two buffers. */
  predicate Fits(item: Item) {
    match item
    case Between(tail) => tail.Proper() && |tail.Text()| <= SHORT_LINE
    case Block(name, begin, lines, end) =>
      && Word(name) && begin.Proper() && end.Proper()
      && |begin.Text(BeginAbi, name)| <= SHORT_LINE && |end.Text(EndAbi, name)| <= SHORT_LINE
      && forall line <- lines :: Proper(line) && |Text(line)| <= SHORT_LINE
  }

  function Texts(lines: seq<Line>): (texts: seq<string>)
    ensures |texts| == |lines| && forall i :: 0 <= i < |lines| ==> texts[i] == Text(lines[i])
  {
    seq(|lines|, i requires 0 <= i < |lines| => Text(lines[i]))
  }

  /** The lines of text that an item is written in. */
  function Written(item: Item): seq<string> {
    match item
    case Between(tail) => [tail.Text()]
    case Block(name, begin, lines, end) => [begin.Text(BeginAbi, name)] + Texts(lines) + [end.Text(EndAbi, name)]
  }

  function AllWritten(items: seq<Item>): seq<string> {
    if items == [] then [] else Written(items[0]) + AllWritten(items[1..])
  }

  /** No item is the block of this ABI. */
  predicate OthersOnly(items: seq<Item>, abiname: string) {
    forall item <- items :: Fits(item) && (item.Block? ==> item.name != abiname)
  }

  // ----- which lines begin which block

  /** A command's line has its name for the first token. */
  lemma FirstToken(lead: string, kind: Kind, gap: string, operands: string)
    requires Blank(lead) && Gap(gap)
    ensures Token(lead + (NameOf(kind) + (gap + operands))) == (NameOf(kind), gap + operands)
  {
    CommandIsWord(kind);
    GapStart(gap, operands);
    hide NameOf, Token;
    var rest := gap + operands;
    assert lead + (NameOf(kind) + rest) == lead + NameOf(kind) + rest;
    TokenWritten(lead, NameOf(kind), rest);
  }

  lemma BracketSplit(b: Bracket, kind: Kind, name: string)
    ensures b.Text(kind, name) == b.lead + (NameOf(kind) + (b.gap + (name + b.tail.Text())))
  {
    hide NameOf;
    assert b.gap + name + b.tail.Text() == b.gap + (name + b.tail.Text());
  }

  /** A written `beginabi:` line begins the block of the ABI it names, and no other. */
  lemma BeginsItsOwn(b: Bracket, name: string, abiname: string)
    requires b.Proper() && Word(name)
    ensures Begins(b.Text(BeginAbi, name), abiname) <==> name == abiname
  {
    BracketSplit(b, BeginAbi, name);
    hide NameOf, Token;
    FirstToken(b.lead, BeginAbi, b.gap, name + b.tail.Text());
    SecondOperand(b.gap, name, b.tail);
  }

  lemma OtherName(kind: Kind)
    requires kind != BeginAbi
    ensures NameOf(kind) != NameOf(BeginAbi)
  {
    CommandIsNamed(kind);
    CommandIsNamed(BeginAbi);
    hide NameOf, CommandNamed;
  }

  /** `endabi:` lines, lines inside a block, and blank and comment lines begin no block. */
  lemma EndBeginsNone(b: Bracket, name: string, abiname: string)
    requires b.Proper()
    ensures !Begins(b.Text(EndAbi, name), abiname)
  {
    BracketSplit(b, EndAbi, name);
    hide NameOf, Token;
    FirstToken(b.lead, EndAbi, b.gap, name + b.tail.Text());
    OtherName(EndAbi);
  }

  lemma LineBeginsNone(line: Line, abiname: string)
    requires Proper(line)
    ensures !Begins(Text(line), abiname)
  {
    hide NameOf, Token, Decimal;
    match line
    case Nothing(tail) => TailBeginsNone(tail, abiname);
    case Naming(lead, gap, name, gap2, reg, tail) =>
      NamingText(lead, gap, name, gap2, reg, tail);
      FirstToken(lead, Reg, gap, name + (gap2 + (Decimal(reg) + tail.Text())));
      OtherName(Reg);
    case Setting(lead, kind, gap, value, tail) =>
      SettingText(lead, kind, gap, value, tail);
      FirstToken(lead, kind, gap, Decimal(value) + tail.Text());
      OtherName(kind);
  }

  lemma TailBeginsNone(tail: Tail, abiname: string)
    requires tail.Proper()
    ensures !Begins(tail.Text(), abiname)
  {
    TailHasNone(tail);
    hide Token;
  }

  // ----- other blocks are passed

  lemma ShortLine(s: string)
    requires IsLine(s, LINE) && |s| <= SHORT_LINE
    ensures IsLine(s, SHORT_LINE)
  {
  }

  lemma ItemPassed(item: Item, abiname: string)
    requires Fits(item) && (item.Block? ==> item.name != abiname)
    ensures Passed(Written(item), abiname)
  {
    hide Begins, Proper, IsLine, Text, NameOf;
    match item
    case Between(tail) =>
      TailBeginsNone(tail, abiname);
      BlankLineIsLine(tail);
    case Block(name, begin, lines, end) =>
      BeginsItsOwn(begin, name, abiname);
      BracketIsLine(begin, BeginAbi, name);
      EndBeginsNone(end, name, abiname);
      BracketIsLine(end, EndAbi, name);
      forall text | text in Texts(lines) ensures IsLine(text, SHORT_LINE) && !Begins(text, abiname) {
        var i :| 0 <= i < |lines| && text == Text(lines[i]);
        assert lines[i] in lines;
        LineBeginsNone(lines[i], abiname);
        TextIsLine(lines[i]);
        ShortLine(text);
      }
  }

  lemma BracketIsLine(b: Bracket, kind: Kind, name: string)
    requires b.Proper() && Word(name) && |b.Text(kind, name)| <= SHORT_LINE
    ensures IsLine(b.Text(kind, name), SHORT_LINE)
  {
    BracketText(b, kind, name);
    hide IsLine, NameOf;
    ShortLine(b.Text(kind, name));
  }

  lemma BlankLineIsLine(tail: Tail)
    requires tail.Proper() && |tail.Text()| <= SHORT_LINE
    ensures IsLine(tail.Text(), SHORT_LINE)
  {
    assert "" + tail.Text() == tail.Text();
    EndsLine("", tail);
    hide IsLine;
    ShortLine(tail.Text());
  }

  lemma {:induction false} AllPassed(items: seq<Item>, abiname: string)
    requires OthersOnly(items, abiname)
    ensures Passed(AllWritten(items), abiname)
  {
    hide Fits, Begins, IsLine;
    if items != [] {
      assert items[0] in items && forall item <- items[1..] :: item in items;
      ItemPassed(items[0], abiname);
      AllPassed(items[1..], abiname);
    }
  }

  // ----- the file

  /** Blocks of other ABIs, the block of this one, and what follows: the block is read to its names in their order,
      and each setting to the last value it gives or the default. */
  lemma FileRead(before: seq<Item>, block: Item, after: string)
    requires block.Block? && Fits(block) && OthersOnly(before, block.name)
    ensures var r := ReadConfig(Concat(AllWritten(before)) + Concat(Written(block)) + after, block.name);
            && r.Parsed? && r.st.writes == NamesIn(block.lines) && r.st.regCount == |NamesIn(block.lines)|
            && (forall kind | IsScalar(kind) :: Field(r.st.conf, kind) == Asked(block.lines, kind))
            && (r.st.errors == 0 <==> OnceEach(block.lines) && |NamesIn(block.lines)| <= Asked(block.lines, RegTableSize))
  {
    FitsIsReadable(before, block);
    var Block(name, begin, lines, end) := block;
    hide *;
    BlockText(block);
    FileText(Concat(AllWritten(before)), begin, lines, end, after, name);
    BlockRead(AllWritten(before), begin, lines, end, after, name);
    BlockErrors(AllWritten(before), begin, lines, end, after, name);
  }

  lemma FitsIsReadable(before: seq<Item>, block: Item)
    requires block.Block? && Fits(block) && OthersOnly(before, block.name)
    ensures Readable(AllWritten(before), block.begin, block.lines, block.end, block.name)
  {
    hide Passed, Proper, Text, NameOf;
    AllPassed(before, block.name);
  }

  lemma FileText(before: string, begin: Bracket, lines: seq<Line>, end: Bracket, after: string, name: string)
    ensures before + (begin.Text(BeginAbi, name) + Lines(lines) + end.Text(EndAbi, name)) + after
         == before + begin.Text(BeginAbi, name) + Lines(lines) + end.Text(EndAbi, name) + after
  {
    hide Lines;
  }

  lemma {:induction false} ConcatTexts(lines: seq<Line>, last: string)
    ensures Concat(Texts(lines) + [last]) == Lines(lines) + last
  {
    var texts := Texts(lines) + [last];
    if lines == [] {
      assert texts == [last] && texts[1..] == [];
      assert last + "" == last;
    } else {
      assert texts[1..] == Texts(lines[1..]) + [last];
      ConcatTexts(lines[1..], last);
      assert Text(lines[0]) + (Lines(lines[1..]) + last) == Text(lines[0]) + Lines(lines[1..]) + last;
    }
  }

  lemma BlockText(block: Item)
    requires block.Block?
    ensures Concat(Written(block))
         == block.begin.Text(BeginAbi, block.name) + Lines(block.lines) + block.end.Text(EndAbi, block.name)
  {
    var first, last := block.begin.Text(BeginAbi, block.name), block.end.Text(EndAbi, block.name);
    hide Lines, NameOf;
    assert Written(block) == [first] + (Texts(block.lines) + [last]);
    assert Written(block)[1..] == Texts(block.lines) + [last];
    ConcatTexts(block.lines, last);
  }

  /** A file with no block of this ABI: nothing is parsed. */
  lemma NotInFile(items: seq<Item>, abiname: string)
    requires OthersOnly(items, abiname)
    ensures ReadConfig(Concat(AllWritten(items)), abiname) == NoEnd(2)
  {
    hide *;
    var text := Concat(AllWritten(items));
    AllPassed(items, abiname);
    assert text[0..0 + |text|] == text;
    WholeText(text);
    PassedBy(text, 0, AllWritten(items), abiname);
    NoConfig(text, abiname);
  }

  lemma NoConfig(text: string, abiname: string)
    requires FindAbi(text, 0, abiname).None?
    ensures ReadConfig(text, abiname) == NoEnd(2)
  {
  }

  lemma WholeText(text: string)
    ensures StartsWith(text, 0, text)
  {
    assert text[0..0 + |text|] == text;
  }

  lemma {:induction false} PassedBy(text: string, at: nat, lines: seq<string>, abiname: string)
    requires Passed(lines, abiname) && StartsWith(text, at, Concat(lines)) && at + |Concat(lines)| == |text|
    ensures FindAbi(text, at, abiname).None?
    decreases |lines|
  {
    hide Begins, IsLine, StartsWith, LineEnd;
    if lines != [] {
      assert lines[0] in lines;
      SplitStart(text, at, lines[0], Concat(lines[1..]));
      ShortLineRead(text, at, lines[0]);
      PassedBy(text, at + |lines[0]|, lines[1..], abiname);
    }
  }

  // ----- the defaults, and the commands' names

  lemma ConfIs(conf: Conf)
    ensures conf == Conf(Field(conf, FrameInterface), conf.tableEntryCount, Field(conf, InitialRegValue),
                         Field(conf, CfaReg), Field(conf, SameValReg), Field(conf, UndefinedValReg))
            && Field(conf, RegTableSize) == conf.tableEntryCount
  {
  }

  /** A block without settings leaves all of them as they are from the start. */
  lemma Defaults(before: seq<Item>, block: Item, after: string)
    requires block.Block? && Fits(block) && OthersOnly(before, block.name) && block.lines == []
    ensures var r := ReadConfig(Concat(AllWritten(before)) + Concat(Written(block)) + after, block.name);
            r.Parsed? && r.st.writes == [] && r.st.errors == 0 && r.st.conf == Conf(2, 66, 1035, 0, 1035, 1034)
  {
    hide ReadConfig, Fits, OthersOnly, Concat, AllWritten, Written;
    FileRead(before, block, after);
    ConfIs(ReadConfig(Concat(AllWritten(before)) + Concat(Written(block)) + after, block.name).st.conf);
    assert IsScalar(FrameInterface) && IsScalar(CfaReg) && IsScalar(InitialRegValue) && IsScalar(SameValReg)
           && IsScalar(UndefinedValReg) && IsScalar(RegTableSize);
  }

  /** The words that are commands. */
  lemma CommandWords()
    ensures CommandNamed("beginabi:", 0) == Command(BeginAbi) && CommandNamed("endabi:", 0) == Command(EndAbi)
    ensures CommandNamed("reg:", 0) == Command(Reg) && CommandNamed("frame_interface:", 0) == Command(FrameInterface)
    ensures CommandNamed("cfa_reg:", 0) == Command(CfaReg)
    ensures CommandNamed("initial_reg_value:", 0) == Command(InitialRegValue)
    ensures CommandNamed("same_val_reg:", 0) == Command(SameValReg)
    ensures CommandNamed("undefined_val_reg:", 0) == Command(UndefinedValReg)
    ensures CommandNamed("reg_table_size:", 0) == Command(RegTableSize)
  {
    forall kind: Kind { CommandIsNamed(kind); }
    hide CommandNamed;
    assert NameOf(BeginAbi) == "beginabi:" && NameOf(EndAbi) == "endabi:" && NameOf(Reg) == "reg:";
    assert NameOf(FrameInterface) == "frame_interface:" && NameOf(CfaReg) == "cfa_reg:";
    assert NameOf(InitialRegValue) == "initial_reg_value:" && NameOf(SameValReg) == "same_val_reg:";
    assert NameOf(UndefinedValReg) == "undefined_val_reg:" && NameOf(RegTableSize) == "reg_table_size:";
  }
}
