/** Configurations written as text, with any blanks and comments, and parsed back. */
module ConfRoundTrip {
  import opened Bits
  import opened RegisterTable
  import opened ConfLines
  import opened ConfParser

  // ----- written blocks

  /** A line inside a block. */
  datatype Line =
    | Nothing(tail: Tail)
    | Naming(lead: string, gap: string, name: string, gap2: string, reg: nat, tail: Tail)
    | Setting(lead: string, kind: Kind, gap: string, value: nat, tail: Tail)

  function Text(line: Line): string {
    match line
    case Nothing(tail) => tail.Text()
    case Naming(lead, gap, name, gap2, reg, tail) =>
      lead + (NameOf(Reg) + (gap + name + (gap2 + Decimal(reg) + tail.Text())))
    case Setting(lead, kind, gap, value, tail) =>
      lead + (NameOf(kind) + (gap + Decimal(value) + tail.Text()))
  }

  predicate Gap(s: string) { s != "" && Blank(s) }

  /** The values a setting can take: interface numbers are 2 and 3, a table size has 64 bits, others 31. */
  predicate ValueFits(kind: Kind, value: nat) {
    match kind
    case FrameInterface => value == 2 || value == 3
    case RegTableSize => value < TWO_64
    case _ => value < TWO_31
  }

  predicate Proper(line: Line) {
    && |Text(line)| <= LINE && line.tail.Proper()
    && match line
       case Nothing(tail) => true
       case Naming(lead, gap, name, gap2, reg, tail) =>
         Blank(lead) && Gap(gap) && Word(name) && Gap(gap2) && reg < TWO_64
       case Setting(lead, kind, gap, value, tail) =>
         Blank(lead) && IsScalar(kind) && Gap(gap) && ValueFits(kind, value)
  }

  /** A first or last line: `beginabi:` or `endabi:` and the name. */
  datatype Bracket = Bracket(lead: string, gap: string, tail: Tail) {
    predicate Proper() { Blank(lead) && Gap(gap) && tail.Proper() }

    function Text(kind: Kind, abiname: string): string {
      lead + (NameOf(kind) + (gap + abiname + tail.Text()))
    }
  }

  function Lines(lines: seq<Line>): string {
    if lines == [] then "" else Text(lines[0]) + Lines(lines[1..])
  }

  function With(conf: Conf, kind: Kind, value: nat): Conf
    requires IsScalar(kind)
  {
    match kind
    case FrameInterface => conf.(interfaceNumber := value)
    case CfaReg => conf.(cfaReg := value)
    case InitialRegValue => conf.(initialRuleValue := value)
    case SameValReg => conf.(sameVal := value)
    case UndefinedValReg => conf.(undefinedVal := value)
    case RegTableSize => conf.(tableEntryCount := value)
  }

  /** A setting with exactly its value; one that comes again is an error. */
  function SetTo(st: State, kind: Kind, value: nat): State
    requires IsScalar(kind)
  {
    st.(conf := With(st.conf, kind, value), seen := st.seen + {kind},
        errors := st.errors + if kind in st.seen then 1 else 0)
  }

  function Named(st: State, reg: nat, name: string): State {
    st.(writes := st.writes + [(reg, name)], regCount := st.regCount + 1)
  }

  /** What a line says. */
  function Meant(st: State, line: Line): State {
    match line
    case Nothing(_) => st
    case Naming(_, _, name, _, reg, _) => Named(st, reg, name)
    case Setting(_, kind, _, value, _) => if IsScalar(kind) then SetTo(st, kind, value) else st
  }

  function AllMeant(st: State, lines: seq<Line>): State
    decreases |lines|
  {
    if lines == [] then st else AllMeant(Meant(st, lines[0]), lines[1..])
  }

  // ----- each line is understood

  lemma SkipWord(s: string)
    requires s != "" && !IsSpace(s[0])
    ensures SkipWhite(s) == s
  {
  }

  lemma WordStart(word: string, rest: string)
    requires Word(word)
    ensures (word + rest)[0] == word[0] && InToken(word[0])
  {
    assert word[0] in word;
  }

  lemma GapStart(gap: string, rest: string)
    requires Gap(gap)
    ensures gap + rest != "" && (gap + rest)[0] == gap[0] && !InToken(gap[0]) && Blank(gap[1..])
  {
    assert gap[0] in gap;
    assert forall c <- gap[1..] :: c in gap;
  }

  lemma {:induction false} CommandFound(i: nat, j: nat)
    requires j <= i < |COMMANDS|
    ensures CommandNamed(NameOf(COMMANDS[i]), j) == Command(COMMANDS[i])
    decreases i - j
  {
    if j < i {
      CommandFound(i, j + 1);
    }
  }

  lemma CommandIsWord(kind: Kind)
    ensures Word(NameOf(kind))
  {
    hide *;
    if kind == InitialRegValue || kind == UndefinedValReg || kind == FrameInterface {
      LongCommandIsWord(kind);
    } else {
      ShortCommandIsWord(kind);
    }
  }

  lemma LongCommandIsWord(kind: Kind)
    requires kind == InitialRegValue || kind == UndefinedValReg || kind == FrameInterface
    ensures Word(NameOf(kind))
  {
  }

  lemma ShortCommandIsWord(kind: Kind)
    requires kind != InitialRegValue && kind != UndefinedValReg && kind != FrameInterface
    ensures Word(NameOf(kind))
  {
  }

  /** No two commands have the same name. */
  lemma CommandIsNamed(kind: Kind)
    ensures CommandNamed(NameOf(kind), 0) == Command(kind)
  {
    hide NameOf;
    CommandFound(match kind
                 case BeginAbi => 0 case Reg => 1 case FrameInterface => 2 case CfaReg => 3 case InitialRegValue => 4
                 case SameValReg => 5 case UndefinedValReg => 6 case RegTableSize => 7 case EndAbi => 8, 0);
  }

  lemma CommandToken(kind: Kind, gap: string, operands: string)
    requires Gap(gap)
    ensures var line := NameOf(kind) + (gap + operands);
            line != "" && line[0] != '#' && SkipWhite(line) == line && Token(line).0 == NameOf(kind)
  {
    CommandIsWord(kind);
    hide NameOf, SkipWhite, TokenLen, Token;
    var rest := gap + operands;
    WordStart(NameOf(kind), rest);
    GapStart(gap, operands);
    SkipWord(NameOf(kind) + rest);
    assert "" + NameOf(kind) + rest == NameOf(kind) + rest;
    TokenWritten("", NameOf(kind), rest);
  }

  lemma CommandType(line: string, kind: Kind)
    requires line != "" && line[0] != '#' && Token(line).0 == NameOf(kind)
    ensures TypeOf(line) == Command(kind)
  {
    CommandIsNamed(kind);
    hide NameOf, Token, CommandNamed;
  }

  lemma CommandOperands(kind: Kind, gap: string, operands: string)
    requires Gap(gap)
    ensures var line := NameOf(kind) + (gap + operands);
            HasOperands(line, kind) && Operands(line, kind) == gap[1..] + operands
  {
    hide NameOf, Gap;
    assert gap != "" by { GapStart(gap, ""); }
    var line := NameOf(kind) + (gap + operands);
    assert line[|NameOf(kind)| + 1..] == gap[1..] + operands;
  }

  /** A command and a blank: the line's type, and where its operands start. */
  lemma CommandLine(lead: string, kind: Kind, gap: string, operands: string)
    requires Blank(lead) && Gap(gap)
    ensures var line := SkipWhite(lead + (NameOf(kind) + (gap + operands)));
            && TypeOf(line) == Command(kind) && HasOperands(line, kind)
            && Operands(line, kind) == gap[1..] + operands
  {
    hide *;
    var line := NameOf(kind) + (gap + operands);
    SkipBlank(lead, line);
    CommandToken(kind, gap, operands);
    CommandType(line, kind);
    CommandOperands(kind, gap, operands);
  }

  /** The last operand, and nothing behind it. */
  lemma LastOperand(gap: string, word: string, tail: Tail)
    requires Gap(gap) && Word(word) && tail.Proper()
    ensures Token(gap[1..] + (word + tail.Text())) == (word, tail.Text()) && Token(tail.Text()).0 == ""
  {
    GapStart(gap, "");
    TailHasNone(tail);
    hide Token;
    assert gap[1..] + word + tail.Text() == gap[1..] + (word + tail.Text());
    TokenWritten(gap[1..], word, tail.Text());
  }

  lemma DecimalIsWord(n: nat)
    ensures Word(Decimal(n))
  {
  }

  lemma ToIntSmall(n: nat)
    requires n < TWO_31
    ensures ToInt(n) == n
  {
  }

  lemma SetIsWith(conf: Conf, kind: Kind, value: nat)
    requires IsScalar(kind) && ValueFits(kind, value)
    ensures SetScalar(conf, kind, value) == With(conf, kind, value)
  {
    if kind != RegTableSize { ToIntSmall(value); }
    hide ToInt;
  }

  lemma ScalarActs(st: State, kind: Kind, cp: string, number: string, rest: string, value: nat)
    requires Token(cp) == (number, rest) && number != "" && MakeNumber(number) == Some(value) && Token(rest).0 == ""
    requires IsScalar(kind) && ValueFits(kind, value)
    ensures ParseScalar(st, kind, cp) == st.(conf := SetScalar(st.conf, kind, value))
  {
    hide Token, MakeNumber, SetScalar;
  }

  lemma ActIsScalar(st: State, kind: Kind, cp: string, abiname: string)
    requires IsScalar(kind)
    ensures Act(st, kind, cp, abiname) == ParseScalar(st.Once(kind), kind, cp)
  {
    hide ParseScalar;
  }

  lemma SetToIs(st: State, kind: Kind, value: nat)
    requires IsScalar(kind)
    ensures SetTo(st, kind, value) == st.Once(kind).(conf := With(st.Once(kind).conf, kind, value))
  {
    hide With;
  }

  lemma SettingActs(st: State, kind: Kind, cp: string, number: string, rest: string, value: nat, abiname: string)
    requires Token(cp) == (number, rest) && number != "" && MakeNumber(number) == Some(value) && Token(rest).0 == ""
    requires IsScalar(kind) && ValueFits(kind, value)
    ensures Act(st, kind, cp, abiname) == SetTo(st, kind, value)
  {
    hide *;
    SetToIs(st, kind, value);
    ActIsScalar(st, kind, cp, abiname);
    SetIsWith(st.Once(kind).conf, kind, value);
    ScalarActs(st.Once(kind), kind, cp, number, rest, value);
  }

  lemma NamingActs(st: State, cp: string, name: string, mid: string, number: string, rest: string, reg: nat, abiname: string)
    requires Token(cp) == (name, mid) && name != "" && Token(mid) == (number, rest) && number != ""
    requires MakeNumber(number) == Some(reg) && Token(rest).0 == ""
    ensures Act(st, Reg, cp, abiname) == Named(st, reg, name)
  {
    hide Token, MakeNumber;
  }

  lemma SettingMeans(st: State, kind: Kind, gap: string, value: nat, tail: Tail, abiname: string)
    requires IsScalar(kind) && Gap(gap) && ValueFits(kind, value) && tail.Proper()
    ensures Act(st, kind, gap[1..] + (Decimal(value) + tail.Text()), abiname) == SetTo(st, kind, value)
  {
    hide Token, Decimal, ToInt, MakeNumber, Act, SetTo;
    DecimalIsWord(value);
    LastOperand(gap, Decimal(value), tail);
    NumberRoundTrip(value);
    SettingActs(st, kind, gap[1..] + (Decimal(value) + tail.Text()), Decimal(value), tail.Text(), value, abiname);
  }

  lemma NamingMeans(st: State, gap: string, name: string, gap2: string, reg: nat, tail: Tail, abiname: string)
    requires Gap(gap) && Word(name) && Gap(gap2) && reg < TWO_64 && tail.Proper()
    ensures Act(st, Reg, gap[1..] + (name + (gap2 + (Decimal(reg) + tail.Text()))), abiname) == Named(st, reg, name)
  {
    hide Token, Decimal, MakeNumber, Act, Named;
    var rest := gap2 + (Decimal(reg) + tail.Text());
    DecimalIsWord(reg);
    NumberRoundTrip(reg);
    GapStart(gap, "");
    GapStart(gap2, Decimal(reg) + tail.Text());
    assert gap[1..] + name + rest == gap[1..] + (name + rest);
    TokenWritten(gap[1..], name, rest);
    SecondOperand(gap2, Decimal(reg), tail);
    NamingActs(st, gap[1..] + (name + rest), name, rest, Decimal(reg), tail.Text(), reg, abiname);
  }

  lemma SecondOperand(gap: string, word: string, tail: Tail)
    requires Gap(gap) && Word(word) && tail.Proper()
    ensures Token(gap + (word + tail.Text())) == (word, tail.Text()) && Token(tail.Text()).0 == ""
  {
    TailHasNone(tail);
    hide Token;
    assert gap + word + tail.Text() == gap + (word + tail.Text());
    TokenWritten(gap, word, tail.Text());
  }

  // ----- each line is a line

  predicate OneLine(s: string) { forall i :: 0 <= i < |s| ==> s[i] != '\n' }

  lemma Joined(a: string, b: string)
    requires OneLine(a) && OneLine(b)
    ensures OneLine(a + b)
  {
  }

  lemma BlankIsOneLine(s: string)
    requires Blank(s)
    ensures OneLine(s)
  {
    assert forall i :: 0 <= i < |s| ==> s[i] in s;
  }

  lemma WordIsOneLine(s: string)
    requires Word(s)
    ensures OneLine(s)
  {
    assert forall i :: 0 <= i < |s| ==> s[i] in s && InToken(s[i]);
  }

  lemma EndsLine(s: string, tail: Tail)
    requires OneLine(s) && tail.Proper() && |s + tail.Text()| <= LINE
    ensures IsLine(s + tail.Text(), LINE)
  {
    BlankIsOneLine(tail.blank);
    assert OneLine(tail.comment);
    Joined(s, tail.blank);
    Joined(s + tail.blank, tail.comment);
    assert s + tail.Text() == (s + tail.blank + tail.comment) + "\n";
  }

  lemma CommandIsLine(lead: string, kind: Kind, operands: string, tail: Tail)
    requires Blank(lead) && OneLine(operands) && tail.Proper()
    requires |lead + (NameOf(kind) + (operands + tail.Text()))| <= LINE
    ensures IsLine(lead + (NameOf(kind) + (operands + tail.Text())), LINE)
  {
    CommandIsWord(kind);
    hide NameOf, IsLine;
    BlankIsOneLine(lead);
    WordIsOneLine(NameOf(kind));
    Joined(lead, NameOf(kind));
    Joined(lead + NameOf(kind), operands);
    assert lead + (NameOf(kind) + (operands + tail.Text())) == (lead + NameOf(kind) + operands) + tail.Text();
    EndsLine(lead + NameOf(kind) + operands, tail);
  }

  lemma TextIsLine(line: Line)
    requires Proper(line)
    ensures IsLine(Text(line), LINE)
  {
    hide NameOf, Decimal, IsLine;
    match line
    case Nothing(tail) =>
      assert "" + tail.Text() == tail.Text();
      EndsLine("", tail);
    case Naming(lead, gap, name, gap2, reg, tail) =>
      DecimalIsWord(reg);
      WordIsOneLine(Decimal(reg));
      BlankIsOneLine(gap);
      WordIsOneLine(name);
      BlankIsOneLine(gap2);
      Joined(gap, name);
      Joined(gap2, Decimal(reg));
      Joined(gap + name, gap2 + Decimal(reg));
      NamingText(lead, gap, name, gap2, reg, tail);
      CommandIsLine(lead, Reg, gap + name + (gap2 + Decimal(reg)), tail);
    case Setting(lead, kind, gap, value, tail) =>
      DecimalIsWord(value);
      WordIsOneLine(Decimal(value));
      BlankIsOneLine(gap);
      Joined(gap, Decimal(value));
      CommandIsLine(lead, kind, gap + Decimal(value), tail);
  }

  lemma NamingText(lead: string, gap: string, name: string, gap2: string, reg: nat, tail: Tail)
    ensures Text(Naming(lead, gap, name, gap2, reg, tail))
         == lead + (NameOf(Reg) + (gap + name + (gap2 + Decimal(reg)) + tail.Text()))
         == lead + (NameOf(Reg) + (gap + (name + (gap2 + (Decimal(reg) + tail.Text())))))
  {
    hide NameOf, Decimal;
    assert gap + name + (gap2 + Decimal(reg)) + tail.Text() == gap + name + (gap2 + Decimal(reg) + tail.Text());
    assert gap + name + (gap2 + Decimal(reg)) + tail.Text() == gap + (name + (gap2 + (Decimal(reg) + tail.Text())));
  }

  lemma SettingText(lead: string, kind: Kind, gap: string, value: nat, tail: Tail)
    ensures Text(Setting(lead, kind, gap, value, tail)) == lead + (NameOf(kind) + (gap + (Decimal(value) + tail.Text())))
  {
    hide NameOf, Decimal;
    assert gap + Decimal(value) + tail.Text() == gap + (Decimal(value) + tail.Text());
  }

  // ----- blocks

  lemma LineRead(text: string, at: nat, line: string)
    requires StartsWith(text, at, line) && IsLine(line, LINE)
    ensures at < at + |line| <= |text| && LineEnd(text, at, LINE) == at + |line| && text[at..at + |line|] == line
  {
    ReadsLine(text, at, line, LINE);
    hide LineEnd;
  }

  /** A command's turn of the loop. */
  lemma CommandStep(text: string, at: nat, line: string, st: State, kind: Kind, operands: string, abiname: string)
    requires StartsWith(text, at, line) && IsLine(line, LINE)
    requires TypeOf(SkipWhite(line)) == Command(kind) && HasOperands(SkipWhite(line), kind)
    requires Operands(SkipWhite(line), kind) == operands
    ensures at + |line| <= |text|
    ensures ParseAbi(text, at, st, abiname) ==
            if kind == EndAbi then Parsed(ParseEndAbi(st, operands, abiname))
            else ParseAbi(text, at + |line|, Act(st, kind, operands, abiname), abiname)
  {
    hide *;
    LineRead(text, at, line);
    ParseUnfolds(text, at, st, abiname);
  }

  lemma TailIsNoCommand(tail: Tail)
    requires tail.Proper()
    ensures var line := SkipWhite(tail.Text()); TypeOf(line) == Comment || TypeOf(line) == Empty
  {
    TailHasNone(tail);
    hide SkipWhite, Token, CommandNamed;
  }

  lemma NothingStep(text: string, at: nat, tail: Tail, st: State, abiname: string)
    requires StartsWith(text, at, tail.Text()) && IsLine(tail.Text(), LINE) && tail.Proper()
    ensures at + |tail.Text()| <= |text|
    ensures ParseAbi(text, at, st, abiname) == ParseAbi(text, at + |tail.Text()|, st, abiname)
  {
    hide *;
    LineRead(text, at, tail.Text());
    ParseUnfolds(text, at, st, abiname);
    TailIsNoCommand(tail);
  }

  lemma NamingParsed(text: string, at: nat, st: State, lead: string, gap: string, name: string, gap2: string,
                     reg: nat, tail: Tail, abiname: string)
    requires var line := Text(Naming(lead, gap, name, gap2, reg, tail)); IsLine(line, LINE) && StartsWith(text, at, line)
    requires Blank(lead) && Gap(gap) && Word(name) && Gap(gap2) && reg < TWO_64 && tail.Proper()
    ensures var end := at + |Text(Naming(lead, gap, name, gap2, reg, tail))|;
            end <= |text| && ParseAbi(text, at, st, abiname) == ParseAbi(text, end, Named(st, reg, name), abiname)
  {
    hide *;
    var operands := name + (gap2 + (Decimal(reg) + tail.Text()));
    NamingText(lead, gap, name, gap2, reg, tail);
    CommandLine(lead, Reg, gap, operands);
    GapStart(gap, "");
    NamingMeans(st, gap, name, gap2, reg, tail, abiname);
    CommandStep(text, at, Text(Naming(lead, gap, name, gap2, reg, tail)), st, Reg, gap[1..] + operands, abiname);
  }

  lemma SettingParsed(text: string, at: nat, st: State, lead: string, kind: Kind, gap: string, value: nat,
                      tail: Tail, abiname: string)
    requires var line := Text(Setting(lead, kind, gap, value, tail)); IsLine(line, LINE) && StartsWith(text, at, line)
    requires Blank(lead) && IsScalar(kind) && Gap(gap) && ValueFits(kind, value) && tail.Proper()
    ensures var end := at + |Text(Setting(lead, kind, gap, value, tail))|;
            end <= |text| && ParseAbi(text, at, st, abiname) == ParseAbi(text, end, SetTo(st, kind, value), abiname)
  {
    hide *;
    ScalarGoesOn(kind);
    var operands := Decimal(value) + tail.Text();
    SettingText(lead, kind, gap, value, tail);
    CommandLine(lead, kind, gap, operands);
    GapStart(gap, "");
    SettingMeans(st, kind, gap, value, tail, abiname);
    CommandStep(text, at, Text(Setting(lead, kind, gap, value, tail)), st, kind, gap[1..] + operands, abiname);
  }

  lemma ScalarGoesOn(kind: Kind)
    requires IsScalar(kind)
    ensures kind != EndAbi
  {
  }

  lemma Parts(st: State, line: Line)
    requires Proper(line)
    ensures line.tail.Proper()
    ensures line.Nothing? ==> Meant(st, line) == st && Text(line) == line.tail.Text()
    ensures line.Naming? ==>
              && Blank(line.lead) && Gap(line.gap) && Word(line.name) && Gap(line.gap2) && line.reg < TWO_64
              && Meant(st, line) == Named(st, line.reg, line.name)
    ensures line.Setting? ==>
              && Blank(line.lead) && IsScalar(line.kind) && Gap(line.gap) && ValueFits(line.kind, line.value)
              && Meant(st, line) == SetTo(st, line.kind, line.value)
  {
    hide Blank, Gap, Word, ValueFits, SetTo, Named, NameOf, Decimal;
  }

  /** One written line is parsed to what it means. */
  lemma LineParsed(text: string, at: nat, st: State, line: Line, abiname: string)
    requires Proper(line) && StartsWith(text, at, Text(line))
    ensures at + |Text(line)| <= |text|
    ensures ParseAbi(text, at, st, abiname) == ParseAbi(text, at + |Text(line)|, Meant(st, line), abiname)
  {
    hide *;
    TextIsLine(line);
    Parts(st, line);
    match line
    case Nothing(tail) => NothingStep(text, at, tail, st, abiname);
    case Naming(lead, gap, name, gap2, reg, tail) => NamingParsed(text, at, st, lead, gap, name, gap2, reg, tail, abiname);
    case Setting(lead, kind, gap, value, tail) => SettingParsed(text, at, st, lead, kind, gap, value, tail, abiname);
  }

  lemma {:induction false} LinesParsed(text: string, at: nat, st: State, lines: seq<Line>, abiname: string)
    requires (forall line <- lines :: Proper(line)) && StartsWith(text, at, Lines(lines))
    ensures at + |Lines(lines)| <= |text|
    ensures ParseAbi(text, at, st, abiname) == ParseAbi(text, at + |Lines(lines)|, AllMeant(st, lines), abiname)
    decreases |lines|
  {
    hide ParseAbi, Proper, Text, Meant;
    if lines != [] {
      assert StartsWith(text, at, Text(lines[0])) && StartsWith(text, at + |Text(lines[0])|, Lines(lines[1..])) by {
        SplitStart(text, at, Text(lines[0]), Lines(lines[1..]));
      }
      LineParsed(text, at, st, lines[0], abiname);
      LinesParsed(text, at + |Text(lines[0])|, Meant(st, lines[0]), lines[1..], abiname);
    }
  }

  // ----- a block, and the file around it

  lemma BeginMeans(st: State, gap: string, abiname: string, tail: Tail)
    requires Gap(gap) && Word(abiname) && tail.Proper()
    ensures Act(st, BeginAbi, gap[1..] + (abiname + tail.Text()), abiname) == st.Once(BeginAbi)
  {
    LastOperand(gap, abiname, tail);
    hide Token;
  }

  lemma EndMeans(st: State, gap: string, abiname: string, tail: Tail)
    requires Gap(gap) && Word(abiname) && tail.Proper()
    ensures ParseEndAbi(st, gap[1..] + (abiname + tail.Text()), abiname) == Ended(st)
  {
    LastOperand(gap, abiname, tail);
    hide Token;
  }

  /** The end of a block: more register lines than the table has rows are an error. */
  function Ended(st: State): State {
    if st.regCount > st.conf.tableEntryCount then st.Error(1) else st
  }

  lemma BracketText(b: Bracket, kind: Kind, abiname: string)
    requires b.Proper() && Word(abiname) && |b.Text(kind, abiname)| <= LINE
    ensures b.Text(kind, abiname) == b.lead + (NameOf(kind) + (b.gap + (abiname + b.tail.Text())))
    ensures IsLine(b.Text(kind, abiname), LINE)
  {
    hide NameOf, IsLine;
    assert b.gap + abiname + b.tail.Text() == b.gap + (abiname + b.tail.Text());
    BlankIsOneLine(b.gap);
    WordIsOneLine(abiname);
    Joined(b.gap, abiname);
    CommandIsLine(b.lead, kind, b.gap + abiname, b.tail);
  }

  lemma BracketParts(b: Bracket)
    requires b.Proper()
    ensures Blank(b.lead) && Gap(b.gap) && b.tail.Proper()
  {
  }

  lemma BeginParsed(text: string, at: nat, st: State, b: Bracket, abiname: string)
    requires b.Proper() && Word(abiname) && |b.Text(BeginAbi, abiname)| <= LINE
    requires StartsWith(text, at, b.Text(BeginAbi, abiname))
    ensures var end := at + |b.Text(BeginAbi, abiname)|;
            end <= |text| && ParseAbi(text, at, st, abiname) == ParseAbi(text, end, st.Once(BeginAbi), abiname)
  {
    hide *;
    BracketParts(b);
    BracketText(b, BeginAbi, abiname);
    GapStart(b.gap, "");
    CommandLine(b.lead, BeginAbi, b.gap, abiname + b.tail.Text());
    BeginMeans(st, b.gap, abiname, b.tail);
    CommandStep(text, at, b.Text(BeginAbi, abiname), st, BeginAbi, b.gap[1..] + (abiname + b.tail.Text()), abiname);
  }

  lemma EndParsed(text: string, at: nat, st: State, b: Bracket, abiname: string)
    requires b.Proper() && Word(abiname) && |b.Text(EndAbi, abiname)| <= LINE
    requires StartsWith(text, at, b.Text(EndAbi, abiname))
    ensures at <= |text| && ParseAbi(text, at, st, abiname) == Parsed(Ended(st))
  {
    hide *;
    BracketParts(b);
    BracketText(b, EndAbi, abiname);
    GapStart(b.gap, "");
    CommandLine(b.lead, EndAbi, b.gap, abiname + b.tail.Text());
    EndMeans(st, b.gap, abiname, b.tail);
    CommandStep(text, at, b.Text(EndAbi, abiname), st, EndAbi, b.gap[1..] + (abiname + b.tail.Text()), abiname);
  }

  /** The first line of a block selects it. */
  lemma BeginSelects(b: Bracket, abiname: string)
    requires b.Proper() && Word(abiname) && |b.Text(BeginAbi, abiname)| <= LINE
    ensures Begins(b.Text(BeginAbi, abiname), abiname)
  {
    BracketText(b, BeginAbi, abiname);
    CommandIsWord(BeginAbi);
    hide NameOf, Token, IsLine;
    var rest := b.gap + (abiname + b.tail.Text());
    GapStart(b.gap, abiname + b.tail.Text());
    assert b.lead + NameOf(BeginAbi) + rest == b.lead + (NameOf(BeginAbi) + rest);
    TokenWritten(b.lead, NameOf(BeginAbi), rest);
    SecondOperand(b.gap, abiname, b.tail);
  }

  /** Lines that fit find_abi_start's buffer and begin no block of this ABI. */
  predicate Passed(lines: seq<string>, abiname: string) {
    forall line <- lines :: IsLine(line, SHORT_LINE) && !Begins(line, abiname)
  }

  function Concat(lines: seq<string>): string {
    if lines == [] then "" else lines[0] + Concat(lines[1..])
  }

  lemma {:induction false} FoundBehind(text: string, at: nat, before: seq<string>, begin: string, abiname: string)
    requires Passed(before, abiname) && IsLine(begin, SHORT_LINE) && Begins(begin, abiname)
    requires StartsWith(text, at, Concat(before) + begin)
    ensures at <= |text| && FindAbi(text, at, abiname) == Option.Some(at + |Concat(before)|)
    decreases |before|
  {
    hide Begins, IsLine, StartsWith, LineEnd;
    SplitStart(text, at, Concat(before), begin);
    if before == [] {
      ShortLineRead(text, at, begin);
    } else {
      assert before[0] in before;
      assert Concat(before) + begin == before[0] + (Concat(before[1..]) + begin);
      SplitStart(text, at, before[0], Concat(before[1..]) + begin);
      ShortLineRead(text, at, before[0]);
      FoundBehind(text, at + |before[0]|, before[1..], begin, abiname);
    }
  }

  lemma ShortLineRead(text: string, at: nat, line: string)
    requires StartsWith(text, at, line) && IsLine(line, SHORT_LINE)
    ensures at < at + |line| <= |text| && LineEnd(text, at, SHORT_LINE) == at + |line| && text[at..at + |line|] == line
  {
    ReadsLine(text, at, line, SHORT_LINE);
    hide LineEnd;
  }

  lemma ShortIsLine(b: Bracket, abiname: string)
    requires b.Proper() && Word(abiname) && |b.Text(BeginAbi, abiname)| <= SHORT_LINE
    ensures IsLine(b.Text(BeginAbi, abiname), SHORT_LINE)
  {
    BracketText(b, BeginAbi, abiname);
  }

  /** A file with a written block, whatever precedes and follows it: the block is found, and its lines are taken
      one after the other. */
  lemma BlockFolded(before: seq<string>, begin: Bracket, lines: seq<Line>, end: Bracket, after: string, abiname: string)
    requires Passed(before, abiname) && begin.Proper() && end.Proper() && Word(abiname)
    requires |begin.Text(BeginAbi, abiname)| <= SHORT_LINE && |end.Text(EndAbi, abiname)| <= LINE
    requires forall line <- lines :: Proper(line)
    ensures ReadConfig(Concat(before) + begin.Text(BeginAbi, abiname) + Lines(lines) + end.Text(EndAbi, abiname) + after,
                       abiname)
         == Parsed(Ended(AllMeant(START.Once(BeginAbi), lines)))
  {
    hide *;
    var first, last := begin.Text(BeginAbi, abiname), end.Text(EndAbi, abiname);
    var text := Concat(before) + first + Lines(lines) + last + after;
    var at := |Concat(before)|;
    ShorterBuffer();
    BeginSelects(begin, abiname);
    ShortIsLine(begin, abiname);
    Located(Concat(before), first, Lines(lines), last, after);
    FoundBehind(text, 0, before, first, abiname);
    ConfigFrom(text, at, abiname);
    BeginParsed(text, at, START, begin, abiname);
    LinesParsed(text, at + |first|, START.Once(BeginAbi), lines, abiname);
    EndParsed(text, at + |first| + |Lines(lines)|, AllMeant(START.Once(BeginAbi), lines), end, abiname);
  }

  lemma ShorterBuffer()
    ensures SHORT_LINE <= LINE
  {
  }

  lemma ConfigFrom(text: string, at: nat, abiname: string)
    requires at <= |text| && FindAbi(text, 0, abiname) == Option.Some(at)
    ensures ReadConfig(text, abiname) == ParseAbi(text, at, START, abiname)
  {
  }

  /** Where the parts of a text are. */
  lemma Located(a: string, b: string, c: string, d: string, e: string)
    ensures var text := a + b + c + d + e;
            && StartsWith(text, 0, a + b) && StartsWith(text, |a|, b)
            && StartsWith(text, |a| + |b|, c) && StartsWith(text, |a| + |b| + |c|, d)
  {
  }

  // ----- what a block says

  /** The file: lines before the block, the block, and what follows. */
  function File(before: seq<string>, begin: Bracket, lines: seq<Line>, end: Bracket, after: string, abiname: string): string {
    Concat(before) + begin.Text(BeginAbi, abiname) + Lines(lines) + end.Text(EndAbi, abiname) + after
  }

  /** The block can be read whole: no line before begins it, and every line fits its buffer. */
  predicate Readable(before: seq<string>, begin: Bracket, lines: seq<Line>, end: Bracket, abiname: string) {
    && Passed(before, abiname) && begin.Proper() && end.Proper() && Word(abiname)
    && |begin.Text(BeginAbi, abiname)| <= SHORT_LINE && |end.Text(EndAbi, abiname)| <= LINE
    && forall line <- lines :: Proper(line)
  }

  function NamesIn(lines: seq<Line>): seq<(nat, string)> {
    if lines == [] then []
    else (match lines[0] case Naming(_, _, name, _, reg, _) => [(reg, name)] case _ => []) + NamesIn(lines[1..])
  }

  predicate Sets(line: Line, kind: Kind) { line.Setting? && line.kind == kind }

  /** The value the last setting of a kind gives, if there is one. */
  function LastSetting(lines: seq<Line>, kind: Kind): Option<nat> {
    if lines == [] then Option.None
    else if LastSetting(lines[1..], kind).Some? then LastSetting(lines[1..], kind)
    else if Sets(lines[0], kind) then Option.Some(lines[0].value)
    else Option.None
  }

  lemma {:induction false} LastSettingIs(lines: seq<Line>, kind: Kind)
    ensures LastSetting(lines, kind).None? <==> forall i :: 0 <= i < |lines| ==> !Sets(lines[i], kind)
    ensures LastSetting(lines, kind).Some? ==>
              exists i :: 0 <= i < |lines| && Sets(lines[i], kind) && LastSetting(lines, kind) == Option.Some(lines[i].value)
                          && forall j :: i < j < |lines| ==> !Sets(lines[j], kind)
  {
    if lines != [] {
      var rest := lines[1..];
      LastSettingIs(rest, kind);
      assert forall j :: 0 < j < |lines| ==> lines[j] == rest[j - 1];
      if LastSetting(rest, kind).Some? {
        var i :| 0 <= i < |rest| && Sets(rest[i], kind) && LastSetting(rest, kind) == Option.Some(rest[i].value)
                 && forall j :: i < j < |rest| ==> !Sets(rest[j], kind);
        assert lines[i + 1] == rest[i];
      } else if Sets(lines[0], kind) {
        assert LastSetting(lines, kind) == Option.Some(lines[0].value);
      }
    }
  }

  /** A setting of the configuration. */
  function Field(conf: Conf, kind: Kind): int
    requires IsScalar(kind)
  {
    match kind
    case FrameInterface => conf.interfaceNumber
    case CfaReg => conf.cfaReg
    case InitialRegValue => conf.initialRuleValue
    case SameValReg => conf.sameVal
    case UndefinedValReg => conf.undefinedVal
    case RegTableSize => conf.tableEntryCount
  }

  /** The value that a block's lines ask for: the last one given, or the default. */
  function Asked(lines: seq<Line>, kind: Kind): int
    requires IsScalar(kind)
  {
    if LastSetting(lines, kind).Some? then LastSetting(lines, kind).value else Field(DEFAULTS, kind)
  }

  lemma FieldMeant(st: State, line: Line, kind: Kind)
    requires IsScalar(kind)
    ensures Field(Meant(st, line).conf, kind) == if Sets(line, kind) then line.value else Field(st.conf, kind)
  {
  }

  lemma {:induction false} SettingsMeant(st: State, lines: seq<Line>, kind: Kind)
    requires IsScalar(kind)
    ensures Field(AllMeant(st, lines).conf, kind)
         == if LastSetting(lines, kind).Some? then LastSetting(lines, kind).value else Field(st.conf, kind)
    decreases |lines|
  {
    hide Meant, Field;
    if lines != [] {
      FieldMeant(st, lines[0], kind);
      SettingsMeant(Meant(st, lines[0]), lines[1..], kind);
    }
  }

  lemma {:induction false} NamesMeant(st: State, lines: seq<Line>)
    ensures var end := AllMeant(st, lines);
            end.writes == st.writes + NamesIn(lines) && end.regCount == st.regCount + |NamesIn(lines)|
    decreases |lines|
  {
    if lines != [] {
      NamesMeant(Meant(st, lines[0]), lines[1..]);
      if lines[0].Naming? {
        var write := (lines[0].reg, lines[0].name);
        assert st.writes + [write] + NamesIn(lines[1..]) == st.writes + ([write] + NamesIn(lines[1..]));
      } else {
        assert [] + NamesIn(lines[1..]) == NamesIn(lines[1..]);
      }
    } else {
      assert st.writes + [] == st.writes;
    }
  }

  lemma FileFolded(before: seq<string>, begin: Bracket, lines: seq<Line>, end: Bracket, after: string, abiname: string)
    requires Readable(before, begin, lines, end, abiname)
    ensures ReadConfig(File(before, begin, lines, end, after, abiname), abiname)
         == Parsed(Ended(AllMeant(START.Once(BeginAbi), lines)))
    ensures forall line <- lines :: Proper(line)
  {
    hide ReadConfig, AllMeant, Passed, Proper, Ended, Lines, Concat;
    BlockFolded(before, begin, lines, end, after, abiname);
  }

  lemma FoldMeaning(lines: seq<Line>)
    ensures var st := Ended(AllMeant(START.Once(BeginAbi), lines));
            && st.writes == NamesIn(lines) && st.regCount == |NamesIn(lines)|
            && forall kind | IsScalar(kind) :: Field(st.conf, kind) == Asked(lines, kind)
  {
    hide AllMeant, NamesIn, LastSetting, Field;
    NamesMeant(START.Once(BeginAbi), lines);
    assert [] + NamesIn(lines) == NamesIn(lines);
    forall kind | IsScalar(kind)
      ensures Field(AllMeant(START.Once(BeginAbi), lines).conf, kind) == Asked(lines, kind)
    {
      SettingsMeant(START.Once(BeginAbi), lines, kind);
    }
  }

  /** The block of a file is found and parsed to what its lines say: the names in their order, and each setting
      with the last value it is given or its default. */
  lemma BlockRead(before: seq<string>, begin: Bracket, lines: seq<Line>, end: Bracket, after: string, abiname: string)
    requires Readable(before, begin, lines, end, abiname)
    ensures var r := ReadConfig(File(before, begin, lines, end, after, abiname), abiname);
            && r.Parsed? && r.st.writes == NamesIn(lines) && r.st.regCount == |NamesIn(lines)|
            && forall kind | IsScalar(kind) :: Field(r.st.conf, kind) == Asked(lines, kind)
  {
    hide *;
    FileFolded(before, begin, lines, end, after, abiname);
    FoldMeaning(lines);
  }

  // ----- errors

  /** No setting comes twice. */
  predicate OnceEach(lines: seq<Line>) {
    forall i, j :: 0 <= i < j < |lines| && lines[i].Setting? && lines[j].Setting? ==> lines[i].kind != lines[j].kind
  }

  predicate NoneOf(lines: seq<Line>, seen: set<Kind>) {
    forall line <- lines :: line.Setting? ==> line.kind !in seen
  }

  lemma OnceStep(lines: seq<Line>, seen: set<Kind>)
    requires lines != []
    ensures OnceEach(lines) && NoneOf(lines, seen) <==>
            if lines[0].Setting?
            then lines[0].kind !in seen && OnceEach(lines[1..]) && NoneOf(lines[1..], seen + {lines[0].kind})
            else OnceEach(lines[1..]) && NoneOf(lines[1..], seen)
  {
    var rest := lines[1..];
    assert forall i :: 0 < i < |lines| ==> lines[i] == rest[i - 1] && lines[i] in rest;
    assert forall line <- rest :: line in lines;
    assert lines[0] in lines && forall line <- lines :: line == lines[0] || line in rest;
  }

  /** The errors stay as they were exactly when every setting comes once and was not seen before. */
  lemma {:induction false} ErrorsMeant(st: State, lines: seq<Line>)
    requires forall line <- lines :: line.Setting? ==> IsScalar(line.kind)
    ensures var end := AllMeant(st, lines);
            end.errors >= st.errors && (end.errors == st.errors <==> OnceEach(lines) && NoneOf(lines, st.seen))
    decreases |lines|
  {
    hide OnceEach, NoneOf;
    if lines != [] {
      ErrorsMeant(Meant(st, lines[0]), lines[1..]);
      OnceStep(lines, st.seen);
    } else {
      NothingTwice(st.seen);
    }
  }

  lemma NothingTwice(seen: set<Kind>)
    ensures OnceEach([]) && NoneOf([], seen)
  {
  }

  lemma FoldErrors(lines: seq<Line>)
    requires forall line <- lines :: Proper(line)
    ensures Ended(AllMeant(START.Once(BeginAbi), lines)).errors == 0
            <==> OnceEach(lines) && |NamesIn(lines)| <= Asked(lines, RegTableSize)
  {
    ScalarsOnly(lines);
    hide AllMeant, Proper, OnceEach, NoneOf, NamesIn, LastSetting;
    NamesMeant(START.Once(BeginAbi), lines);
    SettingsMeant(START.Once(BeginAbi), lines, RegTableSize);
    ErrorsMeant(START.Once(BeginAbi), lines);
  }

  /** A written block is read without errors exactly when each of its settings comes once and it names no more
      registers than the table size it asks for, which is 66 if it asks for none. */
  lemma BlockErrors(before: seq<string>, begin: Bracket, lines: seq<Line>, end: Bracket, after: string, abiname: string)
    requires Readable(before, begin, lines, end, abiname)
    ensures var r := ReadConfig(File(before, begin, lines, end, after, abiname), abiname);
            && r.Parsed?
            && (r.st.errors == 0 <==> OnceEach(lines) && |NamesIn(lines)| <= Asked(lines, RegTableSize))
  {
    hide *;
    FileFolded(before, begin, lines, end, after, abiname);
    FoldErrors(lines);
  }

  lemma ScalarsOnly(lines: seq<Line>)
    requires forall line <- lines :: Proper(line)
    ensures forall line <- lines :: line.Setting? ==> IsScalar(line.kind)
    ensures NoneOf(lines, {BeginAbi})
  {
  }
}
