/** An ABI block of dwarfdump.conf: how it is found and parsed, command by command. */
module ConfParser {
  import opened Bits
  import opened RegisterTable
  import opened ConfLines

  // ----- commands

  datatype Kind = BeginAbi | Reg | FrameInterface | CfaReg | InitialRegValue | SameValReg | UndefinedValReg
                | RegTableSize | EndAbi

  /** comtable, in its order */
  const COMMANDS: seq<Kind> := [BeginAbi, Reg, FrameInterface, CfaReg, InitialRegValue, SameValReg,
                                UndefinedValReg, RegTableSize, EndAbi]

  function NameOf(k: Kind): (name: string)
    ensures name != ""
  {
    match k
    case BeginAbi => "beginabi:"
    case Reg => "reg:"
    case FrameInterface => "frame_interface:"
    case CfaReg => "cfa_reg:"
    case InitialRegValue => "initial_reg_value:"
    case SameValReg => "same_val_reg:"
    case UndefinedValReg => "undefined_val_reg:"
    case RegTableSize => "reg_table_size:"
    case EndAbi => "endabi:"
  }

  datatype LineType = Comment | Empty | Command(kind: Kind) | Unknown

  /** The first command of the table, from i on, with this name. */
  function CommandNamed(token: string, i: nat): LineType
    decreases |COMMANDS| - i
  {
    if i >= |COMMANDS| then Unknown
    else if NameOf(COMMANDS[i]) == token then Command(COMMANDS[i])
    else CommandNamed(token, i + 1)
  }

  /** The type of a line whose blanks are skipped. */
  function TypeOf(line: string): LineType {
    if line == "" then Empty
    else if line[0] == '#' then Comment
    else CommandNamed(Token(line).0, 0)
  }

  // ----- what a line does

  /** The scalar settings. */
  datatype Conf = Conf(interfaceNumber: int, tableEntryCount: nat, initialRuleValue: int, cfaReg: int,
                       sameVal: int, undefinedVal: int)

  /** init_conf_file_data: the MIPS settings. */
  const DEFAULTS := Conf(2, 66, 1035, 0, 1035, 1034)

  /** Settings so far, register names in order of appearance, `reg:` lines, commands seen, and errors. */
  datatype State = State(conf: Conf, writes: seq<(nat, string)>, regCount: nat, seen: set<Kind>, errors: nat) {
    function Error(n: nat): State { this.(errors := errors + n) }

    /** A command that should come once. */
    function Once(kind: Kind): State {
      this.(errors := errors + (if kind in seen then 1 else 0), seen := seen + {kind})
    }

    /** ensure_has_no_more_tokens */
    function NoMore(rest: string): State { if Token(rest).0 != "" then Error(1) else this }
  }

  const START := State(DEFAULTS, [], 0, {}, 0)

  /** `(int) val`: the low 32 bits, signed. */
  function ToInt(val: nat): int {
    var low := val % TWO_32;
    if low >= TWO_31 then low - TWO_32 else low
  }

  predicate IsScalar(kind: Kind) { kind != BeginAbi && kind != Reg && kind != EndAbi }

  function SetScalar(conf: Conf, kind: Kind, val: nat): Conf
    requires IsScalar(kind)
  {
    match kind
    case FrameInterface => conf.(interfaceNumber := ToInt(val))
    case CfaReg => conf.(cfaReg := ToInt(val))
    case InitialRegValue => conf.(initialRuleValue := ToInt(val))
    case SameValReg => conf.(sameVal := ToInt(val))
    case UndefinedValReg => conf.(undefinedVal := ToInt(val))
    case RegTableSize => conf.(tableEntryCount := val)
  }

  /** parsebeginabi */
  function ParseBeginAbi(st: State, cp: string, abiname: string): State {
    var (token, rest) := Token(cp);
    if token != abiname then st.Error(1) else st.NoMore(rest)
  }

  /** parsereg */
  function ParseReg(st: State, cp: string): State {
    var (name, rest) := Token(cp);
    var (number, end) := Token(rest);
    if name == "" || number == "" then st.Error(1)
    else
      match MakeNumber(number)
      case None => st.Error(2)
      case Some(val) => st.(writes := st.writes + [(val, name)]).NoMore(end)
  }

  /** The parse functions of the other settings. */
  function ParseScalar(st: State, kind: Kind, cp: string): State
    requires IsScalar(kind)
  {
    var (number, rest) := Token(cp);
    if number == "" then st.Error(1)
    else
      match MakeNumber(number)
      case None => st.Error(2)
      case Some(val) =>
        if kind == FrameInterface && val != 2 && val != 3 then st.Error(1)
        else st.(conf := SetScalar(st.conf, kind, val)).NoMore(rest)
  }

  /** parseendabi, and the count of register lines */
  function ParseEndAbi(st: State, cp: string, abiname: string): State {
    var (token, rest) := Token(cp);
    var checked := if token != abiname then st.Error(1) else st.NoMore(rest);
    if checked.regCount > checked.conf.tableEntryCount then checked.Error(1) else checked
  }

  datatype Outcome = Parsed(st: State) | NoEnd(errors: nat) | Unreadable

  /** The operands of a command start behind the character that follows its name; there is none when the
      name ends the line, and then C reads what it should not. */
  predicate HasOperands(line: string, kind: Kind) { |line| > |NameOf(kind)| }

  function Operands(line: string, kind: Kind): string
    requires HasOperands(line, kind)
  {
    line[|NameOf(kind)| + 1..]
  }

  function Act(st: State, kind: Kind, cp: string, abiname: string): State
    requires kind != EndAbi
  {
    if kind == BeginAbi then ParseBeginAbi(st.Once(BeginAbi), cp, abiname)
    else if kind == Reg then var after := ParseReg(st, cp); after.(regCount := after.regCount + 1)
    else ParseScalar(st.Once(kind), kind, cp)
  }

  const LINE := 999

  /** parse_abi: lines up to the endabi: command, or to the end of the text. */
  function ParseAbi(text: string, at: nat, st: State, abiname: string): Outcome
    requires at <= |text|
    decreases |text| - at
  {
    if at == |text| then NoEnd(st.errors + 1)
    else
      var end := LineEnd(text, at, LINE);
      var line := SkipWhite(text[at..end]);
      match TypeOf(line)
      case Unknown => ParseAbi(text, end, st.Error(1), abiname)
      case Comment => ParseAbi(text, end, st, abiname)
      case Empty => ParseAbi(text, end, st, abiname)
      case Command(kind) =>
        if !HasOperands(line, kind) then Unreadable
        else if kind == EndAbi then Parsed(ParseEndAbi(st, Operands(line, kind), abiname))
        else ParseAbi(text, end, Act(st, kind, Operands(line, kind), abiname), abiname)
  }

  /** One turn of the loop. */
  lemma ParseUnfolds(text: string, at: nat, st: State, abiname: string)
    requires at < |text|
    ensures var end := LineEnd(text, at, LINE);
            var line := SkipWhite(text[at..end]);
            var r := ParseAbi(text, at, st, abiname);
            && (TypeOf(line) == Comment || TypeOf(line) == Empty ==> r == ParseAbi(text, end, st, abiname))
            && (TypeOf(line) == Unknown ==> r == ParseAbi(text, end, st.Error(1), abiname))
            && (TypeOf(line).Command? && !HasOperands(line, TypeOf(line).kind) ==> r == Unreadable)
            && (TypeOf(line).Command? && HasOperands(line, TypeOf(line).kind) ==>
                  var kind := TypeOf(line).kind;
                  r == if kind == EndAbi then Parsed(ParseEndAbi(st, Operands(line, kind), abiname))
                       else ParseAbi(text, end, Act(st, kind, Operands(line, kind), abiname), abiname))
  {
    hide LineEnd, SkipWhite, TypeOf, Act, HasOperands, Operands, ParseEndAbi;
  }

  lemma ParseEnds(text: string, st: State, abiname: string)
    ensures ParseAbi(text, |text|, st, abiname) == NoEnd(st.errors + 1)
  {
  }

  // ----- finding the block

  /** The line begins the block of this ABI. */
  predicate Begins(line: string, abiname: string) {
    Token(line).0 == NameOf(BeginAbi) && Token(Token(line).1).0 == abiname
  }

  const SHORT_LINE := 99

  /** find_abi_start: the first such line, as its smaller buffer cuts the text into lines. */
  function FindAbi(text: string, at: nat, abiname: string): (r: Option<nat>)
    requires at <= |text|
    ensures r.Some? ==> at <= r.value < |text|
    decreases |text| - at
  {
    if at == |text| then None
    else
      var end := LineEnd(text, at, SHORT_LINE);
      if Begins(text[at..end], abiname) then Some(at) else FindAbi(text, end, abiname)
  }

  /** find_conf_file_and_read_config, from the open file on. */
  function ReadConfig(text: string, abiname: string): Outcome {
    match FindAbi(text, 0, abiname)
    case None => NoEnd(2)
    case Some(offset) => ParseAbi(text, offset, START, abiname)
  }

  // ----- the code

  method FindAbiStart(text: string, abiname: string) returns (offset: Option<nat>)
    ensures offset == FindAbi(text, 0, abiname)
  {
    hide Token, LineEnd;
    var at := 0;
    while at < |text|
      invariant at <= |text| && FindAbi(text, 0, abiname) == FindAbi(text, at, abiname)
      decreases |text| - at
    {
      var end := LineEnd(text, at, SHORT_LINE);
      var first, rest := GetToken(text[at..end]);
      if first == NameOf(BeginAbi) {
        var second, _ := GetToken(rest);
        if second == abiname {
          return Some(at);
        }
      }
      at := end;
    }
    return None;
  }

  method WhichCommand(line: string) returns (r: LineType)
    ensures r == TypeOf(line)
  {
    hide Token, CommandNamed;
    if line == "" { return Empty; }
    if line[0] == '#' { return Comment; }
    var token, _ := GetToken(line);
    r := FindCommand(token);
  }

  /** The loop over comtable. */
  method FindCommand(token: string) returns (r: LineType)
    ensures r == CommandNamed(token, 0)
  {
    hide *;
    var i := 0;
    while i < |COMMANDS|
      invariant 0 <= i <= |COMMANDS| && CommandNamed(token, 0) == CommandNamed(token, i)
    {
      CommandUnfolds(token, i);
      if |token| == |NameOf(COMMANDS[i])| && token == NameOf(COMMANDS[i]) {
        return Command(COMMANDS[i]);
      }
      i := i + 1;
    }
    CommandUnfolds(token, i);
    return Unknown;
  }

  lemma CommandUnfolds(token: string, i: nat)
    ensures CommandNamed(token, i) ==
            if i >= |COMMANDS| then Unknown
            else if NameOf(COMMANDS[i]) == token then Command(COMMANDS[i])
            else CommandNamed(token, i + 1)
  {
    hide NameOf;
  }

  /** Blanks skipped before the tokenizer would skip them anyway. */
  method SkipAndGet(given: string) returns (token: string, rest: string)
    ensures (token, rest) == Token(given)
  {
    var cp := Skip(given);
    SkipTwice(given);
    hide *;
    token, rest := GetToken(cp);
  }

  datatype Ending = Finished | EndOfFile | Overread

  /** The configuration under construction, and the global count of errors. */
  class Parser {
    const abiname: string
    const defaults: seq<string>
    var conf: Conf
    const table: ReallocTable
    var regCount: nat
    var seen: set<Kind>
    var errors: nat
    ghost var writes: seq<(nat, string)>

    ghost predicate Valid()
      reads this, table, table.regs
    {
      && table.Valid() && table.malloced == (writes != [])
      && table.Names() == NamesAfter(defaults, writes)
    }

    ghost function Now(): State
      reads this
    {
      State(conf, writes, regCount, seen, errors)
    }

    constructor (abiname: string, defaults: seq<string>)
      ensures Valid() && Now() == START && this.abiname == abiname && this.defaults == defaults
      ensures fresh(table) && fresh(table.regs)
    {
      this.abiname, this.defaults := abiname, defaults;
      conf, regCount, seen, errors, writes := DEFAULTS, 0, {}, 0, [];
      table := new ReallocTable(defaults);
    }

    method EnsureHasNoMoreTokens(cp: string)
      modifies this`errors
      ensures Now() == old(Now()).NoMore(cp)
    {
      var token, _ := GetToken(cp);
      if token != "" { errors := errors + 1; }
    }

    method ParseBeginAbiLine(given: string)
      modifies this`errors
      ensures Now() == ParseBeginAbi(old(Now()), given, abiname)
    {
      hide Token;
      var token, rest := SkipAndGet(given);
      if token != abiname {
        errors := errors + 1;
      } else {
        EnsureHasNoMoreTokens(rest);
      }
    }

    method ParseRegLine(cp: string)
      requires Valid()
      modifies this, table, table.regs
      ensures Valid() && (table.regs == old(table.regs) || fresh(table.regs))
      ensures Now() == ParseReg(old(Now()), cp)
    {
      hide Token, MakeNumber, NamesAfter;
      var name, rest := GetToken(cp);
      var number, end := GetToken(rest);
      if name == "" { errors := errors + 1; return; }
      if number == "" { errors := errors + 1; return; }
      var val := MakeNumber(number);
      if val.None? { errors := errors + 2; return; }
      table.Add(name, val.value);
      NamesMore(defaults, writes, val.value, name);
      writes := writes + [(val.value, name)];
      EnsureHasNoMoreTokens(end);
    }

    method ParseScalarLine(kind: Kind, cp: string)
      requires IsScalar(kind)
      modifies this`conf, this`errors
      ensures Now() == ParseScalar(old(Now()), kind, cp)
    {
      hide Token, MakeNumber, ToInt, SetScalar;
      var number, rest := GetToken(cp);
      if number == "" { errors := errors + 1; return; }
      var val := MakeNumber(number);
      if val.None? { errors := errors + 2; return; }
      if kind == FrameInterface && val.value != 2 && val.value != 3 { errors := errors + 1; return; }
      conf := SetScalar(conf, kind, val.value);
      EnsureHasNoMoreTokens(rest);
    }

    method ParseEndAbiLine(cp: string)
      modifies this`errors
      ensures Now() == ParseEndAbi(old(Now()), cp, abiname)
    {
      hide Token;
      var token, rest := GetToken(cp);
      if token != abiname {
        errors := errors + 1;
      } else {
        EnsureHasNoMoreTokens(rest);
      }
      if regCount > conf.tableEntryCount { errors := errors + 1; }
    }

    /** One command other than endabi: */
    method Perform(kind: Kind, cp: string)
      requires Valid() && kind != EndAbi
      modifies this, table, table.regs
      ensures Valid() && (table.regs == old(table.regs) || fresh(table.regs))
      ensures Now() == Act(old(Now()), kind, cp, abiname)
    {
      hide ParseBeginAbi, ParseReg, ParseScalar, NamesAfter;
      if kind == Reg {
        ParseRegLine(cp);
        regCount := regCount + 1;
      } else {
        if kind in seen { errors := errors + 1; }
        seen := seen + {kind};
        if kind == BeginAbi { ParseBeginAbiLine(cp); } else { ParseScalarLine(kind, cp); }
      }
    }

    /** The loop of parse_abi. */
    method Parse(text: string, offset: nat) returns (r: Ending)
      requires Valid() && offset <= |text|
      modifies this, table, table.regs
      ensures Valid()
      ensures match ParseAbi(text, offset, old(Now()), abiname)
              case Parsed(st) => r == Finished && Now() == st
              case NoEnd(n) => r == EndOfFile && errors == n
              case Unreadable => r == Overread
    {
      hide ParseAbi, SkipWhite, TypeOf, LineEnd, Act, ParseEndAbi, NamesAfter, Operands;
      var at := offset;
      while at < |text|
        invariant at <= |text| && Valid() && (table.regs == old(table.regs) || fresh(table.regs))
        invariant ParseAbi(text, offset, old(Now()), abiname) == ParseAbi(text, at, Now(), abiname)
        decreases |text| - at
      {
        ParseUnfolds(text, at, Now(), abiname);
        var end := LineEnd(text, at, LINE);
        var line := Skip(text[at..end]);
        var comtype := WhichCommand(line);
        match comtype {
          case Unknown => errors := errors + 1;
          case Comment =>
          case Empty =>
          case Command(kind) =>
            if !HasOperands(line, kind) { return Overread; }
            if kind == EndAbi {
              ParseEndAbiLine(Operands(line, kind));
              return Finished;
            }
            Perform(kind, Operands(line, kind));
        }
        at := end;
      }
      ParseEnds(text, Now(), abiname);
      errors := errors + 1;
      return EndOfFile;
    }
  }

  /** The names a table shows after some writes: the default ones as long as there is none. */
  ghost function NamesAfter(defaults: seq<string>, writes: seq<(nat, string)>): map<nat, string> {
    if writes == [] then map i: nat | i < |defaults| :: defaults[i] else Written(writes)
  }

  lemma NamesMore(defaults: seq<string>, writes: seq<(nat, string)>, reg: nat, name: string)
    ensures NamesAfter(defaults, writes + [(reg, name)])
         == (if writes == [] then map[] else NamesAfter(defaults, writes))[reg := name]
  {
    var more := writes + [(reg, name)];
    assert more[..|more| - 1] == writes && more[|more| - 1] == (reg, name);
    assert Written(more) == Written(writes)[reg := name];
  }

  lemma SkipTwice(s: string)
    ensures Token(SkipWhite(s)) == Token(s)
  {
    var line := SkipWhite(s);
    assert SkipWhite(line) == line;
  }

  /** find_conf_file_and_read_config, once the file is open. */
  method ReadConfiguration(text: string, abiname: string, defaults: seq<string>) returns (parser: Parser, r: Ending)
    ensures parser.Valid()
    ensures match ReadConfig(text, abiname)
            case Parsed(st) => r == Finished && parser.Now() == st
            case NoEnd(n) => r == EndOfFile && parser.errors == n
            case Unreadable => r == Overread
  {
    hide FindAbi, ParseAbi, NamesAfter;
    parser := new Parser(abiname, defaults);
    var offset := FindAbiStart(text, abiname);
    if offset.None? {
      parser.errors := 2;
      return parser, EndOfFile;
    }
    r := parser.Parse(text, offset.value);
  }
}
