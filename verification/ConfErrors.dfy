/** What any line of a block does, the bad ones included, by the words that stand on it. */
module ConfErrors {
  import opened RegisterTable
  import opened ConfLines
  import opened ConfParser
  import opened ConfRoundTrip

  // ----- the words of a line

  /** The tokens of a text, one after the other, are these words. */
  predicate Reads(cp: string, words: seq<string>)
    decreases |words|
  {
    var (token, rest) := Token(cp);
    if words == [] then token == "" else words[0] != "" && token == words[0] && Reads(rest, words[1..])
  }

  /** A word and the blanks before it. */
  datatype Piece = Piece(gap: string, word: string) {
    predicate Proper() { Gap(gap) && Word(word) }
  }

  predicate AllProper(pieces: seq<Piece>) { forall piece <- pieces :: piece.Proper() }

  function Words(pieces: seq<Piece>): seq<string> {
    if pieces == [] then [] else [pieces[0].word] + Words(pieces[1..])
  }

  /** Words and the end of the line. */
  function Spaced(pieces: seq<Piece>, tail: Tail): (s: string)
    ensures s != ""
  {
    if pieces == [] then tail.Text() else pieces[0].gap + (pieces[0].word + Spaced(pieces[1..], tail))
  }

  lemma SpacedStart(pieces: seq<Piece>, tail: Tail)
    requires AllProper(pieces) && tail.Proper()
    ensures !InToken(Spaced(pieces, tail)[0])
  {
    if pieces == [] {
      TailHasNone(tail);
    } else {
      assert pieces[0] in pieces;
      GapStart(pieces[0].gap, pieces[0].word + Spaced(pieces[1..], tail));
    }
  }

  lemma FirstOf(pieces: seq<Piece>)
    requires pieces != [] && AllProper(pieces)
    ensures Gap(pieces[0].gap) && Blank(pieces[0].gap) && Word(pieces[0].word) && pieces[0].word != ""
    ensures AllProper(pieces[1..])
  {
    assert pieces[0] in pieces && forall piece <- pieces[1..] :: piece in pieces;
  }

  /** Blanks and some words are read as the words. */
  lemma {:induction false} SpacedReads(pieces: seq<Piece>, tail: Tail)
    requires AllProper(pieces) && tail.Proper()
    ensures Reads(Spaced(pieces, tail), Words(pieces))
  {
    hide Token, Word, Blank, Gap, AllProper, InToken;
    TailHasNone(tail);
    if pieces != [] {
      FirstOf(pieces);
      var rest := Spaced(pieces[1..], tail);
      SpacedStart(pieces[1..], tail);
      SpacedReads(pieces[1..], tail);
      assert pieces[0].gap + (pieces[0].word + rest) == pieces[0].gap + pieces[0].word + rest;
      TokenWritten(pieces[0].gap, pieces[0].word, rest);
    }
  }

  /** The parse functions skip one character behind the command's name. That is a blank, unless a comment follows
      the name at once. */
  lemma OperandsRead(pieces: seq<Piece>, tail: Tail)
    requires AllProper(pieces) && tail.Proper() && (pieces == [] ==> tail.blank != "" || tail.comment == "")
    ensures Reads(Spaced(pieces, tail)[1..], Words(pieces))
  {
    hide Token, Word, Blank, Gap, AllProper, InToken;
    if pieces == [] {
      ShorterTail(tail);
    } else {
      FirstOf(pieces);
      var first, rest := pieces[0], Spaced(pieces[1..], tail);
      SpacedStart(pieces[1..], tail);
      SpacedReads(pieces[1..], tail);
      GapStart(first.gap, "");
      assert (first.gap + (first.word + rest))[1..] == first.gap[1..] + first.word + rest;
      TokenWritten(first.gap[1..], first.word, rest);
    }
  }

  lemma ShorterTail(tail: Tail)
    requires tail.Proper() && (tail.blank != "" || tail.comment == "")
    ensures Token(tail.Text()[1..]).0 == ""
  {
    if tail.blank == "" {
      assert tail.Text()[1..] == "";
    } else {
      var shorter := Tail(tail.blank[1..], tail.comment);
      assert forall c <- tail.blank[1..] :: c in tail.blank;
      assert tail.Text()[1..] == shorter.Text();
      TailHasNone(shorter);
    }
  }

  // ----- what the words do

  lemma ReadsOne(cp: string, words: seq<string>)
    requires Reads(cp, words)
    ensures words == [] ==> Token(cp).0 == ""
    ensures words != [] ==> Token(cp).0 == words[0] != "" && Reads(Token(cp).1, words[1..])
  {
    hide Token;
  }

  /** A register line: a name and a number, and nothing else. */
  lemma RegisterLine(st: State, cp: string, words: seq<string>, abiname: string)
    requires Reads(cp, words)
    ensures var after := Act(st, Reg, cp, abiname);
            && after.regCount == st.regCount + 1 && after.conf == st.conf && after.seen == st.seen
            && (|words| < 2 ==> after.errors == st.errors + 1 && after.writes == st.writes)
            && (|words| >= 2 && MakeNumber(words[1]).None? ==> after.errors == st.errors + 2 && after.writes == st.writes)
            && (|words| >= 2 && MakeNumber(words[1]).Some? ==>
                  && after.writes == st.writes + [(MakeNumber(words[1]).value, words[0])]
                  && after.errors == st.errors + if |words| > 2 then 1 else 0)
  {
    ReadsOne(cp, words);
    if |words| > 0 { ReadsOne(Token(cp).1, words[1..]); }
    if |words| > 1 { ReadsOne(Token(Token(cp).1).1, words[1..][1..]); }
    hide Token, MakeNumber, Reads;
  }

  /** The errors of one number, and whether it is taken. */
  lemma ScalarWords(st: State, kind: Kind, cp: string, words: seq<string>)
    requires IsScalar(kind) && Reads(cp, words)
    ensures words == [] ==> ParseScalar(st, kind, cp) == st.Error(1)
    ensures words != [] && MakeNumber(words[0]).None? ==> ParseScalar(st, kind, cp) == st.Error(2)
    ensures words != [] && MakeNumber(words[0]).Some? ==>
              var val := MakeNumber(words[0]).value;
              ParseScalar(st, kind, cp)
              == if kind == FrameInterface && val != 2 && val != 3 then st.Error(1)
                 else st.(conf := SetScalar(st.conf, kind, val)).Error(if |words| > 1 then 1 else 0)
  {
    ReadsOne(cp, words);
    if |words| > 0 { ReadsOne(Token(cp).1, words[1..]); }
    hide Token, MakeNumber, Reads, SetScalar;
  }

  /** A setting's line: one number, for the interface 2 or 3. A second line of its kind is an error too. */
  lemma SettingLine(st: State, kind: Kind, cp: string, words: seq<string>, abiname: string)
    requires IsScalar(kind) && Reads(cp, words)
    ensures var after := Act(st, kind, cp, abiname);
            var again := if kind in st.seen then 1 else 0;
            && after.seen == st.seen + {kind} && after.writes == st.writes && after.regCount == st.regCount
            && (words == [] ==> after.errors == st.errors + again + 1 && after.conf == st.conf)
            && (words != [] && MakeNumber(words[0]).None? ==>
                  after.errors == st.errors + again + 2 && after.conf == st.conf)
            && (words != [] && MakeNumber(words[0]).Some? ==>
                  var val := MakeNumber(words[0]).value;
                  if kind == FrameInterface && val != 2 && val != 3
                  then after.errors == st.errors + again + 1 && after.conf == st.conf
                  else after.errors == st.errors + again + (if |words| > 1 then 1 else 0)
                       && ChangesOne(st.conf, after.conf, kind, if kind == RegTableSize then val else ToInt(val)))
  {
    hide Token, MakeNumber, Reads, SetScalar, Act, ParseScalar, ToInt, ChangesOne;
    ActIsScalar(st, kind, cp, abiname);
    ScalarWords(st.Once(kind), kind, cp, words);
    if words != [] && MakeNumber(words[0]).Some? {
      SetsOne(st.conf, kind, MakeNumber(words[0]).value);
    }
  }

  /** One setting is given a value, and the others are left as they were. */
  ghost predicate ChangesOne(before: Conf, after: Conf, kind: Kind, value: int)
    requires IsScalar(kind)
  {
    Field(after, kind) == value && forall k: Kind | IsScalar(k) && k != kind :: Field(after, k) == Field(before, k)
  }

  lemma SetsOne(conf: Conf, kind: Kind, val: nat)
    requires IsScalar(kind)
    ensures ChangesOne(conf, SetScalar(conf, kind, val), kind, if kind == RegTableSize then val else ToInt(val))
  {
    hide ToInt;
  }

  /** A first line: the name of the ABI and nothing else, or an error. */
  lemma BeginLine(st: State, cp: string, words: seq<string>, abiname: string)
    requires abiname != "" && Reads(cp, words)
    ensures Act(st, BeginAbi, cp, abiname).seen == st.seen + {BeginAbi}
    ensures Act(st, BeginAbi, cp, abiname).errors
         == st.errors + (if BeginAbi in st.seen then 1 else 0) + if |words| == 1 && words[0] == abiname then 0 else 1
    ensures Act(st, BeginAbi, cp, abiname).(seen := st.seen, errors := st.errors) == st
  {
    ReadsOne(cp, words);
    if |words| > 0 { ReadsOne(Token(cp).1, words[1..]); }
    hide Token, Reads;
  }

  /** A last line is the same, and more register lines than the table size that was asked for are one more error. */
  lemma EndLine(st: State, cp: string, words: seq<string>, abiname: string)
    requires abiname != "" && Reads(cp, words)
    ensures ParseEndAbi(st, cp, abiname).errors
         == st.errors + (if |words| == 1 && words[0] == abiname then 0 else 1)
            + if st.regCount > st.conf.tableEntryCount then 1 else 0
    ensures ParseEndAbi(st, cp, abiname).(errors := st.errors) == st
  {
    ReadsOne(cp, words);
    if |words| > 0 { ReadsOne(Token(cp).1, words[1..]); }
    hide Token, Reads;
  }

  // ----- such a line in a text

  lemma NameIsToken(kind: Kind, rest: string)
    requires rest != "" && !InToken(rest[0])
    ensures var line := NameOf(kind) + rest;
            line != "" && line[0] != '#' && SkipWhite(line) == line && Token(line).0 == NameOf(kind)
  {
    CommandIsWord(kind);
    hide NameOf, SkipWhite, TokenLen, Token;
    WordStart(NameOf(kind), rest);
    SkipWord(NameOf(kind) + rest);
    assert "" + NameOf(kind) + rest == NameOf(kind) + rest;
    TokenWritten("", NameOf(kind), rest);
  }

  lemma BehindName(kind: Kind, rest: string)
    requires rest != ""
    ensures HasOperands(NameOf(kind) + rest, kind) && Operands(NameOf(kind) + rest, kind) == rest[1..]
  {
    hide NameOf;
  }

  /** A command's name ends at a blank or a comment. What follows that character are its operands, even when it is
      the start of a comment. */
  lemma AnyOperands(lead: string, kind: Kind, rest: string)
    requires Blank(lead) && rest != "" && !InToken(rest[0])
    ensures var line := SkipWhite(lead + (NameOf(kind) + rest));
            TypeOf(line) == Command(kind) && HasOperands(line, kind) && Operands(line, kind) == rest[1..]
  {
    hide *;
    SkipBlank(lead, NameOf(kind) + rest);
    NameIsToken(kind, rest);
    CommandType(NameOf(kind) + rest, kind);
    BehindName(kind, rest);
  }

  /** A command's turn of the loop, whatever its operands. */
  lemma OperandsParsed(text: string, at: nat, line: string, st: State, lead: string, kind: Kind, rest: string, abiname: string)
    requires Blank(lead) && rest != "" && !InToken(rest[0]) && line == lead + (NameOf(kind) + rest)
    requires IsLine(line, LINE) && StartsWith(text, at, line)
    ensures at + |line| <= |text|
    ensures ParseAbi(text, at, st, abiname)
         == if kind == EndAbi then Parsed(ParseEndAbi(st, rest[1..], abiname))
            else ParseAbi(text, at + |line|, Act(st, kind, rest[1..], abiname), abiname)
  {
    hide *;
    AnyOperands(lead, kind, rest);
    CommandStep(text, at, line, st, kind, rest[1..], abiname);
  }

  /** A command's line is read as the command with the words behind it; the loop goes on behind the line, or ends. */
  lemma CommandParsed(text: string, at: nat, line: string, st: State, lead: string, kind: Kind, pieces: seq<Piece>, tail: Tail,
                      abiname: string)
    requires Blank(lead) && AllProper(pieces) && tail.Proper() && (pieces == [] ==> tail.blank != "" || tail.comment == "")
    requires line == lead + (NameOf(kind) + Spaced(pieces, tail)) && IsLine(line, LINE) && StartsWith(text, at, line)
    ensures at + |line| <= |text| && Reads(Spaced(pieces, tail)[1..], Words(pieces))
    ensures ParseAbi(text, at, st, abiname)
         == if kind == EndAbi then Parsed(ParseEndAbi(st, Spaced(pieces, tail)[1..], abiname))
            else ParseAbi(text, at + |line|, Act(st, kind, Spaced(pieces, tail)[1..], abiname), abiname)
  {
    hide *;
    OperandsRead(pieces, tail);
    SpacedStart(pieces, tail);
    OperandsParsed(text, at, line, st, lead, kind, Spaced(pieces, tail), abiname);
  }

  const COMMENTED := "reg:#r5 5\n"

  /** A comment that follows the command's name at once is taken for its operands: this line names register 5. */
  lemma CommentRead(st: State, abiname: string)
    ensures ParseAbi(COMMENTED, 0, st, abiname)
         == ParseAbi(COMMENTED, |COMMENTED|, Named(st, 5, "r5"), abiname)
  {
    hide *;
    CommentWords();
    CommentIsLine();
    OperandsParsed(COMMENTED, 0, COMMENTED, st, "", Reg, "#r5 5\n", abiname);
    FirstBehind();
    RegisterLine(st, "r5 5\n", ["r5", "5"], abiname);
    NamesFive(st, Act(st, Reg, "r5 5\n", abiname));
  }

  lemma NamesFive(st: State, after: State)
    requires after.regCount == st.regCount + 1 && after.conf == st.conf && after.seen == st.seen
    requires after.writes == st.writes + [(5, "r5")] && after.errors == st.errors
    ensures after == Named(st, 5, "r5")
  {
  }

  lemma FirstBehind()
    ensures "#r5 5\n"[1..] == "r5 5\n"
  {
  }

  lemma CommentIsLine()
    ensures COMMENTED == "" + (NameOf(Reg) + "#r5 5\n") && IsLine(COMMENTED, LINE) && StartsWith(COMMENTED, 0, COMMENTED)
    ensures Blank("") && "#r5 5\n" != "" && !InToken("#r5 5\n"[0])
  {
  }

  lemma CommentWords()
    ensures Reads("r5 5\n", ["r5", "5"]) && MakeNumber("5") == Option.Some(5)
  {
    hide MakeNumber, Token, Spaced;
    FiveIsFive();
    SpacedReads([Piece(" ", "5")], Tail("", ""));
    SpacedFive();
    assert "" + "r5" + " 5\n" == "r5 5\n" && ["r5", "5"][1..] == ["5"];
    TokenWritten("", "r5", " 5\n");
  }

  lemma FiveIsFive()
    ensures MakeNumber("5") == Option.Some(5)
  {
    NumberRoundTrip(5);
    hide MakeNumber;
    assert Decimal(5) == "5";
  }

  lemma SpacedFive()
    ensures Spaced([Piece(" ", "5")], Tail("", "")) == " 5\n" && Words([Piece(" ", "5")]) == ["5"]
    ensures AllProper([Piece(" ", "5")])
  {
    assert [Piece(" ", "5")][1..] == [];
  }

  /** A line that begins with any other word is an error. */
  lemma UnknownParsed(text: string, at: nat, st: State, lead: string, word: string, pieces: seq<Piece>, tail: Tail, abiname: string)
    requires Blank(lead) && Word(word) && AllProper(pieces) && tail.Proper() && forall kind: Kind :: word != NameOf(kind)
    requires var line := lead + (word + Spaced(pieces, tail)); IsLine(line, LINE) && StartsWith(text, at, line)
    ensures var end := at + |lead + (word + Spaced(pieces, tail))|;
            end <= |text| && ParseAbi(text, at, st, abiname) == ParseAbi(text, end, st.(errors := st.errors + 1), abiname)
  {
    hide *;
    var line, rest := lead + (word + Spaced(pieces, tail)), Spaced(pieces, tail);
    SpacedStart(pieces, tail);
    SkipBlank(lead, word + rest);
    WordStart(word, rest);
    StartsToken(word[0]);
    SkipWord(word + rest);
    assert "" + word + rest == word + rest;
    BlankIsEmpty();
    TokenWritten("", word, rest);
    NoCommand(word, 0);
    TypeIsNamed(word + rest);
    LineRead(text, at, line);
    ParseUnfolds(text, at, st, abiname);
    OneError(st);
  }

  lemma BlankIsEmpty()
    ensures Blank("")
  {
  }

  lemma StartsToken(c: char)
    requires InToken(c)
    ensures !IsSpace(c) && c != '#'
  {
  }

  lemma OneError(st: State)
    ensures st.Error(1) == st.(errors := st.errors + 1)
  {
  }

  lemma TypeIsNamed(line: string)
    requires line != "" && line[0] != '#'
    ensures TypeOf(line) == CommandNamed(Token(line).0, 0)
  {
    hide Token, CommandNamed;
  }

  lemma {:induction false} NoCommand(word: string, i: nat)
    requires forall kind: Kind :: word != NameOf(kind)
    ensures CommandNamed(word, i) == Unknown
    decreases |COMMANDS| - i
  {
    hide NameOf;
    if i < |COMMANDS| {
      NoCommand(word, i + 1);
    }
  }
}
