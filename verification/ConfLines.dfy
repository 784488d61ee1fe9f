/** How dwarfdump.conf is read: lines that fit a buffer, tokens on a line, and numbers. */
module ConfLines {
  import opened Bits
  import opened RegisterTable

  /** isspace, in the C locale */
  predicate IsSpace(c: char) { c == ' ' || c == '\t' || c == '\n' || c == 0xB as char || c == 0xC as char || c == '\r' }

  // ----- tokens

  function SkipWhite(s: string): (rest: string)
    ensures |rest| <= |s| && rest == s[|s| - |rest|..]
    ensures rest != "" ==> !IsSpace(rest[0])
  {
    if s != "" && IsSpace(s[0]) then SkipWhite(s[1..]) else s
  }

  /** A character of a token: neither blank nor the start of a comment. */
  predicate InToken(c: char) { !IsSpace(c) && c != '#' }

  function TokenLen(s: string): (n: nat)
    ensures n <= |s|
    ensures forall i :: 0 <= i < n ==> InToken(s[i])
    ensures n < |s| ==> !InToken(s[n])
  {
    if s == "" || !InToken(s[0]) then 0 else 1 + TokenLen(s[1..])
  }

  /** The first token, which may be empty, and what follows it. */
  function Token(s: string): (string, string) {
    var line := SkipWhite(s);
    (line[..TokenLen(line)], line[TokenLen(line)..])
  }

  /** skipwhite */
  method Skip(s: string) returns (rest: string)
    ensures rest == SkipWhite(s)
  {
    var cp := 0;
    while cp < |s|
      invariant cp <= |s| && SkipWhite(s) == SkipWhite(s[cp..])
    {
      if !IsSpace(s[cp]) { return s[cp..]; }
      assert s[cp..][1..] == s[cp + 1..];
      cp := cp + 1;
    }
    return s[cp..];
  }

  /** find_token_len */
  method FindTokenLen(s: string) returns (len: nat)
    ensures len == TokenLen(s)
  {
    len := 0;
    while len < |s|
      invariant len <= |s| && TokenLen(s) == len + TokenLen(s[len..])
    {
      if IsSpace(s[len]) { return; }
      if s[len] == '#' { return; }
      assert s[len..][1..] == s[len + 1..];
      len := len + 1;
    }
  }

  /** get_token */
  method GetToken(s: string) returns (token: string, rest: string)
    ensures (token, rest) == Token(s)
  {
    var line := Skip(s);
    var len := FindTokenLen(line);
    return line[..len], line[len..];
  }

  // ----- numbers

  /** The value of a digit in any base up to sixteen, or 99. */
  function DigitValue(c: char): nat {
    if '0' <= c <= '9' then c as nat - '0' as nat
    else if 'a' <= c <= 'f' then c as nat - 'a' as nat + 10
    else if 'A' <= c <= 'F' then c as nat - 'A' as nat + 10
    else 99
  }

  predicate AllDigits(s: string, base: nat) { forall c <- s :: DigitValue(c) < base }

  function DigitsValue(s: string, base: nat): nat {
    if s == "" then 0 else DigitsValue(s[..|s| - 1], base) * base + DigitValue(s[|s| - 1])
  }

  /** A number as strtoul with base 0 understands it. */
  datatype Literal = Literal(negative: bool, base: nat, digits: string)

  function Unprefixed(token: string): Literal {
    var negative := token != "" && token[0] == '-';
    var body := if token != "" && (token[0] == '-' || token[0] == '+') then token[1..] else token;
    if |body| > 2 && body[0] == '0' && (body[1] == 'x' || body[1] == 'X') && DigitValue(body[2]) < 16 then
      Literal(negative, 16, body[2..])
    else if body != "" && body[0] == '0' then Literal(negative, 8, body)
    else Literal(negative, 10, body)
  }

  datatype Option<+T> = None | Some(value: T)

  /** make_a_number: the whole token must be the number; a value too large becomes the largest. */
  function MakeNumber(token: string): (r: Option<nat>)
    ensures r.Some? ==> r.value < TWO_64
  {
    var n := Unprefixed(token);
    if n.digits == "" || !AllDigits(n.digits, n.base) then None
    else
      var value := DigitsValue(n.digits, n.base);
      if value >= TWO_64 then Some(TWO_64 - 1)
      else if n.negative then Some((TWO_64 - value) % TWO_64)
      else Some(value)
  }

  lemma {:induction false} DecimalDigits(n: nat)
    ensures AllDigits(Decimal(n), 10) && DigitsValue(Decimal(n), 10) == n
    ensures n > 0 ==> Decimal(n)[0] != '0'
  {
    if n >= 10 {
      var s := Decimal(n);
      DecimalDigits(n / 10);
      assert s[..|s| - 1] == Decimal(n / 10);
      DigitIsValue(n % 10);
    } else {
      DigitIsValue(n);
      assert Decimal(n)[..0] == "";
    }
  }

  lemma DigitIsValue(d: nat)
    requires d < 10
    ensures DigitValue(Digit(d)) == d && '0' <= Digit(d) <= '9' && (d > 0 ==> Digit(d) != '0')
  {
  }

  /** A decimal number is read back, unless it is too large. */
  lemma NumberRoundTrip(n: nat)
    ensures MakeNumber(Decimal(n)) == Some(if n < TWO_64 then n else TWO_64 - 1)
  {
    var s := Decimal(n);
    DecimalDigits(n);
    assert s[0] in s;
    if n == 0 {
      assert s == "0";
      assert s[..0] == "";
      assert DigitsValue(s, 8) == DigitValue('0');
    }
  }

  // ----- lines

  /** The end of what fgets reads: the newline, the end of the text, or no more room. */
  function LineEnd(text: string, at: nat, room: nat): (end: nat)
    requires at <= |text|
    ensures at <= end <= |text|
    ensures at < |text| && room > 0 ==> at < end
    decreases |text| - at
  {
    if at == |text| || room == 0 then at
    else if text[at] == '\n' then at + 1
    else LineEnd(text, at + 1, room - 1)
  }

  /** The text at a place starts with the part. */
  predicate StartsWith(text: string, at: nat, part: string) {
    at + |part| <= |text| && text[at..at + |part|] == part
  }

  /** A line with its newline, that fits. */
  predicate IsLine(line: string, room: nat) {
    && 0 < |line| <= room && line[|line| - 1] == '\n'
    && forall i :: 0 <= i < |line| - 1 ==> line[i] != '\n'
  }

  lemma {:induction false} ReadsLine(text: string, at: nat, line: string, room: nat)
    requires StartsWith(text, at, line) && IsLine(line, room)
    ensures LineEnd(text, at, room) == at + |line|
    decreases |line|
  {
    assert text[at] == text[at..at + |line|][0];
    if |line| > 1 {
      assert text[at + 1..at + 1 + |line[1..]|] == text[at..at + |line|][1..];
      ReadsLine(text, at + 1, line[1..], room - 1);
    }
  }

  lemma SplitStart(text: string, at: nat, a: string, b: string)
    requires StartsWith(text, at, a + b)
    ensures StartsWith(text, at, a) && StartsWith(text, at + |a|, b)
  {
    var whole := text[at..at + |a + b|];
    assert text[at..at + |a|] == whole[..|a|] && text[at + |a|..at + |a| + |b|] == whole[|a|..];
  }

  // ----- tokens of a written line

  /** Blanks within a line. */
  predicate Blank(s: string) { forall c <- s :: IsSpace(c) && c != '\n' }

  predicate Word(s: string) { s != "" && forall c <- s :: InToken(c) }

  /** The end of a line: blanks, perhaps a comment, and the newline. */
  datatype Tail = Tail(blank: string, comment: string) {
    predicate Proper() {
      Blank(blank) && (comment == "" || comment[0] == '#') && '\n' !in comment
    }

    function Text(): (s: string)
      ensures s != ""
    {
      blank + (comment + "\n")
    }
  }

  lemma {:induction false} SkipBlank(blank: string, rest: string)
    requires Blank(blank)
    ensures SkipWhite(blank + rest) == SkipWhite(rest)
    decreases |blank|
  {
    if blank == "" {
      assert blank + rest == rest;
    } else {
      assert (blank + rest)[1..] == blank[1..] + rest;
      SkipBlank(blank[1..], rest);
    }
  }

  lemma {:induction false} TokenOfWord(word: string, rest: string)
    requires (forall c <- word :: InToken(c)) && (rest == "" || !InToken(rest[0]))
    ensures TokenLen(word + rest) == |word|
    decreases |word|
  {
    if word == "" {
      assert word + rest == rest;
    } else {
      assert (word + rest)[1..] == word[1..] + rest;
      TokenOfWord(word[1..], rest);
    }
  }

  /** A word between blanks is the next token. */
  lemma TokenWritten(blank: string, word: string, rest: string)
    requires Blank(blank) && Word(word) && rest != "" && !InToken(rest[0])
    ensures Token(blank + word + rest) == (word, rest)
  {
    assert blank + word + rest == blank + (word + rest);
    SkipBlank(blank, word + rest);
    assert word[0] in word;
    TokenOfWord(word, rest);
  }

  lemma SkipNewline()
    ensures SkipWhite("\n") == ""
  {
    assert "\n"[1..] == "";
  }

  lemma SkipNothing(s: string)
    requires s == "" || s[0] == '#'
    ensures SkipWhite(s) == s && TokenLen(s) == 0
  {
  }

  /** A tail has no token. */
  lemma TailHasNone(tail: Tail)
    requires tail.Proper()
    ensures Token(tail.Text()).0 == "" && !InToken(tail.Text()[0])
    ensures SkipWhite(tail.Text()) == "" || SkipWhite(tail.Text())[0] == '#'
  {
    SkipBlank(tail.blank, tail.comment + "\n");
    hide TokenLen, SkipWhite;
    if tail.comment == "" {
      assert tail.comment + "\n" == "\n";
      SkipNewline();
      SkipNothing("");
    } else {
      SkipNothing(tail.comment + "\n");
    }
    if tail.blank != "" { assert tail.blank[0] in tail.blank; }
  }
}
