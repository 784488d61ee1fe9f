/** Numbers, blanks and lines of a configuration, character by character. */
module ConfNumbers {
  import opened Bits
  import opened RegisterTable
  import opened ConfLines
  import opened ConfParser

  // ----- which tokens are numbers

  predicate Octal(c: char) { '0' <= c <= '7' }
  predicate DecimalDigit(c: char) { '0' <= c <= '9' }
  predicate Hex(c: char) { DecimalDigit(c) || 'a' <= c <= 'f' || 'A' <= c <= 'F' }

  /** A number without its sign: hexadecimal, octal, or decimal. */
  predicate Unsigned(s: string) {
    || (|s| > 2 && s[0] == '0' && (s[1] == 'x' || s[1] == 'X') && forall c <- s[2..] :: Hex(c))
    || (s != "" && s[0] == '0' && forall c <- s :: Octal(c))
    || (s != "" && s[0] != '0' && forall c <- s :: DecimalDigit(c))
  }

  predicate Numeric(token: string) {
    Unsigned(token) || (token != "" && (token[0] == '+' || token[0] == '-') && Unsigned(token[1..]))
  }

  lemma DigitsOfBase(c: char)
    ensures DigitValue(c) < 8 <==> Octal(c)
    ensures DigitValue(c) < 10 <==> DecimalDigit(c)
    ensures DigitValue(c) < 16 <==> Hex(c)
  {
  }

  lemma AllDigitsAre(s: string)
    ensures AllDigits(s, 8) <==> forall c <- s :: Octal(c)
    ensures AllDigits(s, 10) <==> forall c <- s :: DecimalDigit(c)
    ensures AllDigits(s, 16) <==> forall c <- s :: Hex(c)
  {
    hide DigitValue, Hex, Octal, DecimalDigit;
    forall c | c in s ensures DigitValue(c) < 8 <==> Octal(c) { DigitsOfBase(c); }
    forall c | c in s ensures DigitValue(c) < 10 <==> DecimalDigit(c) { DigitsOfBase(c); }
    forall c | c in s ensures DigitValue(c) < 16 <==> Hex(c) { DigitsOfBase(c); }
  }

  /** What is behind a sign. */
  function Unsign(token: string): string {
    if token != "" && (token[0] == '-' || token[0] == '+') then token[1..] else token
  }

  lemma SignIsNoNumber(token: string)
    ensures Numeric(token) <==> Unsigned(Unsign(token))
  {
    if token != "" && (token[0] == '-' || token[0] == '+') {
      assert token[0] in token && !DecimalDigit(token[0]);
    }
  }

  lemma BodyIsNumber(token: string, body: string)
    requires body == Unsign(token)
    ensures MakeNumber(token).Some? <==> Unsigned(body)
  {
    hide DigitsValue, DigitValue, AllDigits, Hex, Octal, DecimalDigit;
    AllDigitsAre(body);
    if |body| > 2 {
      AllDigitsAre(body[2..]);
      DigitsOfBase(body[2]);
      assert body[2] == body[2..][0] && body[2] in body[2..];
      assert body[1] in body;
      XIsNoDigit();
    }
  }

  lemma XIsNoDigit()
    ensures !Octal('x') && !Octal('X')
  {
  }

  /** A token is taken for a number exactly when all of it is one. */
  lemma NumbersAre(token: string)
    ensures MakeNumber(token).Some? <==> Numeric(token)
  {
    hide *;
    SignIsNoNumber(token);
    BodyIsNumber(token, Unsign(token));
  }

  // ----- which values they have

  const LOWER := "0123456789abcdef"
  const UPPER := "0123456789ABCDEF"

  /** A number written in a base, with one of the two sets of digits. */
  function Numeral(n: nat, base: nat, digits: string): (s: string)
    requires 2 <= base <= 16 && |digits| == 16
    ensures s != ""
  {
    if n < base then [digits[n]] else Numeral(n / base, base, digits) + [digits[n % base]]
  }

  lemma DigitIs(d: nat, digits: string)
    requires d < 16 && (digits == LOWER || digits == UPPER)
    ensures |digits| == 16 && DigitValue(digits[d]) == d && (d > 0 ==> digits[d] != '0')
  {
  }

  lemma {:induction false} NumeralValue(n: nat, base: nat, digits: string)
    requires 2 <= base <= 16 && (digits == LOWER || digits == UPPER)
    ensures AllDigits(Numeral(n, base, digits), base) && DigitsValue(Numeral(n, base, digits), base) == n
    ensures n > 0 ==> Numeral(n, base, digits)[0] != '0'
  {
    hide *;
    DigitIs(0, digits);
    NumeralStep(n, base, digits);
    if n >= base {
      Divided(n, base);
      Longer(n, base, digits, n / base, n % base);
      DigitIs(n % base, digits);
      NumeralValue(n / base, base, digits);
      AddDigit(Numeral(n / base, base, digits), digits[n % base], base);
    } else {
      DigitIs(n, digits);
      OneDigit(digits[n], base);
    }
  }

  lemma Divided(n: nat, base: nat)
    requires 2 <= base <= n
    ensures n / base * base + n % base == n && 0 < n / base < n && 0 <= n % base < base
  {
  }

  lemma NumeralStep(n: nat, base: nat, digits: string)
    requires 2 <= base <= 16 && |digits| == 16
    ensures n < base ==> Numeral(n, base, digits) == [digits[n]]
    ensures n >= base ==> NumeralLonger(n, base, digits, n / base, n % base)
  {
    if n >= base { Divided(n, base); }
  }

  ghost predicate NumeralLonger(n: nat, base: nat, digits: string, q: int, r: int)
    requires 2 <= base <= 16 && |digits| == 16
  {
    && 0 <= q < n && 0 <= r < 16
    && Numeral(n, base, digits) == Numeral(q, base, digits) + [digits[r]]
    && Numeral(n, base, digits)[0] == Numeral(q, base, digits)[0]
  }

  lemma Longer(n: nat, base: nat, digits: string, q: int, r: int)
    requires 2 <= base <= 16 && |digits| == 16 && NumeralLonger(n, base, digits, q, r)
    ensures 0 <= q < n && 0 <= r < 16
    ensures Numeral(n, base, digits) == Numeral(q, base, digits) + [digits[r]]
    ensures Numeral(n, base, digits)[0] == Numeral(q, base, digits)[0]
  {
    hide Numeral;
  }

  lemma AddDigit(s: string, c: char, base: nat)
    requires AllDigits(s, base) && DigitValue(c) < base
    ensures AllDigits(s + [c], base) && DigitsValue(s + [c], base) == DigitsValue(s, base) * base + DigitValue(c)
  {
    hide DigitValue;
    assert (s + [c])[..|s + [c]| - 1] == s;
  }

  lemma OneDigit(c: char, base: nat)
    requires DigitValue(c) < base
    ensures AllDigits([c], base) && DigitsValue([c], base) == DigitValue(c)
  {
    hide DigitValue;
    assert [c][..0] == "";
  }

  /** The largest value a token gives. */
  function Capped(n: nat): nat { if n < TWO_64 then n else TWO_64 - 1 }

  /** The value behind a minus sign: its negative in 64 bits, but the largest if it is too large. */
  function Negated(n: nat): nat { if 0 < n < TWO_64 then TWO_64 - n else Capped(n) }

  /** A hexadecimal number with small or capital letters behind 0x or 0X, an octal one behind a 0, and a decimal
      one, with and without a sign: the value they have in their base. */
  lemma NumbersMean(n: nat, digits: string)
    requires digits == LOWER || digits == UPPER
    ensures |digits| == 16
    ensures Means("0x" + Numeral(n, 16, digits), n) && Means("0X" + Numeral(n, 16, digits), n)
    ensures Means("0" + Numeral(n, 8, digits), n) && Means(Numeral(n, 10, digits), n)
  {
    hide Means, Numeral, MakeNumber;
    HexMeans(n, digits, 'x');
    HexMeans(n, digits, 'X');
    OctalMeans(n, digits);
    DecimalMeans(n, digits);
  }

  /** The token alone, and behind each sign. */
  ghost predicate Means(token: string, n: nat) {
    && MakeNumber(token) == Option.Some(Capped(n)) && MakeNumber("+" + token) == Option.Some(Capped(n))
    && MakeNumber("-" + token) == Option.Some(Negated(n))
  }

  /** A token without a sign, by its parts. */
  lemma SignedMeans(token: string, base: nat, digits: string, n: nat)
    requires token != "" && token[0] != '-' && token[0] != '+' && Unprefixed(token) == Literal(false, base, digits)
    requires digits != "" && AllDigits(digits, base) && DigitsValue(digits, base) == n
    ensures Means(token, n)
  {
    hide AllDigits, DigitsValue, DigitValue;
    assert ("+" + token)[1..] == token && ("-" + token)[1..] == token;
    assert Unprefixed("+" + token) == Literal(false, base, digits) && Unprefixed("-" + token) == Literal(true, base, digits);
    hide Unprefixed;
    NegativeValue(n);
  }

  lemma NegativeValue(n: nat)
    ensures n < TWO_64 ==> (TWO_64 - n) % TWO_64 == Negated(n)
  {
  }

  lemma HexToken(s: string, x: char)
    requires s != "" && DigitValue(s[0]) < 16 && (x == 'x' || x == 'X')
    ensures Unprefixed(['0', x] + s) == Literal(false, 16, s)
  {
    hide DigitValue;
    var token := ['0', x] + s;
    assert token[2..] == s && token[2] == s[0];
  }

  lemma HexMeans(n: nat, digits: string, x: char)
    requires (digits == LOWER || digits == UPPER) && (x == 'x' || x == 'X')
    ensures |digits| == 16 && Means(['0', x] + Numeral(n, 16, digits), n)
  {
    hide *;
    DigitIs(0, digits);
    NumeralValue(n, 16, digits);
    var s := Numeral(n, 16, digits);
    FirstIsDigit(s, 16);
    HexToken(s, x);
    SignedMeans(['0', x] + s, 16, s, n);
  }

  lemma OctalToken(s: string)
    requires s == "" || DigitValue(s[0]) < 16
    ensures Unprefixed("0" + s) == Literal(false, 8, "0" + s)
  {
    if s != "" { assert ("0" + s)[1] == s[0]; }
  }

  lemma OctalMeans(n: nat, digits: string)
    requires digits == LOWER || digits == UPPER
    ensures |digits| == 16 && Means("0" + Numeral(n, 8, digits), n)
  {
    hide *;
    DigitIs(0, digits);
    NumeralValue(n, 8, digits);
    var s := Numeral(n, 8, digits);
    LeadingZero(s);
    FirstIsDigit(s, 8);
    OctalToken(s);
    SignedMeans("0" + s, 8, "0" + s, n);
  }

  lemma FirstIsDigit(s: string, base: nat)
    requires s != "" && AllDigits(s, base)
    ensures DigitValue(s[0]) < base
  {
    assert s[0] in s;
  }

  lemma {:induction false} LeadingZero(s: string)
    requires AllDigits(s, 8)
    ensures AllDigits("0" + s, 8) && DigitsValue("0" + s, 8) == DigitsValue(s, 8)
    decreases |s|
  {
    if s == "" {
      assert "0"[..0] == "" && "0" + s == "0";
    } else {
      var init := s[..|s| - 1];
      assert forall c <- init :: c in s;
      LeadingZero(init);
      assert ("0" + s)[..|s|] == "0" + init;
    }
  }

  lemma DecimalMeans(n: nat, digits: string)
    requires digits == LOWER || digits == UPPER
    ensures |digits| == 16 && Means(Numeral(n, 10, digits), n)
  {
    DigitIs(0, digits);
    NumeralValue(n, 10, digits);
    var s := Numeral(n, 10, digits);
    if n == 0 {
      assert s == "0" && s[..0] == "";
      assert DigitsValue(s, 8) == DigitValue('0') == 0;
      ZeroIsOctal();
    }
    hide Means, Numeral, LOWER, UPPER;
    assert s[0] in s;
    SignIsNoDigit();
    if n == 0 { SignedMeans(s, 8, s, 0); } else { SignedMeans(s, 10, s, n); }
  }

  lemma ZeroIsOctal()
    ensures AllDigits("0", 8)
  {
  }

  lemma SignIsNoDigit()
    ensures DigitValue('+') > 16 && DigitValue('-') > 16 && DigitValue('x') > 16 && DigitValue('X') > 16
  {
  }

  // ----- values cut to an int, blanks, and lines

  /** The one value of a signed 32-bit int with the same low 32 bits. */
  lemma IntIs(v: nat)
    ensures -TWO_31 <= ToInt(v) < TWO_31 && (ToInt(v) - v) % TWO_32 == 0
  {
    var q, low := v / TWO_32, v % TWO_32;
    assert v == q * TWO_32 + low;
    if low < TWO_31 { CountsAway(-q); } else { CountsAway(-q - 1); }
  }

  lemma CountsAway(q: int)
    ensures (q * TWO_32) % TWO_32 == 0
  {
  }

  /** Blanks are the six of the C locale. */
  lemma SpacesAre(c: char)
    ensures IsSpace(c) <==> c as int == 32 || 9 <= c as int <= 13
  {
  }

  /** What is skipped is blank, up to the first character that is not. */
  lemma {:induction false} SkipsBlanks(s: string)
    ensures var rest := SkipWhite(s);
            && |rest| <= |s| && rest == s[|s| - |rest|..]
            && (forall i :: 0 <= i < |s| - |rest| ==> IsSpace(s[i])) && (rest != "" ==> !IsSpace(rest[0]))
  {
    hide IsSpace;
    if s != "" && IsSpace(s[0]) {
      SkipsBlanks(s[1..]);
      OneBlankMore(s, |s| - |SkipWhite(s[1..])|);
    }
  }

  lemma OneBlankMore(s: string, k: nat)
    requires 0 < k <= |s| && IsSpace(s[0]) && forall i :: 0 <= i < k - 1 ==> IsSpace(s[1..][i])
    ensures forall i :: 0 <= i < k ==> IsSpace(s[i])
  {
    hide IsSpace;
    assert forall i :: 0 < i < |s| ==> s[i] == s[1..][i - 1];
  }

  /** A read of the file ends behind the first newline, or when there is no more room or no more text. */
  lemma {:induction false} LineEndIs(text: string, at: nat, room: nat)
    requires at <= |text|
    ensures var end := LineEnd(text, at, room);
            && at <= end <= |text| && end - at <= room && (forall i :: at <= i < end - 1 ==> text[i] != '\n')
            && (end == |text| || end - at == room || (end > at && text[end - 1] == '\n'))
    decreases |text| - at
  {
    if at < |text| && room > 0 && text[at] != '\n' {
      LineEndIs(text, at + 1, room - 1);
    }
  }
}
