module Options {
  datatype Option<+T> = None | Some(value: T)
}

/** The parts of printf and sscanf that the programs exchange text with.

    A scanner returns what it read and the rest of the input, or None when the conversion fails.
    Numerals outside the range of `int` are not modelled: the C standard leaves them undefined.
 */
module Scan {
  import opened Options

  // ----- %d -----

  predicate IsDigit(c: char) {
    '0' <= c <= '9'
  }

  predicate AllDigits(s: string) {
    forall i :: 0 <= i < |s| ==> IsDigit(s[i])
  }

  /** isspace of the C locale, which skips more than `trim` does. */
  predicate IsCSpace(c: char) {
    c == ' ' || ('\t' <= c <= '\r')
  }

  function PrintNat(n: nat): (s: string)
    ensures s != "" && AllDigits(s)
  {
    var d := ('0' as int + n % 10) as char;
    if n < 10 then [d] else PrintNat(n / 10) + [d]
  }

  function PrintInt(n: int): string {
    if n < 0 then "-" + PrintNat(-n) else PrintNat(n)
  }

  function Value(digits: string): nat
    requires AllDigits(digits)
  {
    if digits == "" then 0
    else Value(digits[..|digits| - 1]) * 10 + (digits[|digits| - 1] as int - '0' as int)
  }

  function DigitSpan(s: string): (n: nat)
    ensures n <= |s| && AllDigits(s[..n])
    ensures n < |s| ==> !IsDigit(s[n])
  {
    if s == "" || !IsDigit(s[0]) then 0 else 1 + DigitSpan(s[1..])
  }

  function SkipCSpace(s: string): (r: string)
    ensures r != "" ==> !IsCSpace(r[0])
  {
    if s != "" && IsCSpace(s[0]) then SkipCSpace(s[1..]) else s
  }

  function ScanDigits(s: string): Option<(int, string)> {
    var n := DigitSpan(s);
    if n == 0 then None else Some((Value(s[..n]), s[n..]))
  }

  function ScanInt(s: string): Option<(int, string)> {
    var t := SkipCSpace(s);
    if t != "" && t[0] == '-' then
      match ScanDigits(t[1..])
      case None => None
      case Some((n, rest)) => Some((-n, rest))
    else if t != "" && t[0] == '+' then ScanDigits(t[1..])
    else ScanDigits(t)
  }

  lemma {:induction false} ValueOfPrint(n: nat)
    ensures Value(PrintNat(n)) == n
  {
    var d := ('0' as int + n % 10) as char;
    if n < 10 {
      assert Value([d][..0]) == 0;
    } else {
      ValueOfPrint(n / 10);
      assert PrintNat(n)[..|PrintNat(n)| - 1] == PrintNat(n / 10);
    }
  }

  lemma {:induction false} DigitSpanOf(digits: string, rest: string)
    requires AllDigits(digits)
    requires rest != "" ==> !IsDigit(rest[0])
    ensures DigitSpan(digits + rest) == |digits|
  {
    if digits == "" {
      assert digits + rest == rest;
    } else {
      assert (digits + rest)[1..] == digits[1..] + rest;
      DigitSpanOf(digits[1..], rest);
    }
  }

  lemma DigitsRoundTrip(n: nat, rest: string)
    requires rest != "" ==> !IsDigit(rest[0])
    ensures ScanDigits(PrintNat(n) + rest) == Some((n, rest))
  {
    var ds := PrintNat(n);
    ValueOfPrint(n);
    DigitSpanOf(ds, rest);
    assert (ds + rest)[..|ds|] == ds && (ds + rest)[|ds|..] == rest;
  }

  lemma ScanIntPlain(t: string)
    requires t != "" && IsDigit(t[0])
    ensures ScanInt(t) == ScanDigits(t)
  {
    assert SkipCSpace(t) == t;
  }

  lemma ScanIntMinus(t: string, n: int, rest: string)
    requires ScanDigits(t) == Some((n, rest))
    ensures ScanInt("-" + t) == Some((-n, rest))
  {
    var s := "-" + t;
    assert s[0] == '-' && s[1..] == t;
    assert SkipCSpace(s) == s;
  }

  /** Reading back a printed integer, whatever follows it, as long as that is not a digit. */
  lemma IntRoundTrip(n: int, rest: string)
    requires rest != "" ==> !IsDigit(rest[0])
    ensures ScanInt(PrintInt(n) + rest) == Some((n, rest))
  {
    if n < 0 {
      DigitsRoundTrip(-n, rest);
      ScanIntMinus(PrintNat(-n) + rest, -n, rest);
      assert PrintInt(n) + rest == "-" + (PrintNat(-n) + rest);
    } else {
      DigitsRoundTrip(n, rest);
      ScanIntPlain(PrintNat(n) + rest);
    }
  }

  // ----- what a numeral means -----

  function Power10(n: nat): nat {
    if n == 0 then 1 else 10 * Power10(n - 1)
  }

  function DigitValue(c: char): nat
    requires IsDigit(c)
  {
    c as int - '0' as int
  }

  /** Places count from the left, too: the first digit weighs the most. */
  lemma {:induction false} ValueByPlace(digits: string)
    requires AllDigits(digits) && digits != ""
    ensures Value(digits) == DigitValue(digits[0]) * Power10(|digits| - 1) + Value(digits[1..])
  {
    var n := |digits| - 1;
    if n == 0 {
      assert digits[..0] == "" && digits[1..] == "";
    } else {
      var front := digits[..n];
      ValueByPlace(front);
      assert digits[1..][..n - 1] == front[1..];
      assert digits[1..][n - 1] == digits[n];
    }
  }

  predicate CBlank(s: string) {
    forall i :: 0 <= i < |s| ==> IsCSpace(s[i])
  }

  predicate IsSign(s: string) {
    s == "" || s == "-" || s == "+"
  }

  /** Blanks, a sign, digits, and no digit after them. */
  predicate NumeralShape(blanks: string, sign: string, digits: string, rest: string) {
    && CBlank(blanks) && IsSign(sign) && AllDigits(digits) && digits != ""
    && (rest != "" ==> !IsDigit(rest[0]))
  }

  function NumeralValue(sign: string, digits: string): int
    requires AllDigits(digits)
  {
    var n: int := Value(digits);
    if sign == "-" then -n else n
  }

  lemma {:induction false} SkipCBlanks(blanks: string, s: string)
    requires CBlank(blanks) && (s != "" ==> !IsCSpace(s[0]))
    ensures SkipCSpace(blanks + s) == s
  {
    if blanks == "" {
      assert blanks + s == s;
    } else {
      assert (blanks + s)[1..] == blanks[1..] + s;
      SkipCBlanks(blanks[1..], s);
    }
  }

  lemma ScanDigitsOf(digits: string, rest: string)
    requires AllDigits(digits) && digits != "" && (rest != "" ==> !IsDigit(rest[0]))
    ensures ScanDigits(digits + rest) == Some((Value(digits), rest))
  {
    DigitSpanOf(digits, rest);
    assert (digits + rest)[..|digits|] == digits && (digits + rest)[|digits|..] == rest;
  }

  lemma ScanNumeral(blanks: string, sign: string, digits: string, rest: string)
    requires NumeralShape(blanks, sign, digits, rest)
    ensures ScanInt(blanks + (sign + (digits + rest))) == Some((NumeralValue(sign, digits), rest))
  {
    var t := sign + (digits + rest);
    SkipCBlanks(blanks, t);
    ScanDigitsOf(digits, rest);
    if sign == "" {
      assert t == digits + rest;
    } else {
      assert t[0] == sign[0] && t[1..] == digits + rest;
    }
  }

  lemma {:induction false} SkippedBlanks(s: string) returns (blanks: string)
    ensures CBlank(blanks) && s == blanks + SkipCSpace(s)
  {
    if s != "" && IsCSpace(s[0]) {
      blanks := SkippedBlanks(s[1..]);
      blanks := [s[0]] + blanks;
    } else {
      blanks := "";
    }
  }

  lemma ScannedDigits(s: string) returns (digits: string, rest: string)
    requires ScanDigits(s).Some?
    ensures AllDigits(digits) && digits != "" && (rest != "" ==> !IsDigit(rest[0])) && s == digits + rest
    ensures ScanDigits(s).value == (Value(digits) as int, rest)
  {
    digits, rest := s[..DigitSpan(s)], s[DigitSpan(s)..];
  }

  /** Nothing else is ever read as a number. */
  lemma ScannedNumeral(s: string) returns (blanks: string, sign: string, digits: string, rest: string)
    requires ScanInt(s).Some?
    ensures NumeralShape(blanks, sign, digits, rest) && s == blanks + (sign + (digits + rest))
    ensures ScanInt(s).value == (NumeralValue(sign, digits), rest)
  {
    blanks := SkippedBlanks(s);
    var t := SkipCSpace(s);
    if t != "" && t[0] == '-' {
      sign := "-";
      digits, rest := ScannedDigits(t[1..]);
    } else if t != "" && t[0] == '+' {
      sign := "+";
      digits, rest := ScannedDigits(t[1..]);
    } else {
      sign := "";
      digits, rest := ScannedDigits(t);
    }
    assert t == sign + (digits + rest);
  }

  // ----- %[^c] with a width, %s, and literal characters -----

  function SpanNot(s: string, stop: char): (n: nat)
    ensures n <= |s|
    ensures forall i :: 0 <= i < n ==> s[i] != stop
    ensures n < |s| ==> s[n] == stop
  {
    if s == "" || s[0] == stop then 0 else 1 + SpanNot(s[1..], stop)
  }

  function ScanNot(s: string, stop: char, width: nat): Option<(string, string)> {
    var n := if SpanNot(s, stop) <= width then SpanNot(s, stop) else width;
    if n == 0 then None else Some((s[..n], s[n..]))
  }

  lemma {:induction false} SpanNotOf(x: string, stop: char, rest: string)
    requires forall i :: 0 <= i < |x| ==> x[i] != stop
    requires rest != "" ==> rest[0] == stop
    ensures SpanNot(x + rest, stop) == |x|
  {
    if x == "" {
      assert x + rest == rest;
    } else {
      assert (x + rest)[1..] == x[1..] + rest;
      SpanNotOf(x[1..], stop, rest);
    }
  }

  function TokenSpan(s: string): (n: nat)
    ensures n <= |s|
    ensures forall i :: 0 <= i < n ==> !IsCSpace(s[i])
  {
    if s == "" || IsCSpace(s[0]) then 0 else 1 + TokenSpan(s[1..])
  }

  function ScanToken(s: string): Option<(string, string)> {
    var t := SkipCSpace(s);
    if t == "" then None else Some((t[..TokenSpan(t)], t[TokenSpan(t)..]))
  }

  predicate IsToken(w: string) {
    w != "" && forall i :: 0 <= i < |w| ==> !IsCSpace(w[i])
  }

  lemma {:induction false} TokenSpanOf(w: string, rest: string)
    requires forall i :: 0 <= i < |w| ==> !IsCSpace(w[i])
    requires rest != "" ==> IsCSpace(rest[0])
    ensures TokenSpan(w + rest) == |w|
  {
    if w == "" {
      assert w + rest == rest;
    } else {
      assert (w + rest)[1..] == w[1..] + rest;
      TokenSpanOf(w[1..], rest);
    }
  }

  lemma ScanTokenOf(blanks: string, w: string, rest: string)
    requires CBlank(blanks) && IsToken(w) && (rest != "" ==> IsCSpace(rest[0]))
    ensures ScanToken(blanks + (w + rest)) == Some((w, rest))
  {
    SkipCBlanks(blanks, w + rest);
    TokenSpanOf(w, rest);
    assert (w + rest)[..|w|] == w && (w + rest)[|w|..] == rest;
  }

  lemma ScannedToken(s: string)
    ensures ScanToken(s).Some? ==> IsToken(ScanToken(s).value.0)
    ensures ScanToken(s).None? <==> CBlank(s)
  {
    var blanks := SkippedBlanks(s);
    var t := SkipCSpace(s);
    assert t != "" ==> s[|blanks|] == t[0];
  }

  function MatchChar(s: string, c: char): Option<string> {
    if s != "" && s[0] == c then Some(s[1..]) else None
  }

  // ----- the two shapes of a WRITE payload -----

  datatype WriteCommand = WordCommand(sentence: int, word: int, text: string) | FullWrite(data: string)

  /** "%d|" */
  function ScanField(s: string): Option<(int, string)> {
    match ScanInt(s)
    case None => None
    case Some((n, rest)) =>
      match MatchChar(rest, '|')
      case None => None
      case Some(rest') => Some((n, rest'))
  }

  /** `sscanf(data, "%d|%d|%[^\n]", ...) == 3` selects the word edit. */
  function ParseWrite(data: string): WriteCommand {
    match ScanField(data)
    case None => FullWrite(data)
    case Some((sentence, rest)) =>
      match ScanField(rest)
      case None => FullWrite(data)
      case Some((word, text)) =>
        match ScanNot(text, '\n', |text|)
        case None => FullWrite(data)
        case Some((line, _)) => WordCommand(sentence, word, line)
  }

  function PrintWordCommand(sentence: int, word: int, text: string): string {
    PrintInt(sentence) + ("|" + (PrintInt(word) + ("|" + text)))
  }

  lemma FieldRoundTrip(n: int, rest: string)
    ensures ScanField(PrintInt(n) + ("|" + rest)) == Some((n, rest))
  {
    IntRoundTrip(n, "|" + rest);
    assert ("|" + rest)[1..] == rest;
  }

  /** A printed word edit is read as that word edit, up to the first line break of its text, and as
      a full write exactly when that leaves no text at all. */
  lemma WordCommandRoundTrip(sentence: int, word: int, text: string)
    ensures ParseWrite(PrintWordCommand(sentence, word, text))
            == if text == "" || text[0] == '\n' then FullWrite(PrintWordCommand(sentence, word, text))
               else WordCommand(sentence, word, text[..SpanNot(text, '\n')])
  {
    FieldRoundTrip(sentence, PrintInt(word) + ("|" + text));
    FieldRoundTrip(word, text);
  }

  /** Number, bar, number, bar, a non-empty line, and whatever follows its end. */
  predicate WordCommandShape(data: string, num1: string, sentence: int, num2: string, word: int, text: string,
                             rest: string) {
    && data == num1 + ("|" + (num2 + ("|" + (text + rest))))
    && ScanInt(num1) == Some((sentence, "")) && ScanInt(num2) == Some((word, ""))
    && text != "" && (forall i :: 0 <= i < |text| ==> text[i] != '\n') && (rest != "" ==> rest[0] == '\n')
  }

  lemma NumberBefore(num: string, n: int, rest: string)
    requires ScanInt(num) == Some((n, "")) && (rest != "" ==> !IsDigit(rest[0]))
    ensures ScanInt(num + rest) == Some((n, rest))
  {
    var blanks, sign, digits, none := ScannedNumeral(num);
    ScanNumeral(blanks, sign, digits, rest);
    assert digits + none == digits;
    assert num + rest == blanks + (sign + (digits + rest));
  }

  lemma FieldBefore(num: string, n: int, rest: string)
    requires ScanInt(num) == Some((n, ""))
    ensures ScanField(num + ("|" + rest)) == Some((n, rest))
  {
    NumberBefore(num, n, "|" + rest);
    assert ("|" + rest)[1..] == rest;
  }

  lemma WordCommandRead(data: string, num1: string, sentence: int, num2: string, word: int, text: string, rest: string)
    requires WordCommandShape(data, num1, sentence, num2, word, text, rest)
    ensures ParseWrite(data) == WordCommand(sentence, word, text)
  {
    FieldBefore(num1, sentence, num2 + ("|" + (text + rest)));
    FieldBefore(num2, word, text + rest);
    SpanNotOf(text, '\n', rest);
    assert (text + rest)[..|text|] == text;
  }

  lemma SplitField(s: string) returns (num: string)
    requires ScanField(s).Some?
    ensures ScanInt(num) == Some((ScanField(s).value.0, "")) && s == num + ("|" + ScanField(s).value.1)
  {
    var blanks, sign, digits, rest := ScannedNumeral(s);
    num := blanks + (sign + digits);
    ScanNumeral(blanks, sign, digits, "");
    assert digits + "" == digits;
    assert s == num + rest && rest == "|" + rest[1..];
  }

  lemma LineFound(s: string) returns (text: string, rest: string)
    requires ScanNot(s, '\n', |s|).Some?
    ensures s == text + rest && ScanNot(s, '\n', |s|) == Some((text, rest))
    ensures text != "" && (forall i :: 0 <= i < |text| ==> text[i] != '\n') && (rest != "" ==> rest[0] == '\n')
  {
    text, rest := s[..SpanNot(s, '\n')], s[SpanNot(s, '\n')..];
  }

  lemma WordCommandFound(data: string) returns (num1: string, num2: string, rest: string)
    requires ParseWrite(data).WordCommand?
    ensures var c := ParseWrite(data); WordCommandShape(data, num1, c.sentence, num2, c.word, c.text, rest)
  {
    num1 := SplitField(data);
    var tail := ScanField(data).value.1;
    num2 := SplitField(tail);
    var text;
    text, rest := LineFound(ScanField(tail).value.1);
  }

  /** Exactly the data of that shape is taken for a word edit; all other data is stored as it is. */
  lemma WordCommandExactly(data: string, sentence: int, word: int, text: string)
    ensures ParseWrite(data) == WordCommand(sentence, word, text)
            <==> exists num1, num2, rest :: WordCommandShape(data, num1, sentence, num2, word, text, rest)
    ensures ParseWrite(data).FullWrite? ==> ParseWrite(data) == FullWrite(data)
  {
    if num1, num2, rest :| WordCommandShape(data, num1, sentence, num2, word, text, rest) {
      WordCommandRead(data, num1, sentence, num2, word, text, rest);
    }
    if ParseWrite(data) == WordCommand(sentence, word, text) {
      var num1, num2, rest := WordCommandFound(data);
    }
  }
}
