/** Model of the parser of the string calculator: an input is split on ',' into
    at most two tokens, and each token is validated and converted to a number.
    The thrown error becomes a Result, and JavaScript's Number on an accepted
    token becomes an integer (or NaN for the lone "-"). */
module ParseUtil {

  /** The one error the parser raises: more tokens than it accepts. */
  datatype ParseError = TooManyNumbers

  datatype Result<T> = Ok(value: T) | Err(error: ParseError)

  /** What JavaScript's Number yields for a token that convertToNum accepted:
      an integer, or NaN for the token "-" that has a sign but no digits. */
  datatype Number = Int(value: int) | NaN

  /** The only separator the tokenizer knows. */
  const Comma: char := ','

  /** The largest number of tokens the tokenizer lets through. */
  const MaxTokens: nat := 2

  // ---------------------------------------------------------------------------
  // Splitting on one character, as String.prototype.split does with a
  // one-character separator: every occurrence is a boundary, empty pieces stay.
  // ---------------------------------------------------------------------------

  function Split(s: string, sep: char): (r: seq<string>)
    ensures |r| >= 1
  {
    if s == [] then [[]]
    else
      var rest := Split(s[1..], sep);
      if s[0] == sep then [[]] + rest
      else [[s[0]] + rest[0]] + rest[1..]
  }

  /** The inverse of Split: the pieces glued back together with the separator. */
  function Join(pieces: seq<string>, sep: char): string
    requires |pieces| >= 1
  {
    if |pieces| == 1 then pieces[0] else pieces[0] + [sep] + Join(pieces[1..], sep)
  }

  /** No piece contains the separator. */
  predicate SeparatorFree(pieces: seq<string>, sep: char) {
    forall i :: 0 <= i < |pieces| ==> sep !in pieces[i]
  }

  /** Gluing the pieces back together gives the original string. */
  lemma {:induction false} SplitThenJoin(s: string, sep: char)
    ensures Join(Split(s, sep), sep) == s
  {
    if s != [] {
      var rest := Split(s[1..], sep);
      SplitThenJoin(s[1..], sep);
      if s[0] == sep {
        assert ([[]] + rest)[1..] == rest;
      } else if |rest| > 1 {
        assert Join(rest, sep) == rest[0] + [sep] + Join(rest[1..], sep);
        assert ([[s[0]] + rest[0]] + rest[1..])[1..] == rest[1..];
      }
    }
  }

  /** There is one piece more than there are separators in the string. */
  lemma {:induction false} SplitCount(s: string, sep: char)
    ensures |Split(s, sep)| == multiset(s)[sep] + 1
  {
    if s != [] {
      SplitCount(s[1..], sep);
      assert s == [s[0]] + s[1..];
      assert multiset(s) == multiset([s[0]]) + multiset(s[1..]);
    }
  }

  /** No piece contains the separator. */
  lemma {:induction false} SplitSeparatorFree(s: string, sep: char)
    ensures SeparatorFree(Split(s, sep), sep)
  {
    if s != [] {
      var rest := Split(s[1..], sep);
      SplitSeparatorFree(s[1..], sep);
      if s[0] != sep {
        var r := [[s[0]] + rest[0]] + rest[1..];
        forall i | 0 <= i < |r| ensures sep !in r[i] {
          if i > 0 { assert r[i] == rest[i]; }
        }
      }
    }
  }

  /** Splitting a separator-free prefix followed by anything glues the prefix
      onto the first piece of the rest. */
  lemma {:induction false} SplitPrefix(t: string, tail: string, sep: char)
    requires sep !in t
    ensures Split(t + tail, sep) == [t + Split(tail, sep)[0]] + Split(tail, sep)[1..]
  {
    if t != [] {
      assert (t + tail)[1..] == t[1..] + tail;
      SplitPrefix(t[1..], tail, sep);
      assert [t[0]] + (t[1..] + Split(tail, sep)[0]) == t + Split(tail, sep)[0];
    } else {
      var r := Split(tail, sep);
      assert t + tail == tail && t + r[0] == r[0];
      assert r == [r[0]] + r[1..];
    }
  }

  /** Splitting the join of separator-free pieces gives the pieces back: the
      pieces of a string are the only separator-free ones that join to it. */
  lemma {:induction false} JoinThenSplit(pieces: seq<string>, sep: char)
    requires |pieces| >= 1 && SeparatorFree(pieces, sep)
    ensures Split(Join(pieces, sep), sep) == pieces
  {
    assert sep !in pieces[0];
    if |pieces| == 1 {
      SplitPrefix(pieces[0], [], sep);
      assert pieces[0] + [] == pieces[0];
    } else {
      var tail := [sep] + Join(pieces[1..], sep);
      assert Join(pieces, sep) == pieces[0] + tail;
      SplitPrefix(pieces[0], tail, sep);
      JoinThenSplit(pieces[1..], sep);
      assert Split(tail, sep) == [[]] + pieces[1..];
      assert pieces[0] + [] == pieces[0];
    }
  }

  // ---------------------------------------------------------------------------
  // parseIntoTokens
  // ---------------------------------------------------------------------------

  /** Splits the input on ',' keeping empty tokens, and fails when that gives
      more than two tokens, i.e. exactly when the input has two or more commas. */
  function ParseIntoTokens(input: string): (r: Result<seq<string>>)
    ensures r.Ok? <==> multiset(input)[Comma] + 1 <= MaxTokens
    ensures r.Err? ==> r.error == TooManyNumbers
    ensures r.Ok? ==> |r.value| == multiset(input)[Comma] + 1
    ensures r.Ok? ==> |r.value| >= 1 && Join(r.value, Comma) == input && SeparatorFree(r.value, Comma)
  {
    var tokens := Split(input, Comma);
    SplitCount(input, Comma);
    SplitThenJoin(input, Comma);
    SplitSeparatorFree(input, Comma);
    if |tokens| > MaxTokens then Err(TooManyNumbers) else Ok(tokens)
  }

  /** A comma-free input is one token. */
  lemma TokensOfOne(a: string)
    requires Comma !in a
    ensures ParseIntoTokens(a) == Ok([a])
  {
    JoinThenSplit([a], Comma);
  }

  /** An input with one comma is the two tokens either side of it. */
  lemma TokensOfTwo(a: string, b: string)
    requires Comma !in a && Comma !in b
    ensures ParseIntoTokens(a + [Comma] + b) == Ok([a, b])
  {
    JoinThenSplit([a, b], Comma);
    assert Join([a, b], Comma) == a + [Comma] + b;
    SplitCount(a + [Comma] + b, Comma);
  }

  /** The tokenizer's test cases without a comma, with the results the code gives. */
  lemma ParseIntoTokensOneTokenExamples()
    ensures ParseIntoTokens("20") == Ok(["20"])
    ensures ParseIntoTokens("") == Ok([""])
  {
    TokensOfOne("20");
    TokensOfOne("");
  }

  /** The tokenizer's test case of two numbers. */
  lemma ParseIntoTokensNumbersExample()
    ensures ParseIntoTokens("1,5000") == Ok(["1", "5000"])
  {
    assert "1,5000" == "1" + [Comma] + "5000";
    TokensOfTwo("1", "5000");
  }

  /** The tokenizer's test case of a number and a word. */
  lemma ParseIntoTokensWordExample()
    ensures ParseIntoTokens("1,tytyt") == Ok(["1", "tytyt"])
  {
    assert "1,tytyt" == "1" + [Comma] + "tytyt";
    TokensOfTwo("1", "tytyt");
  }

  /** The tokenizer's test cases where a comma leaves an empty token behind. */
  lemma ParseIntoTokensEmptyTokenExamples()
    ensures ParseIntoTokens(",") == Ok(["", ""])
    ensures ParseIntoTokens("1,") == Ok(["1", ""])
  {
    assert ParseIntoTokens(",") == Ok(["", ""]) by {
      assert "," == "" + [Comma] + "";
      TokensOfTwo("", "");
    }
    assert ParseIntoTokens("1,") == Ok(["1", ""]) by {
      assert "1," == "1" + [Comma] + "";
      TokensOfTwo("1", "");
    }
  }

  // ---------------------------------------------------------------------------
  // isDigit
  // ---------------------------------------------------------------------------

  /** isDigit: the range test on the character, which accepts exactly the ten
      ASCII decimal digits. */
  predicate IsDigit(c: char)
    ensures IsDigit(c) <==> c in "0123456789"
  {
    '0' <= c <= '9'
  }

  // ---------------------------------------------------------------------------
  // Decimal values of digit strings: the part of JavaScript's Number that an
  // accepted token exercises.
  // ---------------------------------------------------------------------------

  predicate AllDigits(s: string) {
    forall i :: 0 <= i < |s| ==> IsDigit(s[i])
  }

  function DigitValue(c: char): nat
    requires IsDigit(c)
  {
    c as int - '0' as int
  }

  /** The base-10 value of a digit string, read from left to right. */
  function DecimalValue(s: string): nat
    requires AllDigits(s)
  {
    if s == [] then 0 else DecimalValue(s[..|s| - 1]) * 10 + DigitValue(s[|s| - 1])
  }

  function DigitChar(d: nat): char
    requires d < 10
  {
    ('0' as int + d) as char
  }

  /** The shortest decimal rendering of a natural number, as String gives it. */
  function NatToDecimal(n: nat): (s: string)
    ensures |s| >= 1 && AllDigits(s)
  {
    (if n < 10 then [] else NatToDecimal(n / 10)) + [DigitChar(n % 10)]
  }

  /** The decimal rendering of an integer, with '-' in front when negative. */
  function IntToDecimal(n: int): string {
    if n < 0 then "-" + NatToDecimal(-n) else NatToDecimal(n)
  }

  lemma DigitCharValue(d: nat)
    requires d < 10
    ensures IsDigit(DigitChar(d)) && DigitValue(DigitChar(d)) == d
  {
  }

  /** Reading back the rendering of a natural number gives the number. */
  lemma {:induction false} DecimalValueOfNatToDecimal(n: nat)
    ensures DecimalValue(NatToDecimal(n)) == n
  {
    var s := NatToDecimal(n);
    var front := if n < 10 then [] else NatToDecimal(n / 10);
    var last := DigitChar(n % 10);
    assert s == front + [last];
    assert s[..|s| - 1] == front && s[|s| - 1] == last;
    DigitCharValue(n % 10);
    var high := n / 10;
    if n >= 10 {
      DecimalValueOfNatToDecimal(high);
    }
    assert DecimalValue(front) == high;
    assert DecimalValue(s) == high * 10 + n % 10;
  }

  /** Leading zeros do not change the value. */
  lemma {:induction false} LeadingZero(s: string)
    requires AllDigits(s)
    ensures AllDigits("0" + s) && DecimalValue("0" + s) == DecimalValue(s)
  {
    if s != [] {
      var z := "0" + s;
      assert z[..|z| - 1] == "0" + s[..|s| - 1];
      LeadingZero(s[..|s| - 1]);
    }
  }

  // ---------------------------------------------------------------------------
  // convertToNum
  // ---------------------------------------------------------------------------

  /** The tokens convertToNum hands to Number: non-empty, a '-' or a digit
      first, and only digits after that. */
  predicate Accepted(token: string) {
    |token| >= 1 && (token[0] == '-' || IsDigit(token[0])) && AllDigits(token[1..])
  }

  /** JavaScript's Number on an accepted token: NaN for the sign alone, a
      non-negative value for plain digits, a non-positive one after a '-'. */
  function ToNumber(token: string): (r: Number)
    requires Accepted(token)
    ensures r == NaN <==> token == "-"
    ensures r.Int? && token[0] != '-' ==> r.value >= 0
    ensures r.Int? && token[0] == '-' ==> r.value <= 0
  {
    if token[0] == '-' then
      (if |token| == 1 then NaN else Int(-(DecimalValue(token[1..]) as int)))
    else
      Int(DecimalValue(token))
  }

  /** What convertToNum returns: 0 for a token it rejects, Number's value
      otherwise. Only the lone "-" gives NaN, and a negative value needs a
      leading '-' followed by at least one digit. */
  function Convert(token: string): (r: Number)
    ensures r == NaN <==> token == "-"
    ensures r.Int? && r.value < 0 ==> |token| >= 2 && token[0] == '-'
  {
    if Accepted(token) then ToNumber(token) else Int(0)
  }

  /** The validator-converter: rejects the empty token and a token whose first
      character is neither '-' nor a digit, scans the remaining characters and
      rejects on the first non-digit, and otherwise takes Number's value. */
  method ConvertToNum(token: string) returns (r: Number)
    ensures r == Convert(token)
  {
    if token == [] {
      return Int(0);
    }
    if token[0] != '-' && !IsDigit(token[0]) {
      return Int(0);
    }
    for i := 1 to |token|
      invariant forall j :: 1 <= j < i ==> IsDigit(token[j])
    {
      if !IsDigit(token[i]) {
        return Int(0);
      }
    }
    assert AllDigits(token[1..]) by {
      forall k | 0 <= k < |token| - 1 ensures IsDigit(token[1..][k]) {
        assert token[1..][k] == token[k + 1];
      }
    }
    return ToNumber(token);
  }

  /** Every rejected token converts to 0: the empty one, one that starts with
      neither '-' nor a digit, and one with a non-digit after position 0. */
  lemma ConvertRejects(token: string)
    ensures token == [] ==> Convert(token) == Int(0)
    ensures |token| >= 1 && token[0] != '-' && !IsDigit(token[0]) ==> Convert(token) == Int(0)
    ensures (exists i :: 1 <= i < |token| && !IsDigit(token[i])) ==> Convert(token) == Int(0)
  {
  }

  /** A token d+ converts to its base-10 value and -d+ to the negated value. */
  lemma ConvertSigned(digits: string)
    requires |digits| >= 1 && AllDigits(digits)
    ensures Convert(digits) == Int(DecimalValue(digits))
    ensures Convert("-" + digits) == Int(-(DecimalValue(digits) as int))
  {
    assert AllDigits(digits[1..]) by {
      forall k | 0 <= k < |digits| - 1 ensures IsDigit(digits[1..][k]) {
        assert digits[1..][k] == digits[k + 1];
      }
    }
    assert ("-" + digits)[1..] == digits;
  }

  /** Converting the decimal rendering of any integer gives that integer back. */
  lemma ConvertDecimalRoundTrip(n: int)
    ensures Convert(IntToDecimal(n)) == Int(n)
  {
    if n < 0 {
      DecimalValueOfNatToDecimal(-n);
      ConvertSigned(NatToDecimal(-n));
    } else {
      DecimalValueOfNatToDecimal(n);
      ConvertSigned(NatToDecimal(n));
    }
  }

  /** The converter's test cases of well-formed integers. */
  lemma ConvertIntegerExamples()
    ensures Convert("20") == Int(20)
    ensures Convert("5000") == Int(5000)
    ensures Convert("-3") == Int(-3)
  {
    assert "20"[..1] == "2";
    ConvertSigned("20");
    assert "5000"[..3] == "500" && "500"[..2] == "50" && "50"[..1] == "5";
    ConvertSigned("5000");
    assert "-3" == "-" + "3";
    ConvertSigned("3");
  }

  /** The converter's test cases of malformed tokens, all of which give 0. */
  lemma ConvertMalformedExamples()
    ensures Convert("tytyt") == Int(0)
    ensures Convert("1e5") == Int(0)
    ensures Convert("3.14") == Int(0)
    ensures Convert("0xFF") == Int(0)
    ensures Convert("123abc") == Int(0)
    ensures Convert("abc123") == Int(0)
  {
    assert !IsDigit("1e5"[1]);
    assert !IsDigit("3.14"[1]);
    assert !IsDigit("0xFF"[1]);
    assert !IsDigit("123abc"[3]);
  }

  // ---------------------------------------------------------------------------
  // parseStringToNums
  // ---------------------------------------------------------------------------

  /** Tokenizes the input and converts every token; a tokenizer error is
      passed on and no numbers are returned with it. */
  function ParseStringToNums(input: string): (r: Result<seq<Number>>)
    ensures r.Err? <==> ParseIntoTokens(input).Err?
    ensures r.Err? ==> r.error == TooManyNumbers
    ensures r.Ok? ==> |r.value| == |ParseIntoTokens(input).value|
    ensures r.Ok? ==> forall i :: 0 <= i < |r.value| ==> r.value[i] == Convert(ParseIntoTokens(input).value[i])
  {
    match ParseIntoTokens(input)
    case Err(e) => Err(e)
    case Ok(tokens) => Ok(seq(|tokens|, i requires 0 <= i < |tokens| => Convert(tokens[i])))
  }

  /** The whole parser on an input without a comma: one number, that of the input. */
  lemma ParseOneNumber(a: string)
    requires Comma !in a
    ensures ParseStringToNums(a) == Ok([Convert(a)])
  {
    TokensOfOne(a);
    assert ParseStringToNums(a).value == [Convert(a)];
  }

  /** The whole parser on an input with exactly one comma: the numbers of the
      text before it and of the text after it, in that order. */
  lemma ParseTwoNumbers(a: string, b: string)
    requires Comma !in a && Comma !in b
    ensures ParseStringToNums(a + [Comma] + b) == Ok([Convert(a), Convert(b)])
  {
    TokensOfTwo(a, b);
    assert ParseStringToNums(a + [Comma] + b).value == [Convert(a), Convert(b)];
  }

  /** The whole parser fails exactly on inputs with two or more commas. */
  lemma ParseFailsOnTwoCommas(input: string)
    ensures ParseStringToNums(input).Err? <==> multiset(input)[Comma] >= 2
  {
  }

  /** Two commas anywhere are enough to reject the input, whatever surrounds them. */
  lemma ParseThreeOrMoreRejected(a: string, b: string, c: string)
    ensures ParseStringToNums(a + [Comma] + b + [Comma] + c) == Err(TooManyNumbers)
  {
    var s := a + [Comma] + b + [Comma] + c;
    assert multiset(s) == multiset(a) + multiset([Comma]) + multiset(b) + multiset([Comma]) + multiset(c);
  }

  /** The parser's own test expects "1,2,3,4,5" to give five numbers; the code
      rejects it, because it has more than two tokens. */
  lemma ParseFiveNumbersRejected()
    ensures ParseStringToNums("1,2,3,4,5") == Err(TooManyNumbers)
  {
    assert "1,2,3,4,5" == "1" + [Comma] + "2" + [Comma] + "3,4,5";
    ParseThreeOrMoreRejected("1", "2", "3,4,5");
  }
}
