/** The page tokens of the scan loops: an offset in decimal, as `strconv` writes
    and reads a 64-bit integer. */
module OffsetToken {
  import opened Wrappers

  const INT64_LIMIT: int := 0x8000_0000_0000_0000

  function Digit(d: nat): char
    requires d < 10
  {
    '0' + d as char
  }

  predicate IsDigit(c: char) {
    '0' <= c <= '9'
  }

  /** `strconv.FormatInt(n, 10)` of a non-negative number. */
  function FormatInt(n: nat): (text: string)
    ensures text != [] && IsDigit(text[0])
  {
    if n < 10 then [Digit(n)] else FormatInt(n / 10) + [Digit(n % 10)]
  }

  /** The number a digit string denotes; None if it is not a digit string. */
  function ParseDigits(text: string): Option<nat> {
    if text == [] then None
    else if !IsDigit(text[|text| - 1]) then None
    else
      var d := text[|text| - 1] as nat - '0' as nat;
      if |text| == 1 then Some(d)
      else
        var front := ParseDigits(text[..|text| - 1]);
        if front.None? then None else Some(10 * front.value + d)
  }

  /** `strconv.ParseInt(text, 10, 64)`: an optional sign, digits, and a value
      that fits. */
  function ParseInt(text: string): Option<int> {
    if text == [] then None
    else
      var negative := text[0] == '-';
      var digits := ParseDigits(if negative || text[0] == '+' then text[1..] else text);
      if digits.None? then None
      else
        var value: int := if negative then -(digits.value as int) else digits.value;
        if -INT64_LIMIT <= value < INT64_LIMIT then Some(value) else None
  }

  lemma {:induction false} DigitsRoundTrip(n: nat)
    ensures ParseDigits(FormatInt(n)) == Some(n)
  {
    if n >= 10 {
      DigitsRoundTrip(n / 10);
      var text := FormatInt(n);
      assert text[..|text| - 1] == FormatInt(n / 10);
    }
  }

  /** A formatted offset reads back as itself exactly when it fits 64 bits. */
  lemma OffsetRoundTrip(n: nat)
    ensures n < INT64_LIMIT <==> ParseInt(FormatInt(n)) == Some(n)
  {
    DigitsRoundTrip(n);
  }

  function Zeros(n: nat): string {
    seq(n, _ => '0')
  }

  lemma {:induction false} ZerosParse(zeros: nat)
    requires zeros > 0
    ensures ParseDigits(Zeros(zeros)) == Some(0)
  {
    if zeros > 1 {
      ZerosParse(zeros - 1);
      assert Zeros(zeros)[..zeros - 1] == Zeros(zeros - 1);
    }
  }

  lemma {:induction false} PaddedParse(zeros: nat, n: nat)
    ensures ParseDigits(Zeros(zeros) + FormatInt(n)) == Some(n)
  {
    var text := Zeros(zeros) + FormatInt(n);
    if n < 10 {
      assert text[..|text| - 1] == Zeros(zeros);
      if zeros > 0 {
        ZerosParse(zeros);
      }
    } else {
      PaddedParse(zeros, n / 10);
      assert text[..|text| - 1] == Zeros(zeros) + FormatInt(n / 10);
    }
  }

  lemma PaddedInt(zeros: nat, n: nat)
    ensures Zeros(zeros) + FormatInt(n) != ""
    ensures ParseInt(Zeros(zeros) + FormatInt(n)) == if n < INT64_LIMIT then Some(n) else None
  {
    PaddedParse(zeros, n);
    assert IsDigit((Zeros(zeros) + FormatInt(n))[0]);
  }

  /** `text` is the number in decimal, possibly after zeros and a sign. */
  ghost predicate IsDecimal(text: string, sign: string, zeros: nat, n: int) {
    && text == sign + (Zeros(zeros) + FormatInt(if n < 0 then -n else n))
    && if sign == "-" then n <= 0 else (sign == "" || sign == "+") && n >= 0
  }

  lemma ParsedIsDecimal(text: string) returns (sign: string, zeros: nat)
    requires ParseInt(text).Some?
    ensures IsDecimal(text, sign, zeros, ParseInt(text).value)
  {
    sign := if text[0] == '-' || text[0] == '+' then [text[0]] else "";
    var digits := text[|sign|..];
    zeros := ParsesPadded(digits, ParseDigits(digits).value);
    assert text == sign + digits;
  }

  /** What parses as a number is that number in decimal, possibly after zeros. */
  lemma {:induction false} ParsesPadded(text: string, n: nat) returns (zeros: nat)
    requires ParseDigits(text) == Some(n)
    ensures text == Zeros(zeros) + FormatInt(n)
    decreases |text|
  {
    var front, last := text[..|text| - 1], text[|text| - 1];
    assert text == front + [last];
    assert last == Digit(last as nat - '0' as nat);
    if front == [] {
      return 0;
    }
    var m := ParseDigits(front).value;
    zeros := ParsesPadded(front, m);
    if m == 0 {
      assert front == Zeros(zeros + 1);
      zeros := zeros + 1;
    } else {
      assert n / 10 == m && n % 10 == last as nat - '0' as nat;
    }
  }

  /** Digit strings mean what they say. */
  lemma DigitsMeaning(text: string, n: nat)
    ensures ParseDigits(text) == Some(n) <==> exists zeros :: text == Zeros(zeros) + FormatInt(n)
  {
    if ParseDigits(text) == Some(n) {
      var zeros := ParsesPadded(text, n);
    }
    if zeros :| text == Zeros(zeros) + FormatInt(n) {
      PaddedParse(zeros, n);
    }
  }

  /** Decimal digits, most significant first. */
  lemma DecimalExample()
    ensures FormatInt(0) == "0" && FormatInt(9081726354) == "9081726354"
  {
    assert FormatInt(90) == "90";
    assert FormatInt(908) == "908";
    assert FormatInt(9081) == "9081";
    assert FormatInt(90817) == "90817";
    assert FormatInt(908172) == "908172";
    assert FormatInt(9081726) == "9081726";
    assert FormatInt(90817263) == "90817263";
    assert FormatInt(908172635) == "908172635";
  }
}
