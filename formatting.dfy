/** `format_value` (app.py:43-52): "N/A" for a missing value, otherwise the number rounded
    to a whole number with thousands separated by commas, after a "$" for currency metrics. */
module Formatting {
  import opened Panel
  import opened Seqs

  predicate IsDigit(ch: char) {
    '0' <= ch <= '9'
  }

  predicate AllDigits(s: string) {
    forall i :: 0 <= i < |s| ==> IsDigit(s[i])
  }

  function DigitChar(d: nat): (ch: char)
    requires d < 10
    ensures IsDigit(ch)
  {
    ('0' as int + d) as char
  }

  function DigitValue(ch: char): int {
    ch as int - '0' as int
  }

  /** The decimal digits of `n`, without leading zeros. */
  function Digits(n: nat): (s: string)
    ensures |s| > 0 && AllDigits(s)
    ensures s[0] == '0' <==> n == 0
  {
    if n < 10 then [DigitChar(n)] else Digits(n / 10) + [DigitChar(n % 10)]
  }

  /** The three digits of a group after a comma, with leading zeros. */
  function ThreeDigits(k: nat): (s: string)
    requires k < 1000
    ensures |s| == 3 && AllDigits(s)
  {
    [DigitChar(k / 100), DigitChar(k / 10 % 10), DigitChar(k % 10)]
  }

  /** `n` in decimal with a comma before every group of three digits from the right. */
  function GroupThousands(n: nat): (s: string)
    ensures |s| > 0 && IsDigit(s[0])
  {
    if n < 1000 then Digits(n) else GroupThousands(n / 1000) + "," + ThreeDigits(n % 1000)
  }

  /** What `:,.0f` prints once the magnitude is rounded: a minus sign when the value was
      negative, then the grouped digits of the magnitude. */
  function WithCommas(negative: bool, magnitude: nat): (s: string)
    ensures |s| > 0 && (s[0] == '-' <==> negative) && (s[0] == '-' || IsDigit(s[0]))
  {
    if negative then "-" + GroupThousands(magnitude) else GroupThousands(magnitude)
  }

  function Abs(x: real): real {
    if x < 0.0 then -x else x
  }

  /** `format_value(x, metric)`: "N/A" for a missing value; otherwise what `:,.0f` prints --
      the sign of `x`, kept even when the magnitude rounds to 0 (so -0.3 prints "-0"), then
      the magnitude rounded half to even, with comma groups -- after a "$" for currency
      metrics. */
  function FormatValue(x: Option<real>, m: Metric): (s: string)
    ensures s == "N/A" <==> x.None?
    ensures |s| > 0 && (s[0] == '$' <==> x.Some? && IsCurrency(m))
    ensures x.Some? ==>
              var number := if IsCurrency(m) then s[1..] else s;
              |number| > 0 && (number[0] == '-' <==> x.value < 0.0)
  {
    match x
    case None => "N/A"
    case Some(v) =>
      var number := WithCommas(v < 0.0, RoundHalfEven(Abs(v)));
      var s := if IsCurrency(m) then "$" + number else number;
      assert s[0] != "N/A"[0];
      s
  }

  /** `:,.0f` rounds to the nearest whole number, a tie to the even neighbour; exactly the
      values from -0.5 to 0.5 round to 0. */
  function RoundHalfEven(x: real): (n: int)
    ensures -0.5 <= x - n as real <= 0.5
    ensures (x - n as real == 0.5 || x - n as real == -0.5) ==> n % 2 == 0
    ensures n == 0 <==> -0.5 <= x <= 0.5
    ensures x >= 0.0 ==> n >= 0
  {
    var f := x.Floor;
    var frac := x - f as real;
    if frac < 0.5 then f
    else if frac > 0.5 then f + 1
    else if f % 2 == 0 then f
    else f + 1
  }

  /** A negative value that rounds to zero keeps its sign. */
  lemma NegativeRoundsToMinusZero()
    ensures FormatValue(Some(-0.3), Employment) == "-0"
    ensures FormatValue(Some(-0.5), Wages) == "$-0"
  {
    assert RoundHalfEven(0.3) == 0 && RoundHalfEven(0.5) == 0;
  }

  // ----- reading a formatted number back -----

  function NotSeparator(ch: char): bool {
    ch != '$' && ch != ','
  }

  /** The formatted text with every "$" and "," removed. */
  function Unformat(s: string): string {
    Filter(s, NotSeparator)
  }

  /** The value of a string of decimal digits. */
  function DecimalValue(s: string): int {
    if |s| == 0 then 0 else 10 * DecimalValue(s[..|s| - 1]) + DigitValue(s[|s| - 1])
  }

  /** An optional minus sign followed by decimal digits. */
  function ParseInteger(s: string): int {
    if |s| > 0 && s[0] == '-' then -DecimalValue(s[1..]) else DecimalValue(s)
  }

  function Pow10(k: nat): nat {
    if k == 0 then 1 else 10 * Pow10(k - 1)
  }

  lemma {:induction false} DecimalValueConcat(a: string, b: string)
    ensures DecimalValue(a + b) == DecimalValue(a) * Pow10(|b|) + DecimalValue(b)
  {
    if |b| == 0 {
      assert a + b == a;
    } else {
      var init := b[..|b| - 1];
      var last := DigitValue(b[|b| - 1]);
      var ab := a + b;
      assert ab[..|ab| - 1] == a + init;
      assert ab[|ab| - 1] == b[|b| - 1];
      DecimalValueConcat(a, init);
      var va, p := DecimalValue(a), Pow10(|init|);
      assert DecimalValue(ab) == 10 * (va * p + DecimalValue(init)) + last;
      assert DecimalValue(b) == 10 * DecimalValue(init) + last;
      assert Pow10(|b|) == 10 * p;
      assert 10 * (va * p) == va * (10 * p);
    }
  }

  lemma {:induction false} DigitsValue(n: nat)
    ensures DecimalValue(Digits(n)) == n
  {
    if n >= 10 {
      DigitsValue(n / 10);
      var s := Digits(n / 10) + [DigitChar(n % 10)];
      assert s[..|s| - 1] == Digits(n / 10);
    }
  }

  lemma ThreeDigitsValue(k: nat)
    requires k < 1000
    ensures DecimalValue(ThreeDigits(k)) == k
  {
    var s := ThreeDigits(k);
    assert s[..2][..1] == [s[0]];
    assert s[..2] == [s[0], s[1]];
    assert DecimalValue([s[0]]) == k / 100;
    assert DecimalValue(s[..2]) == 10 * (k / 100) + k / 10 % 10;
    assert k / 10 == 10 * (k / 100) + k / 10 % 10;
  }

  lemma UnformatKeepsDigits(s: string)
    requires AllDigits(s)
    ensures Unformat(s) == s
  {
    FilterKeepsAll(s, NotSeparator);
  }

  /** Unformatting drops a leading "$" or "," and keeps any other leading character. */
  lemma UnformatFirst(ch: char, s: string)
    ensures Unformat([ch] + s) == if NotSeparator(ch) then [ch] + Unformat(s) else Unformat(s)
  {
    assert ([ch] + s)[1..] == s;
  }

  lemma UnformatGroup(head: string, tail: string)
    requires AllDigits(tail)
    ensures Unformat(head + "," + tail) == Unformat(head) + tail
  {
    FilterConcat(head, "," + tail, NotSeparator);
    assert head + "," + tail == head + ("," + tail);
    UnformatFirst(',', tail);
    UnformatKeepsDigits(tail);
  }

  /** With the commas removed, the grouped digits are digits again, with value `n`. */
  lemma {:induction false} UngroupedValue(n: nat)
    ensures AllDigits(Unformat(GroupThousands(n)))
    ensures |Unformat(GroupThousands(n))| > 0
    ensures DecimalValue(Unformat(GroupThousands(n))) == n
  {
    if n < 1000 {
      UnformatKeepsDigits(Digits(n));
      DigitsValue(n);
    } else {
      var head := GroupThousands(n / 1000);
      var tail := ThreeDigits(n % 1000);
      UngroupedValue(n / 1000);
      UnformatGroup(head, tail);
      var u := Unformat(head) + tail;
      assert Unformat(GroupThousands(n)) == u;
      assert AllDigits(u) by {
        assert forall i :: 0 <= i < |u| ==> IsDigit(u[i]) by {
          forall i | 0 <= i < |u| ensures IsDigit(u[i]) {
            if i < |Unformat(head)| {
              assert u[i] == Unformat(head)[i];
            } else {
              assert u[i] == tail[i - |Unformat(head)|];
            }
          }
        }
      }
      DecimalValueConcat(Unformat(head), tail);
      ThreeDigitsValue(n % 1000);
      assert Pow10(3) == 1000;
    }
  }

  /** `text`, without its "$" and commas, reads as a whole number within one half of `v`. */
  predicate ReadsBack(text: string, v: real) {
    -0.5 <= v - ParseInteger(Unformat(text)) as real <= 0.5
  }

  /** Removing "$" and the commas from a formatted value gives the signed rounded value. */
  lemma UnformattedValue(x: real, m: Metric)
    ensures ParseInteger(Unformat(FormatValue(Some(x), m)))
         == if x < 0.0 then -RoundHalfEven(-x) else RoundHalfEven(x)
  {
    var magnitude := RoundHalfEven(Abs(x));
    UngroupedValue(magnitude);
    var digits := Unformat(GroupThousands(magnitude));
    var signed := WithCommas(x < 0.0, magnitude);
    if x < 0.0 {
      UnformatFirst('-', GroupThousands(magnitude));
      assert signed == ['-'] + GroupThousands(magnitude);
      assert Unformat(signed) == ['-'] + digits;
      assert (['-'] + digits)[1..] == digits;
    } else {
      assert Unformat(signed) == digits;
      assert IsDigit(digits[0]);
    }
    if IsCurrency(m) {
      UnformatFirst('$', signed);
      assert FormatValue(Some(x), m) == ['$'] + signed;
    }
  }

  /** Reading a formatted value back gives it to within one half, and exactly when it is a
      whole number. */
  lemma FormatRoundTrip(x: real, m: Metric)
    ensures ReadsBack(FormatValue(Some(x), m), x)
    ensures x == x.Floor as real ==> ParseInteger(Unformat(FormatValue(Some(x), m))) == x.Floor
  {
    UnformattedValue(x, m);
    var n := ParseInteger(Unformat(FormatValue(Some(x), m)));
    assert -0.5 <= x - n as real <= 0.5;
    if x == x.Floor as real {
      assert -0.5 <= (x.Floor - n) as real <= 0.5;
    }
  }

  /** Digits in groups of three separated by commas, the leading group of one to three
      digits. */
  predicate InThousands(s: string)
    decreases |s|
  {
    if |s| <= 3 then |s| > 0 && AllDigits(s)
    else |s| >= 5 && s[|s| - 4] == ',' && AllDigits(s[|s| - 3..]) && InThousands(s[..|s| - 4])
  }

  lemma {:induction false} GroupThousandsShape(n: nat)
    ensures InThousands(GroupThousands(n))
    ensures GroupThousands(n)[0] == '0' <==> n == 0
  {
    if n >= 1000 {
      GroupThousandsShape(n / 1000);
      var s := GroupThousands(n);
      var head := GroupThousands(n / 1000);
      assert s[..|s| - 4] == head;
      assert s[|s| - 3..] == ThreeDigits(n % 1000);
      assert s[0] == head[0];
    } else {
      assert |Digits(n)| <= 3 by {
        DigitsLength(n);
      }
    }
  }

  lemma {:induction false} DigitsLength(n: nat)
    ensures n < 10 ==> |Digits(n)| == 1
    ensures n < 100 ==> |Digits(n)| <= 2
    ensures n < 1000 ==> |Digits(n)| <= 3
  {
    if n >= 10 {
      DigitsLength(n / 10);
    }
  }

  /** The shape of a formatted value: a "$" exactly for currency metrics, a "-" exactly for
      negative values, then comma-grouped digits, which start with 0 exactly when the value
      rounds to 0. */
  lemma FormatValueShape(x: real, m: Metric)
    ensures var s := FormatValue(Some(x), m);
            var number := if IsCurrency(m) then s[1..] else s;
            var digits := if x < 0.0 then number[1..] else number;
            && |digits| > 0
            && InThousands(digits)
            && (digits[0] == '0' <==> -0.5 <= x <= 0.5)
  {
    var magnitude := RoundHalfEven(Abs(x));
    GroupThousandsShape(magnitude);
    var s := FormatValue(Some(x), m);
    var number := if IsCurrency(m) then s[1..] else s;
    assert number == WithCommas(x < 0.0, magnitude);
    if x < 0.0 {
      assert number[1..] == GroupThousands(magnitude);
    }
  }
}
