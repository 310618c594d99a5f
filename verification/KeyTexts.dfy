/** The texts the tables store for months and keys: they tell the same things apart, and order months the same way, as
    the values used everywhere else. */
module KeyTexts {
  import opened Wrappers
  import opened Calendar
  import opened Entries

  // ---------- numbers ----------

  predicate IsDigit(c: char) {
    '0' <= c <= '9'
  }

  function DigitOf(c: char): nat
    requires IsDigit(c)
  {
    c as int - '0' as int
  }

  function Digit(n: nat): (c: char)
    requires n < 10
    ensures IsDigit(c) && DigitOf(c) == n
  {
    ('0' as int + n) as char
  }

  predicate AllDigits(text: string) {
    forall i :: 0 <= i < |text| ==> IsDigit(text[i])
  }

  function Digits(n: nat): (text: string)
    ensures text != "" && AllDigits(text)
  {
    if n < 10 then [Digit(n)] else Digits(n / 10) + [Digit(n % 10)]
  }

  /** Zeros in front, up to the width. */
  function Padded(text: string, width: nat): (r: string)
    requires AllDigits(text)
    ensures AllDigits(r) && |r| == if |text| < width then width else |text|
    decreases width - |text|
  {
    if |text| < width then Padded("0" + text, width) else text
  }

  function ValueOf(text: string): nat
    requires AllDigits(text)
  {
    if text == "" then 0 else 10 * ValueOf(text[..|text| - 1]) + DigitOf(text[|text| - 1])
  }

  lemma {:induction false} DigitsRead(n: nat)
    ensures ValueOf(Digits(n)) == n
  {
    if n < 10 {
      assert Digits(n)[..0] == "";
    } else {
      DigitsRead(n / 10);
      assert Digits(n)[..|Digits(n)| - 1] == Digits(n / 10);
    }
  }

  lemma {:induction false} ZeroInFront(text: string)
    requires AllDigits(text)
    ensures ValueOf("0" + text) == ValueOf(text)
  {
    if text == "" {
      assert ("0" + text)[..0] == "";
    } else {
      ZeroInFront(text[..|text| - 1]);
      assert ("0" + text)[..|text|] == "0" + text[..|text| - 1];
    }
  }

  lemma {:induction false} PaddedReads(text: string, width: nat)
    requires AllDigits(text)
    ensures ValueOf(Padded(text, width)) == ValueOf(text)
    decreases width - |text|
  {
    if |text| < width {
      ZeroInFront(text);
      PaddedReads("0" + text, width);
    }
  }

  /** The order the database and the program compare texts in. */
  predicate TextLess(a: string, b: string) {
    b != "" && (a == "" || a[0] < b[0] || (a[0] == b[0] && TextLess(a[1..], b[1..])))
  }

  function PowerOfTen(n: nat): nat {
    if n == 0 then 1 else 10 * PowerOfTen(n - 1)
  }

  lemma {:induction false} ValueBelow(text: string)
    requires AllDigits(text)
    ensures ValueOf(text) < PowerOfTen(|text|)
  {
    if text != "" {
      ValueBelow(text[..|text| - 1]);
    }
  }

  lemma Shift(d: nat, p: nat, v: nat)
    ensures 10 * (d * p + v) == d * (10 * p) + 10 * v
  {
  }

  lemma {:induction false} ValueFromFront(text: string)
    requires AllDigits(text) && text != ""
    ensures ValueOf(text) == DigitOf(text[0]) * PowerOfTen(|text| - 1) + ValueOf(text[1..])
  {
    if |text| == 1 {
      assert text[..0] == "" && text[1..] == "";
    } else {
      var init := text[..|text| - 1];
      ValueFromFront(init);
      assert init[1..] == text[1..][..|text| - 2];
      Shift(DigitOf(text[0]), PowerOfTen(|text| - 2), ValueOf(init[1..]));
    }
  }

  /** Numbers written to one width are ordered as texts the way they are as numbers. */
  lemma {:induction false} WidthOrders(a: string, b: string)
    requires AllDigits(a) && AllDigits(b) && |a| == |b|
    ensures TextLess(a, b) <==> ValueOf(a) < ValueOf(b)
    ensures ValueOf(a) == ValueOf(b) ==> a == b
  {
    if a != "" {
      WidthOrders(a[1..], b[1..]);
      ValueFromFront(a);
      ValueFromFront(b);
      var p := PowerOfTen(|a| - 1);
      ValueBelow(a[1..]);
      ValueBelow(b[1..]);
      if DigitOf(a[0]) < DigitOf(b[0]) {
        Carries(DigitOf(a[0]), DigitOf(b[0]), p);
      } else if DigitOf(b[0]) < DigitOf(a[0]) {
        Carries(DigitOf(b[0]), DigitOf(a[0]), p);
      }
      assert a == [a[0]] + a[1..] && b == [b[0]] + b[1..];
    }
  }

  lemma Carries(low: nat, high: nat, p: nat)
    requires low < high
    ensures low * p + p <= high * p
  {
    var gap := high - low - 1;
    assert high * p == low * p + p + gap * p;
    assert 0 <= gap * p;
  }

  // ---------- months ----------

  /** "YYYY-MM". */
  function MonthText(m: Month): string {
    Padded(Digits(m / 12 + 1), 4) + "-" + Padded(Digits(m % 12 + 1), 2)
  }

  const YEARS := 9999

  lemma {:induction false} DigitsFit(n: nat, width: nat)
    requires n < PowerOfTen(width) && width > 0
    ensures |Digits(n)| <= width
  {
    if n >= 10 {
      DigitsFit(n / 10, width - 1);
    }
  }

  lemma MonthTextParts(m: Month)
    requires m < 12 * YEARS
    ensures var (year, number) := (Padded(Digits(m / 12 + 1), 4), Padded(Digits(m % 12 + 1), 2));
            |year| == 4 && |number| == 2 && ValueOf(year) == m / 12 + 1 && ValueOf(number) == m % 12 + 1
  {
    assert PowerOfTen(2) == 100 && PowerOfTen(4) == 10000;
    DigitsFit(m / 12 + 1, 4);
    DigitsFit(m % 12 + 1, 2);
    DigitsRead(m / 12 + 1);
    DigitsRead(m % 12 + 1);
    PaddedReads(Digits(m / 12 + 1), 4);
    PaddedReads(Digits(m % 12 + 1), 2);
  }

  lemma {:induction false} SamePrefixOrders(prefix: string, a: string, b: string)
    ensures TextLess(prefix + a, prefix + b) <==> TextLess(a, b)
  {
    if prefix == "" {
      assert prefix + a == a && prefix + b == b;
    } else {
      SamePrefixOrders(prefix[1..], a, b);
      assert (prefix + a)[1..] == prefix[1..] + a && (prefix + b)[1..] == prefix[1..] + b;
    }
  }

  lemma {:induction false} FirstPartOrders(a: string, b: string, rest: string, rest': string)
    requires |a| == |b| && a != b
    ensures TextLess(a + rest, b + rest') <==> TextLess(a, b)
  {
    assert a == [a[0]] + a[1..] && b == [b[0]] + b[1..];
    assert (a + rest)[1..] == a[1..] + rest && (b + rest')[1..] == b[1..] + rest';
    if a[0] == b[0] {
      FirstPartOrders(a[1..], b[1..], rest, rest');
    }
  }

  /** Months compare as texts exactly as they follow each other, through the years a date can hold. */
  lemma MonthTextsOrder(m: Month, n: Month)
    requires m < 12 * YEARS && n < 12 * YEARS
    ensures TextLess(MonthText(m), MonthText(n)) <==> m < n
    ensures MonthText(m) == MonthText(n) ==> m == n
  {
    MonthTextParts(m);
    MonthTextParts(n);
    var (year, number) := (Padded(Digits(m / 12 + 1), 4), Padded(Digits(m % 12 + 1), 2));
    var (year', number') := (Padded(Digits(n / 12 + 1), 4), Padded(Digits(n % 12 + 1), 2));
    assert MonthText(m) == year + ("-" + number) && MonthText(n) == year' + ("-" + number');
    WidthOrders(year, year');
    WidthOrders(number, number');
    if year == year' {
      SamePrefixOrders(year, "-" + number, "-" + number');
      SamePrefixOrders("-", number, number');
    } else {
      FirstPartOrders(year, year', "-" + number, "-" + number');
    }
    assert MonthText(m)[..4] == year && MonthText(m)[5..] == number;
    assert MonthText(n)[..4] == year' && MonthText(n)[5..] == number';
  }

  // ---------- keys ----------

  function KeyText(key: Key): string {
    match key
    case OpeningKey(person) => "opening:" + Digits(person)
    case ChargeKey(span, month) => "charge:" + (Digits(span) + (":" + MonthText(month)))
    case EndKey(span, month) => "end:" + (Digits(span) + (":" + MonthText(month)))
    case PaymentKey(payment) => "lcup-payment:" + Digits(payment)
    case ManualKey(request) => "manual:" + request
  }

  predicate Dated(key: Key) {
    (key.ChargeKey? || key.EndKey?) ==> key.month < 12 * YEARS
  }

  lemma DigitsDiffer(a: nat, b: nat)
    requires Digits(a) == Digits(b)
    ensures a == b
  {
    DigitsRead(a);
    DigitsRead(b);
  }

  lemma AfterPrefix(prefix: string, a: string, b: string)
    requires prefix + a == prefix + b
    ensures a == b
  {
    assert (prefix + a)[|prefix|..] == a && (prefix + b)[|prefix|..] == b;
  }

  /** A number ends where its digits end. */
  lemma NumberThenRest(a: string, rest: string, b: string, rest': string)
    requires AllDigits(a) && AllDigits(b) && a + (":" + rest) == b + (":" + rest')
    ensures a == b && rest == rest'
  {
    var whole, whole' := a + (":" + rest), b + (":" + rest');
    assert whole[|a|] == ':' && whole'[|b|] == ':' && !IsDigit(':');
    assert |a| == |b|;
    assert whole[..|a|] == a && whole'[..|b|] == b;
    assert whole[|a| + 1..] == rest && whole'[|b| + 1..] == rest';
  }

  lemma SpanAndMonthDiffer(span: nat, month: Month, span': nat, month': Month)
    requires month < 12 * YEARS && month' < 12 * YEARS
    requires Digits(span) + (":" + MonthText(month)) == Digits(span') + (":" + MonthText(month'))
    ensures span == span' && month == month'
  {
    NumberThenRest(Digits(span), MonthText(month), Digits(span'), MonthText(month'));
    DigitsDiffer(span, span');
    MonthTextsOrder(month, month');
  }

  /** Two rows of different spans, months or kinds never share a key. */
  lemma KeyTextsDiffer(a: Key, b: Key)
    requires Dated(a) && Dated(b) && KeyText(a) == KeyText(b)
    ensures a == b
  {
    assert KeyText(a)[0] == (match a case OpeningKey(_) => 'o' case ChargeKey(_, _) => 'c' case EndKey(_, _) => 'e'
                             case PaymentKey(_) => 'l' case ManualKey(_) => 'm');
    assert KeyText(b)[0] == (match b case OpeningKey(_) => 'o' case ChargeKey(_, _) => 'c' case EndKey(_, _) => 'e'
                             case PaymentKey(_) => 'l' case ManualKey(_) => 'm');
    hide Digits, MonthText;
    match a
    case OpeningKey(person) =>
      AfterPrefix("opening:", Digits(person), Digits(b.person));
      DigitsDiffer(person, b.person);
    case ChargeKey(span, month) =>
      AfterPrefix("charge:", Digits(span) + (":" + MonthText(month)), Digits(b.span) + (":" + MonthText(b.month)));
      SpanAndMonthDiffer(span, month, b.span, b.month);
    case EndKey(span, month) =>
      AfterPrefix("end:", Digits(span) + (":" + MonthText(month)), Digits(b.span) + (":" + MonthText(b.month)));
      SpanAndMonthDiffer(span, month, b.span, b.month);
    case PaymentKey(payment) =>
      AfterPrefix("lcup-payment:", Digits(payment), Digits(b.payment));
      DigitsDiffer(payment, b.payment);
    case ManualKey(request) =>
      AfterPrefix("manual:", request, b.request);
  }

  lemma AMonthIsWritten(month: Month, year: nat)
    requires year == 2026 && month == 12 * (year - 1) + 2
    ensures MonthText(month) == "2026-03"
  {
    assert Digits(year) == Digits(year / 10) + "6" && Digits(year / 10) == Digits(year / 100) + "2";
    assert Digits(year / 100) == Digits(2) + "0" && Digits(2) == "2" && Digits(3) == "3";
    assert Padded("2026", 4) == "2026" && Padded("3", 2) == Padded("03", 2) == "03";
  }

  // The texts of one month and of one key of each kind.
  lemma TextsAreWritten(month: Month, year: nat, span: nat)
    requires year == 2026 && month == 12 * (year - 1) + 2 && span == 70
    ensures MonthText(month) == "2026-03" && KeyText(ChargeKey(span, month)) == "charge:70:2026-03"
    ensures KeyText(EndKey(span, month)) == "end:70:2026-03" && KeyText(OpeningKey(span)) == "opening:70"
    ensures KeyText(PaymentKey(span)) == "lcup-payment:70" && KeyText(ManualKey("a-b")) == "manual:a-b"
  {
    AMonthIsWritten(month, year);
    SeventyIsWritten(span);
    hide MonthText, Digits;
  }

  lemma SeventyIsWritten(span: nat)
    requires span == 70
    ensures Digits(span) == "70"
  {
    assert Digits(span) == Digits(span / 10) + "0" && Digits(7) == "7";
  }
}
