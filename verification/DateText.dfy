/**
 The text form in which an occurrence's date is stored and compared: occurrenceKey
 renders it as YYYY-MM-DD, a range query compares those texts, and a stored text is
 parsed back. Also the holder text that names one occurrence of one item.
 */
module DateText {
  import opened Common
  import opened Calendar
  import opened Text

  // --------------------------------------------------------------- digits

  predicate IsDigit(c: char) {
    '0' <= c <= '9'
  }

  function Digit(n: int): (c: char)
    requires 0 <= n < 10
    ensures IsDigit(c)
  {
    ('0' as int + n) as char
  }

  function DigitValue(c: char): int {
    c as int - '0' as int
  }

  /** n in decimal, padded with zeros to at least width digits. */
  function Digits(n: nat, width: nat): (s: string)
    ensures forall c :: c in s ==> IsDigit(c)
    ensures |s| >= width && |s| >= 1
    decreases n + width
  {
    if n < 10 && width <= 1 then [Digit(n)]
    else Digits(n / 10, if width == 0 then 0 else width - 1) + [Digit(n % 10)]
  }

  function DigitsValue(s: string): int {
    if s == [] then 0 else 10 * DigitsValue(s[..|s| - 1]) + DigitValue(s[|s| - 1])
  }

  lemma {:induction false} DigitsReadBack(n: nat, width: nat)
    ensures DigitsValue(Digits(n, width)) == n
    decreases n + width
  {
    if !(n < 10 && width <= 1) {
      var w := if width == 0 then 0 else width - 1;
      DigitsReadBack(n / 10, w);
      assert Digits(n, width)[..|Digits(n, width)| - 1] == Digits(n / 10, w);
    }
  }

  lemma TwoDigits(n: nat)
    requires n < 100
    ensures Digits(n, 2) == [Digit(n / 10), Digit(n % 10)]
  {
  }

  lemma FourDigits(n: nat)
    ensures n < 10000 ==> |Digits(n, 4)| == 4
    ensures n >= 10000 ==> |Digits(n, 4)| > 4
  {
    assert Digits(n, 4) == Digits(n / 10, 3) + [Digit(n % 10)];
    assert Digits(n / 10, 3) == Digits(n / 10 / 10, 2) + [Digit(n / 10 % 10)];
    assert Digits(n / 10 / 10, 2) == Digits(n / 10 / 10 / 10, 1) + [Digit(n / 10 / 10 % 10)];
    if n >= 10000 {
      assert n / 10 / 10 / 10 >= 10;
      assert |Digits(n / 10 / 10 / 10 / 10, 0)| >= 1;
    }
  }

  // ----------------------------------------------------------- digit order

  /** Digit strings of one length sort as the numbers they write. */
  lemma {:induction false} DigitOrder(s: string, t: string)
    requires |s| == |t|
    requires forall c :: c in s ==> IsDigit(c)
    requires forall c :: c in t ==> IsDigit(c)
    ensures TextAtMost(s, t) <==> DigitsValue(s) <= DigitsValue(t)
    ensures DigitsValue(s) == DigitsValue(t) ==> s == t
  {
    if s != [] {
      hide TextAtMost;
      var n := |s| - 1;
      assert s == s[..n] + [s[n]] && t == t[..n] + [t[n]];
      assert s[n] in s && t[n] in t;
      assert forall c :: c in s[..n] ==> c in s;
      assert forall c :: c in t[..n] ==> c in t;
      DigitOrder(s[..n], t[..n]);
      PrefixDecides(s[..n], [s[n]], t[..n], [t[n]]);
      OneCharacterOrder(s[n], t[n]);
    }
  }

  lemma OneCharacterOrder(a: char, b: char)
    ensures TextAtMost([a], [b]) <==> a <= b
  {
  }

  // ------------------------------------------------------ YYYY-MM-DD keys

  function YearText(year: int): string {
    if year < 0 then "-" + Digits(-year, 4) else Digits(year, 4)
  }

  function MonthDayText(month: Month, d: int): string
    requires 1 <= d <= 31
  {
    "-" + Digits(month % 12 + 1, 2) + "-" + Digits(d, 2)
  }

  /** occurrenceKey: the calendar date, with nothing of the time of day. */
  function OccurrenceKey(day: Date): string {
    YearText(MonthOf(day) / 12) + MonthDayText(MonthOf(day), DayOfMonth(day))
  }

  /** The years that YYYY can hold. */
  predicate FourDigitYear(day: Date) {
    0 <= MonthOf(day) / 12 <= 9999
  }

  lemma MonthDayShape(month: Month, d: int)
    requires 1 <= d <= 31
    ensures var s := MonthDayText(month, d);
            && |s| == 6 && s[0] == s[3] == '-'
            && s[1..3] == Digits(month % 12 + 1, 2) && s[4..6] == Digits(d, 2)
            && DigitsValue(s[1..3]) == month % 12 + 1 && DigitsValue(s[4..6]) == d
            && (forall c :: c in s ==> IsDigit(c) || c == '-')
  {
    TwoDigits(month % 12 + 1);
    TwoDigits(d);
    DigitsReadBack(month % 12 + 1, 2);
    DigitsReadBack(d, 2);
    var s := MonthDayText(month, d);
    assert s[1..3] == Digits(month % 12 + 1, 2);
    assert s[4..6] == Digits(d, 2);
  }

  /** Two dates with one key are one date, in any year. */
  lemma OccurrenceKeyIsInjective(a: Date, b: Date)
    requires OccurrenceKey(a) == OccurrenceKey(b)
    ensures a == b
  {
    hide MonthOf, DayOfMonth, MonthDayText, YearText, Digits, DigitsValue;
    var ya, yb := YearText(MonthOf(a) / 12), YearText(MonthOf(b) / 12);
    var ta, tb := MonthDayText(MonthOf(a), DayOfMonth(a)), MonthDayText(MonthOf(b), DayOfMonth(b));
    MonthDayShape(MonthOf(a), DayOfMonth(a));
    MonthDayShape(MonthOf(b), DayOfMonth(b));
    assert ya == OccurrenceKey(a)[..|ya|] && ta == OccurrenceKey(a)[|ya|..];
    assert yb == OccurrenceKey(b)[..|yb|] && tb == OccurrenceKey(b)[|yb|..];
    YearTextIsInjective(MonthOf(a) / 12, MonthOf(b) / 12);
    SameMonthAndDay(a, b);
  }

  lemma SameMonthAndDay(a: Date, b: Date)
    requires MonthOf(a) % 12 == MonthOf(b) % 12 && MonthOf(a) / 12 == MonthOf(b) / 12 && DayOfMonth(a) == DayOfMonth(b)
    ensures a == b
  {
    hide MonthStart, MonthOf;
    assert MonthOf(a) == MonthOf(b);
  }

  lemma YearTextIsInjective(y: int, z: int)
    requires YearText(y) == YearText(z)
    ensures y == z
  {
    DigitsReadBack(Abs(y), 4);
    DigitsReadBack(Abs(z), 4);
    if y < 0 {
      assert YearText(y)[0] == '-' && YearText(y)[1..] == Digits(-y, 4);
    }
    if z < 0 {
      assert YearText(z)[0] == '-' && YearText(z)[1..] == Digits(-z, 4);
    }
    assert y >= 0 ==> IsDigit(YearText(y)[0]);
    assert z >= 0 ==> IsDigit(YearText(z)[0]);
  }

  lemma KeyHasNoBar(day: Date)
    ensures '|' !in OccurrenceKey(day)
  {
    hide MonthStart, MonthDayText;
    MonthDayShape(MonthOf(day), DayOfMonth(day));
  }

  /** Within the years YYYY can hold, text order is calendar order. */
  lemma KeysSortChronologically(a: Date, b: Date)
    requires FourDigitYear(a) && FourDigitYear(b)
    ensures TextAtMost(OccurrenceKey(a), OccurrenceKey(b)) <==> a <= b
  {
    hide MonthOf, DayOfMonth, MonthDayText, YearText, TextAtMost, DigitsValue;
    var ma, mb := MonthOf(a), MonthOf(b);
    YearTextOrder(ma / 12, mb / 12);
    PrefixDecides(YearText(ma / 12), MonthDayText(ma, DayOfMonth(a)),
                  YearText(mb / 12), MonthDayText(mb, DayOfMonth(b)));
    MonthDayOrder(ma, DayOfMonth(a), mb, DayOfMonth(b));
    CivilOrder(a, b);
  }

  lemma YearTextOrder(y: int, z: int)
    requires 0 <= y <= 9999 && 0 <= z <= 9999
    ensures |YearText(y)| == |YearText(z)|
    ensures TextAtMost(YearText(y), YearText(z)) <==> y <= z
    ensures YearText(y) == YearText(z) ==> y == z
  {
    hide TextAtMost, Digits, DigitsValue;
    FourDigits(y);
    FourDigits(z);
    DigitsReadBack(y, 4);
    DigitsReadBack(z, 4);
    DigitOrder(YearText(y), YearText(z));
  }

  /** Behind a hyphen, parts of one length decide unless they are equal. */
  lemma PartDecides(x: string, r: string, y: string, q: string)
    requires |x| == |y|
    ensures TextAtMost("-" + x + r, "-" + y + q) <==> if x == y then TextAtMost(r, q) else TextAtMost(x, y)
  {
    hide TextAtMost;
    PrefixDecides("-" + x, r, "-" + y, q);
    PrefixDecides("-", x, "-", y);
    assert x == ("-" + x)[1..] && y == ("-" + y)[1..];
  }

  lemma MonthDayOrder(m: Month, d: int, n: Month, e: int)
    requires 1 <= d <= 31 && 1 <= e <= 31
    ensures TextAtMost(MonthDayText(m, d), MonthDayText(n, e)) <==>
            m % 12 < n % 12 || (m % 12 == n % 12 && d <= e)
  {
    hide Digits, TextAtMost, DigitsValue;
    var (x, y) := (Digits(m % 12 + 1, 2), Digits(n % 12 + 1, 2));
    var (r, q) := (Digits(d, 2), Digits(e, 2));
    TwoDigitOrder(m % 12 + 1, n % 12 + 1);
    TwoDigitOrder(d, e);
    PartDecides(r, "", q, "");
    assert "-" + r + "" == "-" + r && "-" + q + "" == "-" + q;
    EmptyTextOrder();
    PartDecides(x, "-" + r, y, "-" + q);
    assert MonthDayText(m, d) == "-" + x + ("-" + r);
    assert MonthDayText(n, e) == "-" + y + ("-" + q);
  }

  lemma EmptyTextOrder()
    ensures TextAtMost("", "")
  {
  }

  lemma TwoDigitOrder(a: nat, b: nat)
    requires a < 100 && b < 100
    ensures |Digits(a, 2)| == |Digits(b, 2)| == 2
    ensures TextAtMost(Digits(a, 2), Digits(b, 2)) <==> a <= b
    ensures Digits(a, 2) == Digits(b, 2) ==> a == b
  {
    hide TextAtMost, DigitsValue;
    TwoDigits(a);
    TwoDigits(b);
    DigitsReadBack(a, 2);
    DigitsReadBack(b, 2);
    DigitOrder(Digits(a, 2), Digits(b, 2));
  }

  lemma CivilOrder(a: Date, b: Date)
    ensures a <= b <==> MonthOf(a) < MonthOf(b) || (MonthOf(a) == MonthOf(b) && DayOfMonth(a) <= DayOfMonth(b))
  {
    hide MonthStart;
    if a <= b {
      MonthsAreOrdered(a, b);
    } else {
      MonthsAreOrdered(b, a);
    }
  }

  /** Whether text order and calendar order agree on every date of the years 0 to last. */
  ghost predicate KeysAgreeThrough(last: int) {
    forall a: Date, b: Date ::
      0 <= MonthOf(a) / 12 <= last && 0 <= MonthOf(b) / 12 <= last ==>
        (TextAtMost(OccurrenceKey(a), OccurrenceKey(b)) <==> a <= b)
  }

  /** The range query's claim that its texts sort chronologically ends with the year 9999. */
  lemma KeysAgreeExactlyThrough9999(last: int)
    ensures KeysAgreeThrough(last) <==> last <= 9999
  {
    hide MonthStart, OccurrenceKey, MonthOf;
    if last <= 9999 {
      forall a: Date, b: Date | 0 <= MonthOf(a) / 12 <= last && 0 <= MonthOf(b) / 12 <= last
        ensures TextAtMost(OccurrenceKey(a), OccurrenceKey(b)) <==> a <= b
      {
        KeysSortChronologically(a, b);
      }
    } else {
      var a := SomeDateOf(9999);
      var b := SomeDateOf(10000);
      FiveDigitYearSortsFirst(a, b);
    }
  }

  lemma SomeDateOf(year: int) returns (day: Date)
    ensures MonthOf(day) / 12 == year
  {
    day := OnDay(12 * year, 1);
    CivilRoundTrip(day, 12 * year, 1);
  }

  /** A date of the year 9999 precedes one of the year 10000, and its text follows. */
  lemma FiveDigitYearSortsFirst(a: Date, b: Date)
    requires MonthOf(a) / 12 == 9999 && MonthOf(b) / 12 == 10000
    ensures a < b && !TextAtMost(OccurrenceKey(a), OccurrenceKey(b))
  {
    hide MonthOf, DayOfMonth, OccurrenceKey, YearText, TextAtMost;
    CivilOrder(a, b);
    NinesAndTens();
    KeyStartsWithTheYear(a);
    KeyStartsWithTheYear(b);
    FirstCharacterDecides(OccurrenceKey(a), OccurrenceKey(b));
  }

  lemma KeyStartsWithTheYear(day: Date)
    ensures var y := YearText(MonthOf(day) / 12); y != "" && OccurrenceKey(day) != "" && OccurrenceKey(day)[0] == y[0]
  {
    hide MonthOf, DayOfMonth, MonthDayText, Digits;
  }

  lemma FirstCharacterDecides(s: string, t: string)
    requires s != "" && t != "" && t[0] < s[0]
    ensures !TextAtMost(s, t)
  {
  }

  lemma NinesAndTens()
    ensures YearText(9999)[0] == '9' && YearText(10000)[0] == '1'
  {
    assert Digits(9999, 4) == Digits(999, 3) + ['9'];
    assert Digits(999, 3) == Digits(99, 2) + ['9'];
    TwoDigits(99);
    assert Digits(10000, 4) == Digits(1000, 3) + ['0'];
    assert Digits(1000, 3) == Digits(100, 2) + ['0'];
    assert Digits(100, 2) == Digits(10, 1) + ['0'];
    assert Digits(10, 1) == Digits(1, 0) + ['0'];
  }

  // ----------------------------------------------------- parsing it back

  /** time.Parse with the layout 2006-01-02: four, two and two digits naming a real date. */
  function ParseDate(s: string): Option<Date> {
    if |s| == 10 && s[4] == '-' && s[7] == '-' && AllDigits(s[..4] + s[5..7] + s[8..]) then
      var (y, m, d) := (DigitsValue(s[..4]), DigitsValue(s[5..7]), DigitsValue(s[8..]));
      if 1 <= m <= 12 && 1 <= d <= DaysInMonth(12 * y + m - 1) then Some(OnDay(12 * y + m - 1, d)) else None
    else None
  }

  predicate AllDigits(s: string) {
    forall c :: c in s ==> IsDigit(c)
  }

  /** A stored date reads back as itself, exactly when its year fits in four digits. */
  lemma StoredDateReadsBack(day: Date)
    ensures ParseDate(OccurrenceKey(day)) == (if FourDigitYear(day) then Some(day) else None)
  {
    hide MonthOf, DayOfMonth, YearText, MonthDayText, ParseDate;
    var month, d := MonthOf(day), DayOfMonth(day);
    var y, t := YearText(month / 12), MonthDayText(month, d);
    MonthDayShape(month, d);
    YearTextShape(month / 12);
    if FourDigitYear(day) {
      DayIsInItsMonth(day);
      PartsParse(y, t, month, d);
    } else {
      LongKeyFails(y, t);
    }
  }

  lemma LongKeyFails(y: string, t: string)
    requires |y| != 4 && |t| == 6
    ensures ParseDate(y + t) == None
  {
  }

  lemma PartsParse(y: string, t: string, month: Month, d: int)
    requires |y| == 4 && |t| == 6 && t[0] == t[3] == '-' && AllDigits(y) && AllDigits(t[1..3]) && AllDigits(t[4..6])
    requires DigitsValue(y) == month / 12 && DigitsValue(t[1..3]) == month % 12 + 1 && DigitsValue(t[4..6]) == d
    requires 1 <= d <= DaysInMonth(month)
    ensures ParseDate(y + t) == Some(OnDay(month, d))
  {
    hide DigitsValue, DaysInMonth, AllDigits, OnDay;
    KeyParts(y, t);
    assert 12 * (month / 12) + (month % 12 + 1) - 1 == month;
  }

  lemma YearTextShape(year: int)
    ensures |YearText(year)| == 4 <==> 0 <= year <= 9999
    ensures 0 <= year ==> DigitsValue(YearText(year)) == year && AllDigits(YearText(year))
  {
    hide Digits, DigitsValue;
    FourDigits(Abs(year));
    DigitsReadBack(Abs(year), 4);
  }

  lemma DayIsInItsMonth(day: Date)
    ensures var month := MonthOf(day);
            && 1 <= DayOfMonth(day) <= DaysInMonth(month) && OnDay(month, DayOfMonth(day)) == day
  {
    hide MonthStart, MonthOf;
    CivilRoundTrip(day, MonthOf(day), DayOfMonth(day));
  }

  /** The three parts of a ten-character key. */
  lemma KeyParts(y: string, t: string)
    requires |y| == 4 && |t| == 6 && AllDigits(y) && AllDigits(t[1..3]) && AllDigits(t[4..6])
    ensures var s := y + t;
            && s[..4] == y && s[5..7] == t[1..3] && s[8..] == t[4..6] && s[4] == t[0] && s[7] == t[3]
            && AllDigits(s[..4] + s[5..7] + s[8..])
  {
    var s := y + t;
    assert s[..4] == y && s[5..7] == t[1..3] && s[8..] == t[4..6];
  }

  // -------------------------------------------------------------- holders

  /** occurrenceHolder: the text that names one occurrence of one item. */
  function Holder(item: string, day: Date): string {
    item + "|" + OccurrenceKey(day)
  }

  /** A holder names one occurrence, whatever characters the item id contains. */
  lemma HolderIsInjective(item: string, day: Date, other: string, otherDay: Date)
    requires Holder(item, day) == Holder(other, otherDay)
    ensures item == other && day == otherDay
  {
    hide OccurrenceKey;
    KeyHasNoBar(day);
    KeyHasNoBar(otherDay);
    LastBarSplits(item, OccurrenceKey(day), other, OccurrenceKey(otherDay));
    OccurrenceKeyIsInjective(day, otherDay);
  }

  lemma LastBarSplits(a: string, k: string, b: string, l: string)
    requires '|' !in k && '|' !in l
    requires a + "|" + k == b + "|" + l
    ensures a == b && k == l
  {
    var s := a + "|" + k;
    EarlierBarLeavesOneBehind(a, k, b, l);
    EarlierBarLeavesOneBehind(b, l, a, k);
    assert s[..|a|] == a && s[..|b|] == b;
    assert s[|a| + 1..] == k && s[|b| + 1..] == l;
  }

  lemma EarlierBarLeavesOneBehind(a: string, k: string, b: string, l: string)
    requires a + "|" + k == b + "|" + l
    ensures |a| < |b| ==> '|' in k
  {
    var s := a + "|" + k;
    assert s[|b|] == '|';
    assert s[|a| + 1..] == k;
  }
}
