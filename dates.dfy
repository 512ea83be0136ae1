/**
 * The report date: `datetime.strptime(s, "%Y-%m-%d")` and
 * `date.strftime("%d %B %Y")` with English month names.
 */
module Dates {
  import opened Wrappers
  import opened Text

  /** A proleptic Gregorian calendar date, as Python's `datetime` holds it. */
  datatype Date = Date(year: nat, month: nat, day: nat)

  predicate IsLeapYear(y: nat) {
    y % 4 == 0 && (y % 100 != 0 || y % 400 == 0)
  }

  function DaysInMonth(y: nat, m: nat): nat
    requires 1 <= m <= 12
  {
    if m == 2 then (if IsLeapYear(y) then 29 else 28)
    else if m == 4 || m == 6 || m == 9 || m == 11 then 30
    else 31
  }

  /** The dates `datetime` can represent (years 1 to 9999). */
  predicate ValidDate(d: Date) {
    1 <= d.year <= 9999 && 1 <= d.month <= 12 && 1 <= d.day <= DaysInMonth(d.year, d.month)
  }

  const MonthNames: seq<string> := ["January", "February", "March", "April", "May", "June",
                                    "July", "August", "September", "October", "November", "December"]

  /**
   * `datetime.strptime(s, "%Y-%m-%d")`: exactly four year digits, then one or
   * two month digits and one or two day digits, separated by single hyphens,
   * naming a real calendar date. `None` stands for the ValueError.
   */
  function ParseIsoDate(s: string): (r: Option<Date>)
    ensures r.Some? ==> ValidDate(r.value)
  {
    ParseIsoParts(Split(s, '-'))
  }

  /** The fields of `ParseIsoDate`, once the text is cut at its hyphens. */
  function ParseIsoParts(parts: seq<string>): (r: Option<Date>)
    ensures r.Some? ==> ValidDate(r.value)
  {
    if |parts| == 3 && |parts[0]| == 4 && AllDigits(parts[0])
       && 1 <= |parts[1]| <= 2 && AllDigits(parts[1])
       && 1 <= |parts[2]| <= 2 && AllDigits(parts[2])
    then
      var d := Date(DigitsValue(parts[0]), DigitsValue(parts[1]), DigitsValue(parts[2]));
      if ValidDate(d) then Some(d) else None
    else None
  }

  /** `date.strftime("%d %B %Y")`: two-digit day, English month name, four-digit year. */
  function FormatLong(d: Date): string
    requires ValidDate(d)
  {
    ZeroPad(d.day, 2) + " " + MonthNames[d.month - 1] + " " + ZeroPad(d.year, 4)
  }

  /** `date.strftime("%Y-%m-%d")`: the canonical spelling `ParseIsoDate` reads. */
  function IsoString(d: Date): string {
    ZeroPad(d.year, 4) + "-" + ZeroPad(d.month, 2) + "-" + ZeroPad(d.day, 2)
  }

  /** A number below 10^k needs at most k digits. */
  lemma {:induction false} NatToStringLength(n: nat, k: nat)
    requires 1 <= k && n < Pow10(k)
    ensures |NatToString(n)| <= k
    decreases k
  {
    if n >= 10 {
      NatToStringLength(n / 10, k - 1);
    }
  }

  /** A number below 10^k padded to k digits has exactly k digits. */
  lemma ZeroPadExact(n: nat, k: nat)
    requires 1 <= k && n < Pow10(k)
    ensures |ZeroPad(n, k)| == k
  {
    NatToStringLength(n, k);
  }

  /** `ZeroPad(n, k)` contains no hyphen. */
  lemma ZeroPadNoHyphen(n: nat, k: nat)
    ensures '-' !in ZeroPad(n, k)
  {
    var s := ZeroPad(n, k);
    forall i | 0 <= i < |s| ensures s[i] != '-' { assert IsDigit(s[i]); }
  }

  /** No month name contains a space. */
  lemma MonthNamesHaveNoSpace(m: nat)
    requires m < 12
    ensures ' ' !in MonthNames[m]
  {
  }

  /** A string of digits contains no space. */
  lemma DigitsHaveNoSpace(s: string)
    requires AllDigits(s)
    ensures ' ' !in s
  {
    forall i | 0 <= i < |s| ensures s[i] != ' ' { assert IsDigit(s[i]); }
  }

  /** Three space-free words joined by single spaces split back into those words. */
  lemma SplitThreeWords(a: string, b: string, c: string)
    requires ' ' !in a && ' ' !in b && ' ' !in c
    ensures Split(a + " " + b + " " + c, ' ') == [a, b, c]
  {
    var words := [a, b, c];
    JoinThree(a, b, c, " ");
    SplitJoin(words, ' ');
  }

  /** The day and the year of a valid date fill their padded widths exactly. */
  lemma PaddedDayAndYear(d: Date)
    requires ValidDate(d)
    ensures |ZeroPad(d.day, 2)| == 2 && DigitsValue(ZeroPad(d.day, 2)) == d.day
    ensures |ZeroPad(d.year, 4)| == 4 && DigitsValue(ZeroPad(d.year, 4)) == d.year
  {
    assert d.day < 100 == Pow10(2);
    assert d.year < 10000 == Pow10(4);
    ZeroPadExact(d.day, 2);
    ZeroPadExact(d.year, 4);
  }

  /**
   * The long spelling cut at its spaces gives back the date: a two-digit day,
   * the English month name and a four-digit year.
   */
  lemma FormatLongFields(d: Date)
    requires ValidDate(d)
    ensures Split(FormatLong(d), ' ') == [ZeroPad(d.day, 2), MonthNames[d.month - 1], ZeroPad(d.year, 4)]
    ensures |ZeroPad(d.day, 2)| == 2 && DigitsValue(ZeroPad(d.day, 2)) == d.day
    ensures |ZeroPad(d.year, 4)| == 4 && DigitsValue(ZeroPad(d.year, 4)) == d.year
  {
    var day, month, year := ZeroPad(d.day, 2), MonthNames[d.month - 1], ZeroPad(d.year, 4);
    DigitsHaveNoSpace(day);
    DigitsHaveNoSpace(year);
    MonthNamesHaveNoSpace(d.month - 1);
    SplitThreeWords(day, month, year);
    PaddedDayAndYear(d);
  }

  /**
   * Reading back the canonical spelling of any year/month/day triple with at
   * most four, two and two digits gives that date exactly when it is a real
   * calendar date; otherwise `strptime` raises.
   */
  lemma ParseIsoString(d: Date)
    requires 1 <= d.year <= 9999 && 1 <= d.month <= 99 && 1 <= d.day <= 99
    ensures ParseIsoDate(IsoString(d)) == if ValidDate(d) then Some(d) else None
  {
    var fields := [ZeroPad(d.year, 4), ZeroPad(d.month, 2), ZeroPad(d.day, 2)];
    assert Split(IsoString(d), '-') == fields by {
      ZeroPadNoHyphen(d.year, 4);
      ZeroPadNoHyphen(d.month, 2);
      ZeroPadNoHyphen(d.day, 2);
      JoinThree(fields[0], fields[1], fields[2], "-");
      SplitJoin(fields, '-');
    }
    ParseIsoFields(d);
  }

  lemma ParseIsoFields(d: Date)
    requires 1 <= d.year <= 9999 && 1 <= d.month <= 99 && 1 <= d.day <= 99
    ensures ParseIsoParts([ZeroPad(d.year, 4), ZeroPad(d.month, 2), ZeroPad(d.day, 2)])
            == if ValidDate(d) then Some(d) else None
  {
    ZeroPadExact(d.year, 4);
    ZeroPadExact(d.month, 2);
    ZeroPadExact(d.day, 2);
  }

  /** `strptime` also reads the month and day without leading zeros ("2024-1-5"). */
  lemma ParseIsoUnpadded(d: Date)
    requires ValidDate(d)
    ensures ParseIsoDate(ZeroPad(d.year, 4) + "-" + NatToString(d.month) + "-" + NatToString(d.day)) == Some(d)
  {
    var fields := [ZeroPad(d.year, 4), NatToString(d.month), NatToString(d.day)];
    assert Split(fields[0] + "-" + fields[1] + "-" + fields[2], '-') == fields by {
      ZeroPadNoHyphen(d.year, 4);
      forall i | 0 <= i < |fields[1]| ensures fields[1][i] != '-' { assert IsDigit(fields[1][i]); }
      forall i | 0 <= i < |fields[2]| ensures fields[2][i] != '-' { assert IsDigit(fields[2][i]); }
      JoinThree(fields[0], fields[1], fields[2], "-");
      SplitJoin(fields, '-');
    }
    assert ParseIsoParts(fields) == Some(d) by {
      ZeroPadExact(d.year, 4);
      NatToStringLength(d.month, 2);
      NatToStringLength(d.day, 2);
    }
  }
}
