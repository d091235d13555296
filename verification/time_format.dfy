/**
 The two timestamp formatters of the chat view: `formatMessageTime`, which
 shows "H:MM", and `formatDate`, which shows "DD/MM/" followed by the
 unpadded year (999 gives "01/02/999", a negative year keeps its sign). Both start from the
 local-time fields of the `Date` built from a message's `createdAt`; those
 fields are the input here. A timestamp that does not parse gives a `Date`
 whose every getter returns NaN, and the formatters then print the text that
 NaN turns into, which this model keeps.
 */
module TimeFormat {
  import opened Decimal
  import opened JsString
  import opened Wrappers

  /** A number a `Date` getter returns: integral, or NaN for an invalid date. */
  datatype JsNumber = NaN | Int(value: int)

  /** `String(x)`. */
  function NumberToString(x: JsNumber): (r: string)
    ensures x.NaN? ==> r == "NaN"
    ensures x.Int? ==> IsIntLiteral(r) && ParseInt(r) == x.value
  {
    match x
    case NaN => "NaN"
    case Int(v) => ParseIntToString(v); IntToString(v)
  }

  /** `x + 1`; NaN absorbs the addition. */
  function PlusOne(x: JsNumber): (r: JsNumber)
    ensures r.NaN? <==> x.NaN?
    ensures x.Int? ==> r.value == x.value + 1
  {
    match x
    case NaN => NaN
    case Int(v) => Int(v + 1)
  }

  /** The two-digit padding idiom `('0' + x).slice(-2)`. */
  function Pad2(x: JsNumber): (r: string)
    ensures |r| == 2
    ensures x.NaN? ==> r == "aN"
  {
    var s := "0" + NumberToString(x);
    assert x.NaN? ==> s == "0NaN";
    Slice(s, -2)
  }

  /** For a non-negative integer the idiom yields two digits that denote the
      integer modulo 100: a leading "0" before a single digit, the number
      itself from 10 to 99, and only the last two digits above that. */
  lemma {:induction false} Pad2OfNat(n: nat)
    ensures AllDigits(Pad2(Int(n)))
    ensures Value(Pad2(Int(n))) == n % 100
    ensures n < 10 ==> Pad2(Int(n)) == ['0', DigitChar(n)]
    ensures 10 <= n < 100 ==> Pad2(Int(n)) == NatToString(n)
  {
    if n < 10 {
      Pad2OfDigit(n);
    } else {
      Pad2OfLarge(n);
    }
  }

  lemma Pad2OfDigit(n: nat)
    requires n < 10
    ensures Pad2(Int(n)) == ['0', DigitChar(n)]
    ensures Value(Pad2(Int(n))) == n
  {
    var pair := ['0', DigitChar(n)];
    assert NumberToString(Int(n)) == [DigitChar(n)];
    assert "0" + [DigitChar(n)] == pair;
    assert Slice(pair, -2) == pair;
    ValueOfPair('0', DigitChar(n));
  }

  lemma Pad2OfLarge(n: nat)
    requires n >= 10
    ensures Pad2(Int(n)) == [DigitChar((n / 10) % 10), DigitChar(n % 10)]
    ensures Value(Pad2(Int(n))) == n % 100
    ensures n < 100 ==> Pad2(Int(n)) == NatToString(n)
  {
    var digits := NatToString(n);
    assert Pad2(Int(n)) == ("0" + digits)[|digits| - 1..];
    LastTwoDigits(n);
    TensAndUnits(n);
    ValueOfPair(DigitChar((n / 10) % 10), DigitChar(n % 10));
  }

  /** Below 100 the idiom is exact: two digits denoting the number. */
  lemma Pad2Below100(n: nat)
    requires n < 100
    ensures AllDigits(Pad2(Int(n)))
    ensures Value(Pad2(Int(n))) == n
  {
    if n < 10 {
      Pad2OfDigit(n);
    } else {
      Pad2OfLarge(n);
      assert n % 100 == n;
    }
  }

  /** The local-time fields of a `Date`, as its getters report them. */
  datatype DateFields =
    | InvalidDate
    | Fields(fullYear: int, monthIndex: int, date: int, hours: int, minutes: int)

  /** The ranges the `Date` getters keep to: `getMonth` counts months from 0. */
  predicate InRange(d: DateFields) {
    d.Fields? ==>
      && 0 <= d.monthIndex <= 11
      && 1 <= d.date <= 31
      && 0 <= d.hours <= 23
      && 0 <= d.minutes <= 59
  }

  /** The getters of a `Date`: NaN exactly for an invalid date, the field
      otherwise, within the range the getter keeps to. */
  function GetFullYear(d: DateFields): (r: JsNumber)
    ensures r.NaN? <==> d.InvalidDate?
    ensures d.Fields? ==> r.value == d.fullYear
  {
    if d.InvalidDate? then NaN else Int(d.fullYear)
  }

  function GetMonth(d: DateFields): (r: JsNumber)
    ensures r.NaN? <==> d.InvalidDate?
    ensures d.Fields? ==> r.value == d.monthIndex
    ensures InRange(d) && r.Int? ==> 0 <= r.value <= 11
  {
    if d.InvalidDate? then NaN else Int(d.monthIndex)
  }

  function GetDate(d: DateFields): (r: JsNumber)
    ensures r.NaN? <==> d.InvalidDate?
    ensures d.Fields? ==> r.value == d.date
    ensures InRange(d) && r.Int? ==> 1 <= r.value <= 31
  {
    if d.InvalidDate? then NaN else Int(d.date)
  }

  function GetHours(d: DateFields): (r: JsNumber)
    ensures r.NaN? <==> d.InvalidDate?
    ensures d.Fields? ==> r.value == d.hours
    ensures InRange(d) && r.Int? ==> 0 <= r.value <= 23
  {
    if d.InvalidDate? then NaN else Int(d.hours)
  }

  function GetMinutes(d: DateFields): (r: JsNumber)
    ensures r.NaN? <==> d.InvalidDate?
    ensures d.Fields? ==> r.value == d.minutes
    ensures InRange(d) && r.Int? ==> 0 <= r.value <= 59
  {
    if d.InvalidDate? then NaN else Int(d.minutes)
  }

  /** Reads "H:MM" back: an hour without padding, a colon, two minute digits. */
  function ReadTime(r: string): Option<(nat, nat)> {
    if |r| >= 4 && r[|r| - 3] == ':' && IsCanonical(r[..|r| - 3]) && AllDigits(r[|r| - 2..])
    then Some((Value(r[..|r| - 3]), Value(r[|r| - 2..])))
    else None
  }

  /** Reads "DD/MM/Y" back: two day digits, two month digits, an integer year. */
  function ReadDate(r: string): Option<(nat, nat, int)> {
    if && |r| >= 7 && r[2] == '/' && r[5] == '/'
       && AllDigits(r[..2]) && AllDigits(r[3..5]) && IsIntLiteral(r[6..])
    then Some((Value(r[..2]), Value(r[3..5]), ParseInt(r[6..])))
    else None
  }

  /** Two two-digit fields and an integer, joined by slashes, read back. */
  lemma ReadDateOfParts(day: string, month: string, year: string)
    requires |day| == 2 && AllDigits(day)
    requires |month| == 2 && AllDigits(month)
    requires IsIntLiteral(year)
    ensures var r := day + "/" + month + "/" + year;
            && |r| >= 7 && r[2] == '/' && r[5] == '/'
            && r[..2] == day && r[3..5] == month && r[6..] == year
            && ReadDate(r) == Some((Value(day), Value(month), ParseInt(year)))
  {
    var r := day + "/" + month + "/" + year;
    assert r[..2] == day;
    assert r[3..5] == month;
    assert r[6..] == year;
  }

  /** An hour, a colon and two minute digits, read back. */
  lemma ReadTimeOfParts(hours: string, minutes: string)
    requires IsCanonical(hours)
    requires |minutes| == 2 && AllDigits(minutes)
    ensures var r := hours + ":" + minutes;
            && |r| == |hours| + 3 && r[..|r| - 3] == hours
            && ReadTime(r) == Some((Value(hours), Value(minutes)))
  {
    var r := hours + ":" + minutes;
    assert r[..|r| - 3] == hours;
    assert r[|r| - 3] == ':';
    assert r[|r| - 2..] == minutes;
  }

  /** `formatMessageTime`: the hour as is, a colon, the minutes padded to two
      digits. The text reads back as the same hour and minute. */
  function FormatMessageTime(d: DateFields): (r: string)
    requires InRange(d)
    ensures d.InvalidDate? ==> r == "NaN:aN"
    ensures d.Fields? ==> |r| == |NatToString(d.hours)| + 3 && r[..|r| - 3] == NatToString(d.hours)
    ensures d.Fields? ==> (d.hours < 10 <==> |r| == 4)
    ensures d.Fields? ==> ReadTime(r) == Some((d.hours, d.minutes))
  {
    var hours := NumberToString(GetHours(d));
    var minutes := Pad2(GetMinutes(d));
    var r := hours + ":" + minutes;
    if d.InvalidDate? then r
    else
      assert hours == NatToString(d.hours);
      Pad2Below100(d.minutes);
      ReadTimeOfParts(hours, minutes);
      r
  }

  /** `formatDate`: the day and the month (shown from 1) padded to two digits,
      then the year as is, separated by slashes. The text reads back as the
      same day, the month index plus one (so 1 to 12), and the same year. */
  function FormatDate(d: DateFields): (r: string)
    requires InRange(d)
    ensures d.InvalidDate? ==> r == "aN/aN/NaN"
    ensures d.Fields? ==> |r| >= 7 && r[2] == '/' && r[5] == '/'
    ensures d.Fields? ==> r[6..] == IntToString(d.fullYear)
    ensures d.Fields? ==> ReadDate(r) == Some((d.date, d.monthIndex + 1, d.fullYear))
  {
    var year := NumberToString(GetFullYear(d));
    var month := Pad2(PlusOne(GetMonth(d)));
    var day := Pad2(GetDate(d));
    if d.InvalidDate? then day + "/" + month + "/" + year
    else
      assert PlusOne(GetMonth(d)) == Int(d.monthIndex + 1);
      DateFieldsReadBack(d.date, d.monthIndex + 1, d.fullYear);
      day + "/" + month + "/" + year
  }

  lemma DateFieldsReadBack(day: nat, month: nat, year: int)
    requires 1 <= day <= 31 && 1 <= month <= 12
    ensures var r := Pad2(Int(day)) + "/" + Pad2(Int(month)) + "/" + NumberToString(Int(year));
            && |r| >= 7 && r[2] == '/' && r[5] == '/'
            && r[3..5] == Pad2(Int(month))
            && r[6..] == IntToString(year)
            && ReadDate(r) == Some((day, month, year))
  {
    var dd, mm, yy := Pad2(Int(day)), Pad2(Int(month)), NumberToString(Int(year));
    Pad2Below100(day);
    Pad2Below100(month);
    assert yy == IntToString(year) && ParseInt(yy) == year;
    ReadDateOfParts(dd, mm, yy);
  }
}
