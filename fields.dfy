/**
 * The validated fields of a contact: `Name`, `Phone` and `Birthday`
 * (contact_book.py:16-43). Each constructor either yields the stored value or
 * raises `ValueError` with a fixed message.
 */
module Fields {
  import opened Wrappers
  import opened Text
  import opened Calendar

  const NameMessage := "Ім'я контакту не може бути порожнім."
  const PhoneMessage := "Номер телефону повинен складатися з 10 цифр."
  const DateMessage := "Invalid date format. Use DD.MM.YYYY"

  /** A stored name: non-empty, with no whitespace at either end. */
  predicate IsName(s: string) {
    s != [] && !IsSpace(s[0]) && !IsSpace(s[|s| - 1])
  }

  /**
   * `Name(raw).value`: empty or all-whitespace input is refused, anything else
   * is stored stripped.
   */
  function NameValue(raw: string): (r: Result<string>)
    ensures r.Err? <==> AllSpace(raw)
    ensures r.Err? ==> r.error == ValueError(NameMessage)
    ensures r.Ok? ==> IsName(r.value) && r.value == Strip(raw)
  {
    if raw == [] || Strip(raw) == [] then Err(ValueError(NameMessage)) else Ok(Strip(raw))
  }

  /** A stored name is accepted as it is: building a `Name` twice changes nothing. */
  lemma NameIdempotent(raw: string)
    requires NameValue(raw).Ok?
    ensures NameValue(NameValue(raw).value) == NameValue(raw)
  {
    NameAccepted(NameValue(raw).value);
  }

  /** A string that already has the shape of a stored name is accepted unchanged. */
  lemma NameAccepted(n: string)
    requires IsName(n)
    ensures NameValue(n) == Ok(n)
  {
    StripUnchanged(n);
  }

  /** A stored name is exactly the raw text less the whitespace around it. */
  lemma NameIsCore(raw: string)
    requires NameValue(raw).Ok?
    ensures exists i, j :: 0 <= i < j <= |raw| && NameValue(raw).value == raw[i..j]
              && AllSpace(raw[..i]) && AllSpace(raw[j..])
  {
    StripKeepsMiddle(raw);
  }

  /** A valid phone number: ten ASCII digits. */
  predicate IsPhone(s: string) {
    |s| == 10 && IsDigits(s)
  }

  /** `Phone(raw).value`: accepted unchanged exactly when it is ten digits. */
  function PhoneValue(raw: string): (r: Result<string>)
    ensures r.Ok? <==> |raw| == 10 && forall i :: 0 <= i < |raw| ==> '0' <= raw[i] <= '9'
    ensures r.Ok? ==> r.value == raw
    ensures r.Err? ==> r.error == ValueError(PhoneMessage)
  {
    if !IsDigits(raw) || |raw| != 10 then Err(ValueError(PhoneMessage)) else Ok(raw)
  }

  /** A stored birthday keeps the text it was given and the date it denotes. */
  datatype Birthday = Birthday(value: string, date: Date)

  /** `%d` in `strptime`: `3[01]`, `[12]\d`, `0[1-9]`, `[1-9]` or a space and `[1-9]`. */
  function DayField(s: string): (r: Option<int>)
    ensures r.Some? ==> 1 <= r.value <= 31
  {
    if |s| == 1 && '1' <= s[0] <= '9' then Some(DigitValue(s[0]))
    else if |s| == 2 && (s[0] == '0' || s[0] == ' ') && '1' <= s[1] <= '9' then Some(DigitValue(s[1]))
    else if |s| == 2 && '1' <= s[0] <= '2' && IsDigit(s[1]) then Some(10 * DigitValue(s[0]) + DigitValue(s[1]))
    else if |s| == 2 && s[0] == '3' && '0' <= s[1] <= '1' then Some(30 + DigitValue(s[1]))
    else None
  }

  /** `%m` in `strptime`: `1[0-2]`, `0[1-9]` or `[1-9]`. */
  function MonthField(s: string): (r: Option<int>)
    ensures r.Some? ==> 1 <= r.value <= 12
  {
    if |s| == 1 && '1' <= s[0] <= '9' then Some(DigitValue(s[0]))
    else if |s| == 2 && s[0] == '0' && '1' <= s[1] <= '9' then Some(DigitValue(s[1]))
    else if |s| == 2 && s[0] == '1' && '0' <= s[1] <= '2' then Some(10 + DigitValue(s[1]))
    else None
  }

  /** The value of four digits, digit by digit. */
  lemma FourDigits(s: string)
    requires |s| == 4 && IsDigits(s)
    ensures DecimalValue(s) == 1000 * DigitValue(s[0]) + 100 * DigitValue(s[1]) + 10 * DigitValue(s[2]) + DigitValue(s[3])
  {
    assert s[..1][..0] == [];
    assert DecimalValue(s[..1]) == DigitValue(s[0]);
    assert s[..2][..1] == s[..1];
    assert DecimalValue(s[..2]) == 10 * DigitValue(s[0]) + DigitValue(s[1]);
    assert s[..3][..2] == s[..2];
    assert DecimalValue(s[..3]) == 100 * DigitValue(s[0]) + 10 * DigitValue(s[1]) + DigitValue(s[2]);
  }

  /** `%Y` in `strptime`: exactly four digits. */
  function YearField(s: string): (r: Option<int>)
    ensures r.Some? ==> 0 <= r.value <= MaxYear
  {
    if |s| == 4 && IsDigits(s) then
      FourDigits(s);
      Some(DecimalValue(s))
    else None
  }

  /**
   * Reads `%d.%m.%Y`. No field can hold a dot, so the day is the text before
   * the first dot, the month the text up to the second, and the year the rest.
   */
  function DateFields(s: string): (r: Option<Date>)
    ensures r.Some? ==> 1 <= r.value.day <= 31 && 1 <= r.value.month <= 12 && 0 <= r.value.year <= MaxYear
  {
    if '.' !in s then None
    else
      var i := Lists.IndexOf(s, '.');
      var rest := s[i + 1..];
      if '.' !in rest then None
      else
        var j := Lists.IndexOf(rest, '.');
        var day, month, year := DayField(s[..i]), MonthField(rest[..j]), YearField(rest[j + 1..]);
        if day.Some? && month.Some? && year.Some? then Some(Date(year.value, month.value, day.value))
        else None
  }

  /**
   * `Birthday(raw)`: `strptime(raw, "%d.%m.%Y")` must match all of `raw` and name
   * a real date of years 1..9999; every failure becomes the one format message.
   */
  function ParseBirthday(raw: string): (r: Result<Birthday>)
    ensures r.Ok? <==> DateFields(raw).Some? && ValidDate(DateFields(raw).value)
    ensures r.Ok? ==> r.value == Birthday(raw, DateFields(raw).value)
    ensures r.Err? ==> r.error == ValueError(DateMessage)
  {
    match DateFields(raw)
    case None => Err(ValueError(DateMessage))
    case Some(d) => if ValidDate(d) then Ok(Birthday(raw, d)) else Err(ValueError(DateMessage))
  }

  /** Fields without dots, joined by dots, are read back field by field. */
  lemma DateFieldsOf(day: string, month: string, year: string)
    requires '.' !in day && '.' !in month
    ensures DateFields(day + "." + month + "." + year) ==
      var d, m, y := DayField(day), MonthField(month), YearField(year);
      if d.Some? && m.Some? && y.Some? then Some(Date(y.value, m.value, d.value)) else None
  {
    var s := day + "." + month + "." + year;
    var rest := month + "." + year;
    assert s == day + "." + rest;
    assert s[|day|] == '.' && s[..|day|] == day;
    Lists.IndexOfAt(s, '.', |day|);
    assert s[|day| + 1..] == rest;
    assert rest[|month|] == '.' && rest[..|month|] == month;
    Lists.IndexOfAt(rest, '.', |month|);
    assert rest[|month| + 1..] == year;
  }

  /** Two digits `t` that read as the day `n` are accepted by `%d`. */
  lemma TwoDigitDay(t: string, n: int)
    requires |t| == 2 && IsDigit(t[0]) && IsDigit(t[1]) && 1 <= n <= 31
    requires 10 * DigitValue(t[0]) + DigitValue(t[1]) == n
    ensures DayField(t) == Some(n)
  {
  }

  lemma TwoDigitMonth(t: string, n: int)
    requires |t| == 2 && IsDigit(t[0]) && IsDigit(t[1]) && 1 <= n <= 12
    requires 10 * DigitValue(t[0]) + DigitValue(t[1]) == n
    ensures MonthField(t) == Some(n)
  {
  }

  /** A two-digit `Padded` text is read back digit by digit. */
  lemma PaddedTwo(n: nat)
    requires n < 100
    ensures |Padded(n, 2)| == 2
    ensures 10 * DigitValue(Padded(n, 2)[0]) + DigitValue(Padded(n, 2)[1]) == n
  {
    var t := Padded(n, 2);
    assert t[..1][..0] == [];
  }

  /** Every date `strftime("%d.%m.%Y")` writes is read back by `Birthday`. */
  lemma FormatParses(d: Date)
    requires ValidDate(d)
    ensures ParseBirthday(Format(d)) == Ok(Birthday(Format(d), d))
  {
    var dd, mm, yy := Padded(d.day, 2), Padded(d.month, 2), Padded(d.year, 4);
    DateFieldsOf(dd, mm, yy);
    PaddedTwo(d.day);
    TwoDigitDay(dd, d.day);
    PaddedTwo(d.month);
    TwoDigitMonth(mm, d.month);
  }

  /** Dot-free fields the grammar accepts, naming a real date, make a birthday. */
  lemma FieldsAccepted(day: string, month: string, year: string, d: Date)
    requires '.' !in day && '.' !in month && ValidDate(d)
    requires DayField(day) == Some(d.day) && MonthField(month) == Some(d.month) && YearField(year) == Some(d.year)
    ensures ParseBirthday(day + "." + month + "." + year) == Ok(Birthday(day + "." + month + "." + year, d))
  {
    DateFieldsOf(day, month, year);
  }

  /** The value of a four-digit year text. */
  lemma YearText(year: string, n: int)
    requires |year| == 4 && IsDigits(year)
    requires 1000 * DigitValue(year[0]) + 100 * DigitValue(year[1]) + 10 * DigitValue(year[2]) + DigitValue(year[3]) == n
    ensures YearField(year) == Some(n)
  {
    FourDigits(year);
  }

  /** The one-digit day and month of `1.1.1990` are accepted. */
  lemma ShortFieldsAccepted()
    ensures ParseBirthday("1" + "." + "1" + "." + "1990") == Ok(Birthday("1" + "." + "1" + "." + "1990", Date(1990, 1, 1)))
  {
    YearText("1990", 1990);
    FieldsAccepted("1", "1", "1990", Date(1990, 1, 1));
  }

  /** Day 32 and month 13 are outside the grammar. */
  lemma OutOfRangeRefused()
    ensures ParseBirthday("32" + "." + "13" + "." + "2000").Err?
  {
    DateFieldsOf("32", "13", "2000");
  }

  /** 2001 is not a leap year, so 29 February 2001 is refused. */
  lemma LeapDayRefused()
    ensures ParseBirthday("29" + "." + "02" + "." + "2001").Err?
  {
    YearText("2001", 2001);
    TwoDigitDay("29", 29);
    TwoDigitMonth("02", 2);
    DateFieldsOf("29", "02", "2001");
    assert !ValidDate(Date(2001, 2, 29));
  }

  /** 2000 is a leap year, so 29 February 2000 is accepted. */
  lemma LeapDayAccepted()
    ensures ParseBirthday("29" + "." + "02" + "." + "2000") == Ok(Birthday("29" + "." + "02" + "." + "2000", Date(2000, 2, 29)))
  {
    YearText("2000", 2000);
    TwoDigitDay("29", 29);
    TwoDigitMonth("02", 2);
    FieldsAccepted("29", "02", "2000", Date(2000, 2, 29));
  }

  /** Year 0 is not a date even though `0000` has four digits. */
  lemma YearZeroRefused()
    ensures ParseBirthday("01" + "." + "01" + "." + "0000").Err?
  {
    YearText("0000", 0);
    TwoDigitDay("01", 1);
    TwoDigitMonth("01", 1);
    DateFieldsOf("01", "01", "0000");
  }
}
