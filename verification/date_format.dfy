/** The `DD.MM.YYYY` text form a birthday is entered in, and the
    `strftime("%d.%m.%Y")` rendering the birthday scan feeds back into the
    parser. */
module DateFormat {
  import opened Wrappers
  import opened Calendar

  predicate IsDigit(c: char) {
    '0' <= c <= '9'
  }

  function DigitValue(c: char): (n: int)
    requires IsDigit(c)
    ensures 0 <= n < 10
  {
    c as int - '0' as int
  }

  function DigitChar(n: int): (c: char)
    requires 0 <= n < 10
    ensures IsDigit(c) && DigitValue(c) == n
  {
    ('0' as int + n) as char
  }

  /** Exactly two digits, a dot, two digits, a dot, four digits. */
  predicate WellShaped(s: string) {
    && |s| == 10
    && s[2] == '.' && s[5] == '.'
    && IsDigit(s[0]) && IsDigit(s[1])
    && IsDigit(s[3]) && IsDigit(s[4])
    && IsDigit(s[6]) && IsDigit(s[7]) && IsDigit(s[8]) && IsDigit(s[9])
  }

  /** The day, month and year fields of a well-shaped string, read as
      decimal numbers (not yet checked to form a real date). */
  function ReadFields(s: string): Date
    requires WellShaped(s)
  {
    Date(
      DigitValue(s[6]) * 1000 + DigitValue(s[7]) * 100 + DigitValue(s[8]) * 10 + DigitValue(s[9]),
      DigitValue(s[3]) * 10 + DigitValue(s[4]),
      DigitValue(s[0]) * 10 + DigitValue(s[1]))
  }

  /** `datetime.strptime(s, "%d.%m.%Y").date()` on the strict form: fails
      with ValueError unless `s` is well shaped and names a real date. */
  function ParseDate(s: string): (r: Result<Date>)
    ensures r.Ok? ==> ValidDate(r.value)
    ensures r.Ok? ==> FormatDate(r.value) == s
    ensures r.Err? ==> r.error == ValueError
  {
    if WellShaped(s) && ValidDate(ReadFields(s)) then
      FormatFields(s);
      Ok(ReadFields(s))
    else Err(ValueError)
  }

  function TwoDigits(n: int): (s: string)
    requires 0 <= n < 100
    ensures |s| == 2 && IsDigit(s[0]) && IsDigit(s[1])
    ensures DigitValue(s[0]) * 10 + DigitValue(s[1]) == n
  {
    [DigitChar(n / 10), DigitChar(n % 10)]
  }

  function FourDigits(n: int): (s: string)
    requires 0 <= n < 10000
    ensures |s| == 4 && IsDigit(s[0]) && IsDigit(s[1]) && IsDigit(s[2]) && IsDigit(s[3])
    ensures DigitValue(s[0]) * 1000 + DigitValue(s[1]) * 100 + DigitValue(s[2]) * 10 + DigitValue(s[3]) == n
  {
    assert n == 10 * (n / 10) + n % 10;
    assert n / 10 == 10 * (n / 100) + n / 10 % 10;
    assert n / 100 == 10 * (n / 1000) + n / 100 % 10;
    [DigitChar(n / 1000), DigitChar(n / 100 % 10), DigitChar(n / 10 % 10), DigitChar(n % 10)]
  }

  /** `date.strftime("%d.%m.%Y")`, with the year zero-padded to four digits. */
  function FormatDate(d: Date): (s: string)
    requires ValidDate(d)
    ensures WellShaped(s) && ReadFields(s) == d
  {
    TwoDigits(d.day) + "." + TwoDigits(d.month) + "." + FourDigits(d.year)
  }

  lemma DigitRoundTrip(c: char)
    requires IsDigit(c)
    ensures DigitChar(DigitValue(c)) == c
  {
  }

  lemma TwoDigitsOf(c0: char, c1: char)
    requires IsDigit(c0) && IsDigit(c1)
    ensures TwoDigits(DigitValue(c0) * 10 + DigitValue(c1)) == [c0, c1]
  {
    DigitRoundTrip(c0);
    DigitRoundTrip(c1);
  }

  lemma FourDigitsOf(c0: char, c1: char, c2: char, c3: char)
    requires IsDigit(c0) && IsDigit(c1) && IsDigit(c2) && IsDigit(c3)
    ensures FourDigits(DigitValue(c0) * 1000 + DigitValue(c1) * 100 + DigitValue(c2) * 10 + DigitValue(c3))
         == [c0, c1, c2, c3]
  {
    DecimalDigits(DigitValue(c0), DigitValue(c1), DigitValue(c2), DigitValue(c3));
    DigitRoundTrip(c0);
    DigitRoundTrip(c1);
    DigitRoundTrip(c2);
    DigitRoundTrip(c3);
  }

  lemma DecimalDigits(a: int, b: int, c: int, e: int)
    requires 0 <= a < 10 && 0 <= b < 10 && 0 <= c < 10 && 0 <= e < 10
    ensures var n := a * 1000 + b * 100 + c * 10 + e;
      n / 1000 == a && n / 100 % 10 == b && n / 10 % 10 == c && n % 10 == e
  {
    var n := a * 1000 + b * 100 + c * 10 + e;
    assert n / 10 == a * 100 + b * 10 + c;
    assert n / 100 == a * 10 + b;
    assert n / 1000 == a;
  }

  /** Reading the fields of a well-shaped string and rendering them again
      gives back the string. */
  lemma FormatFields(s: string)
    requires WellShaped(s) && ValidDate(ReadFields(s))
    ensures FormatDate(ReadFields(s)) == s
  {
    TwoDigitsOf(s[0], s[1]);
    TwoDigitsOf(s[3], s[4]);
    FourDigitsOf(s[6], s[7], s[8], s[9]);
    assert s == [s[0], s[1]] + "." + [s[3], s[4]] + "." + [s[6], s[7], s[8], s[9]];
  }

  /** Rendering a date and parsing it back gives the same date. */
  lemma ParseFormat(d: Date)
    requires ValidDate(d)
    ensures ParseDate(FormatDate(d)) == Ok(d)
  {
  }

  /** A string is accepted exactly when it is the rendering of some date. */
  lemma ParseAcceptsRenderings(s: string)
    ensures ParseDate(s).Ok? <==> exists d :: ValidDate(d) && FormatDate(d) == s
  {
    if exists d :: ValidDate(d) && FormatDate(d) == s {
      var d :| ValidDate(d) && FormatDate(d) == s;
      ParseFormat(d);
    }
  }

  lemma LeapDayParses()
    ensures ParseDate("29.02.2020") == Ok(Date(2020, 2, 29))
  {
  }

  lemma NonexistentDayRejected()
    ensures ParseDate("31.02.2020") == Err(ValueError)
  {
  }
}
