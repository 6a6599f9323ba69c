/** `validateDateOfBirth`: whole years between a birth date and today, and the
    test the validator applies to the result. */
module AgeCheck {

  /** A calendar date as the component reads it: `getFullYear()`,
      `getMonth()` (0 for January) and `getDate()`. */
  datatype Date = Date(year: int, month: int, day: int)

  /** `new Date(dob)`: either a parsed date or an Invalid Date (the empty
      string and unparseable text both give one). */
  datatype BirthDate = Invalid | Parsed(date: Date)

  /** The number `validateDateOfBirth` returns: NaN for an Invalid Date. */
  datatype Age = NaN | Years(n: int)

  /** Strict lexicographic order on (year, month, day). */
  predicate Before(a: Date, b: Date) {
    a.year < b.year
    || (a.year == b.year && a.month < b.month)
    || (a.year == b.year && a.month == b.month && a.day < b.day)
  }

  /** By `today` the `n`-th birthday (same month and day, `n` years on) has come. */
  predicate AnniversaryReached(birth: Date, today: Date, n: int) {
    !Before(today, Date(birth.year + n, birth.month, birth.day))
  }

  /** The result is NaN exactly for an Invalid Date; otherwise it is the number
      of birthdays reached by today: the `n`-th has come and the next has not. */
  function ValidateDateOfBirth(birth: BirthDate, today: Date): (age: Age)
    ensures age.NaN? <==> birth.Invalid?
    ensures birth.Parsed? ==>
      AnniversaryReached(birth.date, today, age.n) && !AnniversaryReached(birth.date, today, age.n + 1)
  {
    match birth
    case Invalid => NaN
    case Parsed(b) =>
      var age := today.year - b.year;
      var month := today.month - b.month;
      if month < 0 || (month == 0 && today.day < b.day) then Years(age - 1) else Years(age)
  }

  /** Once a birthday has come, every earlier one has too. */
  lemma AnniversaryMonotone(birth: Date, today: Date, m: int, n: int)
    requires m <= n && AnniversaryReached(birth, today, n)
    ensures AnniversaryReached(birth, today, m)
  {
  }

  /** The age is the only count satisfying the birthday characterisation. */
  lemma AgeUnique(birth: Date, today: Date, n: int)
    requires AnniversaryReached(birth, today, n) && !AnniversaryReached(birth, today, n + 1)
    ensures ValidateDateOfBirth(Parsed(birth), today) == Years(n)
  {
    var a := ValidateDateOfBirth(Parsed(birth), today).n;
    if a < n {
      AnniversaryMonotone(birth, today, a + 1, n);
    } else if n < a {
      AnniversaryMonotone(birth, today, n + 1, a);
    }
  }

  /** On the `n`-th birthday the age is `n`. */
  lemma AgeOnBirthday(birth: Date, n: int)
    ensures ValidateDateOfBirth(Parsed(birth), Date(birth.year + n, birth.month, birth.day)) == Years(n)
  {
  }

  /** Gregorian leap years, as `Date` counts them. */
  predicate LeapYear(year: int) {
    year % 4 == 0 && (year % 100 != 0 || year % 400 == 0)
  }

  /** The number of days in `month` (0 for January) of `year`. */
  function DaysInMonth(year: int, month: int): (days: int)
    requires 0 <= month < 12
    ensures 28 <= days <= 31
    ensures days == 29 <==> month == 1 && LeapYear(year)
  {
    if month == 1 then (if LeapYear(year) then 29 else 28)
    else if month == 3 || month == 5 || month == 8 || month == 10 then 30
    else 31
  }

  /** The calendar day before `d`: the previous day of the month, the last
      day of the previous month on the 1st, 31 December of the previous year
      on 1 January. For a day the month does not have (29 February of a
      common year, a 29 February birthday's anniversary) it is the month's
      last day. */
  function DayBefore(d: Date): (r: Date)
    requires 0 <= d.month < 12 && 1 <= d.day
    ensures Before(r, d)
    ensures 0 <= r.month < 12 && 1 <= r.day <= DaysInMonth(r.year, r.month)
    ensures r.year == d.year || (r.year == d.year - 1 && d.month == 0 && d.day == 1)
  {
    if d.day > 1 then
      if d.day - 1 <= DaysInMonth(d.year, d.month) then Date(d.year, d.month, d.day - 1)
      else Date(d.year, d.month, DaysInMonth(d.year, d.month))
    else if d.month > 0 then Date(d.year, d.month - 1, DaysInMonth(d.year, d.month - 1))
    else Date(d.year - 1, 11, 31)
  }

  /** The day before the `n`-th birthday, month and year boundaries
      included, the age is still `n - 1`. */
  lemma AgeDayBeforeBirthday(birth: Date, n: int)
    requires 0 <= birth.month < 12 && 1 <= birth.day
    ensures ValidateDateOfBirth(Parsed(birth), DayBefore(Date(birth.year + n, birth.month, birth.day))) == Years(n - 1)
  {
  }

  /** `!age`: the number is falsy, that is 0 or NaN. */
  predicate Falsy(age: Age) {
    age.NaN? || age.n == 0
  }

  /** `!validateDateOfBirth(dateOfBirth)`: the date test the validator performs. */
  /** An invalid date is rejected, but so is nothing past the first
      birthday. */
  predicate DateOfBirthRejected(birth: BirthDate, today: Date): (rejected: bool)
    ensures birth.Invalid? ==> rejected
    ensures birth.Parsed? && AnniversaryReached(birth.date, today, 1) ==> !rejected
  {
    Falsy(ValidateDateOfBirth(birth, today))
  }

  /** As written, the date is rejected only when it is invalid or today lies
      in the first year of life, from the birth date up to the first birthday. */
  lemma DateOfBirthRejectedIff(birth: BirthDate, today: Date)
    ensures DateOfBirthRejected(birth, today) <==>
      birth.Invalid?
      || (AnniversaryReached(birth.date, today, 0) && !AnniversaryReached(birth.date, today, 1))
  {
    if birth.Parsed? && AnniversaryReached(birth.date, today, 0) && !AnniversaryReached(birth.date, today, 1) {
      AgeUnique(birth.date, today, 0);
    }
  }

  /** A ten-year-old and a birth date in the future both pass the test as
      written, although the message it reports says the candidate must be at
      least 18. */
  lemma UnderageNotRejected()
    ensures ValidateDateOfBirth(Parsed(Date(2016, 0, 1)), Date(2026, 9, 19)) == Years(10)
    ensures !DateOfBirthRejected(Parsed(Date(2016, 0, 1)), Date(2026, 9, 19))
    ensures !DateOfBirthRejected(Parsed(Date(2030, 0, 1)), Date(2026, 9, 19))
  {
  }

  /** The test the message describes: invalid, or younger than 18. */
  predicate DateOfBirthRejectedIntended(birth: BirthDate, today: Date) {
    match ValidateDateOfBirth(birth, today)
    case NaN => true
    case Years(n) => n < 18
  }

  /** The intended test rejects exactly the dates whose 18th birthday has not
      come by today. */
  lemma IntendedRejectsExactlyMinors(birth: BirthDate, today: Date)
    ensures DateOfBirthRejectedIntended(birth, today) <==>
      birth.Invalid? || !AnniversaryReached(birth.date, today, 18)
  {
    if birth.Parsed? {
      var a := ValidateDateOfBirth(birth, today).n;
      if a < 18 {
        if AnniversaryReached(birth.date, today, 18) {
          AnniversaryMonotone(birth.date, today, a + 1, 18);
        }
      } else {
        AnniversaryMonotone(birth.date, today, 18, a);
      }
    }
  }

  /** The intended test subsumes the written one. */
  lemma WrittenTestWeaker(birth: BirthDate, today: Date)
    ensures DateOfBirthRejected(birth, today) ==> DateOfBirthRejectedIntended(birth, today)
  {
  }
}
