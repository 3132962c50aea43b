/**
 * The baby profile of users/models.py:33-110: the two derived ages and the model's `clean`
 * rules.  "Today" is `timezone.now().date()`, passed in.  The birth weight is a decimal with
 * three places (kilograms), held here as a whole number of grams.
 */
module Babies {
  import opened Wrappers
  import opened Dates

  datatype Baby = Baby(birthday: Option<Date>, birthWeightGrams: Option<int>)

  /** The upper bound `clean` puts on the birth weight: 20 kg. */
  const MaxBirthWeightGrams := 20000

  /** `age_in_days`: None without a birthday, else the days from the birthday to today. */
  function AgeInDays(b: Baby, today: Date): (r: Option<int>)
    ensures r.None? <==> b.birthday.None?
    ensures r.Some? ==> (r.value >= 0 <==> !Before(today, b.birthday.value))
    ensures r.Some? ==> (r.value == 0 <==> today == b.birthday.value)
  {
    match b.birthday
    case None => None
    case Some(born) =>
      DaysBetweenSign(today, born);
      Some(DaysBetween(today, born))
  }

  /** `age_in_months`: None without a birthday, else the whole-month difference of the calendar months. */
  function AgeInMonths(b: Baby, today: Date): (r: Option<int>)
    ensures r.None? <==> b.birthday.None?
  {
    match b.birthday
    case None => None
    case Some(born) => Some((today.year - born.year) * 12 + (today.month - born.month))
  }

  /** The day of the month plays no part in the month age. */
  lemma AgeInMonthsIgnoresDay(born: Date, born': Date, today: Date, today': Date)
    requires born.year == born'.year && born.month == born'.month
    requires today.year == today'.year && today.month == today'.month
    ensures AgeInMonths(Baby(Some(born), None), today) == AgeInMonths(Baby(Some(born'), None), today')
  {
  }

  /** The month age is zero exactly within the birth month. */
  lemma AgeInMonthsZeroIff(b: Baby, today: Date)
    requires b.birthday.Some?
    ensures AgeInMonths(b, today).value == 0 <==>
      today.year == b.birthday.value.year && today.month == b.birthday.value.month
  {
  }

  /** Each step to the next calendar month, across a year's end too, adds one to the month age. */
  lemma AgeInMonthsNextMonth(b: Baby, today: Date, next: Date)
    requires b.birthday.Some?
    requires (next.year == today.year && next.month == today.month + 1) ||
             (today.month == 12 && next.month == 1 && next.year == today.year + 1)
    ensures AgeInMonths(b, next).value == AgeInMonths(b, today).value + 1
  {
  }

  /** A birthday not after today, the condition `clean` enforces, gives a non-negative age in days and in months. */
  lemma AgesOfBirthdayNotInFuture(b: Baby, today: Date)
    requires b.birthday.Some? && !Before(today, b.birthday.value)
    ensures AgeInDays(b, today).value >= 0
    ensures AgeInMonths(b, today).value >= 0
  {
  }

  /** The errors `clean` raises, each attached to one field. */
  datatype CleanError =
    | BirthdayInFuture     // on "birthday": "出生日期不能在未来"
    | BirthWeightAbnormal  // on "birth_weight": "出生体重数据异常"

  /** `Baby.clean`: the first rule that fails raises; None means it returns normally. */
  function Clean(b: Baby, today: Date): (r: Option<CleanError>)
    ensures r == Some(BirthdayInFuture) <==> b.birthday.Some? && Before(today, b.birthday.value)
    ensures r == Some(BirthWeightAbnormal) <==>
      (b.birthday.None? || !Before(today, b.birthday.value)) &&
      b.birthWeightGrams.Some? && b.birthWeightGrams.value > MaxBirthWeightGrams
  {
    if b.birthday.Some? && Before(today, b.birthday.value) then Some(BirthdayInFuture)
    // `self.birth_weight and ...`: a weight of zero is falsy, and is not over the bound either
    else if b.birthWeightGrams.Some? && b.birthWeightGrams.value != 0 && b.birthWeightGrams.value > MaxBirthWeightGrams then
      Some(BirthWeightAbnormal)
    else None
  }

  /** A birthday of today, and a weight of exactly 20 kg, are both allowed. */
  lemma CleanBoundaries(today: Date)
    ensures Clean(Baby(Some(today), Some(MaxBirthWeightGrams)), today).None?
    ensures Clean(Baby(None, Some(MaxBirthWeightGrams + 1)), today) == Some(BirthWeightAbnormal)
  {
  }

  /** When both rules fail, only the birthday error is raised. */
  lemma CleanBirthdayFirst(b: Baby, today: Date)
    requires b.birthday.Some? && Before(today, b.birthday.value)
    requires b.birthWeightGrams.Some? && b.birthWeightGrams.value > MaxBirthWeightGrams
    ensures Clean(b, today) == Some(BirthdayInFuture)
  {
  }
}
