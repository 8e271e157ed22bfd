/** get_10_digit_date: the `YYYY-MM-DD` part of a date given as a string. */
module Dates {
  import opened Wrappers

  /** The PHP value passed as `$date`; a Carbon instance is not part of this model. */
  datatype DateInput =
    | NullDate
    | Text(s: string)
    | NonString           // an integer, a float, an array, ...: neither null nor a string

  /** 'Date expected but not provided e73812' and 'Invalid date'. */
  datatype DateError = DateNotProvided | InvalidDate

  /** Null and the empty string both mean "no date". */
  predicate IsBlank(date: DateInput)
  {
    date == NullDate || date == Text("")
  }

  /**
   * No date gives null when null is allowed and an error otherwise; a string
   * of at least ten bytes gives its first ten; anything else is invalid.
   */
  function Get10DigitDate(date: DateInput, allowNull: bool): (r: Result<Option<string>, DateError>)
    ensures r == Ok(None) <==> IsBlank(date) && allowNull
    ensures r == Err(DateNotProvided) <==> IsBlank(date) && !allowNull
    ensures r.Ok? && r.value.Some? <==> date.Text? && |date.s| >= 10
    ensures r.Ok? && r.value.Some? ==> |r.value.value| == 10 && date.s[..10] == r.value.value
    ensures r == Err(InvalidDate) <==> date == NonString || (date.Text? && 0 < |date.s| < 10)
  {
    if IsBlank(date) then
      if allowNull then Ok(None) else Err(DateNotProvided)
    else if date.Text? && |date.s| >= 10 then Ok(Some(date.s[..10]))
    else Err(InvalidDate)
  }

  /** A date this helper returned is returned unchanged when passed in again. */
  lemma Get10DigitDateIdempotent(date: DateInput, allowNull: bool, again: bool)
    requires Get10DigitDate(date, allowNull).Ok? && Get10DigitDate(date, allowNull).value.Some?
    ensures var d := Get10DigitDate(date, allowNull).value.value;
            Get10DigitDate(Text(d), again) == Ok(Some(d))
  {
    var d := Get10DigitDate(date, allowNull).value.value;
    assert d[..10] == d;
  }
}
