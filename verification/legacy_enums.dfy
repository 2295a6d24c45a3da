/**
 * The border status conversions of the older enumeration module: the same three statuses
 * with the same integer values, but an out-of-range integer raises AttributeError.
 */
module LegacyEnums {
  import opened Outcomes
  import opened Enums

  /** fromInt: 0, 1, 2 give the status with that value; anything else raises AttributeError. */
  function LegacyFromInt(i: int): (r: Result<BorderStatus>)
    ensures r.Ok? <==> 0 <= i <= 2
    ensures r.Err? ==> r.error == AttributeError
    ensures r.Ok? ==> StatusValue(r.value) == i
  {
    if i == 0 then Ok(UNSET)
    else if i == 1 then Ok(ACTIVE)
    else if i == 2 then Ok(BLANK)
    else Err(AttributeError)
  }

  /**
   * fromChar: int(c) raises ValueError for a character that is not a decimal digit;
   * a digit goes through fromInt, so 3 to 9 raise AttributeError.
   */
  function LegacyFromChar(c: char): (r: Result<BorderStatus>)
    ensures r.Ok? <==> c == '0' || c == '1' || c == '2'
    ensures DigitValue(c).None? ==> r == Err(ValueError)
    ensures DigitValue(c).Some? ==> r == LegacyFromInt(DigitValue(c).value)
  {
    match DigitValue(c)
    case None => Err(ValueError)
    case Some(i) => LegacyFromInt(i)
  }

  /** fromInt inverts the integer value of every status. */
  lemma LegacyFromIntRoundTrip(s: BorderStatus)
    ensures LegacyFromInt(StatusValue(s)) == Ok(s)
  {
  }

  /** The two versions accept the same integers and agree on them; only the exception differs. */
  lemma LegacyFromIntAgrees(i: int)
    ensures LegacyFromInt(i).Ok? <==> StatusFromInt(i).Ok?
    ensures LegacyFromInt(i).Ok? ==> LegacyFromInt(i) == StatusFromInt(i)
  {
  }
}
