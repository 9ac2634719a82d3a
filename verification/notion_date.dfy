/**
 * Due-date normalisation: the instant, in seconds, that a Notion due-date
 * string stands for. Notion writes a bare calendar date (`YYYY-MM-DD`,
 * ten characters) when no time was entered and a full timestamp with a
 * zone offset otherwise, so length ten alone selects the date-only rule:
 * the parsed instant (UTC midnight) is moved on by four hours (to the
 * UTC-4 business zone) and by a further 86 399 seconds (to the end of that
 * day). Any other string keeps its parsed instant.
 */
module NotionDate {
  import opened Wrappers
  import opened JsNumber

  /** `new Date(s).getTime()`: milliseconds since the epoch, None for an Invalid Date. */
  type DateParser = string -> Option<int>

  const FourHoursMs: int := 14400000
  const OneDayMinusOneMinuteMs: int := 86399000
  /** The two shifts together, in whole seconds. */
  const DateOnlyShiftSeconds: int := 100799

  /** The length test of `getNotionDate` (it names the flag `hasTimezone`, though a
      ten-character value is the one that carries no zone). */
  predicate IsDateOnly(due: string) {
    |due| == 10
  }

  /** `getNotionDate`: the due instant in seconds, following its expression in `index.mjs` step by step. */
  function GetNotionDate(due: string, parse: DateParser): (r: Num)
    ensures r.NaN? <==> parse(due).None?
    ensures parse(due).Some? && IsDateOnly(due) ==>
              r == Finite(parse(due).value as real / 1000.0 + DateOnlyShiftSeconds as real)
    ensures parse(due).Some? && !IsDateOnly(due) ==>
              r == Finite(parse(due).value as real / 1000.0)
  {
    var time := TimeValue(parse(due));
    if IsDateOnly(due) then
      Div(Add(Add(time, Finite(FourHoursMs as real)), Finite(OneDayMinusOneMinuteMs as real)), 1000.0)
    else
      Div(time, 1000.0)
  }

  /** The normalised instant as whole milliseconds (the numerator of
      `getNotionDate` before its division by 1000), None for NaN. */
  function NotionMillis(due: string, parse: DateParser): (ms: Option<int>)
    ensures ms.None? <==> parse(due).None?
    ensures ms.Some? ==> ms.value - parse(due).value == if IsDateOnly(due) then 100799000 else 0
  {
    match parse(due)
    case None => None
    case Some(t) => Some(if IsDateOnly(due) then t + FourHoursMs + OneDayMinusOneMinuteMs else t)
  }

  /** `getNotionDate` is exactly the normalised milliseconds divided by 1000,
      so its value is always NaN or a whole number of milliseconds. */
  lemma NotionDateIsMillis(due: string, parse: DateParser)
    ensures GetNotionDate(due, parse) == MillisToSeconds(NotionMillis(due, parse))
  {
  }

  /** The offset is decided by length alone: two strings the parser maps to
      the same instant normalise to the same instant when both or neither
      have length ten, and 100 799 seconds apart otherwise. */
  lemma OffsetByLengthAlone(a: string, b: string, parse: DateParser)
    requires parse(a) == parse(b) && parse(a).Some?
    ensures IsDateOnly(a) == IsDateOnly(b) ==> GetNotionDate(a, parse) == GetNotionDate(b, parse)
    ensures IsDateOnly(a) && !IsDateOnly(b) ==>
              GetNotionDate(a, parse).v == GetNotionDate(b, parse).v + DateOnlyShiftSeconds as real
  {
  }
}
