/**
 * Rendering one task as a Discord embed field (`taskToEmbed`): the task
 * name as the field title and a Discord timestamp token `<t:SECONDS:STYLE>`
 * as its value, so that every reader sees the instant in their own zone.
 * Style `D` shows the date only and is chosen for ten-character (date-only)
 * due strings; style `f` shows date and time and is chosen otherwise.
 */
module Embed {
  import opened Wrappers
  import opened JsNumber
  import opened DecimalText
  import opened NotionDate

  /** A task as fetched from the Notion database. */
  datatype Task = Task(name: string, due: string)

  /** Discord timestamp display styles the job uses. */
  datatype Style = DateOnly | DateTime

  /** An embed field as passed to `addFields`. */
  datatype Field = Field(name: string, value: string, inline: bool)

  function StyleLetter(style: Style): char {
    match style
    case DateOnly => 'D'
    case DateTime => 'f'
  }

  function LetterStyle(c: char): Option<Style> {
    if c == 'D' then Some(DateOnly) else if c == 'f' then Some(DateTime) else None
  }

  /** `<t:${ms / 1000}:L>` for a normalised time value in milliseconds: the
      Number's text framed by `<t:` and `:L>`. */
  function TimestampToken(ms: Option<int>, style: Style): (s: string)
    ensures |s| == |SecondsText(ms)| + 6 && s[|s| - 2] == StyleLetter(style)
  {
    "<t:" + SecondsText(ms) + ":" + [StyleLetter(style)] + ">"
  }

  /** Reads a timestamp token back into its instant and style. */
  function ParseToken(s: string): Option<(Num, Style)> {
    if |s| < 6 || s[..3] != "<t:" || s[|s| - 3] != ':' || s[|s| - 1] != '>' then None
    else
      match (ParseNumber(s[3..|s| - 3]), LetterStyle(s[|s| - 2]))
      case (Some(n), Some(style)) => Some((n, style))
      case _ => None
  }

  /** The fixed parts of a token sit where the parser looks for them. */
  lemma TokenLayout(t: string, letter: char)
    ensures var s := "<t:" + t + ":" + [letter] + ">";
            |s| == |t| + 6 && s[..3] == "<t:" && s[3..|s| - 3] == t &&
            s[|s| - 3] == ':' && s[|s| - 2] == letter && s[|s| - 1] == '>'
  {
    var s := "<t:" + t + ":" + [letter] + ">";
    assert s[..3] == "<t:";
    assert s[3..|s| - 3] == t;
  }

  /** A token carries exactly the instant and style it was written from. */
  lemma TokenRoundTrip(ms: Option<int>, style: Style)
    ensures ParseToken(TimestampToken(ms, style)) == Some((MillisToSeconds(ms), style))
  {
    TokenLayout(SecondsText(ms), StyleLetter(style));
    SecondsTextRoundTrip(ms);
  }

  /** The style `taskToEmbed` selects: `D` for a ten-character due string, `f` otherwise. */
  function StyleFor(due: string): Style {
    if IsDateOnly(due) then DateOnly else DateTime
  }

  /** `taskToEmbed`: the task name verbatim in a field that is not inline. */
  function TaskToEmbed(task: Task, parse: DateParser): (f: Field)
    ensures f.name == task.name && !f.inline
  {
    var dueDate := NotionMillis(task.due, parse);
    // `hasTime` keeps the name used in `index.mjs`, though it holds for the
    // date-only strings that carry no time (see `IsDateOnly`).
    var hasTime := IsDateOnly(task.due);
    Field(task.name, if !hasTime then TimestampToken(dueDate, DateTime) else TimestampToken(dueDate, DateOnly), false)
  }

  /** The field's value is a timestamp token carrying exactly
      `getNotionDate(task.due)`, in the style the due string's length selects. */
  lemma TaskToEmbedToken(task: Task, parse: DateParser)
    ensures ParseToken(TaskToEmbed(task, parse).value) == Some((GetNotionDate(task.due, parse), StyleFor(task.due)))
  {
    NotionDateIsMillis(task.due, parse);
    TokenRoundTrip(NotionMillis(task.due, parse), StyleFor(task.due));
  }

  /** The style letter in a rendered value is `D` or `f`, nothing else, and
      which one depends on the due string's length alone. */
  lemma StyleLetterByLength(task: Task, parse: DateParser)
    ensures var v := TaskToEmbed(task, parse).value;
            |v| >= 6 && v[|v| - 2] == (if |task.due| == 10 then 'D' else 'f')
  {
    var v := TaskToEmbed(task, parse).value;
    var style := if |task.due| == 10 then DateOnly else DateTime;
    assert v == TimestampToken(NotionMillis(task.due, parse), style);
  }
}
