# HonkReminder: the daily due-date reminder, modelled in Dafny

HonkReminder is a scheduled job. Once a day it reads the tasks that one Notion database query returns (a single page of results, at most 100) and sorts them by how soon they are due. It then posts two Discord embeds, "Upcoming Due Dates!" and "Next 7 Days". When something is due within a day, it first sends a role mention (the "ping").

This project models the pure decision logic of that job, as written in `index.mjs`:

- **Due-date normalisation** (`getNotionDate`, module `NotionDate`). A due string of exactly ten characters is taken to be a bare calendar date. Its parsed instant is moved on by 14 400 000 ms (four hours, for the UTC-4 business zone) and by 86 399 000 ms (to the end of the day), then divided by 1000. Any other string is its parsed instant divided by 1000. Date parsing (`new Date(s).getTime()`) is a parameter `parse: string -> Option<int>`: milliseconds, or `None` for an Invalid Date.
- **JavaScript numbers** (module `JsNumber`). A Number is either a finite exact rational or `NaN`. Arithmetic propagates `NaN`, and every ordered comparison with `NaN` is false. A due string that does not parse therefore falls through both bucket tests and is dropped silently, as in `index.mjs`.
- **Rendering** (`taskToEmbed`, modules `Embed` and `DecimalText`). A task becomes an embed field: its name verbatim, the value `<t:SECONDS:STYLE>`, and `inline: false`. `SECONDS` is spelled the way a template literal spells the Number: an optional sign, the integer part, and up to three fraction digits with trailing zeros dropped, or `NaN`. `STYLE` is `D` for ten-character due strings and `f` otherwise. A parser for that token shape is the partner of the renderer: every rendered token reads back as exactly the instant and style it was written from.
- **Classification** (the `forEach` body of `sendUpdate`, module `Classify`). The three reference instants `today`, `threeDays` and `sevenDays` are inputs (`Clock`). Each task goes to the upcoming bucket when `today <= d <= threeDays`. Otherwise it goes to the long-term bucket when `threeDays <= d <= sevenDays`. Otherwise it is dropped. An upcoming task with `d - today <= 86400` raises the ping. `ClassifyTasks` is the loop. `Placed`, `Fields` and `AnyPings` are independent reference definitions written as a front-to-back filter and an existential. The loop is proved equal to them.

Three consequences of the code that its names and comments do not suggest:

- The two date-only shifts add up to 100 799 s, which is 27 h 59 min 59 s past UTC midnight: 23:59:59 in UTC-4, not 23:59. The constant is named "one day minus one minute" but is one day minus one second.
- So a run at UTC midnight does not ping for a date-only task due that same day. That task is 100 799 s away, beyond the 86 400 s ping window (`DateOnlyDueAtRunDoesNotPing`).
- The ping needs the task to be in the upcoming bucket, not merely due within 24 hours. An overdue task never pings. Neither does a task due within a day but beyond `threeDays`, should the clock ever place `threeDays` that close.

## Model

| member | source | states |
|---|---|---|
| NotionDate.GetNotionDate | index.mjs:45-58 | NaN exactly when the date does not parse; for a ten-character string the parsed instant in seconds plus exactly 100 799 s; for any other length the parsed instant in seconds, unshifted |
| NotionDate.NotionMillis | index.mjs:50-57 | the normalised instant in whole milliseconds differs from the parsed one by exactly 100 799 000 ms for ten-character strings and by nothing otherwise, and is absent exactly when parsing fails |
| NotionDate.NotionDateIsMillis | index.mjs:55-57 | `getNotionDate` is the normalised millisecond count divided by 1000, so it is always NaN or a whole number of milliseconds |
| NotionDate.OffsetByLengthAlone | index.mjs:50-57 | the shift depends on the length alone: two strings that parse to the same instant normalise alike when both or neither have length ten, and 100 799 s apart otherwise |
| Embed.TaskToEmbed | index.mjs:60-70 | the field copies the task name verbatim and is never inline |
| Embed.TaskToEmbedToken | index.mjs:60-69 | the field value is a timestamp token that reads back as exactly `getNotionDate(task.due)`, with style `D` when the due string has length ten and `f` otherwise |
| Embed.StyleLetterByLength | index.mjs:62-67 | the style letter in the value is `D` for a ten-character due string and `f` for every other; no other letter occurs |
| Embed.TokenRoundTrip | index.mjs:67 | reading a written `<t:…:…>` token gives back the instant and the style it was written from |
| DecimalText.SecondsTextRoundTrip | index.mjs:67 | the template-literal text of `ms / 1000`, or "NaN", reads back as the same Number |
| DecimalText.NatTextValue | index.mjs:67 | the decimal numeral of the integer part reads back as that integer |
| DecimalText.FractionTextValue | index.mjs:67 | the one to three fraction digits, trailing zeros dropped, read as exactly the remainder over 1000 |
| DecimalText.ThousandthsText | index.mjs:67 | the `${dueDate}` spelling of `k / 1000`: non-empty, with a leading minus sign exactly when the value is negative; the rest of the spelling (integer part, point, one to three fraction digits without trailing zeros) is fixed by its body, which matches JavaScript's Number-to-String for magnitudes below 1e21 |
| DecimalText.PointExactlyWhenFractional | index.mjs:67 | the written value contains a point exactly when it is not a whole number of seconds |
| DecimalText.SecondsText | index.mjs:67 | the interpolated text is "NaN" exactly when the date did not parse, and otherwise the `ThousandthsText` spelling |
| Embed.TimestampToken | index.mjs:67 | the token is the Number's text plus six framing characters, with the style letter just before the closing `>` |
| DecimalText.NatText | index.mjs:67 | the integer part is a non-empty run of digits that starts with `0` only for zero itself |
| Classify.Place | index.mjs:103-108 | upcoming exactly when `today <= d <= threeDays`; with ordered reference instants, long-term exactly when `threeDays < d <= sevenDays`, and dropped exactly when `d` is NaN, before `today` or after `sevenDays` |
| Classify.Pings | index.mjs:103-105 | a task raises the ping exactly when it is upcoming and due at most 86 400 s after `today`; a pinging task is always upcoming |
| Classify.BoundaryInstants | index.mjs:103-106 | a task due exactly at `today` is upcoming and pings; one due exactly at `threeDays` is upcoming, never long-term |
| Classify.ClassifyTasks | index.mjs:87-109 | the loop's buckets are the fields of exactly the tasks placed upcoming and long-term, in input order; the ping is raised exactly when some task pings; the buckets hold at most as many fields as there are tasks; no tasks gives two empty buckets and no ping |
| Classify.PlacedSnoc | index.mjs:92-109 | processing one more task appends it to the end of its own placement and to no other |
| Classify.PlacementPartition | index.mjs:92-109 | every task lands in exactly one of upcoming, long-term and dropped |
| Classify.PlacedMembers | index.mjs:103-108 | a task is in a placement's list exactly when some input position holds it and is placed there |
| Classify.PingOnlyFromUpcoming | index.mjs:90-105 | the ping is raised exactly when some task in the upcoming bucket is due within 86 400 s of `today`; long-term and dropped tasks never raise it |
| Classify.DateOnlyPingThreshold | index.mjs:52-56 | a date-only task parsed as `p` ms pings exactly when `p + 100 799 000` lies between `today` and `threeDays` and `p` is at least 14 399 000 ms before `today` |
| Classify.DateOnlyDueAtRunDoesNotPing | index.mjs:103-105 | a date-only task parsed as the very instant of the run does not ping, and is upcoming when `threeDays` reaches 100 799 s ahead |
| Classify.ThreeTaskScenario | index.mjs:92-108 | with the run at 2024-08-01T00:00:00Z and tasks due 2024-08-02, 2024-08-06 and 2024-08-20, the first is upcoming, the second long-term, the third dropped, and nothing pings |

## Left out

- Start-up checks of `DISCORD_TOKEN` and `NOTION_SECRET` and the `process.exit` calls (index.mjs:4-14): process configuration and I/O.
- `fetchTasks` (index.mjs:19-43): an HTTP request to the Notion API and untyped JSON field access. It sends one query and reads only `results`, with no pagination: `has_more` and `next_cursor` are never followed, so tasks beyond the first page of results are never read. Tasks arrive as a sequence of `Task(name, due)` values.
- The Discord client, the login and ready event, the channel fetch, `EmbedBuilder` with its titles and colours, and `channel.send` (index.mjs:75-86, 111-130). These are a foreign library and network I/O. The model's outputs are the two buckets and the ping flag. The two embed titles and the role mention are not modelled.
- The cron trigger (index.mjs:134-137): external scheduling.
- `new Date(string)` parsing: a parameter of the model, never interpreted.
- Calendar arithmetic with `setDate` (index.mjs:94-101): `today`, `threeDays` and `sevenDays` are inputs. Two quirks of `index.mjs` go with this. `setDate(todayDate + 7)` is applied to a cursor already moved by three days, so near a month's end it is not a seven-day offset. The clock is also read afresh for every task. The model reads one clock per run.
- Floating point: Numbers are exact rationals. JavaScript's doubles round `x / 1000`, and they stop telling thousandths apart near 8.64e12 s. Neither matters for present-day instants. Number-to-text is modelled only for the values this job produces: whole milliseconds over 1000, or NaN.
- String length: JavaScript's `length` counts UTF-16 code units, while the model counts characters. The two agree on the ASCII strings Notion writes for dates.
- Classify.Place: the long-term and dropped characterisations are stated under the hypothesis that `today <= threeDays <= sevenDays`. The calendar arithmetic guarantees that order, and the model does not compute it.
- DecimalText.ThousandthsText: its contract states only the sign and (through `PointExactlyWhenFractional`) the point; that the remaining digits match JavaScript's Number-to-String rests on the body, and only for magnitudes below 1e21 (JavaScript switches to exponent notation there; no date reaches it).
