/**
 * The bucketing pass of `sendUpdate`: every task's normalised due instant
 * is compared with three reference instants, and the first matching rule
 * puts the task into the "Upcoming Due Dates!" bucket (today to three days
 * out), the "Next 7 Days" bucket (three to seven days out) or nowhere. An
 * upcoming task due within 86 400 seconds raises the role ping. Both
 * buckets keep the input order.
 */
module Classify {
  import opened Wrappers
  import opened JsNumber
  import opened NotionDate
  import opened Embed

  /** The three reference instants, in milliseconds, as the run's clock gives them. */
  datatype Clock = Clock(todayMs: int, threeDaysMs: int, sevenDaysMs: int)
  {
    function Today(): Num { MillisToSeconds(Some(todayMs)) }
    function ThreeDays(): Num { MillisToSeconds(Some(threeDaysMs)) }
    function SevenDays(): Num { MillisToSeconds(Some(sevenDaysMs)) }

    /** What the calendar arithmetic guarantees: the three instants are ordered. */
    predicate Ordered() { todayMs <= threeDaysMs <= sevenDaysMs }
  }

  datatype Placement = Upcoming | LongTerm | Dropped

  /** Seconds within which an upcoming task triggers the role ping. */
  const PingWindowSeconds: real := 86400.0

  /** The normalised due instant of a task. */
  function DueOf(task: Task, parse: DateParser): Num {
    GetNotionDate(task.due, parse)
  }

  /** Where a task due at `d` goes; the first matching rule wins. */
  function Place(d: Num, c: Clock): (p: Placement)
    ensures p == Upcoming <==> d.Finite? && c.Today().v <= d.v <= c.ThreeDays().v
    ensures c.todayMs <= c.threeDaysMs ==>
              (p == LongTerm <==> d.Finite? && c.ThreeDays().v < d.v <= c.SevenDays().v)
    ensures c.Ordered() ==>
              (p == Dropped <==> d.NaN? || d.v < c.Today().v || c.SevenDays().v < d.v)
  {
    if GreaterEq(d, c.Today()) && LessEq(d, c.ThreeDays()) then Upcoming
    else if GreaterEq(d, c.ThreeDays()) && LessEq(d, c.SevenDays()) then LongTerm
    else Dropped
  }

  /** Whether a task due at `d` raises the ping: only an upcoming task, due
      no earlier than today and at most a day later. */
  predicate Pings(d: Num, c: Clock)
    ensures Pings(d, c) ==> Place(d, c) == Upcoming
    ensures Pings(d, c) <==> d.Finite? && c.Today().v <= d.v <= c.ThreeDays().v
                              && d.v - c.Today().v <= PingWindowSeconds
  {
    Place(d, c) == Upcoming && LessEq(Sub(d, c.Today()), Finite(PingWindowSeconds))
  }

  /** Reference definition: the tasks placed in `p`, in input order. */
  function Placed(tasks: seq<Task>, c: Clock, parse: DateParser, p: Placement): seq<Task>
  {
    if |tasks| == 0 then []
    else (if Place(DueOf(tasks[0], parse), c) == p then [tasks[0]] else []) + Placed(tasks[1..], c, parse, p)
  }

  /** The embed fields of a sequence of tasks, in order. */
  function Fields(tasks: seq<Task>, parse: DateParser): seq<Field>
  {
    if |tasks| == 0 then [] else [TaskToEmbed(tasks[0], parse)] + Fields(tasks[1..], parse)
  }

  /** Reference definition of the ping flag: some task pings. */
  predicate AnyPings(tasks: seq<Task>, c: Clock, parse: DateParser) {
    exists j :: 0 <= j < |tasks| && Pings(DueOf(tasks[j], parse), c)
  }

  /** Placing one more task appends it, or nothing, at the end. */
  lemma {:induction false} PlacedSnoc(tasks: seq<Task>, t: Task, c: Clock, parse: DateParser, p: Placement)
    ensures Placed(tasks + [t], c, parse, p) ==
              Placed(tasks, c, parse, p) + (if Place(DueOf(t, parse), c) == p then [t] else [])
    decreases |tasks|
  {
    if |tasks| == 0 {
      assert tasks + [t] == [t];
    } else {
      assert (tasks + [t])[0] == tasks[0];
      assert (tasks + [t])[1..] == tasks[1..] + [t];
      PlacedSnoc(tasks[1..], t, c, parse, p);
    }
  }

  lemma {:induction false} FieldsSnoc(tasks: seq<Task>, t: Task, parse: DateParser)
    ensures Fields(tasks + [t], parse) == Fields(tasks, parse) + [TaskToEmbed(t, parse)]
    decreases |tasks|
  {
    if |tasks| == 0 {
      assert tasks + [t] == [t];
    } else {
      assert (tasks + [t])[0] == tasks[0];
      assert (tasks + [t])[1..] == tasks[1..] + [t];
      FieldsSnoc(tasks[1..], t, parse);
    }
  }

  lemma {:induction false} FieldsLength(tasks: seq<Task>, parse: DateParser)
    ensures |Fields(tasks, parse)| == |tasks|
    decreases |tasks|
  {
    if |tasks| > 0 {
      FieldsLength(tasks[1..], parse);
    }
  }

  lemma AnyPingsSnoc(tasks: seq<Task>, t: Task, c: Clock, parse: DateParser)
    ensures AnyPings(tasks + [t], c, parse) <==> AnyPings(tasks, c, parse) || Pings(DueOf(t, parse), c)
  {
    var ts := tasks + [t];
    if AnyPings(ts, c, parse) {
      var j :| 0 <= j < |ts| && Pings(DueOf(ts[j], parse), c);
      if j < |tasks| {
        assert ts[j] == tasks[j];
      }
    }
    if AnyPings(tasks, c, parse) {
      var j :| 0 <= j < |tasks| && Pings(DueOf(tasks[j], parse), c);
      assert ts[j] == tasks[j];
    }
    if Pings(DueOf(t, parse), c) {
      assert ts[|tasks|] == t;
    }
  }

  /** Extending the processed prefix by one task appends that task's field
      to the bucket it is placed in, and nothing to the other. */
  lemma BucketStep(tasks: seq<Task>, i: nat, c: Clock, parse: DateParser, p: Placement)
    requires i < |tasks|
    ensures Fields(Placed(tasks[..i + 1], c, parse, p), parse) ==
              Fields(Placed(tasks[..i], c, parse, p), parse) +
              (if Place(DueOf(tasks[i], parse), c) == p then [TaskToEmbed(tasks[i], parse)] else [])
  {
    var t := tasks[i];
    var before := Placed(tasks[..i], c, parse, p);
    assert tasks[..i + 1] == tasks[..i] + [t];
    PlacedSnoc(tasks[..i], t, c, parse, p);
    if Place(DueOf(t, parse), c) == p {
      FieldsSnoc(before, t, parse);
    } else {
      assert before + [] == before;
    }
  }

  /** Extending the processed prefix by one task extends the ping flag by that task's ping. */
  lemma PingStep(tasks: seq<Task>, i: nat, c: Clock, parse: DateParser)
    requires i < |tasks|
    ensures AnyPings(tasks[..i + 1], c, parse) <==>
              AnyPings(tasks[..i], c, parse) || Pings(DueOf(tasks[i], parse), c)
  {
    assert tasks[..i + 1] == tasks[..i] + [tasks[i]];
    AnyPingsSnoc(tasks[..i], tasks[i], c, parse);
  }

  /** Every task lands in exactly one of the three placements. */
  lemma {:induction false} PlacementPartition(tasks: seq<Task>, c: Clock, parse: DateParser)
    ensures |Placed(tasks, c, parse, Upcoming)| + |Placed(tasks, c, parse, LongTerm)|
              + |Placed(tasks, c, parse, Dropped)| == |tasks|
    decreases |tasks|
  {
    if |tasks| > 0 {
      PlacementPartition(tasks[1..], c, parse);
    }
  }

  /** A task is in a placement's list exactly when some input position holding it is placed there. */
  lemma {:induction false} PlacedMembers(tasks: seq<Task>, c: Clock, parse: DateParser, p: Placement, t: Task)
    ensures t in Placed(tasks, c, parse, p) <==>
              exists j :: 0 <= j < |tasks| && tasks[j] == t && Place(DueOf(tasks[j], parse), c) == p
    decreases |tasks|
  {
    if |tasks| > 0 {
      PlacedMembers(tasks[1..], c, parse, p, t);
      if t in Placed(tasks[1..], c, parse, p) {
        var j :| 0 <= j < |tasks[1..]| && tasks[1..][j] == t && Place(DueOf(tasks[1..][j], parse), c) == p;
        assert tasks[j + 1] == t;
      }
      if exists j :: 0 <= j < |tasks| && tasks[j] == t && Place(DueOf(tasks[j], parse), c) == p {
        var j :| 0 <= j < |tasks| && tasks[j] == t && Place(DueOf(tasks[j], parse), c) == p;
        if j > 0 {
          assert tasks[1..][j - 1] == t;
        }
      }
    }
  }

  /** The ping flag is raised exactly when some task in the upcoming bucket is
      due within a day of today; long-term and dropped tasks never raise it. */
  lemma PingOnlyFromUpcoming(tasks: seq<Task>, c: Clock, parse: DateParser)
    ensures AnyPings(tasks, c, parse) <==>
              exists t :: t in Placed(tasks, c, parse, Upcoming) &&
                LessEq(Sub(DueOf(t, parse), c.Today()), Finite(PingWindowSeconds))
  {
    if AnyPings(tasks, c, parse) {
      var j :| 0 <= j < |tasks| && Pings(DueOf(tasks[j], parse), c);
      PlacedMembers(tasks, c, parse, Upcoming, tasks[j]);
    }
    if exists t :: t in Placed(tasks, c, parse, Upcoming) &&
         LessEq(Sub(DueOf(t, parse), c.Today()), Finite(PingWindowSeconds)) {
      var t :| t in Placed(tasks, c, parse, Upcoming) &&
               LessEq(Sub(DueOf(t, parse), c.Today()), Finite(PingWindowSeconds));
      PlacedMembers(tasks, c, parse, Upcoming, t);
    }
  }

  /** The `forEach` body of `sendUpdate`, run over every task: the two buckets
      of embed fields, in input order, and the ping flag. */
  method ClassifyTasks(tasks: seq<Task>, c: Clock, parse: DateParser)
    returns (upcoming: seq<Field>, longTerm: seq<Field>, ping: bool)
    ensures upcoming == Fields(Placed(tasks, c, parse, Upcoming), parse)
    ensures longTerm == Fields(Placed(tasks, c, parse, LongTerm), parse)
    ensures ping <==> AnyPings(tasks, c, parse)
    ensures |upcoming| + |longTerm| <= |tasks|
    ensures tasks == [] ==> upcoming == [] && longTerm == [] && !ping
  {
    upcoming, longTerm := [], [];
    ping := false;
    var today, threeDays, sevenDays := c.Today(), c.ThreeDays(), c.SevenDays();
    var i := 0;
    while i < |tasks|
      invariant 0 <= i <= |tasks|
      invariant upcoming == Fields(Placed(tasks[..i], c, parse, Upcoming), parse)
      invariant longTerm == Fields(Placed(tasks[..i], c, parse, LongTerm), parse)
      invariant ping <==> AnyPings(tasks[..i], c, parse)
    {
      var task := tasks[i];
      var taskDue := GetNotionDate(task.due, parse);
      BucketStep(tasks, i, c, parse, Upcoming);
      BucketStep(tasks, i, c, parse, LongTerm);
      PingStep(tasks, i, c, parse);
      if GreaterEq(taskDue, today) && LessEq(taskDue, threeDays) {
        upcoming := upcoming + [TaskToEmbed(task, parse)];
        if LessEq(Sub(taskDue, today), Finite(PingWindowSeconds)) {
          ping := true;
        }
      } else if GreaterEq(taskDue, threeDays) && LessEq(taskDue, sevenDays) {
        longTerm := longTerm + [TaskToEmbed(task, parse)];
      }
      i := i + 1;
    }
    assert tasks[..|tasks|] == tasks;
    PlacementPartition(tasks, c, parse);
    FieldsLength(Placed(tasks, c, parse, Upcoming), parse);
    FieldsLength(Placed(tasks, c, parse, LongTerm), parse);
  }

  /** A task due exactly at `today` is upcoming and pings; one due exactly at
      `threeDays` is upcoming, never long-term, since the first rule wins. */
  lemma BoundaryInstants(c: Clock)
    requires c.todayMs <= c.threeDaysMs
    ensures Place(c.Today(), c) == Upcoming && Pings(c.Today(), c)
    ensures Place(c.ThreeDays(), c) == Upcoming
  {
  }

  /** A date-only task whose date the parser reads as `p` milliseconds pings
      exactly when its end-of-day instant is not yet past, lies within the
      three-day window, and `p` is at least 14 399 seconds before the run. */
  lemma DateOnlyPingThreshold(task: Task, c: Clock, parse: DateParser, p: int)
    requires IsDateOnly(task.due) && parse(task.due) == Some(p)
    ensures Pings(DueOf(task, parse), c) <==>
              c.todayMs <= p + 100799000 <= c.threeDaysMs && p <= c.todayMs - 14399000
  {
    var d := DueOf(task, parse);
    assert d.v == (p + 100799000) as real / 1000.0;
    assert d.v - c.Today().v == (p + 100799000 - c.todayMs) as real / 1000.0;
  }

  /** So a date-only task read as the very instant of the run (a run at UTC
      midnight on the due date) lands in the upcoming bucket when three days
      reach that far, yet does not ping: it is 100 799 seconds away. */
  lemma DateOnlyDueAtRunDoesNotPing(task: Task, c: Clock, parse: DateParser)
    requires IsDateOnly(task.due) && parse(task.due) == Some(c.todayMs)
    ensures !Pings(DueOf(task, parse), c)
    ensures c.todayMs + 100799000 <= c.threeDaysMs ==> Place(DueOf(task, parse), c) == Upcoming
  {
    DateOnlyPingThreshold(task, c, parse, c.todayMs);
  }

  /** The parser's readings of the three due dates of the scenario below
      (UTC midnight, as `new Date` reads a bare ISO date). */
  function ScenarioParse(s: string): Option<int> {
    if s == "2024-08-02" then Some(1722556800000)
    else if s == "2024-08-06" then Some(1722902400000)
    else if s == "2024-08-20" then Some(1724112000000)
    else None
  }

  /** Three date-only tasks, a run at 2024-08-01T00:00:00Z with the reference
      instants three and seven days on: the first is upcoming, the second
      long-term, the third dropped, and nothing pings. */
  lemma ThreeTaskScenario()
    ensures var a, b, d := Task("A", "2024-08-02"), Task("B", "2024-08-06"), Task("C", "2024-08-20");
            var c := Clock(1722470400000, 1722729600000, 1723075200000);
            Placed([a, b, d], c, ScenarioParse, Upcoming) == [a] &&
            Placed([a, b, d], c, ScenarioParse, LongTerm) == [b] &&
            !AnyPings([a, b, d], c, ScenarioParse)
  {
    var a, b, d := Task("A", "2024-08-02"), Task("B", "2024-08-06"), Task("C", "2024-08-20");
    var c := Clock(1722470400000, 1722729600000, 1723075200000);
    var ts := [a, b, d];
    assert Place(DueOf(a, ScenarioParse), c) == Upcoming;
    assert Place(DueOf(b, ScenarioParse), c) == LongTerm;
    assert Place(DueOf(d, ScenarioParse), c) == Dropped;
    assert ts[1..] == [b, d] && ts[1..][1..] == [d] && ts[1..][1..][1..] == [];
    assert Placed([d], c, ScenarioParse, Upcoming) == [];
    assert Placed([d], c, ScenarioParse, LongTerm) == [];
    assert Placed([b, d], c, ScenarioParse, Upcoming) == [];
    assert Placed([b, d], c, ScenarioParse, LongTerm) == [b];
    assert !Pings(DueOf(a, ScenarioParse), c);
    assert forall j :: 0 <= j < |ts| ==> !Pings(DueOf(ts[j], ScenarioParse), c);
  }
}
