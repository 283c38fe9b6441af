/**
 * The Eisenhower matrix: four independent filters over a task list,
 * keyed on priority (4 = most urgent) and on whether the due date falls
 * before "now plus one day", where each filter reads the clock afresh.
 * A task may land in more than one quadrant and, for priorities outside
 * 1..4 or a due instant between two readings, in none.
 */
module Eisenhower {
  import opened Wrappers
  import opened Sequences

  /** One day in milliseconds: the urgency horizon. */
  const DayMs: int := 86400000

  /** The most items a quadrant lists before its "+n more" line. */
  const QuadrantLimit: nat := 5

  /** A task of the flat task provider; `due` is the due instant in milliseconds, when it has one. */
  datatype Task = Task(id: string, content: string, priority: int, due: Option<int>)

  datatype Quadrant = UrgentImportant | NotUrgentImportant | UrgentNotImportant | NotUrgentNotImportant

  /** The due instant lies before the threshold (a task without a due date is never due before it). */
  predicate DueBefore(t: Task, threshold: int)
  {
    t.due.Some? && t.due.value < threshold
  }

  /** A task with no due date, or one not due before the threshold. */
  predicate NotDueBefore(t: Task, threshold: int)
  {
    t.due.None? || t.due.value >= threshold
  }

  /** Each quadrant's own filter predicate. */
  predicate InQuadrant(q: Quadrant, t: Task, threshold: int)
  {
    match q
    case UrgentImportant => t.priority == 4 || DueBefore(t, threshold)
    case NotUrgentImportant => t.priority == 3 && NotDueBefore(t, threshold)
    case UrgentNotImportant => t.priority == 2 && DueBefore(t, threshold)
    case NotUrgentNotImportant => t.priority <= 2 && NotDueBefore(t, threshold)
  }

  /** The filter of quadrant `q`, with the threshold taken at `now`. */
  function QuadrantTest(q: Quadrant, now: int): Task -> bool
  {
    t => InQuadrant(q, t, now + DayMs)
  }

  /** Tasks listed in quadrant `q` at time `now`. */
  function QuadrantTasks(tasks: seq<Task>, q: Quadrant, now: int): seq<Task>
  {
    Filter(tasks, QuadrantTest(q, now))
  }

  /** A quadrant lists a task exactly when it is in the list and satisfies that quadrant's predicate. */
  lemma QuadrantMembers(tasks: seq<Task>, q: Quadrant, now: int, t: Task)
    ensures t in QuadrantTasks(tasks, q, now) <==> t in tasks && InQuadrant(q, t, now + DayMs)
  {
    if t in tasks && InQuadrant(q, t, now + DayMs) {
      var i :| 0 <= i < |tasks| && tasks[i] == t;
    }
    if t in QuadrantTasks(tasks, q, now) {
      var i :| 0 <= i < |QuadrantTasks(tasks, q, now)| && QuadrantTasks(tasks, q, now)[i] == t;
    }
  }

  /** Each quadrant keeps input order: classifying a concatenation classifies each part in turn. */
  lemma QuadrantsKeepOrder(a: seq<Task>, b: seq<Task>, q: Quadrant, now: int)
    ensures QuadrantTasks(a + b, q, now) == QuadrantTasks(a, q, now) + QuadrantTasks(b, q, now)
    ensures |QuadrantTasks(a, q, now)| <= |a|
  {
    FilterAppend(a, b, QuadrantTest(q, now));
  }

  /** A priority-4 task is in "Do First" whatever its due date. */
  lemma PriorityFourDoFirst(tasks: seq<Task>, now: int, t: Task)
    requires t in tasks && t.priority == 4
    ensures t in QuadrantTasks(tasks, UrgentImportant, now)
  {
    QuadrantMembers(tasks, UrgentImportant, now, t);
  }

  /**
   * The clock readings behind one rendering of the matrix. Each filter calls
   * `Date.now()` afresh, so the four quadrants may see different instants.
   */
  datatype Readings = Readings(doFirst: int, schedule: int, delegate: int, eliminate: int)

  /** The reading the filter of quadrant `q` sees. */
  function ReadingOf(c: Readings, q: Quadrant): int
  {
    match q
    case UrgentImportant => c.doFirst
    case NotUrgentImportant => c.schedule
    case UrgentNotImportant => c.delegate
    case NotUrgentNotImportant => c.eliminate
  }

  /** The list quadrant `q` shows, built with its own clock reading. */
  function Listed(tasks: seq<Task>, q: Quadrant, c: Readings): seq<Task>
  {
    QuadrantTasks(tasks, q, ReadingOf(c, q))
  }

  /** "Do First" and "Schedule" never share a task while the clock does not run back; "Schedule" and "Eliminate" never do. */
  lemma DisjointQuadrants(tasks: seq<Task>, c: Readings, t: Task)
    ensures c.doFirst <= c.schedule ==>
      !(t in Listed(tasks, UrgentImportant, c) && t in Listed(tasks, NotUrgentImportant, c))
    ensures !(t in Listed(tasks, NotUrgentImportant, c) && t in Listed(tasks, NotUrgentNotImportant, c))
  {
    QuadrantMembers(tasks, UrgentImportant, c.doFirst, t);
    QuadrantMembers(tasks, NotUrgentImportant, c.schedule, t);
    QuadrantMembers(tasks, NotUrgentNotImportant, c.eliminate, t);
  }

  /** A priority-2 task due within a day of both readings is listed twice: in "Do First" and in "Delegate". */
  lemma PriorityTwoDueSoonOverlaps(tasks: seq<Task>, c: Readings, t: Task)
    requires t in tasks && t.priority == 2
    requires DueBefore(t, c.doFirst + DayMs) && DueBefore(t, c.delegate + DayMs)
    ensures t in Listed(tasks, UrgentImportant, c)
    ensures t in Listed(tasks, UrgentNotImportant, c)
  {
    QuadrantMembers(tasks, UrgentImportant, c.doFirst, t);
    QuadrantMembers(tasks, UrgentNotImportant, c.delegate, t);
  }

  /** So the four lists are not a partition: a single such task is listed twice in all. */
  lemma NotAPartition(c: Readings)
    requires c.doFirst <= c.delegate && c.doFirst <= c.eliminate
    ensures var tasks := [Task("t", "", 2, Some(c.doFirst))];
      |Listed(tasks, UrgentImportant, c)| + |Listed(tasks, NotUrgentImportant, c)| +
      |Listed(tasks, UrgentNotImportant, c)| + |Listed(tasks, NotUrgentNotImportant, c)| == 2
  {
    var t := Task("t", "", 2, Some(c.doFirst));
    SingletonListed(t, UrgentImportant, c);
    SingletonListed(t, NotUrgentImportant, c);
    SingletonListed(t, UrgentNotImportant, c);
    SingletonListed(t, NotUrgentNotImportant, c);
  }

  /** A one-task list shows the task in quadrant `q` exactly when it meets that quadrant's predicate. */
  lemma SingletonListed(t: Task, q: Quadrant, c: Readings)
    ensures |Listed([t], q, c)| == if InQuadrant(q, t, ReadingOf(c, q) + DayMs) then 1 else 0
  {
    FilterSingleton(t, QuadrantTest(q, ReadingOf(c, q)));
  }

  /** The due instant lies between the thresholds of two filters' readings. */
  predicate DueBetweenReadings(t: Task, c: Readings)
  {
    t.due.Some? && exists q1, q2 :: ReadingOf(c, q1) + DayMs <= t.due.value < ReadingOf(c, q2) + DayMs
  }

  /**
   * A task with a priority in 1..4 is listed in some quadrant, unless its
   * due instant falls between the thresholds of two filters' clock readings.
   */
  lemma EveryRankedTaskListed(tasks: seq<Task>, c: Readings, t: Task)
    requires t in tasks && 1 <= t.priority <= 4
    ensures (exists q :: t in Listed(tasks, q, c)) || DueBetweenReadings(t, c)
  {
    var q := UrgentImportant;
    if t.priority == 4 || DueBefore(t, c.doFirst + DayMs) {
    } else if t.priority == 3 {
      q := NotUrgentImportant;
      if t.due.Some? && t.due.value < c.schedule + DayMs {
        assert ReadingOf(c, UrgentImportant) + DayMs <= t.due.value < ReadingOf(c, NotUrgentImportant) + DayMs;
      }
    } else if t.priority == 2 && DueBefore(t, c.delegate + DayMs) {
      q := UrgentNotImportant;
    } else {
      q := NotUrgentNotImportant;
      if t.due.Some? && t.due.value < c.eliminate + DayMs {
        assert ReadingOf(c, UrgentImportant) + DayMs <= t.due.value < ReadingOf(c, NotUrgentNotImportant) + DayMs;
      }
    }
    QuadrantMembers(tasks, q, ReadingOf(c, q), t);
    if InQuadrant(q, t, ReadingOf(c, q) + DayMs) {
      assert t in Listed(tasks, q, c);
    }
  }

  /** With one reading for all four filters there is no gap: every task with a priority in 1..4 is listed. */
  lemma OneReadingListsEveryRankedTask(tasks: seq<Task>, now: int, t: Task)
    requires t in tasks && 1 <= t.priority <= 4
    ensures exists q :: t in Listed(tasks, q, Readings(now, now, now, now))
  {
    EveryRankedTaskListed(tasks, Readings(now, now, now, now), t);
  }

  /** A priority-3 task due exactly one day after the first reading, with the clock a millisecond on for the rest, is listed nowhere. */
  lemma ClockGapUnlisted(now: int, t: Task, c: Readings)
    requires t == Task("t", "", 3, Some(now + DayMs)) && c == Readings(now, now + 1, now + 1, now + 1)
    ensures forall q :: Listed([t], q, c) == []
  {
    forall q ensures Listed([t], q, c) == [] {
      FilterSingleton(t, QuadrantTest(q, ReadingOf(c, q)));
      assert !QuadrantTest(q, ReadingOf(c, q))(t);
    }
  }

  /** A task of priority 2 or lower with no due date is listed only under "Eliminate", whatever the readings. */
  lemma UndatedLowPriorityOnlyEliminate(tasks: seq<Task>, c: Readings, t: Task)
    requires t in tasks && t.priority <= 2 && t.due.None?
    ensures forall q :: t in Listed(tasks, q, c) <==> q == NotUrgentNotImportant
  {
    forall q ensures t in Listed(tasks, q, c) <==> q == NotUrgentNotImportant {
      QuadrantMembers(tasks, q, ReadingOf(c, q), t);
    }
  }

  /** A quadrant shows at most five tasks, the first five it lists, and "+k more" for the rest. */
  lemma QuadrantDisplay(tasks: seq<Task>, q: Quadrant, now: int)
    ensures var listed := QuadrantTasks(tasks, q, now);
      |Shown(listed, QuadrantLimit)| == (if |listed| <= 5 then |listed| else 5) && Shown(listed, QuadrantLimit) <= listed &&
      (MoreCount(listed, QuadrantLimit) > 0 <==> |listed| > 5) &&
      (|listed| > 5 ==> MoreCount(listed, QuadrantLimit) == |listed| - 5) &&
      |Shown(listed, QuadrantLimit)| + MoreCount(listed, QuadrantLimit) == |listed|
  {
    ShownPlusMore(QuadrantTasks(tasks, q, now), QuadrantLimit);
  }
}
