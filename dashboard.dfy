/**
 * The dashboard's counters and small classifiers (`App`): the statistics
 * record each loader updates, the due-date class of a task, the priority
 * badge, the quick-add guard and the error texts shown when a load fails.
 * The clock is a parameter `now` (milliseconds, local time).
 */
module Dashboard {
  import opened Wrappers
  import Outline
  import Eisenhower
  import Calendar
  import CivilDate
  import JsString
  import Pomodoro
  import Sequences

  // ---------------------------------------------------------------------------
  // Statistics
  // ---------------------------------------------------------------------------

  /**
   * The statistics record. `dynalistItems` is absent until the first outline
   * load, since the initial record does not have that field.
   */
  datatype Stats = Stats(
    totalTasks: nat,
    completedToday: nat,
    upcomingEvents: nat,
    totalDocs: nat,
    dynalistItems: Option<nat>)

  /** The data a loader passes to `updateStats`, by source; `None` is a missing (falsy) payload. */
  datatype Update =
    | TodoistTasks(tasks: Option<seq<Eisenhower.Task>>)
    | DynalistDocuments(docs: Option<seq<Outline.ParsedDocument>>)
    | CalendarEvents(events: Option<seq<Calendar.Event>>)

  /** The record the dashboard starts with: every counter zero, no outline count yet. */
  function InitialStats(): (s: Stats)
    ensures s.totalTasks == 0 && s.completedToday == 0 && s.upcomingEvents == 0 && s.totalDocs == 0
    ensures s.dynalistItems.None?
  {
    Stats(0, 0, 0, 0, None)
  }

  /** The number of top-level outline entries over all documents; descendants are not counted. */
  function TotalItems(docs: seq<Outline.ParsedDocument>): nat
  {
    if docs == [] then 0 else TotalItems(docs[..|docs| - 1]) + |docs[|docs| - 1].tasks.roots|
  }

  /** The number of entries of any depth over all documents. */
  function TotalEntries(docs: seq<Outline.ParsedDocument>): nat
  {
    if docs == [] then 0 else TotalEntries(docs[..|docs| - 1]) + |docs[|docs| - 1].tasks.entries|
  }

  /** The record after `updateStats`: a copy of the previous one with the fields of the update's source overwritten. */
  function StatsAfter(prev: Stats, u: Update): Stats
  {
    match u
    case TodoistTasks(tasks) =>
      if tasks.Some? then prev.(totalTasks := |tasks.value|) else prev
    case CalendarEvents(events) =>
      if events.Some? then prev.(upcomingEvents := |events.value|) else prev
    case DynalistDocuments(docs) =>
      if docs.Some? then prev.(totalDocs := |docs.value|, dynalistItems := Some(TotalItems(docs.value))) else prev
  }

  /** `updateStats`: copy the record, overwrite the counters of the source, summing top-level entries document by document. */
  method UpdateStats(prev: Stats, u: Update) returns (newStats: Stats)
    ensures newStats == StatsAfter(prev, u)
  {
    newStats := prev;
    if u.TodoistTasks? && u.tasks.Some? {
      newStats := newStats.(totalTasks := |u.tasks.value|);
    }
    if u.CalendarEvents? && u.events.Some? {
      newStats := newStats.(upcomingEvents := |u.events.value|);
    }
    if u.DynalistDocuments? && u.docs.Some? {
      var docs := u.docs.value;
      newStats := newStats.(totalDocs := |docs|);
      var totalItems := 0;
      var i := 0;
      while i < |docs|
        invariant 0 <= i <= |docs|
        invariant totalItems == TotalItems(docs[..i])
      {
        assert docs[..i + 1][..i] == docs[..i];
        totalItems := totalItems + |docs[i].tasks.roots|;
        i := i + 1;
      }
      assert docs[..|docs|] == docs;
      newStats := newStats.(dynalistItems := Some(totalItems));
    }
  }

  /**
   * An update touches only its own source's counters: `completedToday` never
   * changes, and a missing payload changes nothing.
   */
  lemma StatsAfterFrame(prev: Stats, u: Update)
    ensures StatsAfter(prev, u).completedToday == prev.completedToday
    ensures !u.TodoistTasks? ==> StatsAfter(prev, u).totalTasks == prev.totalTasks
    ensures !u.CalendarEvents? ==> StatsAfter(prev, u).upcomingEvents == prev.upcomingEvents
    ensures !u.DynalistDocuments? ==>
      StatsAfter(prev, u).totalDocs == prev.totalDocs && StatsAfter(prev, u).dynalistItems == prev.dynalistItems
    ensures ((u.TodoistTasks? && u.tasks.None?) || (u.CalendarEvents? && u.events.None?) ||
             (u.DynalistDocuments? && u.docs.None?)) ==> StatsAfter(prev, u) == prev
  {
  }

  /** Each source sets its counters to the sizes of what it loaded. */
  lemma StatsAfterCounts(prev: Stats, u: Update)
    ensures u.TodoistTasks? && u.tasks.Some? ==> StatsAfter(prev, u).totalTasks == |u.tasks.value|
    ensures u.CalendarEvents? && u.events.Some? ==> StatsAfter(prev, u).upcomingEvents == |u.events.value|
    ensures u.DynalistDocuments? && u.docs.Some? ==>
      StatsAfter(prev, u).totalDocs == |u.docs.value| &&
      StatsAfter(prev, u).dynalistItems == Some(TotalItems(u.docs.value))
  {
  }

  /** Which source an update comes from. */
  predicate SameSource(u: Update, v: Update)
  {
    (u.TodoistTasks? && v.TodoistTasks?) || (u.CalendarEvents? && v.CalendarEvents?) ||
    (u.DynalistDocuments? && v.DynalistDocuments?)
  }

  /**
   * The three loaders run concurrently and may finish in any order: updates
   * from different sources give the same record whichever lands first.
   */
  lemma UpdatesCommute(s: Stats, u: Update, v: Update)
    requires !SameSource(u, v)
    ensures StatsAfter(StatsAfter(s, u), v) == StatsAfter(StatsAfter(s, v), u)
  {
  }

  /** A later load from a source replaces the earlier one's counters; repeating a load changes nothing. */
  lemma LaterLoadWins(s: Stats, u: Update, v: Update)
    requires SameSource(u, v)
    requires (u.TodoistTasks? && u.tasks.Some?) || (u.CalendarEvents? && u.events.Some?) ||
             (u.DynalistDocuments? && u.docs.Some?)
    ensures StatsAfter(StatsAfter(s, v), u) == StatsAfter(s, u)
    ensures StatsAfter(StatsAfter(s, u), u) == StatsAfter(s, u)
  {
  }

  /** The record after a run of updates, in the order they land. */
  function ApplyAll(s: Stats, us: seq<Update>): Stats
  {
    if us == [] then s else StatsAfter(ApplyAll(s, us[..|us| - 1]), us[|us| - 1])
  }

  /** No update path changes `completedToday`: it stays 0 from the initial record on. */
  lemma {:induction false} CompletedTodayStaysZero(us: seq<Update>)
    ensures ApplyAll(InitialStats(), us).completedToday == 0
  {
    if us != [] {
      CompletedTodayStaysZero(us[..|us| - 1]);
      StatsAfterFrame(ApplyAll(InitialStats(), us[..|us| - 1]), us[|us| - 1]);
    }
  }

  /** When every document has no more top-level entries than entries, neither do all of them together. */
  lemma {:induction false} TotalItemsBounded(docs: seq<Outline.ParsedDocument>)
    requires forall i :: 0 <= i < |docs| ==> |docs[i].tasks.roots| <= |docs[i].tasks.entries|
    ensures TotalItems(docs) <= TotalEntries(docs)
  {
    if docs != [] {
      var prefix := docs[..|docs| - 1];
      assert forall i :: 0 <= i < |prefix| ==> prefix[i] == docs[i];
      TotalItemsBounded(prefix);
    }
  }

  /**
   * The outline count of the documents route's result: with unique node ids in
   * each document it is at most the number of retained entries of any depth.
   */
  lemma DynalistItemsAtMostEntries(raw: seq<Outline.RawDocument>)
    requires forall i :: 0 <= i < |raw| ==> Outline.UniqueIds(raw[i].nodes)
    ensures TotalItems(Outline.ParseDocuments(raw)) <= TotalEntries(Outline.ParseDocuments(raw))
  {
    var docs := Outline.ParseDocuments(raw);
    forall i | 0 <= i < |docs|
      ensures |docs[i].tasks.roots| <= |docs[i].tasks.entries|
    {
      Outline.RootsDistinctAndBounded(raw[i].nodes);
    }
    TotalItemsBounded(docs);
  }

  /** An entry listed under another non-root node is not counted: such a document counts fewer items than entries. */
  lemma NestedEntryNotCounted(nodes: seq<Outline.RawNode>, x: string)
    requires Outline.UniqueIds(nodes)
    requires x in Outline.Parse(nodes).entries && !Outline.IsTopLevel(nodes, x)
    ensures |Outline.Parse(nodes).roots| < |Outline.Parse(nodes).entries|
  {
    var p := Outline.Parse(nodes);
    Outline.RootsDistinctAndBounded(nodes);
    forall y | y in p.roots
      ensures y in p.entries.Keys - {x}
    {
      Outline.TopLevelIff(nodes, y);
    }
    Sequences.DistinctWithin(p.roots, p.entries.Keys - {x});
  }

  // ---------------------------------------------------------------------------
  // Due dates
  // ---------------------------------------------------------------------------

  /** `isToday`: the date falls on the same local calendar day as now. */
  predicate IsToday(date: Option<int>, now: int)
  {
    date.Some? && CivilDate.Day(date.value) == CivilDate.Day(now)
  }

  /** `isPast`: the date is strictly before now. */
  predicate IsPast(date: Option<int>, now: int)
  {
    date.Some? && date.value < now
  }

  /** `getDueClass`: no date gives no class, a past date is overdue, and otherwise today's date is marked. */
  function DueClass(due: Option<int>, now: int): string
  {
    if due.None? then ""
    else if due.value < now then "overdue"
    else if CivilDate.Day(due.value) == CivilDate.Day(now) then "today"
    else ""
  }

  /**
   * The class in terms of `isPast` and `isToday`: overdue exactly when past, so
   * a date earlier today is overdue; today exactly when later today.
   */
  lemma DueClassIff(due: Option<int>, now: int)
    ensures DueClass(due, now) == "overdue" <==> IsPast(due, now)
    ensures DueClass(due, now) == "today" <==> IsToday(due, now) && !IsPast(due, now)
    ensures DueClass(due, now) == "" <==> !IsPast(due, now) && !IsToday(due, now)
  {
  }

  /** A date marked today lies between now and the end of today. */
  lemma TodayIsLaterToday(due: Option<int>, now: int)
    requires DueClass(due, now) == "today"
    ensures now <= due.value < CivilDate.MakeDate(CivilDate.Day(now) + 1, 0)
  {
    DueClassIff(due, now);
    CivilDate.DaySplit(due.value, 0, 0);
  }

  // ---------------------------------------------------------------------------
  // Priority badge
  // ---------------------------------------------------------------------------

  datatype Level = High | Medium | Low

  /** The badge text and its class. */
  datatype Badge = Badge(text: string, level: Level)

  /** An integer in decimal, with a minus sign when negative. */
  function NumberText(n: int): (r: string)
    ensures n >= 0 ==> Pomodoro.AllDigits(r) && Pomodoro.Value(r) == n
    ensures n < 0 ==> |r| >= 2 && r[0] == '-' && Pomodoro.AllDigits(r[1..]) && Pomodoro.Value(r[1..]) == -n
  {
    if n < 0 then
      var d := Pomodoro.Digits(-n);
      Pomodoro.ValueOfDigits(-n);
      assert ("-" + d)[1..] == d;
      "-" + d
    else
      Pomodoro.ValueOfDigits(n);
      Pomodoro.Digits(n)
  }

  /** A task's badge: shown for priority above 1, labelled `P(5 - priority)`. */
  function PriorityBadge(priority: int): Option<Badge>
  {
    if priority > 1 then
      Some(Badge("P" + NumberText(5 - priority), if priority == 4 then High else if priority == 3 then Medium else Low))
    else None
  }

  /** Todoist's priorities 4, 3 and 2 show P1 high, P2 medium and P3 low; priority 1 shows nothing. */
  lemma BadgeTable()
    ensures PriorityBadge(4) == Some(Badge("P1", High))
    ensures PriorityBadge(3) == Some(Badge("P2", Medium))
    ensures PriorityBadge(2) == Some(Badge("P3", Low))
    ensures PriorityBadge(1) == None
  {
    assert Pomodoro.DigitChar(1) == '1' && Pomodoro.DigitChar(2) == '2' && Pomodoro.DigitChar(3) == '3';
    assert NumberText(1) == "1" && NumberText(2) == "2" && NumberText(3) == "3";
    assert "P" + "1" == "P1" && "P" + "2" == "P2" && "P" + "3" == "P3";
  }

  /**
   * A badge is shown exactly for priorities above 1; it is high exactly for 4 and
   * medium exactly for 3; its label is "P" followed by digits that read back as 5 - priority.
   */
  lemma BadgeRule(priority: int)
    ensures PriorityBadge(priority).Some? <==> priority > 1
    ensures PriorityBadge(priority).Some? ==>
      (PriorityBadge(priority).value.level == High <==> priority == 4) &&
      (PriorityBadge(priority).value.level == Medium <==> priority == 3)
    ensures 1 < priority <= 5 ==>
      var text := PriorityBadge(priority).value.text;
      |text| >= 2 && text[0] == 'P' && Pomodoro.AllDigits(text[1..]) && Pomodoro.Value(text[1..]) == 5 - priority
    ensures priority > 5 ==>
      var text := PriorityBadge(priority).value.text;
      |text| >= 3 && text[..2] == "P-" && Pomodoro.AllDigits(text[2..]) && Pomodoro.Value(text[2..]) == priority - 5
  {
    if priority > 1 {
      var text := PriorityBadge(priority).value.text;
      var number := NumberText(5 - priority);
      assert text[1..] == number;
      if priority > 5 {
        assert text[2..] == number[1..];
      }
    }
  }

  // ---------------------------------------------------------------------------
  // Quick add and error texts
  // ---------------------------------------------------------------------------

  /** `handleQuickAdd`: the content posted as a new task, or nothing when the text is blank after trimming. */
  function QuickAddContent(text: string): Option<string>
  {
    if JsString.HasText(text) then Some(text) else None
  }

  /** Nothing is posted exactly when every character is whitespace; otherwise the text goes as typed, untrimmed. */
  lemma QuickAddGuard(text: string)
    ensures QuickAddContent(text).None? <==> forall i :: 0 <= i < |text| ==> JsString.IsWhitespace(text[i])
    ensures QuickAddContent(text).Some? ==> QuickAddContent(text).value == text
  {
    JsString.HasTextIff(text);
  }

  const NotAuthenticated: string := "Not authenticated with Google Calendar. Please authenticate first."
  const CalendarFallback: string := "Failed to load calendar events."
  const TodoistFallback: string := "Failed to load Todoist tasks. Please check your API token in .env file."
  const DynalistFallback: string := "Failed to load Dynalist documents. Please check your API token in .env file."

  /** `serverError || fallback`: the server's error text unless it is missing or empty. */
  function ErrorOr(serverError: Option<string>, fallback: string): string
  {
    if serverError.Some? && serverError.value != "" then serverError.value else fallback
  }

  /** The calendar loader's error: a 401 means not authenticated, whatever the server says. */
  function CalendarErrorMessage(status: Option<int>, serverError: Option<string>): string
  {
    if status == Some(401) then NotAuthenticated else ErrorOr(serverError, CalendarFallback)
  }

  function TodoistErrorMessage(serverError: Option<string>): string
  {
    ErrorOr(serverError, TodoistFallback)
  }

  function DynalistErrorMessage(serverError: Option<string>): string
  {
    ErrorOr(serverError, DynalistFallback)
  }

  /** A non-empty server text is shown as is; otherwise the fallback. The result is empty only when both are. */
  lemma ErrorOrCases(serverError: Option<string>, fallback: string)
    ensures serverError.Some? && serverError.value != "" ==> ErrorOr(serverError, fallback) == serverError.value
    ensures serverError.None? || serverError.value == "" ==> ErrorOr(serverError, fallback) == fallback
    ensures ErrorOr(serverError, fallback) != "" <==> fallback != "" || (serverError.Some? && serverError.value != "")
  {
  }

  /**
   * A failed load always shows a non-empty text; for the calendar it is the
   * not-authenticated text on 401, and otherwise the server's text or the default.
   */
  lemma ErrorMessagesShown(status: Option<int>, serverError: Option<string>)
    ensures CalendarErrorMessage(status, serverError) != ""
    ensures TodoistErrorMessage(serverError) != "" && DynalistErrorMessage(serverError) != ""
    ensures status == Some(401) ==> CalendarErrorMessage(status, serverError) == NotAuthenticated
    ensures status != Some(401) ==>
      CalendarErrorMessage(status, serverError) == ErrorOr(serverError, CalendarFallback)
  {
    ErrorOrCases(serverError, CalendarFallback);
    ErrorOrCases(serverError, TodoistFallback);
    ErrorOrCases(serverError, DynalistFallback);
  }
}
