/**
 * The calendar page of the main window: picking a day on the calendar lists
 * the tasks due that day, each with its completion status, under a header
 * naming the day.
 */
module CalendarPage {
  import Calendar
  import Store

  const NoTasksText: string := "No tasks for this date"
  const CompletedText: string := "\U{2705} Completed"
  const PendingText: string := "\U{2B55} Pending"

  /** The header label before any day has been listed. */
  const InitialHeader: string := "Tasks for selected date:"

  /** One list line: the status, a colon, the title. */
  function DayLine(t: Store.Task): string
  {
    (if t.completed != 0 then CompletedText else PendingText) + ": " + t.title
  }

  /** The header label for `date`. */
  function Header(date: string): string
  {
    "Tasks for " + date + ":"
  }

  /** The lines the list shows for the tasks found for a day. */
  function DayListing(tasks: seq<Store.Task>): seq<string>
  {
    if tasks == [] then [NoTasksText]
    else seq(|tasks|, i requires 0 <= i < |tasks| => DayLine(tasks[i]))
  }

  /** A line begins with the completed mark exactly when the task is completed, and ends with its title. */
  lemma DayLineSpec(t: Store.Task)
    ensures DayLine(t)[0] == '\U{2705}' <==> t.completed != 0
    ensures DayLine(t)[0] == '\U{2705}' || DayLine(t)[0] == '\U{2B55}'
    ensures |DayLine(t)| >= |t.title| && DayLine(t)[|DayLine(t)| - |t.title|..] == t.title
  {
    var status := if t.completed != 0 then CompletedText else PendingText;
    assert DayLine(t) == status + ": " + t.title;
  }

  /**
   * The list is never empty, and the placeholder line stands alone exactly
   * when no task is due; otherwise there is one line per task, in order.
   */
  lemma DayListingSpec(tasks: seq<Store.Task>)
    ensures |DayListing(tasks)| == if tasks == [] then 1 else |tasks|
    ensures DayListing(tasks) == [NoTasksText] <==> tasks == []
    ensures forall i :: 0 <= i < |tasks| ==> DayListing(tasks)[i] == DayLine(tasks[i])
  {
    if tasks != [] {
      DayLineSpec(tasks[0]);
      assert DayListing(tasks)[0][0] != NoTasksText[0];
    }
  }

  /** The header gives back the date it was built from. */
  lemma HeaderNamesDate(date: string)
    ensures |Header(date)| == |date| + 11
    ensures Header(date)[10..|date| + 10] == date
  {
  }

  /**
   * A task stored with day `d`'s full-date as its due date is listed when
   * `d` is picked, and a task due on another day is not.
   */
  lemma PickedDayShowsItsTasks(rows: seq<Store.Task>, d: Calendar.Date, t: Store.Task)
    requires Calendar.IsValid(d)
    ensures t in Store.TasksByDate(rows, Calendar.FullDate(d)) <==> t in rows && t.dueDate == Calendar.FullDate(d)
  {
    Store.TasksByDateSpec(rows, Calendar.FullDate(d));
    assert t in Store.TasksByDate(rows, Calendar.FullDate(d)) <==> t in multiset(Store.TasksByDate(rows, Calendar.FullDate(d)));
  }

  /** The loop that fills the list for one day. */
  method DayLines(tasks: seq<Store.Task>) returns (lines: seq<string>)
    ensures lines == DayListing(tasks)
  {
    lines := [];
    if tasks == [] {
      lines := lines + [NoTasksText];
    } else {
      var i := 0;
      while i < |tasks|
        invariant 0 <= i <= |tasks| && |lines| == i
        invariant forall j :: 0 <= j < i ==> lines[j] == DayLine(tasks[j])
      {
        var status := if tasks[i].completed != 0 then CompletedText else PendingText;
        lines := lines + [status + ": " + tasks[i].title];
        i := i + 1;
      }
    }
  }

  class MainFrame {
    const db: Store.DatabaseManager
    var tasksList: seq<string>
    var tasksLabel: string

    /** The page opens on today's tasks. */
    constructor (db: Store.DatabaseManager, today: Calendar.Date)
      requires Calendar.IsValid(today)
      ensures this.db == db
      ensures tasksList == DayListing(Store.TasksByDate(db.tasks, Calendar.FullDate(today)))
      ensures tasksLabel == Header(Calendar.FullDate(today))
    {
      this.db := db;
      tasksList, tasksLabel := [], InitialHeader;
      new;
      UpdateTasksForDate(Calendar.FullDate(today));
    }

    /** A day picked on the calendar is listed under its full-date. */
    method OnDateSelected(selected: Calendar.Date)
      requires Calendar.IsValid(selected)
      modifies this
      ensures tasksList == DayListing(Store.TasksByDate(db.tasks, Calendar.FullDate(selected)))
      ensures tasksLabel == Header(Calendar.FullDate(selected))
    {
      UpdateTasksForDate(Calendar.FullDate(selected));
    }

    /** The list is rebuilt from the tasks due on `date`, and the header names `date`. */
    method UpdateTasksForDate(date: string)
      modifies this
      ensures tasksList == DayListing(Store.TasksByDate(db.tasks, date))
      ensures tasksLabel == Header(date)
    {
      var tasks := db.GetTasksByDate(date);
      var lines := DayLines(tasks);
      tasksList := lines;
      tasksLabel := "Tasks for " + date + ":";
    }
  }
}
