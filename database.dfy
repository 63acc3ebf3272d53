/**
 * The persistence gateway: the `tasks` and `emotional_entries` tables and
 * the SQL each `DatabaseManager` method runs, with the tables held in memory.
 *
 * A table is the sequence of its rows in rowid order. `AUTOINCREMENT` is the
 * per-table counter (SQLite's `sqlite_sequence`) of the largest id ever
 * issued, so a new row's id exceeds every id the table has ever had, deleted
 * rows included. `CURRENT_TIMESTAMP` and `datetime.now()` are parameters:
 * `now` is the creation timestamp text and `today` the current date.
 */
module Store {
  import opened Wrappers
  import Text
  import Query
  import Calendar

  /** A `tasks` row. `completed` is the stored integer; the application writes 0 or 1. */
  datatype Task = Task(id: int, title: string, description: string, dueDate: string, completed: int, createdAt: string)

  /** An `emotional_entries` row. `notes` is NULL-able. */
  datatype Entry = Entry(id: int, date: string, mood: string, dayRating: int, notes: Option<string>, createdAt: string)

  /** The number of days `get_recent_emotional_entries` looks back when not told otherwise. */
  const DefaultRecentDays: nat := 7

  ghost predicate TaskIdsAscending(rows: seq<Task>) {
    forall i, j :: 0 <= i < j < |rows| ==> rows[i].id < rows[j].id
  }

  ghost predicate EntryIdsAscending(rows: seq<Entry>) {
    forall i, j :: 0 <= i < j < |rows| ==> rows[i].id < rows[j].id
  }

  // ---------------------------------------------------------------------
  // The statements on `tasks`

  /** `SELECT * FROM tasks WHERE id=?` followed by `fetchone()`. */
  function FindTask(rows: seq<Task>, id: int): (r: Option<Task>)
    ensures r.Some? ==> r.value in rows && r.value.id == id
    ensures r.None? <==> forall i :: 0 <= i < |rows| ==> rows[i].id != id
  {
    if rows == [] then None
    else if rows[0].id == id then Some(rows[0])
    else
      var r := FindTask(rows[1..], id);
      assert forall i :: 1 <= i < |rows| ==> rows[i] == rows[1..][i - 1];
      r
  }

  /** The row as `UPDATE tasks SET title=?, description=?, due_date=?, completed=?` leaves it. */
  function Replaced(t: Task, title: string, description: string, dueDate: string, completed: int): Task
  {
    t.(title := title, description := description, dueDate := dueDate, completed := completed)
  }

  /** `UPDATE tasks SET title=?, description=?, due_date=?, completed=? WHERE id=?`. */
  function UpdateRows(rows: seq<Task>, id: int, title: string, description: string, dueDate: string, completed: int): (r: seq<Task>)
    ensures |r| == |rows|
  {
    if rows == [] then []
    else
      var head := if rows[0].id == id then Replaced(rows[0], title, description, dueDate, completed) else rows[0];
      [head] + UpdateRows(rows[1..], id, title, description, dueDate, completed)
  }

  /**
   * An update replaces all four mutable fields of the row with that id and
   * keeps its id and creation time; every other row, and the order, stay as
   * they were. With no such row it changes nothing and creates nothing.
   */
  lemma {:induction false} UpdateRowsEffect(rows: seq<Task>, id: int, title: string, description: string, dueDate: string, completed: int)
    ensures var r := UpdateRows(rows, id, title, description, dueDate, completed);
      forall i :: 0 <= i < |rows| ==>
        && r[i].id == rows[i].id && r[i].createdAt == rows[i].createdAt
        && (rows[i].id == id ==> r[i] == Replaced(rows[i], title, description, dueDate, completed))
        && (rows[i].id != id ==> r[i] == rows[i])
  {
    if rows != [] {
      UpdateRowsEffect(rows[1..], id, title, description, dueDate, completed);
    }
  }

  lemma UpdateMissingIsNoop(rows: seq<Task>, id: int, title: string, description: string, dueDate: string, completed: int)
    requires FindTask(rows, id).None?
    ensures UpdateRows(rows, id, title, description, dueDate, completed) == rows
  {
    UpdateRowsEffect(rows, id, title, description, dueDate, completed);
  }

  /** Reading a row back after updating it gives the replaced row; an absent id stays absent. */
  lemma UpdateThenFind(rows: seq<Task>, id: int, title: string, description: string, dueDate: string, completed: int)
    requires TaskIdsAscending(rows)
    ensures var r := UpdateRows(rows, id, title, description, dueDate, completed);
      FindTask(r, id) == match FindTask(rows, id)
        case None => None
        case Some(t) => Some(Replaced(t, title, description, dueDate, completed))
  {
  }

  /** With unique ids, looking a stored row up by its id finds that very row. */
  lemma FindMember(rows: seq<Task>, t: Task)
    requires TaskIdsAscending(rows) && t in rows
    ensures FindTask(rows, t.id) == Some(t)
  {
  }

  /** `DELETE FROM tasks WHERE id=?`. */
  function DeleteRows(rows: seq<Task>, id: int): (r: seq<Task>)
  {
    Query.Filter(rows, (t: Task) => t.id != id)
  }

  /** A delete removes exactly the rows with that id; with none it changes nothing. */
  lemma DeleteRowsEffect(rows: seq<Task>, id: int)
    ensures forall t :: t in DeleteRows(rows, id) <==> t in rows && t.id != id
    ensures FindTask(DeleteRows(rows, id), id).None?
    ensures FindTask(rows, id).None? ==> DeleteRows(rows, id) == rows
  {
    if FindTask(rows, id).None? {
      FilterAll(rows, id);
    }
  }

  lemma {:induction false} FilterAll(rows: seq<Task>, id: int)
    requires forall i :: 0 <= i < |rows| ==> rows[i].id != id
    ensures DeleteRows(rows, id) == rows
  {
    if rows != [] {
      FilterAll(rows[1..], id);
      assert rows == [rows[0]] + rows[1..];
    }
  }

  /** `SELECT * FROM tasks ORDER BY due_date DESC`. */
  function AllTasks(rows: seq<Task>): seq<Task>
  {
    Query.SortBy(rows, (t: Task) => t.dueDate, true)
  }

  /** Every row once, latest due date first. */
  lemma AllTasksSpec(rows: seq<Task>)
    ensures multiset(AllTasks(rows)) == multiset(rows)
    ensures forall i, j :: 0 <= i < j < |AllTasks(rows)| ==>
      Text.StrLe(AllTasks(rows)[j].dueDate, AllTasks(rows)[i].dueDate)
  {
    Query.SortBySorted(rows, (t: Task) => t.dueDate, true);
  }

  /** `SELECT * FROM tasks WHERE due_date = ? ORDER BY created_at`. */
  function TasksByDate(rows: seq<Task>, date: string): seq<Task>
  {
    Query.SortBy(Query.Filter(rows, (t: Task) => t.dueDate == date), (t: Task) => t.createdAt, false)
  }

  /** Exactly the rows due on `date`, each as often as stored, oldest first. */
  lemma TasksByDateSpec(rows: seq<Task>, date: string)
    ensures forall t :: multiset(TasksByDate(rows, date))[t] == (if t.dueDate == date then multiset(rows)[t] else 0)
    ensures forall i, j :: 0 <= i < j < |TasksByDate(rows, date)| ==>
      Text.StrLe(TasksByDate(rows, date)[i].createdAt, TasksByDate(rows, date)[j].createdAt)
  {
    var p := (t: Task) => t.dueDate == date;
    forall t {
      Query.FilterMultiset(rows, p, t);
    }
    Query.SortBySorted(Query.Filter(rows, p), (t: Task) => t.createdAt, false);
  }

  // ---------------------------------------------------------------------
  // The statements on `emotional_entries`

  /** `SELECT * FROM emotional_entries WHERE date BETWEEN ? AND ? ORDER BY date`. */
  function EntriesBetween(rows: seq<Entry>, start: string, end: string): seq<Entry>
  {
    Query.SortBy(Query.Filter(rows, (e: Entry) => Text.StrLe(start, e.date) && Text.StrLe(e.date, end)),
                 (e: Entry) => e.date, false)
  }

  /** `BETWEEN` is inclusive at both ends; the result is in date order. */
  lemma EntriesBetweenSpec(rows: seq<Entry>, start: string, end: string)
    ensures forall e :: multiset(EntriesBetween(rows, start, end))[e] ==
                        (if Text.StrLe(start, e.date) && Text.StrLe(e.date, end) then multiset(rows)[e] else 0)
    ensures forall i, j :: 0 <= i < j < |EntriesBetween(rows, start, end)| ==>
      Text.StrLe(EntriesBetween(rows, start, end)[i].date, EntriesBetween(rows, start, end)[j].date)
  {
    var p := (e: Entry) => Text.StrLe(start, e.date) && Text.StrLe(e.date, end);
    forall e {
      Query.FilterMultiset(rows, p, e);
    }
    Query.SortBySorted(Query.Filter(rows, p), (e: Entry) => e.date, false);
  }

  /** The first date of the window `get_recent_emotional_entries(days)` queries. */
  function RecentStart(today: Calendar.Date, days: nat): Calendar.Date
    requires Calendar.IsValid(today)
  {
    Calendar.MinusDays(today, days)
  }

  /**
   * For an entry dated `z`, the recent-entries query `[today - days, today]`
   * selects it exactly when `z` is one of the `days + 1` dates
   * `today - k days`, `0 <= k <= days`.
   */
  lemma RecentWindowExact(today: Calendar.Date, days: nat, z: Calendar.Date)
    requires Calendar.IsValid(today) && Calendar.IsValid(RecentStart(today, days)) && Calendar.IsValid(z)
    ensures var (start, end) := (Calendar.FullDate(RecentStart(today, days)), Calendar.FullDate(today));
      (Text.StrLe(start, Calendar.FullDate(z)) && Text.StrLe(Calendar.FullDate(z), end))
      <==> (exists k :: 0 <= k <= days && z == Calendar.MinusDays(today, k))
  {
    Calendar.FullDateOrder(RecentStart(today, days), z);
    Calendar.FullDateOrder(z, today);
    Calendar.WindowMembers(today, days, z);
  }

  // ---------------------------------------------------------------------
  // The database object

  class DatabaseManager {
    var tasks: seq<Task>
    var entries: seq<Entry>
    var taskSeq: nat    // largest task id ever issued
    var entrySeq: nat   // largest entry id ever issued

    ghost predicate Valid()
      reads this
    {
      && TaskIdsAscending(tasks)
      && (forall i :: 0 <= i < |tasks| ==> 1 <= tasks[i].id <= taskSeq)
      && EntryIdsAscending(entries)
      && (forall i :: 0 <= i < |entries| ==> 1 <= entries[i].id <= entrySeq)
    }

    /** `init_database` on a file without the tables: both tables empty. */
    constructor ()
      ensures Valid() && tasks == [] && entries == [] && taskSeq == 0 && entrySeq == 0
    {
      tasks, entries, taskSeq, entrySeq := [], [], 0, 0;
    }

    method AddTask(title: string, description: string, dueDate: string, now: string) returns (id: int)
      requires Valid()
      modifies this
      ensures Valid()
      ensures id == old(taskSeq) + 1 && taskSeq == id
      ensures forall i :: 0 <= i < |old(tasks)| ==> old(tasks)[i].id < id
      ensures tasks == old(tasks) + [Task(id, title, description, dueDate, 0, now)]
      ensures entries == old(entries) && entrySeq == old(entrySeq)
    {
      taskSeq := taskSeq + 1;
      id := taskSeq;
      tasks := tasks + [Task(id, title, description, dueDate, 0, now)];
    }

    method GetAllTasks() returns (r: seq<Task>)
      ensures r == AllTasks(tasks)
    {
      r := AllTasks(tasks);
    }

    method GetTasksByDate(date: string) returns (r: seq<Task>)
      ensures r == TasksByDate(tasks, date)
    {
      r := TasksByDate(tasks, date);
    }

    method UpdateTask(id: int, title: string, description: string, dueDate: string, completed: int)
      requires Valid()
      modifies this
      ensures Valid()
      ensures tasks == UpdateRows(old(tasks), id, title, description, dueDate, completed)
      ensures taskSeq == old(taskSeq) && entries == old(entries) && entrySeq == old(entrySeq)
    {
      UpdateRowsEffect(tasks, id, title, description, dueDate, completed);
      tasks := UpdateRows(tasks, id, title, description, dueDate, completed);
    }

    method DeleteTask(id: int)
      requires Valid()
      modifies this
      ensures Valid()
      ensures tasks == DeleteRows(old(tasks), id)
      ensures taskSeq == old(taskSeq) && entries == old(entries) && entrySeq == old(entrySeq)
    {
      DeleteKeepsAscending(tasks, id, taskSeq);
      tasks := DeleteRows(tasks, id);
    }

    method GetTask(id: int) returns (r: Option<Task>)
      ensures r == FindTask(tasks, id)
    {
      r := FindTask(tasks, id);
    }

    method AddEmotionalEntry(mood: string, dayRating: int, notes: string, today: Calendar.Date, now: string)
      requires Valid() && Calendar.IsValid(today)
      modifies this
      ensures Valid()
      ensures entrySeq == old(entrySeq) + 1
      ensures entries == old(entries) + [Entry(entrySeq, Calendar.FullDate(today), mood, dayRating, Some(notes), now)]
      ensures tasks == old(tasks) && taskSeq == old(taskSeq)
    {
      entrySeq := entrySeq + 1;
      entries := entries + [Entry(entrySeq, Calendar.FullDate(today), mood, dayRating, Some(notes), now)];
    }

    method GetEmotionalEntries(start: string, end: string) returns (r: seq<Entry>)
      ensures r == EntriesBetween(entries, start, end)
    {
      r := EntriesBetween(entries, start, end);
    }

    method GetRecentEmotionalEntries(today: Calendar.Date, days: nat := DefaultRecentDays) returns (r: seq<Entry>)
      requires Calendar.IsValid(today) && Calendar.IsValid(RecentStart(today, days))
      ensures r == EntriesBetween(entries, Calendar.FullDate(RecentStart(today, days)), Calendar.FullDate(today))
    {
      var endDate := Calendar.FullDate(today);
      var startDate := Calendar.FullDate(Calendar.MinusDays(today, days));
      r := GetEmotionalEntries(startDate, endDate);
    }
  }

  /** Deleting rows keeps the ids ascending and within the counter. */
  lemma DeleteKeepsAscending(rows: seq<Task>, id: int, bound: nat)
    requires TaskIdsAscending(rows) && forall i :: 0 <= i < |rows| ==> 1 <= rows[i].id <= bound
    ensures var r := DeleteRows(rows, id);
      TaskIdsAscending(r) && forall i :: 0 <= i < |r| ==> 1 <= r[i].id <= bound
  {
    SubsequenceAscending(rows, id);
  }

  lemma {:induction false} SubsequenceAscending(rows: seq<Task>, id: int)
    requires TaskIdsAscending(rows)
    ensures TaskIdsAscending(DeleteRows(rows, id))
  {
    if rows != [] {
      var tail := rows[1..];
      SubsequenceAscending(tail, id);
      DeleteCons(rows, id);
      if rows[0].id != id {
        AboveFirst(rows, id);
        AscendingCons(rows[0], DeleteRows(tail, id));
      }
    }
  }

  lemma DeleteCons(rows: seq<Task>, id: int)
    requires rows != []
    ensures DeleteRows(rows, id) == (if rows[0].id != id then [rows[0]] else []) + DeleteRows(rows[1..], id)
  {
  }

  /** What survives a delete from the tail has an id above the first row's. */
  lemma AboveFirst(rows: seq<Task>, id: int)
    requires rows != [] && TaskIdsAscending(rows)
    ensures forall j :: 0 <= j < |DeleteRows(rows[1..], id)| ==> rows[0].id < DeleteRows(rows[1..], id)[j].id
  {
    var tail := rows[1..];
    var rest := DeleteRows(tail, id);
    forall j | 0 <= j < |rest|
      ensures rows[0].id < rest[j].id
    {
      assert rest[j] in tail;
      var k :| 0 <= k < |tail| && tail[k] == rest[j];
      assert rows[k + 1] == rest[j];
    }
  }

  lemma AscendingCons(x: Task, rest: seq<Task>)
    requires TaskIdsAscending(rest) && forall j :: 0 <= j < |rest| ==> x.id < rest[j].id
    ensures TaskIdsAscending([x] + rest)
  {
    var r := [x] + rest;
    forall i, j | 0 <= i < j < |r|
      ensures r[i].id < r[j].id
    {
      if i > 0 {
        assert r[i] == rest[i - 1] && r[j] == rest[j - 1];
      } else {
        assert r[j] == rest[j - 1];
      }
    }
  }
}
