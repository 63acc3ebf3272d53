/**
 * The task manager page and its edit dialog: adding a task from the form,
 * listing every task with a completion mark, opening the selected one, and
 * the dialog that reloads a task, saves the edited fields or deletes it.
 */
module TaskWorkflow {
  import opened Wrappers
  import Decimal
  import Text
  import Calendar
  import Store

  /** `wx.NOT_FOUND`, the list box's "nothing selected". */
  const NotFound: int := -1

  const CompletedMark: string := "\U{2705}"
  const PendingMark: string := "\U{2B55}"

  /** Message boxes the page and the dialog raise. */
  datatype Notice = TitleRequired | TaskAdded

  /** How a modal dialog ended. */
  datatype ModalResult = Ok | Cancel

  /** A title is accepted when something other than white space is left after stripping. */
  predicate AcceptsTitle(title: string) {
    Text.Strip(title) != ""
  }

  // ---------------------------------------------------------------------
  // The task list

  /** The list box text of a task: the mark, the title, the due date. */
  function ItemText(t: Store.Task): string
  {
    (if t.completed != 0 then CompletedMark else PendingMark) + " " + t.title + " " + t.dueDate
  }

  /** An item starts with the completed mark exactly when the task is marked completed. */
  lemma ItemTextMark(t: Store.Task)
    ensures ItemText(t)[..1] == CompletedMark <==> t.completed != 0
    ensures ItemText(t)[2..2 + |t.title|] == t.title
  {
    var s := ItemText(t);
    if t.completed != 0 {
      assert s == CompletedMark + (" " + t.title + " " + t.dueDate);
    } else {
      assert s == PendingMark + (" " + t.title + " " + t.dueDate);
    }
  }

  /**
   * After a refresh, the task stored behind each list item is the one the
   * item shows: looking its id up gives that row.
   */
  lemma ListedTasksResolve(rows: seq<Store.Task>)
    requires Store.TaskIdsAscending(rows)
    ensures forall i :: 0 <= i < |Store.AllTasks(rows)| ==>
      Store.FindTask(rows, Store.AllTasks(rows)[i].id) == Some(Store.AllTasks(rows)[i])
  {
    var listed := Store.AllTasks(rows);
    forall i | 0 <= i < |listed|
      ensures Store.FindTask(rows, listed[i].id) == Some(listed[i])
    {
      assert listed[i] in multiset(listed);
      Store.FindMember(rows, listed[i]);
    }
  }

  // ---------------------------------------------------------------------
  // Reading a stored due date back into the dialog's date picker

  /** `year, month, day = map(int, due_date.split('-'))`; `None` for the errors caught. */
  function SplitDueDate(due: string): (r: Option<Calendar.Date>)
  {
    var parts := Text.Split(due, '-');
    if |parts| != 3 then None
    else
      match (Text.ParseInt(parts[0]), Text.ParseInt(parts[1]), Text.ParseInt(parts[2]))
      case (Some(y), Some(m), Some(d)) => Some(Calendar.Date(y, m, d))
      case _ => None
  }

  /**
   * The date the picker ends up showing: the stored date when it parses
   * into a real calendar date, otherwise `today`.
   */
  function PickerDate(due: string, today: Calendar.Date): (r: Calendar.Date)
    requires Calendar.IsValid(today)
    ensures Calendar.IsValid(r)
  {
    if due == "" then today
    else
      match SplitDueDate(due)
      case Some(d) => if Calendar.IsValid(d) then d else today
      case None => today
  }

  /**
   * A date other than `today` comes only from a due date of three
   * '-'-separated integers that name a real calendar date.
   */
  lemma PickerDateSpec(due: string, today: Calendar.Date)
    requires Calendar.IsValid(today)
    ensures var r := PickerDate(due, today); var parts := Text.Split(due, '-');
      r != today ==>
        && |parts| == 3
        && Text.ParseInt(parts[0]) == Some(r.year)
        && Text.ParseInt(parts[1]) == Some(r.month)
        && Text.ParseInt(parts[2]) == Some(r.day)
    ensures PickerDate("", today) == today
  {
  }

  /** Splitting a full-date on '-' gives its three zero-padded fields. */
  lemma FullDateSplit(d: Calendar.Date)
    requires Calendar.IsValid(d)
    ensures Text.Split(Calendar.FullDate(d), '-') ==
      [Decimal.Padded(d.year, 4), Decimal.Padded(d.month, 2), Decimal.Padded(d.day, 2)]
  {
    var parts := [Decimal.Padded(d.year, 4), Decimal.Padded(d.month, 2), Decimal.Padded(d.day, 2)];
    assert Text.Join(parts, '-') == Calendar.FullDate(d) by {
      assert Text.Join(parts[2..], '-') == parts[2];
      assert parts[1..][1..] == parts[2..];
    }
    forall i | 0 <= i < 3
      ensures '-' !in parts[i]
    {
      assert Decimal.AllDigits(parts[i]);
      assert forall k :: 0 <= k < |parts[i]| ==> parts[i][k] != '-';
    }
    Text.JoinSplit(parts, '-');
  }

  /** A due date written by the form (`FormatISODate`) reads back as the same date. */
  lemma PickerDateRoundTrip(d: Calendar.Date, today: Calendar.Date)
    requires Calendar.IsValid(d) && Calendar.IsValid(today)
    ensures PickerDate(Calendar.FullDate(d), today) == d
  {
    var s := Calendar.FullDate(d);
    var parts := Text.Split(s, '-');
    assert |parts| == 3 && parts[0] == Decimal.Padded(d.year, 4) && parts[1] == Decimal.Padded(d.month, 2)
        && parts[2] == Decimal.Padded(d.day, 2) by {
      FullDateSplit(d);
    }
    assert Text.ParseInt(parts[0]) == Some(d.year) by { Text.ParsePadded(d.year, 4); }
    assert Text.ParseInt(parts[1]) == Some(d.month) by { Text.ParsePadded(d.month, 2); }
    assert Text.ParseInt(parts[2]) == Some(d.day) by { Text.ParsePadded(d.day, 2); }
    assert SplitDueDate(s) == Some(d);
  }

  /** The row `on_save` writes for task `t` when nothing was changed in the dialog. */
  function UnchangedSave(t: Store.Task, today: Calendar.Date): Store.Task
    requires Calendar.IsValid(today)
  {
    Store.Replaced(t, Text.Strip(t.title), Text.Strip(t.description),
                   Calendar.FullDate(PickerDate(t.dueDate, today)), if t.completed != 0 then 1 else 0)
  }

  /** Opening a task added from the form and saving it unchanged leaves the row as it was. */
  lemma AddedTaskSavesUnchanged(id: int, title: string, description: string, due: Calendar.Date, now: string, today: Calendar.Date)
    requires Calendar.IsValid(due) && Calendar.IsValid(today)
    ensures var t := Store.Task(id, Text.Strip(title), Text.Strip(description), Calendar.FullDate(due), 0, now);
      UnchangedSave(t, today) == t
  {
    Text.StripIdempotent(title);
    Text.StripIdempotent(description);
    PickerDateRoundTrip(due, today);
  }

  // ---------------------------------------------------------------------
  // The page

  class TaskManager {
    const db: Store.DatabaseManager
    var titleInput: string
    var descInput: string
    var pickerDate: Calendar.Date
    var items: seq<string>             // the list box's strings
    var clientData: seq<Option<int>>   // the id stored with each item
    var notices: seq<Notice>

    ghost predicate Valid()
      reads this, db
    {
      db.Valid() && Calendar.IsValid(pickerDate) && |items| == |clientData|
    }

    constructor (db: Store.DatabaseManager, today: Calendar.Date)
      requires db.Valid() && Calendar.IsValid(today)
      ensures Valid() && this.db == db
      ensures titleInput == "" && descInput == "" && pickerDate == today && notices == []
      ensures |items| == |Store.AllTasks(db.tasks)|
      ensures forall i :: 0 <= i < |items| ==>
        items[i] == ItemText(Store.AllTasks(db.tasks)[i]) && clientData[i] == Some(Store.AllTasks(db.tasks)[i].id)
    {
      this.db := db;
      titleInput, descInput, pickerDate := "", "", today;
      items, clientData, notices := [], [], [];
      new;
      RefreshTasks();
    }

    /**
     * A blank title is refused and changes nothing; otherwise the stripped
     * title and description are stored with the picker's date as the due
     * date, and the two text fields are cleared.
     */
    method OnAddTask(now: string)
      requires Valid()
      modifies this, db
      ensures Valid()
      ensures pickerDate == old(pickerDate) && items == old(items) && clientData == old(clientData)
      ensures !AcceptsTitle(old(titleInput)) ==>
        && notices == old(notices) + [TitleRequired]
        && titleInput == old(titleInput) && descInput == old(descInput)
        && db.tasks == old(db.tasks) && db.taskSeq == old(db.taskSeq)
      ensures AcceptsTitle(old(titleInput)) ==>
        && notices == old(notices) + [TaskAdded]
        && titleInput == "" && descInput == ""
        && db.taskSeq == old(db.taskSeq) + 1
        && db.tasks == old(db.tasks) + [Store.Task(db.taskSeq, Text.Strip(old(titleInput)), Text.Strip(old(descInput)),
                                                   Calendar.FullDate(pickerDate), 0, now)]
      ensures db.entries == old(db.entries) && db.entrySeq == old(db.entrySeq)
    {
      var title := Text.Strip(titleInput);
      var description := Text.Strip(descInput);
      var dueDate := Calendar.FullDate(pickerDate);
      if title == "" {
        notices := notices + [TitleRequired];
        return;
      }
      var _ := db.AddTask(title, description, dueDate, now);
      notices := notices + [TaskAdded];
      titleInput, descInput := "", "";
    }

    /** The list shows every task, latest due date first, each with its id attached. */
    method RefreshTasks()
      modifies this
      ensures |items| == |Store.AllTasks(db.tasks)| && |clientData| == |items|
      ensures forall i :: 0 <= i < |items| ==>
        items[i] == ItemText(Store.AllTasks(db.tasks)[i]) && clientData[i] == Some(Store.AllTasks(db.tasks)[i].id)
      ensures titleInput == old(titleInput) && descInput == old(descInput) && pickerDate == old(pickerDate)
      ensures notices == old(notices)
    {
      var tasks := db.GetAllTasks();
      var texts: seq<string> := [];
      var ids: seq<Option<int>> := [];
      var i := 0;
      while i < |tasks|
        invariant 0 <= i <= |tasks| && |texts| == i && |ids| == i
        invariant forall j :: 0 <= j < i ==> texts[j] == ItemText(tasks[j]) && ids[j] == Some(tasks[j].id)
      {
        var task := tasks[i];
        var status := if task.completed != 0 then CompletedMark else PendingMark;
        texts := texts + [status + " " + task.title + " " + task.dueDate];
        ids := ids + [Some(task.id)];
        i := i + 1;
      }
      items, clientData := texts, ids;
    }

    /** The id of the task whose dialog opens for `selection`, or `None` when none does. */
    method OnTaskSelected(selection: int) returns (open: Option<int>)
      requires selection == NotFound || 0 <= selection < |clientData|
      ensures selection == NotFound ==> open == None
      ensures selection != NotFound ==> open == clientData[selection]
    {
      if selection == NotFound {
        return None;
      }
      var taskId := clientData[selection];
      if taskId.None? {
        return None;
      }
      open := taskId;
    }

    /** After the edit dialog closes, the list is rebuilt only when it ended with OK. */
    method AfterEdit(result: ModalResult)
      requires Valid()
      modifies this
      ensures Valid()
      ensures result == Ok ==>
        && |items| == |Store.AllTasks(db.tasks)| && |clientData| == |items|
        && forall i :: 0 <= i < |items| ==>
             items[i] == ItemText(Store.AllTasks(db.tasks)[i]) && clientData[i] == Some(Store.AllTasks(db.tasks)[i].id)
      ensures result == Cancel ==> items == old(items) && clientData == old(clientData)
      ensures titleInput == old(titleInput) && descInput == old(descInput) && pickerDate == old(pickerDate)
      ensures notices == old(notices)
    {
      if result == Ok {
        RefreshTasks();
      }
    }
  }

  // ---------------------------------------------------------------------
  // The edit dialog

  class EditTaskDialog {
    const db: Store.DatabaseManager
    const taskId: int
    var titleInput: string
    var descInput: string
    var pickerDate: Calendar.Date
    var completed: bool
    var result: Option<ModalResult>    // None while the dialog is open
    var notices: seq<Notice>

    ghost predicate Valid()
      reads this, db
    {
      db.Valid() && Calendar.IsValid(pickerDate)
    }

    /** The dialog is filled from the stored row; the due date goes through `PickerDate`. */
    constructor (db: Store.DatabaseManager, taskId: int, today: Calendar.Date)
      requires db.Valid() && Calendar.IsValid(today) && Store.FindTask(db.tasks, taskId).Some?
      ensures Valid() && this.db == db && this.taskId == taskId
      ensures var t := Store.FindTask(db.tasks, taskId).value;
        && titleInput == t.title && descInput == t.description
        && pickerDate == PickerDate(t.dueDate, today) && completed == (t.completed != 0)
      ensures result == None && notices == []
    {
      this.db := db;
      this.taskId := taskId;
      var task := db.GetTask(taskId);
      var t := task.value;
      titleInput, descInput, completed := t.title, t.description, t.completed != 0;
      pickerDate := PickerDate(t.dueDate, today);
      result, notices := None, [];
    }

    /**
     * A blank title is refused and the dialog stays open; otherwise all four
     * fields of the row are replaced and the dialog closes with OK.
     */
    method OnSave()
      requires Valid()
      modifies this, db
      ensures Valid()
      ensures titleInput == old(titleInput) && descInput == old(descInput)
      ensures pickerDate == old(pickerDate) && completed == old(completed)
      ensures !AcceptsTitle(titleInput) ==>
        notices == old(notices) + [TitleRequired] && result == old(result) && db.tasks == old(db.tasks)
      ensures AcceptsTitle(titleInput) ==>
        && notices == old(notices) && result == Some(Ok)
        && db.tasks == Store.UpdateRows(old(db.tasks), taskId, Text.Strip(titleInput), Text.Strip(descInput),
                                        Calendar.FullDate(pickerDate), if completed then 1 else 0)
      ensures db.taskSeq == old(db.taskSeq) && db.entries == old(db.entries) && db.entrySeq == old(db.entrySeq)
    {
      var title := Text.Strip(titleInput);
      var description := Text.Strip(descInput);
      var dueDate := Calendar.FullDate(pickerDate);
      var done := if completed then 1 else 0;
      if title == "" {
        notices := notices + [TitleRequired];
        return;
      }
      db.UpdateTask(taskId, title, description, dueDate, done);
      result := Some(Ok);
    }

    /** Only a "Yes" to the confirmation deletes the task and closes the dialog with OK. */
    method OnDelete(confirmed: bool)
      requires Valid()
      modifies this, db
      ensures Valid()
      ensures confirmed ==> db.tasks == Store.DeleteRows(old(db.tasks), taskId) && result == Some(Ok)
      ensures !confirmed ==> db.tasks == old(db.tasks) && result == old(result)
      ensures titleInput == old(titleInput) && descInput == old(descInput)
      ensures pickerDate == old(pickerDate) && completed == old(completed) && notices == old(notices)
      ensures db.taskSeq == old(db.taskSeq) && db.entries == old(db.entries) && db.entrySeq == old(db.entrySeq)
    {
      if confirmed {
        db.DeleteTask(taskId);
        result := Some(Ok);
      }
    }

    /** The Cancel button closes the dialog without touching the database. */
    method OnCancel()
      modifies this
      ensures result == Some(Cancel)
      ensures titleInput == old(titleInput) && descInput == old(descInput)
      ensures pickerDate == old(pickerDate) && completed == old(completed) && notices == old(notices)
    {
      result := Some(Cancel);
    }
  }
}
