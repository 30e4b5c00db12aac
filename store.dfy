/**
 * The to-do window's task list (`TodoApp.tasks`) and the event handlers that
 * change it. What the widgets supply (the text field, the row under the
 * mouse, the listbox selection, a dialog's reply, the answer to a
 * confirmation prompt, the parsed data file) comes in as parameters.
 */
module TodoStore {
  import opened Wrappers
  import opened Text
  import opened Tasks
  import opened Operations

  /**
   * Which branch a handler took. `OutOfRange` (a click beyond the last row),
   * `Declined` (the removal prompt answered No) and `Cancelled` from the
   * priority dialog show no message; every other outcome shows its own.
   */
  datatype Outcome = Done | EmptyText | NoSelection | Cancelled | Declined | OutOfRange

  /** What reading the data file gave: no file, a file that failed to read or parse, or its records. */
  datatype StoredFile = Missing | Unreadable | Parsed(records: seq<Record>)

  datatype LoadStatus = Welcome | Loaded | LoadError

  /**
   * The pass over freshly parsed records that gives every record without a
   * priority the default one; records are taken in file order.
   */
  method FillDefaultPriorities(records: seq<Record>) returns (loaded: seq<Task>)
    ensures |loaded| == |records|
    ensures forall i :: 0 <= i < |records| ==>
              && loaded[i].text == records[i].text
              && loaded[i].completed == records[i].completed
              && (records[i].priority.Some? ==> loaded[i].priority == records[i].priority.value)
              && (records[i].priority.None? ==> loaded[i].priority == DEFAULT_PRIORITY)
    ensures loaded == Normalised(records)
  {
    loaded := [];
    var i := 0;
    while i < |records|
      invariant 0 <= i <= |records|
      invariant |loaded| == i
      invariant forall j :: 0 <= j < i ==> loaded[j] == Normalise(records[j])
    {
      var rec := records[i];
      if rec.priority.None? {
        rec := rec.(priority := Some(DEFAULT_PRIORITY));
      }
      loaded := loaded + [Task(rec.text, rec.completed, rec.priority.value)];
      i := i + 1;
    }
  }

  class TaskStore {
    var tasks: seq<Task>

    /** The list every task created by this app keeps to. */
    ghost predicate Valid()
      reads this
    {
      AllWellFormed(tasks)
    }

    constructor ()
      ensures tasks == [] && Valid()
    {
      tasks := [];
    }

    /** The Add button, or Return in the text field holding `entry`. */
    method AddTask(entry: string) returns (outcome: Outcome)
      modifies this
      ensures tasks == Added(old(tasks), entry)
      ensures outcome == if Strip(entry) == [] then EmptyText else Done
      ensures old(Valid()) ==> Valid()
    {
      if Valid() {
        AddedWellFormed(tasks, entry);
      }
      var text := Strip(entry);
      if text != [] {
        tasks := tasks + [Task(text, false, DEFAULT_PRIORITY)];
        outcome := Done;
      } else {
        outcome := EmptyText;
      }
    }

    /** A click on the listbox; `index` is the row nearest to the click, -1 on an empty list. */
    method ToggleTaskComplete(index: int) returns (outcome: Outcome)
      modifies this
      ensures tasks == Toggled(old(tasks), index)
      ensures outcome == if 0 <= index < |old(tasks)| then Done else OutOfRange
      ensures old(Valid()) ==> Valid()
    {
      if index < 0 || index >= |tasks| {
        return OutOfRange;
      }
      var t := tasks[index];
      tasks := tasks[index := t.(completed := !t.completed)];
      outcome := Done;
    }

    /** The Edit button; `reply` is what the text dialog returned, None when it was cancelled. */
    method EditTask(selection: Option<nat>, reply: Option<string>) returns (outcome: Outcome)
      modifies this
      ensures tasks == Edited(old(tasks), selection, reply)
      ensures outcome == if !Selects(old(tasks), selection) then NoSelection
                         else if reply.None? then Cancelled
                         else if Strip(reply.value) == [] then EmptyText
                         else Done
      ensures old(Valid()) ==> Valid()
    {
      if selection.None? || selection.value >= |tasks| {
        return NoSelection;
      }
      var idx := selection.value;
      if reply.None? {
        return Cancelled;
      }
      if Valid() {
        EditedWellFormed(tasks, selection, reply);
      }
      var text := Strip(reply.value);
      if text != [] {
        tasks := tasks[idx := tasks[idx].(text := text)];
        outcome := Done;
      } else {
        outcome := EmptyText;
      }
    }

    /** The Priority button and the OK of its dialog; `choice` is None when the dialog closed without a new level. */
    method SetTaskPriority(selection: Option<nat>, choice: Option<Level>) returns (outcome: Outcome)
      modifies this
      ensures tasks == PrioritySet(old(tasks), selection, choice)
      ensures outcome == if !Selects(old(tasks), selection) then NoSelection
                         else if choice.None? then Cancelled
                         else Done
      ensures old(Valid()) ==> Valid()
    {
      if selection.None? || selection.value >= |tasks| {
        return NoSelection;
      }
      var idx := selection.value;
      if choice.None? {
        return Cancelled;
      }
      tasks := tasks[idx := tasks[idx].(priority := choice.value.Name())];
      outcome := Done;
    }

    /** The Remove button; `confirmed` is the answer to "Remove task ...?". */
    method RemoveTask(selection: Option<nat>, confirmed: bool) returns (outcome: Outcome)
      modifies this
      ensures tasks == Removed(old(tasks), selection, confirmed)
      ensures outcome == if !Selects(old(tasks), selection) then NoSelection
                         else if !confirmed then Declined
                         else Done
      ensures old(Valid()) ==> Valid()
    {
      if selection.None? || selection.value >= |tasks| {
        return NoSelection;
      }
      var idx := selection.value;
      if confirmed {
        tasks := tasks[..idx] + tasks[idx + 1..];
        outcome := Done;
      } else {
        outcome := Declined;
      }
    }

    /** The "Clear Done" button; `removed` is the number reported in the message box. */
    method RemoveCompletedTasks() returns (removed: nat)
      modifies this
      ensures tasks == WithoutCompleted(old(tasks))
      ensures removed == Summarize(old(tasks)).done
      ensures old(Valid()) ==> Valid()
    {
      var before := |tasks|;
      tasks := WithoutCompleted(tasks);
      removed := before - |tasks|;
    }

    /** Start-up: read the data file into the list. */
    method LoadTasks(file: StoredFile) returns (status: LoadStatus)
      modifies this
      ensures file.Missing? ==> tasks == old(tasks) && status == Welcome
      ensures file.Unreadable? ==> tasks == [] && status == LoadError
      ensures file.Parsed? ==> tasks == Normalised(file.records) && status == Loaded
    {
      match file
      case Missing =>
        status := Welcome;
      case Unreadable =>
        tasks := [];
        status := LoadError;
      case Parsed(records) =>
        tasks := FillDefaultPriorities(records);
        status := Loaded;
    }
  }
}
