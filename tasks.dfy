/**
 * The task records held by the to-do list, how one row of the list is
 * displayed, the status-bar counts, the "Clear Done" filter and the
 * defaulting of priorities when a saved list is read back.
 */
module Tasks {
  import opened Wrappers
  import opened Text

  /** The priority levels the priority dialog offers (its combobox is read-only). */
  datatype Level = High | Medium | Low {
    function Name(): string
    {
      match this
      case High => "High"
      case Medium => "Medium"
      case Low => "Low"
    }
  }

  /** The priority given to a new task and to a loaded record that has none. */
  const DEFAULT_PRIORITY := Medium.Name()

  predicate IsLevelName(p: string)
  {
    p == "High" || p == "Medium" || p == "Low"
  }

  /**
   * One task as it sits in the list. The priority is a string, as in the
   * saved file: a record read back from disk may carry any string there.
   */
  datatype Task = Task(text: string, completed: bool, priority: string)

  /** One record of the saved file after parsing; a record may lack a priority. */
  datatype Record = Record(text: string, completed: bool, priority: Option<string>)

  /** The state every task created through the app is in: trimmed, non-empty text and a known priority. */
  predicate WellFormed(t: Task)
  {
    t.text != [] && IsTrimmed(t.text) && IsLevelName(t.priority)
  }

  predicate AllWellFormed(s: seq<Task>)
  {
    forall i :: 0 <= i < |s| ==> WellFormed(s[i])
  }

  // ---------------------------------------------------------------- display

  const PRIORITY_HIGH_COLOR := "#E74C3C"
  const PRIORITY_MEDIUM_COLOR := "#F39C12"
  const PRIORITY_LOW_COLOR := "#2ECC71"
  const LISTBOX_FG := "#2C3E50"
  const CHECK_UNCHECKED := "[ ]"
  const CHECK_CHECKED := "[\U{2713}]"

  datatype Display = Display(badge: string, color: string)

  /** The short label and colour shown for a priority; an unknown priority shows no label. */
  function PriorityDisplay(p: string): (d: Display)
    ensures d.badge != "" <==> IsLevelName(p)
    ensures IsLevelName(p) ==> d.badge == "(" + p[..1] + ")"
    ensures !IsLevelName(p) ==> d.color == LISTBOX_FG
  {
    if p == "High" then Display("(H)", PRIORITY_HIGH_COLOR)
    else if p == "Medium" then Display("(M)", PRIORITY_MEDIUM_COLOR)
    else if p == "Low" then Display("(L)", PRIORITY_LOW_COLOR)
    else Display("", LISTBOX_FG)
  }

  /** The three levels are told apart by both their label and their colour. */
  lemma LevelDisplaysDistinct(a: Level, b: Level)
    requires a != b
    ensures PriorityDisplay(a.Name()).badge != PriorityDisplay(b.Name()).badge
    ensures PriorityDisplay(a.Name()).color != PriorityDisplay(b.Name()).color
  {
  }

  /** The listbox row of a task: check box, priority label, then the text. */
  function Row(t: Task): (r: string)
    ensures |r| >= 3 && r[..3] == (if t.completed then CHECK_CHECKED else CHECK_UNCHECKED)
    ensures r[3..] == " " + PriorityDisplay(t.priority).badge + " " + t.text
  {
    var checkbox := if t.completed then CHECK_CHECKED else CHECK_UNCHECKED;
    var rest := " " + PriorityDisplay(t.priority).badge + " " + t.text;
    assert |checkbox| == 3;
    assert (checkbox + rest)[3..] == rest;
    checkbox + rest
  }

  /**
   * Rows of two tasks coincide only when the tasks agree on text, completion
   * and shown label: the character after the check box's space is `(` exactly
   * when a label is shown, and the one after it is then the level's initial.
   */
  lemma RowInjective(t: Task, u: Task)
    requires Row(t) == Row(u)
    ensures t.completed == u.completed && t.text == u.text
    ensures PriorityDisplay(t.priority).badge == PriorityDisplay(u.priority).badge
  {
    var bt, bu := PriorityDisplay(t.priority).badge, PriorityDisplay(u.priority).badge;
    assert Row(t)[..3] == Row(u)[..3];
    var rest := Row(t)[3..];
    assert rest == Row(u)[3..];
    assert bt == bu by {
      assert rest[1] == (if bt == "" then ' ' else '(') == (if bu == "" then ' ' else '(');
      if bt != "" {
        assert rest[2] == bt[1] == bu[1];
      }
    }
    var n := 3 + 1 + |bt| + 1;
    assert Row(t)[n..] == t.text;
    assert Row(u)[n..] == u.text;
  }

  // ------------------------------------------------------- counting, filter

  /** How many tasks are marked completed (Python's `sum` over the `completed` flags). */
  function CountCompleted(s: seq<Task>): (n: nat)
    ensures n <= |s|
  {
    if s == [] then 0 else (if s[0].completed then 1 else 0) + CountCompleted(s[1..])
  }

  lemma {:induction false} CountCompletedConcat(a: seq<Task>, b: seq<Task>)
    ensures CountCompleted(a + b) == CountCompleted(a) + CountCompleted(b)
  {
    if a != [] {
      assert (a + b)[1..] == a[1..] + b;
      CountCompletedConcat(a[1..], b);
    } else {
      assert a + b == b;
    }
  }

  /** No task is completed exactly when the count is 0; all are exactly when it is the length. */
  lemma {:induction false} CountCompletedExtremes(s: seq<Task>)
    ensures CountCompleted(s) == 0 <==> forall i :: 0 <= i < |s| ==> !s[i].completed
    ensures CountCompleted(s) == |s| <==> forall i :: 0 <= i < |s| ==> s[i].completed
  {
    if s != [] {
      CountCompletedExtremes(s[1..]);
      assert forall i :: 1 <= i < |s| ==> s[i] == s[1..][i - 1];
    }
  }

  /** Replacing one task changes the count by the difference of the two flags only. */
  lemma CountCompletedUpdate(s: seq<Task>, i: nat, t: Task)
    requires i < |s|
    ensures CountCompleted(s[i := t])
            == CountCompleted(s) - (if s[i].completed then 1 else 0) + (if t.completed then 1 else 0)
  {
    assert s == s[..i] + [s[i]] + s[i + 1..];
    assert s[i := t] == s[..i] + [t] + s[i + 1..];
    CountCompletedConcat(s[..i] + [s[i]], s[i + 1..]);
    CountCompletedConcat(s[..i], [s[i]]);
    CountCompletedConcat(s[..i] + [t], s[i + 1..]);
    CountCompletedConcat(s[..i], [t]);
  }

  /** The list with every completed task dropped ("Clear Done"), order kept. */
  function WithoutCompleted(s: seq<Task>): (r: seq<Task>)
    ensures |r| == |s| - CountCompleted(s)
    ensures forall t :: t in r ==> t in s && !t.completed
  {
    if s == [] then []
    else (if s[0].completed then [] else [s[0]]) + WithoutCompleted(s[1..])
  }

  /** A task survives the filter exactly when it is in the list and not completed. */
  lemma {:induction false} WithoutCompletedMembers(s: seq<Task>, t: Task)
    ensures t in WithoutCompleted(s) <==> t in s && !t.completed
  {
    if s != [] && t != s[0] {
      WithoutCompletedMembers(s[1..], t);
    }
  }

  /** The filter works piece by piece, so it keeps the relative order of the tasks it keeps. */
  lemma {:induction false} WithoutCompletedConcat(a: seq<Task>, b: seq<Task>)
    ensures WithoutCompleted(a + b) == WithoutCompleted(a) + WithoutCompleted(b)
  {
    if a != [] {
      var head := if a[0].completed then [] else [a[0]];
      assert (a + b)[0] == a[0];
      assert (a + b)[1..] == a[1..] + b;
      assert WithoutCompleted(a + b) == head + WithoutCompleted(a[1..] + b);
      WithoutCompletedConcat(a[1..], b);
      assert WithoutCompleted(a) == head + WithoutCompleted(a[1..]);
    } else {
      assert a + b == b;
    }
  }

  /** After "Clear Done" nothing is completed, so a second "Clear Done" removes nothing. */
  lemma WithoutCompletedIdempotent(s: seq<Task>)
    ensures CountCompleted(WithoutCompleted(s)) == 0
    ensures WithoutCompleted(WithoutCompleted(s)) == WithoutCompleted(s)
  {
    var r := WithoutCompleted(s);
    forall i | 0 <= i < |r| ensures !r[i].completed {
      assert r[i] in r;
    }
    CountCompletedExtremes(r);
    WithoutCompletedUnchangedIff(r);
  }

  /** "Clear Done" keeps every task (returns the list unchanged) exactly when none is completed. */
  lemma {:induction false} WithoutCompletedUnchangedIff(s: seq<Task>)
    ensures WithoutCompleted(s) == s <==> CountCompleted(s) == 0
  {
    if s != [] {
      WithoutCompletedUnchangedIff(s[1..]);
      if !s[0].completed && WithoutCompleted(s) == s {
        assert WithoutCompleted(s[1..]) == WithoutCompleted(s)[1..];
      }
    }
  }

  // ------------------------------------------------------------- status bar

  datatype Summary = Summary(total: nat, done: nat, pending: nat)

  /** The counts shown in the status bar: total, completed and pending tasks. */
  function Summarize(s: seq<Task>): (r: Summary)
    ensures r.total == |s| && r.done <= r.total && r.done + r.pending == r.total
    ensures r.pending == |WithoutCompleted(s)|
    ensures r.done == 0 <==> forall i :: 0 <= i < |s| ==> !s[i].completed
    ensures r.pending == 0 <==> forall i :: 0 <= i < |s| ==> s[i].completed
  {
    CountCompletedExtremes(s);
    var done := CountCompleted(s);
    Summary(|s|, done, |s| - done)
  }

  // ----------------------------------------------------------------- loading

  /** A record as loaded: a missing priority becomes the default one. */
  function Normalise(rec: Record): Task
  {
    Task(rec.text, rec.completed, rec.priority.GetOr(DEFAULT_PRIORITY))
  }

  /** The whole parsed file after the priority defaulting pass. */
  function Normalised(records: seq<Record>): (r: seq<Task>)
    ensures |r| == |records|
    ensures forall i :: 0 <= i < |records| ==> r[i] == Normalise(records[i])
  {
    seq(|records|, i requires 0 <= i < |records| => Normalise(records[i]))
  }

  /** The record the saved file holds for a task: all three fields are written. */
  function Saved(t: Task): Record
  {
    Record(t.text, t.completed, Some(t.priority))
  }

  function SavedAll(s: seq<Task>): (r: seq<Record>)
    ensures |r| == |s|
    ensures forall i :: 0 <= i < |s| ==> r[i] == Saved(s[i])
  {
    seq(|s|, i requires 0 <= i < |s| => Saved(s[i]))
  }

  /** Writing the list and reading it back gives the same list. */
  lemma LoadAfterSave(s: seq<Task>)
    ensures Normalised(SavedAll(s)) == s
  {
  }

  /** A record read back is well formed exactly when its text is, and its priority is absent or a level name. */
  predicate WellFormedRecord(rec: Record)
  {
    rec.text != [] && IsTrimmed(rec.text) && (rec.priority.Some? ==> IsLevelName(rec.priority.value))
  }

  lemma NormalisedWellFormedIff(records: seq<Record>)
    ensures AllWellFormed(Normalised(records))
            <==> forall i :: 0 <= i < |records| ==> WellFormedRecord(records[i])
  {
  }
}
