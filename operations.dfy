/**
 * What each button, click and dialog of the to-do window does to the task
 * list, as functions from the old list (and the user's input) to the new one.
 * The window's handlers in module TodoStore are proved to match these.
 */
module Operations {
  import opened Wrappers
  import opened Text
  import opened Tasks

  /**
   * A listbox selection that names a task. No selection, or an index past
   * the end, is the `IndexError` branch of the handlers.
   */
  predicate Selects(s: seq<Task>, selection: Option<nat>)
  {
    selection.Some? && selection.value < |s|
  }

  /** The list after "Add" with `entry` in the text field. */
  function Added(s: seq<Task>, entry: string): (r: seq<Task>)
    ensures Strip(entry) == [] ==> r == s
    ensures Strip(entry) != [] ==>
              && |r| == |s| + 1 && r[..|s|] == s
              && r[|s|] == Task(Strip(entry), false, DEFAULT_PRIORITY)
  {
    var text := Strip(entry);
    if text == [] then s
    else
      var t := Task(text, false, DEFAULT_PRIORITY);
      assert (s + [t])[..|s|] == s;
      s + [t]
  }

  /** Adding keeps every task trimmed, non-empty and at a known priority. */
  lemma AddedWellFormed(s: seq<Task>, entry: string)
    requires AllWellFormed(s)
    ensures AllWellFormed(Added(s, entry))
  {
    var text := Strip(entry);
    if text != [] {
      assert IsTrimmed(text);
      var t := Task(text, false, DEFAULT_PRIORITY);
      assert WellFormed(t);
      assert Added(s, entry) == s + [t];
    }
  }

  /** Adding never changes how many tasks are completed: a successful add is one more pending task. */
  lemma AddCounts(s: seq<Task>, entry: string)
    ensures CountCompleted(Added(s, entry)) == CountCompleted(s)
  {
    var r := Added(s, entry);
    if |r| != |s| {
      var t := r[|s|];
      assert r == s + [t];
      CountCompletedConcat(s, [t]);
      assert [t][1..] == [];
    }
  }

  /** The list after a click on row `index`; the click may land outside the rows. */
  function Toggled(s: seq<Task>, index: int): (r: seq<Task>)
    ensures |r| == |s|
    ensures forall j :: 0 <= j < |s| && j != index ==> r[j] == s[j]
    ensures 0 <= index < |s| ==>
              && r[index].completed == !s[index].completed
              && r[index].text == s[index].text
              && r[index].priority == s[index].priority
    ensures !(0 <= index < |s|) ==> r == s
    ensures 0 <= index < |s| ==>
              CountCompleted(r) == CountCompleted(s) + (if s[index].completed then -1 else 1)
    ensures AllWellFormed(s) ==> AllWellFormed(r)
  {
    if 0 <= index < |s| then
      var t := s[index].(completed := !s[index].completed);
      CountCompletedUpdate(s, index, t);
      s[index := t]
    else s
  }

  /** Clicking the same row twice restores the list. */
  lemma ToggleTwice(s: seq<Task>, index: int)
    ensures Toggled(Toggled(s, index), index) == s
  {
  }

  /** The list after "Edit": `reply` is what the text dialog returned, None when it was cancelled. */
  function Edited(s: seq<Task>, selection: Option<nat>, reply: Option<string>): (r: seq<Task>)
    ensures |r| == |s|
    ensures !Selects(s, selection) || reply.None? || Strip(reply.value) == [] ==> r == s
    ensures Selects(s, selection) && reply.Some? && Strip(reply.value) != [] ==>
              var i := selection.value;
              && r[i] == s[i].(text := Strip(reply.value))
              && forall j :: 0 <= j < |s| && j != i ==> r[j] == s[j]
  {
    if !Selects(s, selection) || reply.None? then s
    else
      var text := Strip(reply.value);
      if text == [] then s
      else
        var i := selection.value;
        s[i := s[i].(text := text)]
  }

  /** Editing keeps every task trimmed, non-empty and at a known priority. */
  lemma EditedWellFormed(s: seq<Task>, selection: Option<nat>, reply: Option<string>)
    requires AllWellFormed(s)
    ensures AllWellFormed(Edited(s, selection, reply))
  {
    if Selects(s, selection) && reply.Some? {
      var text := Strip(reply.value);
      if text != [] {
        assert IsTrimmed(text);
        var i := selection.value;
        assert WellFormed(s[i].(text := text));
        assert Edited(s, selection, reply) == s[i := s[i].(text := text)];
      }
    }
  }

  /** Editing never changes how many tasks are completed (nor, by `Edited`, how many there are). */
  lemma EditCounts(s: seq<Task>, selection: Option<nat>, reply: Option<string>)
    ensures CountCompleted(Edited(s, selection, reply)) == CountCompleted(s)
  {
    var r := Edited(s, selection, reply);
    if r != s {
      var i := selection.value;
      assert r == s[i := r[i]];
      CountCompletedUpdate(s, i, r[i]);
    }
  }

  /**
   * The edit dialog opens on the task's current text; confirming it as shown
   * leaves a well-formed list unchanged.
   */
  lemma EditWithShownText(s: seq<Task>, i: nat)
    requires i < |s| && AllWellFormed(s)
    ensures Edited(s, Some(i), Some(s[i].text)) == s
  {
    StripFixedIff(s[i].text);
  }

  /**
   * The list after "Priority": `choice` is the level picked in the dialog and
   * confirmed with OK; None when the dialog was closed or OK was pressed on
   * the level already shown.
   */
  function PrioritySet(s: seq<Task>, selection: Option<nat>, choice: Option<Level>): (r: seq<Task>)
    ensures |r| == |s|
    ensures !Selects(s, selection) || choice.None? ==> r == s
    ensures Selects(s, selection) && choice.Some? ==>
              && r[selection.value].priority == choice.value.Name()
              && forall j :: 0 <= j < |s| && j != selection.value ==> r[j] == s[j]
    ensures forall j :: 0 <= j < |s| ==>
              r[j].text == s[j].text && r[j].completed == s[j].completed
    ensures CountCompleted(r) == CountCompleted(s)
    ensures AllWellFormed(s) ==> AllWellFormed(r)
  {
    if !Selects(s, selection) || choice.None? then s
    else
      var i := selection.value;
      var t := s[i].(priority := choice.value.Name());
      CountCompletedUpdate(s, i, t);
      s[i := t]
  }

  /**
   * The list after "Remove", `confirmed` being the answer to the confirmation
   * prompt. Tasks after the removed one move up one position.
   */
  function Removed(s: seq<Task>, selection: Option<nat>, confirmed: bool): (r: seq<Task>)
    ensures !(Selects(s, selection) && confirmed) ==> r == s
    ensures Selects(s, selection) && confirmed ==>
              var i := selection.value;
              && |r| == |s| - 1
              && (forall j :: 0 <= j < i ==> r[j] == s[j])
              && (forall j :: i <= j < |r| ==> r[j] == s[j + 1])
              && multiset(r) + multiset{s[i]} == multiset(s)
              && CountCompleted(r) == CountCompleted(s) - (if s[i].completed then 1 else 0)
    ensures AllWellFormed(s) ==> AllWellFormed(r)
  {
    if Selects(s, selection) && confirmed then
      var i := selection.value;
      assert s == s[..i] + [s[i]] + s[i + 1..];
      CountCompletedConcat(s[..i] + [s[i]], s[i + 1..]);
      CountCompletedConcat(s[..i], [s[i]]);
      CountCompletedConcat(s[..i], s[i + 1..]);
      s[..i] + s[i + 1..]
    else s
  }
}
