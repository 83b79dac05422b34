/**
 A session on the main screen: starting from the initial list, the user types
 into the popup, adds the typed task, toggles tasks and deletes rows, one
 event at a time. The validity of the list — distinct ids, non-empty names —
 holds after every event.
 */
module Session {
  import opened TaskList

  /** What the screen can do to the list. `Add` carries the id the new task
      is created with. */
  datatype Event =
    | EditName(text: string)
    | Add(freshId: TaskId)
    | Toggle(id: TaskId)
    | Delete(offsets: set<nat>)

  /** What an event needs to be applied: a fresh id when a task will be
      created, offsets that name rows when rows are deleted. */
  predicate Enabled(s: ContentState, e: Event) {
    match e
    case EditName(_) => true
    case Add(freshId) => s.newTaskName != [] ==> freshId !in Ids(s.tasks)
    case Toggle(_) => true
    case Delete(offsets) => forall o :: o in offsets ==> o < |s.tasks|
  }

  function Step(s: ContentState, e: Event): ContentState
    requires Enabled(s, e)
  {
    match e
    case EditName(text) => s.(newTaskName := text)
    case Add(freshId) => AddTask(s, freshId)
    case Toggle(id) => s.(tasks := ToggleCompletion(s.tasks, id))
    case Delete(offsets) => s.(tasks := RemoveAtOffsets(s.tasks, offsets))
  }

  /** Every event of `events` is enabled in the state it meets. */
  predicate Runs(s: ContentState, events: seq<Event>)
    decreases |events|
  {
    events == [] || (Enabled(s, events[0]) && Runs(Step(s, events[0]), events[1..]))
  }

  function Run(s: ContentState, events: seq<Event>): ContentState
    requires Runs(s, events)
    decreases |events|
  {
    if events == [] then s else Run(Step(s, events[0]), events[1..])
  }

  /** One event keeps the list valid. */
  lemma StepKeepsValid(s: ContentState, e: Event)
    requires Valid(s) && Enabled(s, e)
    ensures Valid(Step(s, e))
  {
    match e
    case EditName(_) =>
    case Add(_) =>
    case Toggle(id) =>
      ToggleKeepsIds(s.tasks, id);
    case Delete(offsets) =>
      RemoveKeepsDistinct(s.tasks, offsets);
      var r := RemoveAtOffsets(s.tasks, offsets);
      var ks := Survivors(|s.tasks|, offsets);
      assert forall k :: 0 <= k < |r| ==> r[k] == s.tasks[ks[k]];
  }

  /** Any run of enabled events keeps the list valid: however many tasks are
      added, toggled and deleted, no two share an id. */
  lemma {:induction false} RunKeepsValid(s: ContentState, events: seq<Event>)
    requires Valid(s) && Runs(s, events)
    ensures Valid(Run(s, events))
    decreases |events|
  {
    if events != [] {
      StepKeepsValid(s, events[0]);
      RunKeepsValid(Step(s, events[0]), events[1..]);
    }
  }

  /** Typing a name and adding it, from a valid state, appends one task. */
  lemma TypeThenAdd(s: ContentState, name: string, freshId: TaskId)
    requires Valid(s) && name != [] && freshId !in Ids(s.tasks)
    ensures Runs(s, [EditName(name), Add(freshId)])
    ensures var r := Run(s, [EditName(name), Add(freshId)]);
      && |r.tasks| == |s.tasks| + 1
      && r.tasks[..|s.tasks|] == s.tasks
      && r.tasks[|s.tasks|] == Task(freshId, name, false)
      && r.newTaskName == []
      && Valid(r)
  {
    var events := [EditName(name), Add(freshId)];
    var typed := Step(s, EditName(name));
    var r := AddTask(typed, freshId);
    assert events[1..] == [Add(freshId)];
    assert [Add(freshId)][1..] == [];
    assert Runs(r, []);
    assert Runs(typed, [Add(freshId)]);
    assert Run(typed, [Add(freshId)]) == r;
    assert Run(s, events) == r;
    assert r.tasks[|s.tasks|].id == freshId by {
      assert Ids(r.tasks) == Ids(s.tasks) + {freshId};
      assert r.tasks[|s.tasks|].id in Ids(r.tasks);
    }
  }

  /** Deleting the first of three rows leaves the other two, in order. */
  lemma DeleteFirstOfThree(a: Task, b: Task, c: Task)
    ensures RemoveAtOffsets([a, b, c], {0}) == [b, c]
  {
    SurvivorsWithoutFirst();
    var r := RemoveAtOffsets([a, b, c], {0});
    assert |r| == 2 && r[0] == b && r[1] == c;
  }

  lemma SurvivorsWithoutFirst()
    ensures Survivors(3, {0}) == [1, 2]
  {
    assert Survivors(1, {0}) == [];
    assert Survivors(2, {0}) == [1];
  }
}
