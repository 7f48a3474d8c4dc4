/** The state of the to-do list page: the `tasks` array held in memory, its copy in
    local storage, and the three event handlers that change them. */
module TaskStore {
  import opened TaskText
  import opened TaskList

  class Store {
    /** The tasks shown, in the order they were added. */
    var tasks: seq<Task>
    /** The value under the storage key 'tasks' (its JSON encoding is not modelled);
        `None` while nothing has been saved. */
    var saved: Option<seq<Task>>

    /** Storage mirrors memory: an absent key goes with an empty list, and every
        saved list is the one in memory. */
    ghost predicate Mirrored()
      reads this
    {
      match saved
      case None => tasks == []
      case Some(s) => s == tasks
    }

    /** Page load: the stored list if there is one, the empty list otherwise. */
    constructor (stored: Option<seq<Task>>)
      ensures tasks == (if stored.Some? then stored.value else [])
      ensures saved == stored
      ensures Mirrored()
    {
      tasks := if stored.Some? then stored.value else [];
      saved := stored;
    }

    /** `saveTasks`: writes the in-memory list to storage. */
    method Save()
      modifies this`saved
      ensures saved == Some(tasks)
    {
      saved := Some(tasks);
    }

    /** `addTask`, with the input field's value as `input` and the clock reading as
        `now`. A blank input is refused (the page shows an alert) and nothing changes;
        otherwise the trimmed text is appended as a new, uncompleted task keyed by
        `now`, after every task already there, and the list is saved. */
    method Add(input: string, now: int) returns (ok: bool)
      requires Mirrored()
      modifies this
      ensures Mirrored()
      ensures ok <==> !AllWhitespace(input)
      ensures ok ==> tasks == old(tasks) + [Task(now, Trim(input), false)]
      ensures ok ==> saved == Some(tasks)
      ensures !ok ==> tasks == old(tasks) && saved == old(saved)
    {
      var text := Trim(input);
      if text == [] {
        assert AllWhitespace(input);
        return false;
      }
      assert !AllWhitespace(input);
      tasks := tasks + [Task(now, text, false)];
      Save();
      ok := true;
    }

    /** `deleteTask`: keeps exactly the tasks whose id differs from `id`, in order,
        and saves the list. */
    method Delete(id: int)
      requires Mirrored()
      modifies this
      ensures Mirrored()
      ensures tasks == Without(old(tasks), id)
      ensures saved == Some(tasks)
    {
      tasks := Without(tasks, id);
      Save();
    }

    /** `toggleTask`: flips the completion flag of the first task with the id and saves
        the list; when no task has the id, nothing changes and nothing is saved. */
    method Toggle(id: int)
      requires Mirrored()
      modifies this
      ensures Mirrored()
      ensures tasks == Toggled(old(tasks), id)
      ensures HasId(old(tasks), id) ==> saved == Some(tasks)
      ensures !HasId(old(tasks), id) ==> saved == old(saved)
    {
      match FindFirst(tasks, id)
      case None =>
      case Some(i) =>
        tasks := tasks[i := Flip(tasks[i])];
        Save();
    }
  }

  /** "Buy milk" has no whitespace to trim. */
  lemma BuyMilkIsTrimmed()
    ensures Trim("Buy milk") == "Buy milk" && !IsWhitespace("Buy milk"[0])
  {
    var milk := "Buy milk";
    WhitespaceCodePoints(milk[0]);
    WhitespaceCodePoints(milk[|milk| - 1]);
    assert !IsWhitespace(milk[0]) && !IsWhitespace(milk[|milk| - 1]);
    assert milk == [] + milk + [];
    TrimUnique(milk, [], milk, []);
  }

  /** A session on an empty page: "Buy milk" is added, toggled and deleted. */
  method BuyMilkSession(now: int)
  {
    var milk := "Buy milk";
    BuyMilkIsTrimmed();
    var added := Task(now, milk, false);
    ToggleFindsAppended([], added);
    DeleteUndoesAppend([], Flip(added));

    var store := new Store(None);
    var ok := store.Add(milk, now);
    assert ok && store.tasks == [] + [added];
    store.Toggle(now);
    assert store.tasks == [] + [Flip(added)];
    store.Delete(now);
    assert store.tasks == [];
  }

  /** A blank entry is refused and leaves the stored list alone. */
  method BlankEntryRefused(stored: seq<Task>, now: int)
  {
    var store := new Store(Some(stored));
    var ok := store.Add(" \t", now);
    assert !ok && store.tasks == stored && store.saved == Some(stored);
  }
}
