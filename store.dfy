/** The state of the `App` component: the stored task list, the slot holding the last deleted
    task while it can still be restored, the copy kept in local storage and the timers that
    are still scheduled. Each handler replaces the list with one computed by a `Tasks`
    function; the identifier, the clock reading and the timer expiry are inputs. */
module Store {
  import opened Text
  import opened Tasks
  import opened View

  /** `recentlyDeleted`: the task removed last and the handle of the timer that forgets it. */
  datatype Pending = Pending(item: Task, timeout: nat)

  /** What local storage holds under the store's key when the component starts: nothing (or
      the empty string), text that does not parse, or a parsed task list. */
  datatype Stored = Missing | Unreadable | Parsed(tasks: seq<Task>)

  /** The list the component starts from: the parsed stored list, else the empty list. */
  function Initial(stored: Stored): (r: seq<Task>)
    ensures stored.Parsed? ==> r == stored.tasks
    ensures !stored.Parsed? ==> r == []
  {
    match stored
    case Parsed(tasks) => tasks
    case _ => []
  }

  /** Identifiers are unique, and the pending task's identifier is not in the list, so undo
      cannot create a duplicate. */
  ghost predicate Restorable(todos: seq<Task>, pending: Option<Pending>) {
    && UniqueIds(todos)
    && (pending.Some? ==> !HasId(todos, pending.value.item.id))
  }

  /** Adding under an identifier neither the list nor the pending task uses. */
  lemma AddRestorable(todos: seq<Task>, pending: Option<Pending>, title: string, description: string,
                      id: string, now: int)
    requires Restorable(todos, pending) && !HasId(todos, id)
    requires pending.Some? ==> pending.value.item.id != id
    ensures Restorable(AddTask(todos, title, description, id, now), pending)
  {
    var r := AddTask(todos, title, description, id, now);
    AddTaskSpec(todos, title, description, id, now);
    AddKeepsIdsUnique(todos, title, description, id, now);
    if pending.Some? && !Blank(title) {
      assert r == [r[0]] + todos;
      var pid := pending.value.item.id;
      forall i | 0 <= i < |r| ensures r[i].id != pid {
        if i > 0 {
          assert r[i] == todos[i - 1];
        }
      }
    }
  }

  /** Toggling keeps identifiers, so it keeps the store restorable. */
  lemma ToggleRestorable(todos: seq<Task>, pending: Option<Pending>, id: string, now: int)
    requires Restorable(todos, pending)
    ensures Restorable(Toggle(todos, id, now), pending)
  {
    TogglePreservesIds(todos, id, now);
    SameIds(todos, Toggle(todos, id, now));
  }

  /** An edit that leaves identifiers alone. */
  lemma EditRestorable(todos: seq<Task>, pending: Option<Pending>, id: string, changes: Changes, now: int)
    requires Restorable(todos, pending) && changes.id.None?
    ensures Restorable(Edit(todos, id, changes, now), pending)
  {
    EditPreservesIds(todos, id, changes, now);
    SameIds(todos, Edit(todos, id, changes, now));
  }

  /** Deleting from a list with unique identifiers: the task found is not in what is left. */
  lemma DeleteRestorable(todos: seq<Task>, id: string, timer: nat)
    requires UniqueIds(todos) && FindById(todos, id).Some?
    ensures Restorable(RemoveId(todos, id), Some(Pending(FindById(todos, id).value, timer)))
  {
    RemoveIdSpec(todos, id);
    FilterKeepsIdsUnique(todos, OtherThan(id));
    var rest := RemoveId(todos, id);
    forall i | 0 <= i < |rest| ensures rest[i].id != id {
      assert rest[i] in rest;
    }
  }

  /** Putting the pending task back in front keeps identifiers unique. */
  lemma UndoRestorable(todos: seq<Task>, pending: Pending)
    requires Restorable(todos, Some(pending))
    ensures Restorable([pending.item] + todos, None)
  {
    ConsKeepsIdsUnique(pending.item, todos);
  }

  /** Clearing drops tasks and adds no identifier, so it keeps the store restorable. */
  lemma ClearRestorable(todos: seq<Task>, pending: Option<Pending>)
    requires Restorable(todos, pending)
    ensures Restorable(ClearCompleted(todos), pending)
  {
    FilterKeepsIdsUnique(todos, IsActive);
    FilterKeepsNoNewIds(todos, IsActive);
  }

  class TaskStore {
    var todos: seq<Task>
    var recentlyDeleted: Option<Pending>
    /** The list as last written to local storage. */
    var saved: seq<Task>
    /** Handles of the timers scheduled and neither fired nor cleared. */
    var armed: set<nat>
    /** The handle the next `setTimeout` returns. */
    var nextTimer: nat

    /** After every change the list is written back to storage; a pending task's timer is
        still scheduled; every scheduled handle was handed out before. */
    ghost predicate Valid()
      reads this
    {
      && saved == todos
      && (recentlyDeleted.Some? ==> recentlyDeleted.value.timeout in armed)
      && (forall h :: h in armed ==> h < nextTimer)
    }

    ghost predicate Consistent()
      reads this
    {
      Restorable(todos, recentlyDeleted)
    }

    /** `useLocalStorage(LOCAL_STORAGE_KEY, [])` on mount, followed by its first write. */
    constructor (stored: Stored)
      ensures todos == Initial(stored) && saved == todos
      ensures recentlyDeleted.None? && armed == {} && nextTimer == 1
      ensures Valid()
    {
      todos := Initial(stored);
      saved := Initial(stored);
      recentlyDeleted := None;
      armed := {};
      nextTimer := 1;
    }

    /** `handleAdd` with the form's title and description, `uid()` as `id` and `Date.now()`
        as `now`. */
    method Add(title: string, description: string, id: string, now: int)
      requires Valid()
      modifies this
      ensures todos == AddTask(old(todos), title, description, id, now)
      ensures recentlyDeleted == old(recentlyDeleted)
      ensures armed == old(armed) && nextTimer == old(nextTimer)
      ensures Valid()
      ensures old(Consistent()) && !HasId(old(todos), id)
        && (old(recentlyDeleted).Some? ==> old(recentlyDeleted).value.item.id != id)
        ==> Consistent()
    {
      if Consistent() && !HasId(todos, id)
        && (recentlyDeleted.Some? ==> recentlyDeleted.value.item.id != id) {
        AddRestorable(todos, recentlyDeleted, title, description, id, now);
      }
      todos := AddTask(todos, title, description, id, now);
      saved := todos;
    }

    /** `toggleComplete(id)` at time `now`. */
    method ToggleComplete(id: string, now: int)
      requires Valid()
      modifies this
      ensures todos == Toggle(old(todos), id, now)
      ensures recentlyDeleted == old(recentlyDeleted)
      ensures armed == old(armed) && nextTimer == old(nextTimer)
      ensures Valid()
      ensures old(Consistent()) ==> Consistent()
    {
      if Consistent() {
        ToggleRestorable(todos, recentlyDeleted, id, now);
      }
      todos := Toggle(todos, id, now);
      saved := todos;
    }

    /** `editTodo(id, changes)` at time `now`. An edit that does not change identifiers keeps
        the store consistent. */
    method EditTask(id: string, changes: Changes, now: int)
      requires Valid()
      modifies this
      ensures todos == Edit(old(todos), id, changes, now)
      ensures recentlyDeleted == old(recentlyDeleted)
      ensures armed == old(armed) && nextTimer == old(nextTimer)
      ensures Valid()
      ensures old(Consistent()) && changes.id.None? ==> Consistent()
    {
      if Consistent() && changes.id.None? {
        EditRestorable(todos, recentlyDeleted, id, changes, now);
      }
      todos := Edit(todos, id, changes, now);
      saved := todos;
    }

    /** `deleteTodo(id)`: nothing happens when no task has the identifier; otherwise every
        task with it is removed, the first one found becomes the pending task (whatever was
        pending before is dropped, its timer left running) and a new timer is scheduled. */
    method Delete(id: string)
      requires Valid()
      modifies this
      ensures old(FindById(todos, id)).None? ==>
        && todos == old(todos) && recentlyDeleted == old(recentlyDeleted)
        && armed == old(armed) && nextTimer == old(nextTimer)
      ensures old(FindById(todos, id)).Some? ==>
        && todos == RemoveId(old(todos), id)
        && recentlyDeleted == Some(Pending(old(FindById(todos, id)).value, old(nextTimer)))
        && armed == old(armed) + {old(nextTimer)} && nextTimer == old(nextTimer) + 1
      ensures Valid()
      ensures old(FindById(todos, id)).Some? && old(UniqueIds(todos)) ==> Consistent()
      ensures old(Consistent()) ==> Consistent()
    {
      var toRemove := FindById(todos, id);
      if toRemove.None? {
        return;
      }
      if UniqueIds(todos) {
        DeleteRestorable(todos, id, nextTimer);
      }
      todos := RemoveId(todos, id);
      saved := todos;
      var timer := nextTimer;
      nextTimer := nextTimer + 1;
      armed := armed + {timer};
      recentlyDeleted := Some(Pending(toRemove.value, timer));
    }

    /** `undoDelete()`: nothing happens when no task is pending; otherwise its timer is
        cleared, the task goes back in front of the list and the slot is emptied. */
    method Undo()
      requires Valid()
      modifies this
      ensures old(recentlyDeleted).None? ==>
        todos == old(todos) && recentlyDeleted.None? && armed == old(armed)
      ensures old(recentlyDeleted).Some? ==>
        && todos == [old(recentlyDeleted).value.item] + old(todos)
        && recentlyDeleted.None?
        && armed == old(armed) - {old(recentlyDeleted).value.timeout}
      ensures nextTimer == old(nextTimer)
      ensures Valid()
      ensures old(Consistent()) ==> Consistent()
    {
      if recentlyDeleted.None? {
        return;
      }
      var p := recentlyDeleted.value;
      if Consistent() {
        UndoRestorable(todos, p);
      }
      armed := armed - {p.timeout};
      todos := [p.item] + todos;
      saved := todos;
      recentlyDeleted := None;
    }

    /** `clearCompleted()`. */
    method ClearCompletedTasks()
      requires Valid()
      modifies this
      ensures todos == ClearCompleted(old(todos))
      ensures recentlyDeleted == old(recentlyDeleted)
      ensures armed == old(armed) && nextTimer == old(nextTimer)
      ensures Valid()
      ensures old(Consistent()) ==> Consistent()
    {
      if Consistent() {
        ClearRestorable(todos, recentlyDeleted);
      }
      todos := ClearCompleted(todos);
      saved := todos;
    }

    /** The callback of the timer `timer` (`setRecentlyDeleted(null)`): it empties the slot,
        whichever delete scheduled it, and leaves the list alone. */
    method Expire(timer: nat)
      requires Valid() && timer in armed
      modifies this
      ensures todos == old(todos) && recentlyDeleted.None?
      ensures armed == old(armed) - {timer} && nextTimer == old(nextTimer)
      ensures Valid()
      ensures old(Consistent()) ==> Consistent()
    {
      armed := armed - {timer};
      recentlyDeleted := None;
    }

    /** `visible`: computed from a copy of the list; the store is not changed. The result holds
        exactly the tasks that pass the search and the completion filter, each as often as it
        is stored. */
    method Visible(query: string, filter: string, sort: string, collate: (string, string) -> int)
      returns (r: seq<Task>)
      ensures r == Project(todos, query, filter, sort, collate)
      ensures forall t :: t in r <==> t in todos && Shown(query, filter, t)
      ensures forall t :: multiset(r)[t] == if Shown(query, filter, t) then multiset(todos)[t] else 0
    {
      ProjectSelects(todos, query, filter, sort, collate);
      r := Project(todos, query, filter, sort, collate);
    }
  }

  /** Deleting a stored task and undoing at once gives back the same tasks (the restored one
      now in front) and leaves nothing pending. */
  method DeleteThenUndo(store: TaskStore, id: string)
    requires store.Valid() && UniqueIds(store.todos) && HasId(store.todos, id)
    modifies store
    ensures multiset(store.todos) == multiset(old(store.todos))
    ensures store.todos[0] == FindById(old(store.todos), id).value
    ensures store.recentlyDeleted.None? && store.Valid() && store.Consistent()
  {
    DeleteUndoRestores(store.todos, id);
    store.Delete(id);
    store.Undo();
  }

  /** Once the timer of a delete has fired, undo restores nothing. */
  method UndoAfterExpiry(store: TaskStore, id: string)
    requires store.Valid() && HasId(store.todos, id)
    modifies store
    ensures store.todos == RemoveId(old(store.todos), id)
    ensures store.recentlyDeleted.None? && store.Valid()
  {
    var timer := store.nextTimer;
    store.Delete(id);
    store.Expire(timer);
    store.Undo();
  }

  /** Two deletes in a row: the first delete's timer, still scheduled, forgets the second
      task when it fires, so neither deleted task can be restored. */
  method StaleTimerForgetsLaterDelete(store: TaskStore, a: string, b: string)
    requires store.Valid()
    requires HasId(store.todos, a) && HasId(store.todos, b) && a != b
    modifies store
    ensures store.todos == RemoveId(RemoveId(old(store.todos), a), b)
    ensures store.recentlyDeleted.None? && store.Valid()
  {
    var first := store.nextTimer;
    RemoveKeepsOtherIds(store.todos, a, b);
    store.Delete(a);
    store.Delete(b);
    store.Expire(first);
    store.Undo();
  }
}
