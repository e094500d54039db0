/** The task record and the pure list transitions the store applies: each handler computes the
    new list from the previous one by prepending, by `map` or by `filter`. */
module Tasks {
  import opened Text
  import opened Seqs

  datatype Option<T> = None | Some(value: T)

  /** A stored task `{id, title, description, completed, createdAt, updatedAt}`; the two
      timestamps are `Date.now()` readings in milliseconds. */
  datatype Task = Task(
    id: string,
    title: string,
    description: string,
    completed: bool,
    createdAt: int,
    updatedAt: int)

  /** The keys an edit may carry. Spreading `changes` over a task replaces exactly the keys
      that are present; `None` stands for an absent key. */
  datatype Changes = Changes(
    id: Option<string>,
    title: Option<string>,
    description: Option<string>,
    completed: Option<bool>,
    createdAt: Option<int>)

  function OrElse<T>(o: Option<T>, default: T): T {
    if o.Some? then o.value else default
  }

  predicate HasId(s: seq<Task>, id: string) {
    exists i :: 0 <= i < |s| && s[i].id == id
  }

  /** No two tasks of the list share an identifier. */
  predicate UniqueIds(s: seq<Task>) {
    forall i, j :: 0 <= i < j < |s| ==> s[i].id != s[j].id
  }

  function Ids(s: seq<Task>): (r: seq<string>)
    ensures |r| == |s| && forall i :: 0 <= i < |s| ==> r[i] == s[i].id
  {
    seq(|s|, i requires 0 <= i < |s| => s[i].id)
  }

  // ---------------------------------------------------------------- add

  /** `handleAdd`: the new list, computed from the trimmed title. The identifier and the clock
      reading are inputs. */
  function AddTask(s: seq<Task>, title: string, description: string, id: string, now: int): seq<Task> {
    var t := Trim(title);
    if t == [] then s
    else [Task(id, t, Trim(description), false, now, now)] + s
  }

  /** A title that is blank after trimming adds nothing; otherwise a new task with the trimmed
      title and description, not completed, created and updated at `now`, goes in front of the
      unchanged list. */
  lemma AddTaskSpec(s: seq<Task>, title: string, description: string, id: string, now: int)
    ensures var r := AddTask(s, title, description, id, now);
      && (Blank(title) ==> r == s)
      && (!Blank(title) ==>
        && |r| == |s| + 1 && r[1..] == s
        && r[0].id == id && r[0].title == Trim(title) && r[0].description == Trim(description)
        && !r[0].completed && r[0].createdAt == now && r[0].updatedAt == now)
  {
    TrimEmptyIffBlank(title);
  }

  /** The title an add stores is never blank and is already trimmed. */
  lemma AddedTitleIsTrimmed(s: seq<Task>, title: string, description: string, id: string, now: int)
    requires !Blank(title)
    ensures var r := AddTask(s, title, description, id, now);
      !Blank(r[0].title) && Trim(r[0].title) == r[0].title
  {
    var r := AddTask(s, title, description, id, now);
    AddTaskSpec(s, title, description, id, now);
    TrimIdempotent(title);
    TrimEmptyIffBlank(r[0].title);
  }

  /** Putting a task in front of a list that does not use its identifier keeps identifiers
      unique. */
  lemma ConsKeepsIdsUnique(t: Task, s: seq<Task>)
    requires UniqueIds(s) && !HasId(s, t.id)
    ensures UniqueIds([t] + s)
  {
    var r := [t] + s;
    forall i, j | 0 <= i < j < |r| ensures r[i].id != r[j].id {
      assert r[j] == s[j - 1];
      if i > 0 {
        assert r[i] == s[i - 1];
      }
    }
  }

  /** Adding under an identifier the list does not use keeps identifiers unique. */
  lemma AddKeepsIdsUnique(s: seq<Task>, title: string, description: string, id: string, now: int)
    requires UniqueIds(s) && !HasId(s, id)
    ensures UniqueIds(AddTask(s, title, description, id, now))
  {
    var r := AddTask(s, title, description, id, now);
    AddTaskSpec(s, title, description, id, now);
    if !Blank(title) {
      assert r == [r[0]] + s;
      ConsKeepsIdsUnique(r[0], s);
    }
  }

  /** Two lists with the same identifiers in the same places use the same identifiers, and
      one has unique identifiers exactly when the other does. */
  lemma SameIds(s: seq<Task>, r: seq<Task>)
    requires Ids(s) == Ids(r)
    ensures forall id :: HasId(r, id) <==> HasId(s, id)
    ensures UniqueIds(r) <==> UniqueIds(s)
  {
    assert forall i :: 0 <= i < |s| ==> s[i].id == Ids(s)[i] == Ids(r)[i] == r[i].id;
  }

  // ---------------------------------------------------------------- toggle

  function ToggleOne(t: Task, id: string, now: int): Task {
    if t.id == id then t.(completed := !t.completed, updatedAt := now) else t
  }

  /** `toggleComplete`: `prev.map(...)` flips `completed` and stamps `updatedAt` on the tasks
      with the identifier and leaves every other task as it was. */
  function Toggle(s: seq<Task>, id: string, now: int): (r: seq<Task>)
    ensures |r| == |s|
    ensures forall i :: 0 <= i < |s| && s[i].id != id ==> r[i] == s[i]
    ensures forall i :: 0 <= i < |s| && s[i].id == id ==>
      r[i].completed == !s[i].completed && r[i].updatedAt == now && r[i].(completed := s[i].completed, updatedAt := s[i].updatedAt) == s[i]
  {
    seq(|s|, i requires 0 <= i < |s| => ToggleOne(s[i], id, now))
  }

  /** Toggling keeps the identifiers and their order. */
  lemma TogglePreservesIds(s: seq<Task>, id: string, now: int)
    ensures Ids(Toggle(s, id, now)) == Ids(s)
  {
  }

  /** Toggling an identifier the list does not hold changes nothing. */
  lemma ToggleUnknownId(s: seq<Task>, id: string, now: int)
    requires !HasId(s, id)
    ensures Toggle(s, id, now) == s
  {
    var r := Toggle(s, id, now);
    forall i | 0 <= i < |s| ensures r[i] == s[i] {
      assert s[i].id != id;
    }
  }

  /** Toggling twice restores every task except for its `updatedAt`. */
  lemma ToggleTwice(s: seq<Task>, id: string, now1: int, now2: int)
    ensures var r := Toggle(Toggle(s, id, now1), id, now2);
      |r| == |s| && forall i :: 0 <= i < |s| ==>
        r[i].completed == s[i].completed && r[i].(updatedAt := s[i].updatedAt) == s[i]
  {
  }

  // ---------------------------------------------------------------- edit

  /** `{...t, ...changes, updatedAt: now}`. */
  function Overlay(t: Task, ch: Changes, now: int): (r: Task)
    ensures r.id == OrElse(ch.id, t.id) && r.title == OrElse(ch.title, t.title)
    ensures r.description == OrElse(ch.description, t.description)
    ensures r.completed == OrElse(ch.completed, t.completed)
    ensures r.createdAt == OrElse(ch.createdAt, t.createdAt) && r.updatedAt == now
  {
    Task(OrElse(ch.id, t.id), OrElse(ch.title, t.title), OrElse(ch.description, t.description),
         OrElse(ch.completed, t.completed), OrElse(ch.createdAt, t.createdAt), now)
  }

  /** `editTodo`: `prev.map(...)` overlays the changes and stamps `updatedAt` on the tasks with
      the identifier; the title is not checked again. */
  function Edit(s: seq<Task>, id: string, ch: Changes, now: int): (r: seq<Task>)
    ensures |r| == |s|
    ensures forall i :: 0 <= i < |s| ==> r[i] == if s[i].id == id then Overlay(s[i], ch, now) else s[i]
  {
    seq(|s|, i requires 0 <= i < |s| => if s[i].id == id then Overlay(s[i], ch, now) else s[i])
  }

  /** Editing an identifier the list does not hold changes nothing. */
  lemma EditUnknownId(s: seq<Task>, id: string, ch: Changes, now: int)
    requires !HasId(s, id)
    ensures Edit(s, id, ch, now) == s
  {
    var r := Edit(s, id, ch, now);
    forall i | 0 <= i < |s| ensures r[i] == s[i] {
      assert s[i].id != id;
    }
  }

  /** An edit that does not carry an `id` key keeps the identifiers, and hence their order and
      their uniqueness. */
  lemma EditPreservesIds(s: seq<Task>, id: string, ch: Changes, now: int)
    requires ch.id.None?
    ensures Ids(Edit(s, id, ch, now)) == Ids(s)
    ensures UniqueIds(s) ==> UniqueIds(Edit(s, id, ch, now))
  {
    var r := Edit(s, id, ch, now);
    assert forall i :: 0 <= i < |s| ==> r[i].id == s[i].id;
  }

  /** An edit may leave a task with a blank title: the title is not validated again. */
  lemma EditAcceptsBlankTitle()
    ensures var r := Edit([Task("a", "x", "", false, 0, 0)], "a", Changes(None, Some(" "), None, None, None), 1);
      Blank(r[0].title)
  {
  }

  // ---------------------------------------------------------------- delete and undo

  /** `t.id === id` holds first at index `i`. */
  predicate FirstWithId(s: seq<Task>, id: string, i: int) {
    0 <= i < |s| && s[i].id == id && forall j :: 0 <= j < i ==> s[j].id != id
  }

  /** `todos.find(t => t.id === id)`: the first task with the identifier, if any. */
  function FindById(s: seq<Task>, id: string): (r: Option<Task>)
    ensures r.None? <==> !HasId(s, id)
    ensures r.Some? ==> exists i :: FirstWithId(s, id, i) && s[i] == r.value
  {
    if s == [] then None
    else if s[0].id == id then
      assert FirstWithId(s, id, 0);
      Some(s[0])
    else
      var r := FindById(s[1..], id);
      if r.Some? then
        var i :| FirstWithId(s[1..], id, i) && s[1..][i] == r.value;
        assert FirstWithId(s, id, i + 1);
        r
      else
        assert forall i :: 0 < i < |s| ==> s[i] == s[1..][i - 1];
        r
  }

  function OtherThan(id: string): Task -> bool {
    (t: Task) => t.id != id
  }

  /** `prev.filter(t => t.id !== id)`. */
  function RemoveId(s: seq<Task>, id: string): seq<Task> {
    Filter(s, OtherThan(id))
  }

  /** Removing takes away every task with the identifier, keeps each other task as often as it
      occurs, and keeps the survivors in their order. */
  lemma RemoveIdSpec(s: seq<Task>, id: string)
    ensures forall t :: t in RemoveId(s, id) <==> t in s && t.id != id
    ensures forall t :: multiset(RemoveId(s, id))[t] == if t.id != id then multiset(s)[t] else 0
    ensures Subsequence(RemoveId(s, id), s)
  {
    FilterCounts(s, OtherThan(id));
    FilterSubsequence(s, OtherThan(id));
  }

  /** Removing one identifier keeps every task under another. */
  lemma RemoveKeepsOtherIds(s: seq<Task>, id: string, other: string)
    requires HasId(s, other) && id != other
    ensures HasId(RemoveId(s, id), other)
  {
    var i :| 0 <= i < |s| && s[i].id == other;
    RemoveIdSpec(s, id);
    assert s[i] in RemoveId(s, id);
    var j :| 0 <= j < |RemoveId(s, id)| && RemoveId(s, id)[j] == s[i];
  }

  /** Removing an identifier the list does not hold changes nothing. */
  lemma RemoveUnknownId(s: seq<Task>, id: string)
    requires !HasId(s, id)
    ensures RemoveId(s, id) == s
  {
    FilterKeepsAll(s, OtherThan(id));
  }

  /** Filtering a list with unique identifiers leaves them unique. */
  lemma {:induction false} FilterKeepsIdsUnique(s: seq<Task>, p: Task -> bool)
    requires UniqueIds(s)
    ensures UniqueIds(Filter(s, p))
  {
    if s != [] {
      FilterKeepsIdsUnique(s[1..], p);
      var rest := Filter(s[1..], p);
      FilterCounts(s[1..], p);
      if p(s[0]) {
        var r := [s[0]] + rest;
        forall i, j | 0 <= i < j < |r| ensures r[i].id != r[j].id {
          assert r[j] == rest[j - 1] && r[j] in s[1..];
          if i > 0 {
            assert r[i] == rest[i - 1];
          }
        }
      }
    }
  }

  /** A filtered list uses no identifier the list did not use. */
  lemma FilterKeepsNoNewIds(s: seq<Task>, p: Task -> bool)
    ensures forall id :: HasId(Filter(s, p), id) ==> HasId(s, id)
  {
    var r := Filter(s, p);
    FilterCounts(s, p);
    forall id | HasId(r, id) ensures HasId(s, id) {
      var i :| 0 <= i < |r| && r[i].id == id;
      assert r[i] in s;
      var j :| 0 <= j < |s| && s[j] == r[i];
    }
  }

  /** Delete followed by undo: with unique identifiers, putting the task found back in front of
      the remaining list restores the same multiset of tasks. */
  lemma {:induction false} DeleteUndoRestores(s: seq<Task>, id: string)
    requires UniqueIds(s) && HasId(s, id)
    ensures FindById(s, id).Some?
    ensures multiset([FindById(s, id).value] + RemoveId(s, id)) == multiset(s)
  {
    assert s == [s[0]] + s[1..];
    if s[0].id == id {
      assert !HasId(s[1..], id) by {
        forall i | 0 <= i < |s[1..]| ensures s[1..][i].id != id {
          assert s[1..][i] == s[i + 1];
        }
      }
      RemoveUnknownId(s[1..], id);
    } else {
      assert HasId(s[1..], id) by {
        var i :| 0 <= i < |s| && s[i].id == id;
        assert s[1..][i - 1] == s[i];
      }
      DeleteUndoRestores(s[1..], id);
    }
  }

  /** With two tasks under one identifier, delete removes both but undo gives back only the
      first: the second is lost. */
  lemma DuplicateIdLostByUndo()
    ensures var a := Task("x", "first", "", false, 1, 1);
      var b := Task("x", "second", "", false, 2, 2);
      var s := [a, b];
      && FindById(s, "x") == Some(a)
      && RemoveId(s, "x") == []
      && [FindById(s, "x").value] + RemoveId(s, "x") == [a]
  {
  }

  // ---------------------------------------------------------------- clear completed

  predicate IsActive(t: Task) {
    !t.completed
  }

  /** `clearCompleted`: `prev.filter(t => !t.completed)`. */
  function ClearCompleted(s: seq<Task>): seq<Task> {
    Filter(s, IsActive)
  }

  /** Clearing keeps exactly the tasks that are not completed, each as often as it occurs, in
      their original order. */
  lemma ClearCompletedSpec(s: seq<Task>)
    ensures forall t :: t in ClearCompleted(s) <==> t in s && !t.completed
    ensures forall t :: multiset(ClearCompleted(s))[t] == if !t.completed then multiset(s)[t] else 0
    ensures Subsequence(ClearCompleted(s), s)
  {
    FilterCounts(s, IsActive);
    FilterSubsequence(s, IsActive);
  }

  /** Clearing twice is clearing once. */
  lemma ClearCompletedIdempotent(s: seq<Task>)
    ensures ClearCompleted(ClearCompleted(s)) == ClearCompleted(s)
  {
    FilterIdempotent(s, IsActive);
  }
}
