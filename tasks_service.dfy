/**
 * The lifecycle service for tasks (Services/TasksService.cs) over the Tasks table.
 * The table is a map from id to row; `nextId` is the key the store generates
 * next (Data/AppDbContext.cs declares the key as generated on add). Each call
 * is atomic; clock readings are parameters.
 */
module TasksService {
  import opened Wrappers
  import opened Text
  import opened Data
  import opened TaskOrder

  /** The title changes when a non-blank title is given whose trimmed form differs from the current one. */
  predicate TitleChanges(current: string, title: Option<string>) {
    !IsNullOrWhiteSpace(title) && Trim(title.value) != current
  }

  /** The completion state changes when a flag other than the current state is given. */
  predicate CompletionChanges(current: bool, isCompleted: Option<bool>) {
    isCompleted.Some? && isCompleted.value != current
  }

  /** The `hasChanges` flag of UpdateAsync. */
  predicate HasChanges(t: TaskRow, title: Option<string>, isCompleted: Option<bool>) {
    TitleChanges(t.title, title) || CompletionChanges(t.isCompleted, isCompleted)
  }

  /**
   * The row UpdateAsync leaves behind for `t`, given the clock reading taken
   * when a task is marked completed and the one taken for UpdatedAt.
   */
  function Updated(t: TaskRow, title: Option<string>, isCompleted: Option<bool>,
                   completedNow: Instant, updatedNow: Instant): (r: TaskRow)
    ensures r.id == t.id && r.createdAt == t.createdAt
    ensures r.isCompleted == if isCompleted.Some? then isCompleted.value else t.isCompleted
    ensures r == t <==> !HasChanges(t, title, isCompleted)
  {
    if !HasChanges(t, title, isCompleted) then t
    else Recompleted(Retitled(t, title), isCompleted, completedNow).(updatedAt := updatedNow)
  }

  /** An update is its title step followed by its completion step, then the timestamp when anything changed. */
  lemma UpdatedInSteps(t: TaskRow, title: Option<string>, isCompleted: Option<bool>, n1: Instant, n2: Instant)
    ensures HasChanges(t, title, isCompleted) ==>
      Updated(t, title, isCompleted, n1, n2) == Recompleted(Retitled(t, title), isCompleted, n1).(updatedAt := n2)
    ensures !HasChanges(t, title, isCompleted) ==> Recompleted(Retitled(t, title), isCompleted, n1) == t
    ensures Retitled(t, title).isCompleted == t.isCompleted
  {
  }

  /**
   * The title step of an update: only the title may change, it changes exactly
   * when the title rule says so, and then to the argument's non-empty trimmed form.
   */
  function Retitled(t: TaskRow, title: Option<string>): (r: TaskRow)
    ensures r.(title := t.title) == t
    ensures r.title != t.title <==> TitleChanges(t.title, title)
    ensures r.title != t.title ==> r.title == Trim(title.value) && r.title != [] && IsTrimmed(r.title)
  {
    if TitleChanges(t.title, title) then t.(title := Trim(title.value)) else t
  }

  /**
   * The completion step of an update: only the flag and the completion time may
   * change; the flag becomes the one given, and a consistent row stays consistent.
   */
  function Recompleted(t: TaskRow, isCompleted: Option<bool>, completedNow: Instant): (r: TaskRow)
    ensures r.(isCompleted := t.isCompleted, completedAt := t.completedAt) == t
    ensures r.isCompleted == if isCompleted.Some? then isCompleted.value else t.isCompleted
    ensures r.completedAt != t.completedAt ==> CompletionChanges(t.isCompleted, isCompleted)
    ensures t.Consistent() ==> r.Consistent()
  {
    if !CompletionChanges(t.isCompleted, isCompleted) then t
    else t.(isCompleted := isCompleted.value,
            completedAt := if isCompleted.value then Some(completedNow) else None)
  }

  /**
   * The title rule: the title changes only to the trimmed form of a non-blank
   * argument that differs from it, and what is stored is then already trimmed.
   */
  lemma UpdatedTitle(t: TaskRow, title: Option<string>, isCompleted: Option<bool>, n1: Instant, n2: Instant)
    ensures var r := Updated(t, title, isCompleted, n1, n2);
      && (r.title != t.title <==> TitleChanges(t.title, title))
      && (r.title != t.title ==> r.title == Trim(title.value) && r.title != [] && Trim(r.title) == r.title)
  {
    if TitleChanges(t.title, title) {
      TrimIdempotent(title.value);
    }
  }

  /**
   * The completion rule: a flip to completed stamps CompletedAt with the clock,
   * a flip back clears it, and any other update leaves it alone.
   */
  lemma UpdatedCompletion(t: TaskRow, title: Option<string>, isCompleted: Option<bool>, n1: Instant, n2: Instant)
    ensures var r := Updated(t, title, isCompleted, n1, n2);
      && (isCompleted == Some(true) && !t.isCompleted ==> r.completedAt == Some(n1))
      && (isCompleted == Some(false) && t.isCompleted ==> r.completedAt == None)
      && (!CompletionChanges(t.isCompleted, isCompleted) ==> r.completedAt == t.completedAt && r.isCompleted == t.isCompleted)
  {
  }

  /** UpdatedAt moves to the later clock reading exactly when something changed. */
  lemma UpdatedTimestamp(t: TaskRow, title: Option<string>, isCompleted: Option<bool>, n1: Instant, n2: Instant)
    ensures Updated(t, title, isCompleted, n1, n2).updatedAt ==
      if HasChanges(t, title, isCompleted) then n2 else t.updatedAt
  {
  }

  /**
   * An update keeps the record invariant, as long as the clock has not gone
   * back since that task was last updated.
   */
  lemma UpdatedConsistent(t: TaskRow, title: Option<string>, isCompleted: Option<bool>, n1: Instant, n2: Instant)
    requires t.Consistent() && t.updatedAt <= n1 <= n2
    ensures Updated(t, title, isCompleted, n1, n2).Consistent()
  {
  }

  /** Sending the same update twice: the second is a no-op, whatever the clock then reads. */
  lemma UpdateIdempotent(t: TaskRow, title: Option<string>, isCompleted: Option<bool>,
                         n1: Instant, n2: Instant, m1: Instant, m2: Instant)
    ensures var once := Updated(t, title, isCompleted, n1, n2);
      Updated(once, title, isCompleted, m1, m2) == once
  {
    var once := Updated(t, title, isCompleted, n1, n2);
    assert !TitleChanges(once.title, title) by {
      if TitleChanges(t.title, title) {
        UpdatedTitle(t, title, isCompleted, n1, n2);
      }
    }
  }

  /** The title block of UpdateAsync: assigns the trimmed title when it differs, and reports whether it did. */
  method ApplyTitle(task: TaskEntity, title: Option<string>) returns (changed: bool)
    modifies task
    ensures changed == TitleChanges(old(task.title), title)
    ensures task.Row() == Retitled(old(task.Row()), title)
  {
    var originalTitle := task.title;
    changed := false;
    if !IsNullOrWhiteSpace(title) {
      var trimmedTitle := Trim(title.value);
      if trimmedTitle != originalTitle {
        task.title := trimmedTitle;
        changed := true;
      }
    }
  }

  /**
   * The completion block of UpdateAsync: on a flip, assigns the flag and sets
   * or clears the completion time, and reports whether it did.
   */
  method ApplyCompletion(task: TaskEntity, isCompleted: Option<bool>, completedNow: Instant) returns (changed: bool)
    modifies task
    ensures changed == CompletionChanges(old(task.isCompleted), isCompleted)
    ensures task.Row() == Recompleted(old(task.Row()), isCompleted, completedNow)
  {
    var originalIsCompleted := task.isCompleted;
    changed := false;
    if isCompleted.Some? {
      if isCompleted.value != originalIsCompleted {
        task.isCompleted := isCompleted.value;
        changed := true;
        if isCompleted.value {
          task.completedAt := Some(completedNow);
        } else {
          task.completedAt := None;
        }
      }
    }
  }

  /**
   * The table after UpdateAsync: the row under `id`, if any, becomes its
   * update and every other row stays; with nothing to change the table is as it was.
   */
  function UpdatedTable(m: map<int, TaskRow>, id: int, title: Option<string>, isCompleted: Option<bool>,
                        completedNow: Instant, updatedNow: Instant): (r: map<int, TaskRow>)
    ensures r.Keys == m.Keys
    ensures forall k :: k in m && k != id ==> r[k] == m[k]
    ensures id in m ==> r[id] == Updated(m[id], title, isCompleted, completedNow, updatedNow)
    ensures id !in m || !HasChanges(m[id], title, isCompleted) ==> r == m
  {
    if id !in m then m
    else
      var r := m[id := Updated(m[id], title, isCompleted, completedNow, updatedNow)];
      assert !HasChanges(m[id], title, isCompleted) ==> r == m;
      r
  }

  /** UpdateAsync keeps the table keyed, and keeps every row consistent while the clock runs forward. */
  lemma UpdatedTableKeepsInvariants(m: map<int, TaskRow>, next: int, id: int, title: Option<string>,
                                    isCompleted: Option<bool>, completedNow: Instant, updatedNow: Instant)
    ensures Keyed(m, next) ==> Keyed(UpdatedTable(m, id, title, isCompleted, completedNow, updatedNow), next)
    ensures RowsConsistent(m) && (id in m ==> m[id].updatedAt <= completedNow <= updatedNow) ==>
      RowsConsistent(UpdatedTable(m, id, title, isCompleted, completedNow, updatedNow))
  {
    if id in m && RowsConsistent(m) && m[id].updatedAt <= completedNow <= updatedNow {
      UpdatedConsistent(m[id], title, isCompleted, completedNow, updatedNow);
    }
  }

  /** Every row of `m` sits under its own id, and every id lies in [1, next). */
  ghost predicate Keyed(m: map<int, TaskRow>, next: int) {
    1 <= next && forall id :: id in m ==> m[id].id == id && 1 <= id < next
  }

  ghost predicate RowsConsistent(m: map<int, TaskRow>) {
    forall id :: id in m ==> m[id].Consistent()
  }

  /** The Tasks table with its key generator. */
  class TasksService {
    var tasks: map<int, TaskRow>
    var nextId: int

    /** Every row sits under its own id, and every id was issued before `nextId`. */
    ghost predicate Valid()
      reads this
    {
      Keyed(tasks, nextId)
    }

    /** Every stored task satisfies the record invariant. */
    ghost predicate AllConsistent()
      reads this
    {
      RowsConsistent(tasks)
    }

    /** An empty table whose first key will be 1. */
    constructor ()
      ensures Valid() && AllConsistent()
      ensures tasks == map[] && nextId == 1
    {
      tasks := map[];
      nextId := 1;
    }

    /**
     * ListAsync: reads the whole table (in an order the store chooses) and
     * orders it. Every task appears exactly once, active tasks come first, and
     * the answer is the same for every order the store could have chosen.
     */
    method ListAsync() returns (r: seq<TaskRow>)
      requires Valid()
      ensures ListsTable(tasks, r)
      ensures forall i, j :: 0 <= i < j < |r| && r[i].isCompleted ==> r[j].isCompleted
      ensures forall i, j :: 0 <= i < j < |r| && !r[j].isCompleted ==> !Precedes(ActiveSegment, r[j], r[i])
      ensures forall i, j :: 0 <= i < j < |r| && r[i].isCompleted ==> !Precedes(CompletedSegment, r[j], r[i])
      ensures forall rows :: ListsTable(tasks, rows) ==> OrderTasks(rows) == r
    {
      var all := ReadAll(tasks);
      r := OrderTasks(all);
      forall rows | ListsTable(tasks, rows) ensures OrderTasks(rows) == r {
        ListingsAgree(tasks, all, rows);
      }
    }

    /**
     * CreateAsync: stores a new, active task under a key never issued before,
     * with the title exactly as given (it is not trimmed) and both timestamps
     * set to `now`. No other task changes.
     */
    method CreateAsync(title: string, now: Instant) returns (task: TaskEntity)
      requires Valid()
      modifies this
      ensures Valid() && fresh(task)
      ensures task.id == old(nextId) && task.id !in old(tasks)
      ensures forall id :: id in old(tasks) ==> id < task.id
      ensures task.Row() == TaskRow(task.id, title, false, now, now, None)
      ensures tasks == old(tasks)[task.id := task.Row()]
      ensures nextId == old(nextId) + 1
      ensures old(AllConsistent()) ==> AllConsistent()
    {
      task := new TaskEntity(title, false, now, now, None);
      // Add and SaveChangesAsync: the store generates the key and writes it into the entity.
      task.id := nextId;
      tasks := tasks[nextId := task.Row()];
      nextId := nextId + 1;
    }

    /**
     * UpdateAsync: null, changing nothing, when no task has the id. Otherwise
     * the entity found, with the partial update applied in place; the row is
     * written back only when something changed.
     */
    method UpdateAsync(id: int, title: Option<string>, isCompleted: Option<bool>,
                       completedNow: Instant, updatedNow: Instant) returns (task: TaskEntity?)
      requires Valid()
      modifies this
      ensures tasks == UpdatedTable(old(tasks), id, title, isCompleted, completedNow, updatedNow)
      ensures nextId == old(nextId)
      ensures task == null <==> id !in old(tasks)
      ensures task != null ==> fresh(task) && task.Row() == tasks[id]
      ensures Valid()
      ensures old(AllConsistent()) && (id in old(tasks) ==> old(tasks)[id].updatedAt <= completedNow <= updatedNow)
        ==> AllConsistent()
    {
      UpdatedTableKeepsInvariants(tasks, nextId, id, title, isCompleted, completedNow, updatedNow);
      if id !in tasks {
        return null;
      }
      // FindAsync materialises the entity from its row.
      task := new TaskEntity.FromRow(tasks[id]);
      ghost var t := tasks[id];
      var hasChanges := ApplyTitle(task, title);
      var flipped := ApplyCompletion(task, isCompleted, completedNow);
      hasChanges := hasChanges || flipped;
      UpdatedInSteps(t, title, isCompleted, completedNow, updatedNow);
      if hasChanges {
        task.updatedAt := updatedNow;
        // SaveChangesAsync
        tasks := tasks[id := task.Row()];
      }
    }

    /**
     * DeleteAsync: true, removing that task and no other, when the id is
     * present; false, changing nothing, otherwise. The key is not reissued.
     */
    method DeleteAsync(id: int) returns (deleted: bool)
      requires Valid()
      modifies this
      ensures Valid() && nextId == old(nextId)
      ensures deleted <==> id in old(tasks)
      ensures tasks == old(tasks) - {id}
      ensures old(AllConsistent()) ==> AllConsistent()
    {
      if id !in tasks {
        return false;
      }
      tasks := tasks - {id};
      return true;
    }
  }

  /**
   * A run on a fresh store: two tasks are created, the first is completed,
   * the listing puts the active one first; updating a missing id yields null,
   * and the second delete of the same id reports false.
   */
  method Lifecycle() returns (listed: seq<TaskRow>, missing: bool, deletedOnce: bool, deletedTwice: bool)
    ensures listed == [Walk, Done]
    ensures missing && deletedOnce && !deletedTwice
  {
    var service := new TasksService();
    var first := service.CreateAsync("Buy milk", 0);
    var second := service.CreateAsync("Walk dog", 5);
    assert service.tasks == map[1 := Milk, 2 := Walk];
    var completed := service.UpdateAsync(1, None, Some(true), 6, 7);
    ExampleUpdate();
    assert service.tasks == map[1 := Done, 2 := Walk];
    listed := service.ListAsync();
    ExampleTable();
    ExampleOrder();
    var none := service.UpdateAsync(9, Some("Feed cat"), None, 8, 8);
    missing := none == null;
    deletedOnce := service.DeleteAsync(1);
    deletedTwice := service.DeleteAsync(1);
  }

  const Milk := TaskRow(1, "Buy milk", false, 0, 0, None)
  const Done := TaskRow(1, "Buy milk", true, 0, 7, Some(6))
  const Walk := TaskRow(2, "Walk dog", false, 5, 5, None)

  /** Completing the first task at 6, with the update stamped at 7. */
  lemma ExampleUpdate()
    ensures Updated(Milk, None, Some(true), 6, 7) == Done
  {
    UpdatedInSteps(Milk, None, Some(true), 6, 7);
  }

  /** The table Lifecycle builds is listed by its active task and its completed task. */
  lemma ExampleTable()
    ensures ListsTable(map[1 := Done, 2 := Walk], [Walk, Done])
  {
    forall x ensures multiset([Walk, Done])[x] == Row(map[1 := Done, 2 := Walk], x) {
      if x != Walk && x != Done { assert x !in multiset([Walk, Done]); }
    }
  }

  /** The two rows of the example table have different ids. */
  lemma ExampleUnique()
    ensures UniqueIds([Walk, Done])
  {
    forall x ensures multiset([Walk, Done])[x] <= 1 {
      assert multiset([Walk, Done]) == multiset{Walk, Done};
    }
  }

  /** The listing order puts the active task first. */
  lemma ExampleOrder()
    ensures OrderTasks([Walk, Done]) == [Walk, Done]
  {
    ExampleUnique();
    assert StrictlyListed([Walk, Done]) by {
      assert ListedBefore(Walk, Done);
    }
    OrderOfOrdered([Walk, Done]);
  }

  /** ToListAsync: every row of the table once, in whatever order the store enumerates them. */
  method ReadAll(table: map<int, TaskRow>) returns (all: seq<TaskRow>)
    requires forall id :: id in table ==> table[id].id == id
    ensures ListsTable(table, all)
  {
    all := [];
    var rest := table;
    while rest != map[]
      invariant forall id :: id in rest ==> id in table && rest[id] == table[id]
      invariant forall x :: multiset(all)[x] + Row(rest, x) == Row(table, x)
      decreases |rest|
    {
      NonEmptyHasKey(rest);
      var id :| id in rest;
      all := all + [rest[id]];
      rest := rest - {id};
    }
  }

  /** 1 when `x` is the row stored under its own id, 0 otherwise. */
  function Row(m: map<int, TaskRow>, x: TaskRow): nat {
    if x.id in m && m[x.id] == x then 1 else 0
  }

  /** `rows` holds every row of the table keyed by id exactly once, and nothing else. */
  ghost predicate ListsTable(m: map<int, TaskRow>, rows: seq<TaskRow>) {
    forall x :: multiset(rows)[x] == Row(m, x)
  }

  /** Two listings of the same table hold the same rows, and their ids are unique. */
  lemma ListingsAgree(m: map<int, TaskRow>, xs: seq<TaskRow>, ys: seq<TaskRow>)
    requires ListsTable(m, xs) && ListsTable(m, ys)
    ensures OrderTasks(xs) == OrderTasks(ys)
  {
    assert multiset(xs) == multiset(ys);
    forall x, y | x in xs && y in xs && x.id == y.id ensures x == y {
      assert multiset(xs)[x] > 0 && multiset(xs)[y] > 0;
    }
    OrderIndependentOfEnumeration(xs, ys);
  }

  lemma NonEmptyHasKey(m: map<int, TaskRow>)
    requires m != map[]
    ensures exists k :: k in m
  {
    if forall k :: k !in m {
      assert false;
    }
  }

}
