/**
 * The entity (Data/TaskEntity.cs) and the row the Tasks table stores for it.
 * Timestamps are ticks of a UTC clock.
 */
module Data {
  import opened Wrappers

  type Instant = int

  /** One row of the Tasks table: the value the store keeps for a task. */
  datatype TaskRow = TaskRow(
    id: int,
    title: string,
    isCompleted: bool,
    createdAt: Instant,
    updatedAt: Instant,
    completedAt: Option<Instant>)
  {
    /**
     * The record invariant of a task: it has a completion time exactly when it
     * is completed, and it was last updated no earlier than it was created.
     */
    predicate Consistent() {
      (completedAt.Some? <==> isCompleted) && createdAt <= updatedAt
    }
  }

  /** The entity object whose properties the services assign in place. */
  class TaskEntity {
    var id: int
    var title: string
    var isCompleted: bool
    var createdAt: Instant
    var updatedAt: Instant
    var completedAt: Option<Instant>

    /** The entity's current property values. */
    function Row(): TaskRow
      reads this
    {
      TaskRow(id, title, isCompleted, createdAt, updatedAt, completedAt)
    }

    /** `new TaskEntity { Title = …, … }`: the key is left at its default, 0, until the store assigns one. */
    constructor (title: string, isCompleted: bool, createdAt: Instant, updatedAt: Instant, completedAt: Option<Instant>)
      ensures Row() == TaskRow(0, title, isCompleted, createdAt, updatedAt, completedAt)
    {
      this.id := 0;
      this.title := title;
      this.isCompleted := isCompleted;
      this.createdAt := createdAt;
      this.updatedAt := updatedAt;
      this.completedAt := completedAt;
    }

    /** The entity the store materialises from a row it has found. */
    constructor FromRow(row: TaskRow)
      ensures Row() == row
    {
      this.id := row.id;
      this.title := row.title;
      this.isCompleted := row.isCompleted;
      this.createdAt := row.createdAt;
      this.updatedAt := row.updatedAt;
      this.completedAt := row.completedAt;
    }
  }
}
