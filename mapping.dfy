/**
 * Conversions between the entity and the API shapes (Services/Mapping.cs):
 * entity to DTO, create request to a new entity, and the in-place update of
 * an entity from an update request. The clock reading is a parameter.
 */
module Mapping {
  import opened Wrappers
  import opened Text
  import opened Data
  import opened Dtos
  import TasksService

  /** The row a DTO describes. */
  function DtoRow(d: TaskDto): TaskRow {
    TaskRow(d.id, d.title, d.isCompleted, d.createdAt, d.updatedAt, d.completedAt)
  }

  /** ToDto: the DTO describes exactly the entity's current row; nothing is lost or altered. */
  function ToDto(entity: TaskEntity): (r: TaskDto)
    reads entity
    ensures DtoRow(r) == entity.Row()
  {
    TaskDto(entity.id, entity.title, entity.isCompleted, entity.createdAt, entity.updatedAt, entity.completedAt)
  }

  /** Two entities map to the same DTO only when they hold the same row. */
  lemma ToDtoInjective(a: TaskEntity, b: TaskEntity)
    requires ToDto(a) == ToDto(b)
    ensures a.Row() == b.Row()
  {
    assert DtoRow(ToDto(a)) == DtoRow(ToDto(b));
  }

  /**
   * ToEntity: a new, active entity with the request's title as given (not
   * trimmed), both timestamps at `now`, no completion time, and the default key 0.
   */
  method ToEntity(request: CreateTaskRequest, now: Instant) returns (entity: TaskEntity)
    ensures fresh(entity)
    ensures entity.Row() == TaskRow(0, request.title, false, now, now, None)
    ensures entity.Row().Consistent()
  {
    entity := new TaskEntity(request.title, false, now, now, None);
  }

  /**
   * What UpdateFromRequest does to a row, step by step as the code runs: the
   * completion flag is assigned before the two completion conditions read it back.
   */
  function AppliedAsWritten(t: TaskRow, request: UpdateTaskRequest, now: Instant): (r: TaskRow)
    ensures r.id == t.id && r.createdAt == t.createdAt && r.updatedAt == now
    ensures r.title == if IsNullOrWhiteSpace(request.title) then t.title else request.title.value
    ensures r.isCompleted == if request.isCompleted.Some? then request.isCompleted.value else t.isCompleted
    ensures r.completedAt == t.completedAt
  {
    var titled := if !IsNullOrWhiteSpace(request.title) then t.(title := request.title.value) else t;
    if request.isCompleted.None? then titled.(updatedAt := now)
    else
      var flagged := titled.(isCompleted := request.isCompleted.value);
      var stamped :=
        if request.isCompleted.value && !flagged.isCompleted then flagged.(completedAt := Some(now))
        else if !request.isCompleted.value && flagged.isCompleted then flagged.(completedAt := None)
        else flagged;
      stamped.(updatedAt := now)
  }

  /** UpdateFromRequest as written: assigns the request's fields to the entity in place. */
  method UpdateFromRequest(entity: TaskEntity, request: UpdateTaskRequest, now: Instant)
    modifies entity
    ensures entity.Row() == AppliedAsWritten(old(entity.Row()), request, now)
  {
    if !IsNullOrWhiteSpace(request.title) {
      entity.title := request.title.value;
    }
    if request.isCompleted.Some? {
      entity.isCompleted := request.isCompleted.value;
      // The completion time is staged in a local and written back once; the
      // conditions read the flag just assigned, so neither branch is ever taken.
      var completedAt := entity.completedAt;
      if request.isCompleted.value && !entity.isCompleted {
        completedAt := Some(now);
      } else if !request.isCompleted.value && entity.isCompleted {
        completedAt := None;
      }
      entity.completedAt := completedAt;
    }
    entity.updatedAt := now;
  }

  /** As written, a request that flips the completion flag leaves the entity inconsistent. */
  lemma AsWrittenBreaksConsistency(t: TaskRow, request: UpdateTaskRequest, now: Instant)
    requires t.Consistent()
    requires request.isCompleted.Some? && request.isCompleted.value != t.isCompleted
    ensures !AppliedAsWritten(t, request, now).Consistent()
  {
  }

  /** The concrete case: completing an active task leaves it completed without a completion time. */
  lemma AsWrittenCompletesWithoutTimestamp()
    ensures var r := AppliedAsWritten(TaskRow(1, "Buy milk", false, 10, 10, None),
                                      UpdateTaskRequest(Some(1), None, Some(true)), 20);
      r.isCompleted && r.completedAt == None
  {
  }

  /**
   * What UpdateFromRequest is meant to do, as its comments say: the completion
   * time is set on a flip to completed and cleared on a flip back, reading the
   * flag the entity had before the assignment.
   */
  function AppliedAsIntended(t: TaskRow, request: UpdateTaskRequest, now: Instant): (r: TaskRow)
    ensures r.id == t.id && r.createdAt == t.createdAt && r.updatedAt == now
    ensures r.title == if IsNullOrWhiteSpace(request.title) then t.title else request.title.value
    ensures r.isCompleted == if request.isCompleted.Some? then request.isCompleted.value else t.isCompleted
    ensures request.isCompleted == Some(true) && !t.isCompleted ==> r.completedAt == Some(now)
    ensures request.isCompleted == Some(false) && t.isCompleted ==> r.completedAt == None
    ensures request.isCompleted.None? || request.isCompleted.value == t.isCompleted ==> r.completedAt == t.completedAt
  {
    var titled := if !IsNullOrWhiteSpace(request.title) then t.(title := request.title.value) else t;
    if request.isCompleted.None? then titled.(updatedAt := now)
    else
      var stamped :=
        if request.isCompleted.value && !t.isCompleted then titled.(completedAt := Some(now))
        else if !request.isCompleted.value && t.isCompleted then titled.(completedAt := None)
        else titled;
      stamped.(isCompleted := request.isCompleted.value, updatedAt := now)
  }

  /** UpdateFromRequest corrected: the old flag is read before it is overwritten. */
  method UpdateFromRequestCorrected(entity: TaskEntity, request: UpdateTaskRequest, now: Instant)
    modifies entity
    ensures entity.Row() == AppliedAsIntended(old(entity.Row()), request, now)
  {
    if !IsNullOrWhiteSpace(request.title) {
      entity.title := request.title.value;
    }
    if request.isCompleted.Some? {
      var wasCompleted := entity.isCompleted;
      entity.isCompleted := request.isCompleted.value;
      if request.isCompleted.value && !wasCompleted {
        entity.completedAt := Some(now);
      } else if !request.isCompleted.value && wasCompleted {
        entity.completedAt := None;
      }
    }
    entity.updatedAt := now;
  }

  /** The corrected update keeps the record invariant when the clock has not gone back. */
  lemma AsIntendedKeepsConsistency(t: TaskRow, request: UpdateTaskRequest, now: Instant)
    requires t.Consistent() && t.updatedAt <= now
    ensures AppliedAsIntended(t, request, now).Consistent()
  {
  }

  /**
   * The corrected update and the service's update agree on the completion
   * fields, and on the title whenever the request's title is already trimmed.
   */
  lemma AsIntendedAgreesWithService(t: TaskRow, request: UpdateTaskRequest, now: Instant)
    requires TasksService.HasChanges(t, request.title, request.isCompleted)
    ensures var intended := AppliedAsIntended(t, request, now);
      var service := TasksService.Updated(t, request.title, request.isCompleted, now, now);
      && intended.isCompleted == service.isCompleted
      && intended.completedAt == service.completedAt
      && intended.updatedAt == service.updatedAt
      && (request.title.Some? && IsTrimmed(request.title.value) ==> intended.title == service.title)
  {
    TasksService.UpdatedCompletion(t, request.title, request.isCompleted, now, now);
    TasksService.UpdatedTimestamp(t, request.title, request.isCompleted, now, now);
    if request.title.Some? && IsTrimmed(request.title.value) {
      var title := request.title.value;
      var service := TasksService.Updated(t, request.title, request.isCompleted, now, now);
      TrimOfTrimmed(title);
      TasksService.UpdatedTitle(t, request.title, request.isCompleted, now, now);
      if IsNullOrWhiteSpace(request.title) {
        assert !TasksService.TitleChanges(t.title, request.title);
        assert service.title == t.title;
      } else if title != t.title {
        assert TasksService.TitleChanges(t.title, request.title);
        assert service.title == title;
      } else {
        assert service.title == t.title;
      }
    }
  }
}
