/** The request and response shapes of the API (the DTOs folder). */
module Dtos {
  import opened Wrappers
  import opened Text
  import opened Data

  /** What the API returns for a task (DTOs/TaskDto.cs). */
  datatype TaskDto = TaskDto(
    id: int,
    title: string,
    isCompleted: bool,
    createdAt: Instant,
    updatedAt: Instant,
    completedAt: Option<Instant>)

  /** The body of a create request (DTOs/CreateTaskRequest.cs). */
  datatype CreateTaskRequest = CreateTaskRequest(title: string)

  /**
   * The body of an update request (DTOs/UpdateTaskRequest.cs). The id is optional
   * because the validation service asks whether it has a value.
   */
  datatype UpdateTaskRequest = UpdateTaskRequest(id: Option<int>, title: Option<string>, isCompleted: Option<bool>)
  {
    /**
     * The controller's gate: a non-blank title or a completion flag must be
     * supplied. Without a flag, a valid request's title trims to something non-empty.
     */
    predicate IsValid(): (r: bool)
      ensures r <==> isCompleted.Some? || (title.Some? && Trim(title.value) != [])
    {
      !IsNullOrWhiteSpace(title) || isCompleted.Some?
    }
  }

  /** IsValid holds exactly when a title with a non-white-space character, or a completion flag, is supplied. */
  lemma IsValidCharacterized(request: UpdateTaskRequest)
    ensures request.IsValid() <==>
      (request.title.Some? && exists i :: 0 <= i < |request.title.value| && !IsWhiteSpace(request.title.value[i]))
      || request.isCompleted.Some?
  {
  }

  /** A missing or blank title with no completion flag is rejected. */
  lemma BlankRequestIsInvalid(id: Option<int>, title: Option<string>)
    requires IsNullOrWhiteSpace(title)
    ensures !UpdateTaskRequest(id, title, None).IsValid()
  {
  }

  /** A completion flag makes a request valid, false as well as true, whatever the title. */
  lemma CompletionFlagIsEnough(id: Option<int>, title: Option<string>, flag: bool)
    ensures UpdateTaskRequest(id, title, Some(flag)).IsValid()
  {
  }

  /** The id plays no part in IsValid. */
  lemma IsValidIgnoresId(request: UpdateTaskRequest, id: Option<int>)
    ensures request.(id := id).IsValid() == request.IsValid()
  {
  }
}
