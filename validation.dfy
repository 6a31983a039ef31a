/**
 * Request validation (Services/ValidationService.cs). Each check either passes
 * or throws a validation exception carrying one field and one message
 * (Exceptions/ValidationException.cs); the exception becomes `Fail`.
 */
module Validation {
  import opened Wrappers
  import opened Text
  import opened Dtos

  const ValidationFailed: string := "Property validation failed."
  const TitleEmpty: string := "Title cannot be empty."
  const TitleTooLong: string := "Title cannot exceed 100 characters."
  const IdRequired: string := "Id is required."
  const NothingToUpdate: string := "At least one field (title or isCompleted) must be provided for update."

  /** The longest title, counted after trimming. */
  const MaxTitleLength: nat := 100

  /** A validation exception built from one field and one message. */
  datatype ValidationError = ValidationError(message: string, field: string, error: string)
  {
    /** The exception's error table: one field, with one message. */
    function Errors(): (r: map<string, seq<string>>)
      ensures r.Keys == {field} && r[field] == [error]
    {
      map[field := [error]]
    }
  }

  function FieldError(field: string, error: string): ValidationError {
    ValidationError(ValidationFailed, field, error)
  }

  /**
   * ValidateTitle: fails on an empty trimmed title, then on one longer than the limit.
   * A title of white space alone counts as empty.
   */
  function ValidateTitle(title: string): (r: Outcome<ValidationError>)
    ensures r.Pass? <==> 1 <= |Trim(title)| <= MaxTitleLength
    ensures r == Fail(FieldError("title", TitleEmpty)) <==> AllWhiteSpace(title)
    ensures r == Fail(FieldError("title", TitleTooLong)) <==> |Trim(title)| > MaxTitleLength
  {
    var trimmedTitle := Trim(title);
    if IsNullOrEmpty(Some(trimmedTitle)) then Fail(FieldError("title", TitleEmpty))
    else if |trimmedTitle| > MaxTitleLength then Fail(FieldError("title", TitleTooLong))
    else Pass
  }

  /** White space around a title never changes the verdict. */
  lemma ValidateTitleIgnoresPadding(left: string, title: string, right: string)
    requires AllWhiteSpace(left) && AllWhiteSpace(right)
    ensures ValidateTitle(left + title + right) == ValidateTitle(title)
  {
    TrimIgnoresPadding(left, title, right);
  }

  /** ValidateCreateTaskRequest: the title check applied to the request's title. */
  function ValidateCreateTaskRequest(request: CreateTaskRequest): (r: Outcome<ValidationError>)
    ensures r.Pass? <==> 1 <= |Trim(request.title)| <= MaxTitleLength
    ensures r == ValidateTitle(request.title)
  {
    ValidateTitle(request.title)
  }

  /**
   * ValidateUpdateTaskRequest: the id is checked first; a supplied title goes
   * through the title check; with no title, a completion flag is required.
   */
  function ValidateUpdateTaskRequest(request: UpdateTaskRequest): (r: Outcome<ValidationError>)
    ensures request.id.None? ==> r == Fail(FieldError("id", IdRequired))
    ensures r.Pass? <==> (request.id.Some? &&
      if request.title.Some? then 1 <= |Trim(request.title.value)| <= MaxTitleLength
      else request.isCompleted.Some?)
    ensures request.id.Some? && request.title.Some? ==> r == ValidateTitle(request.title.value)
    ensures request.id.Some? && request.title.Some? && AllWhiteSpace(request.title.value) ==>
      r == Fail(FieldError("title", TitleEmpty))
    ensures request.id.Some? && request.title.None? && request.isCompleted.None? ==>
      r == Fail(FieldError("request", NothingToUpdate))
  {
    if request.id.None? then Fail(FieldError("id", IdRequired))
    else if request.title.Some? then ValidateTitle(request.title.value)
    else if request.isCompleted.None? then Fail(FieldError("request", NothingToUpdate))
    else Pass
  }

  /** A request that passes validation also passes the controller's IsValid gate. */
  lemma ValidatedUpdateIsValid(request: UpdateTaskRequest)
    requires ValidateUpdateTaskRequest(request).Pass?
    ensures request.IsValid()
  {
    if request.title.Some? {
      assert !AllWhiteSpace(request.title.value);
    }
  }

  /** The converse fails: IsValid lets through a request that validation rejects for its missing id. */
  lemma IsValidDoesNotImplyValidated()
    ensures UpdateTaskRequest(None, None, Some(true)).IsValid()
    ensures ValidateUpdateTaskRequest(UpdateTaskRequest(None, None, Some(true))) == Fail(FieldError("id", IdRequired))
  {
  }
}
