/** The request schemas of the task API: what the validation layer accepts before a handler runs. */
module Schemas {
  import opened Wrappers

  const MinTitleLength: nat := 1
  const MaxTitleLength: nat := 100

  /** A title the schema accepts: between 1 and 100 characters. */
  predicate ValidTitle(title: string) {
    MinTitleLength <= |title| <= MaxTitleLength
  }

  /** The body of a create request as it arrives: `title` may be missing, `done` may be omitted. */
  datatype CreateBody = CreateBody(title: Option<string>, done: Option<bool>)

  /** A create request the schema has accepted. */
  datatype TaskCreate = TaskCreate(title: string, done: bool)

  /** The body of an update request: each field is optional, `None` meaning "not supplied". */
  datatype TaskUpdate = TaskUpdate(title: Option<string>, done: Option<bool>)

  /** Schema validation of a create body: the title is required and must be a valid title;
      an omitted `done` defaults to false. `None` is a validation failure. */
  function ParseCreate(body: CreateBody): (r: Option<TaskCreate>)
    ensures r.Some? <==> body.title.Some? && ValidTitle(body.title.value)
    ensures r.Some? ==> r.value.title == body.title.value && ValidTitle(r.value.title)
    ensures r.Some? && body.done.None? ==> !r.value.done
    ensures r.Some? && body.done.Some? ==> r.value.done == body.done.value
  {
    match body.title
    case None => None
    case Some(t) =>
      if ValidTitle(t) then
        Some(TaskCreate(t, match body.done case None => false case Some(d) => d))
      else None
  }

  /** Schema validation of an update body: a supplied title must be a valid title. */
  predicate ValidUpdate(u: TaskUpdate) {
    u.title.Some? ==> ValidTitle(u.title.value)
  }
}
