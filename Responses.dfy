/** The response envelope every department operation answers with, and the
    outcome of a call that may throw. */
module Responses {
  import opened Departments

  /** What the envelope's `data` field carries. */
  datatype Payload =
    | Null
    | Rows(departments: seq<Department>)
    | Row(department: Department)
    | Count(affected: int)

  /** `JsonResponse(success, statusCode, message, data, errors)`. */
  datatype JsonResponse = JsonResponse(
    success: bool,
    statusCode: int,
    message: string,
    data: Payload,
    errors: Option<seq<string>>)

  /** A call that either returns a value or throws an exception carrying a message. */
  datatype Result<+T> = Ok(value: T) | Thrown(message: string)

  const NotFoundMessage: string := "Department does not exist"

  /** `$"Department '{name}' already exists"`. */
  function AlreadyExists(name: string): (m: string)
    ensures |m| == |name| + 28
    ensures m[..12] == "Department '" && m[12..12 + |name|] == name
    ensures m[12 + |name|..] == "' already exists"
  {
    "Department '" + name + "' already exists"
  }
}
