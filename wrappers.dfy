/** Failure-compatible wrappers shared by every module: optional values and the
    outcome of an HTTP handler, whose error kinds are the status codes it writes. */
module Wrappers {

  datatype Option<+T> = None | Some(value: T)

  /** The error responses of the handlers: 400, 401, 404, 403 and 500. */
  datatype Failure =
    | BadRequest      // validation error, "Missing required fields" / "Invalid submission ID"
    | Unauthorized    // no session user (user id 0)
    | NotFound        // no pending row, no user, no ward
    | Forbidden       // authenticated but not allowed for the ward
    | StoreError      // a statement the store refused (a foreign key or a UNIQUE constraint)

  datatype Result<+T> = Ok(value: T) | Err(failure: Failure)
}
