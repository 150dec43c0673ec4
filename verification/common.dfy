/** Values shared by every route handler of the relay server. */
module Common {

  /** A MongoDB ObjectId or a user id, compared as its string form. */
  type Id = string

  datatype Option<+T> = None | Some(value: T)

  /** JavaScript truthiness of a request field read as a string: a missing field
      (undefined or null) and the empty string are both falsy. */
  predicate Falsy(v: Option<string>)
  {
    v.None? || v.value == ""
  }

  /** The HTTP outcomes the route handlers produce with NextResponse.json. */
  datatype Response<+T> =
    | Ok(body: T)                // 200 OK, section 15.3.1 of RFC 9110
    | BadRequest(error: string)  // 400, section 15.5.1 of RFC 9110
    | Forbidden(error: string)   // 403, section 15.5.4 of RFC 9110
    | NotFound(error: string)    // 404, section 15.5.5 of RFC 9110
}
