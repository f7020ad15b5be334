/** Values that cross the HTTP boundary of the photo-sharing routes: identifiers,
    request-body fields, uploaded files and the status of a handler's reply. */
module Http {

  datatype Option<+T> = None | Some(value: T)

  /** Identifiers (Mongo ObjectIds, session ids) compared by their canonical string
      form, as the handlers do with `toString()`. */
  type Id = string

  /** A field of a JSON request body as `express.json()` hands it over: missing,
      a string, or any other JSON value (number, boolean, null, array, object), of
      which only its JavaScript truthiness matters to the handlers. */
  datatype BodyValue = Absent | Str(text: string) | NonString(truthy: bool)

  /** JavaScript truthiness (`!v` is false) of a body field. */
  predicate Truthy(v: BodyValue): (t: bool)
    ensures t ==> !v.Absent?
    ensures v.Str? ==> (t <==> |v.text| > 0)
  {
    match v
    case Absent => false
    case Str(s) => s != ""
    case NonString(t) => t
  }

  /** A string-or-missing field is truthy: present and not empty. */
  predicate Supplied(v: Option<string>): (s: bool)
    ensures s <==> v.Some? && |v.value| > 0
  {
    v.Some? && v.value != ""
  }

  /** A file accepted by the upload middleware; its bytes and MIME type only travel
      to the object store, so the handlers see nothing but its original name. */
  datatype Upload = Upload(originalname: string)

  /** What a handler answers. `Uncaught` is a handler that throws outside its
      `try` block and sends no reply of its own. */
  datatype Status =
    | Ok            // 200
    | BadRequest    // 400
    | Unauthorized  // 401
    | Forbidden     // 403
    | NotFound      // 404
    | ServerError   // 500
    | Uncaught
}
