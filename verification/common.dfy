/** Shared vocabulary of the backend model: optional values, failures,
    the requester of an HTTP request and the responses the views return. */
module Common {

  datatype Option<+T> = None | Some(value: T)

  datatype Result<+T, +E> = Ok(value: T) | Err(error: E)

  /** HTTP verbs accepted by the relation-toggle endpoints. */
  datatype Method = Post | Delete

  /** Who sent the request: the framework's anonymous user, or a logged-in user id. */
  datatype Requester = Anonymous | User(id: nat)

  /** The response of a view, reduced to its status and the part of its body
      the views compute themselves. */
  datatype Response =
    | Ok200
    | Created201(target: nat)     // body is the serialized target entity
    | NoContent204
    | BadRequest400(detail: string)
    | NotFound404
    | ServerError500              // an exception the view does not catch

  /** The English text of DRF's message for a required field that is absent.
      Under the deployment's Russian locale DRF sends a translation of it. */
  const FieldRequired: string := "This field is required."

  function StatusCode(r: Response): nat
  {
    match r
    case Ok200 => 200
    case Created201(_) => 201
    case NoContent204 => 204
    case BadRequest400(_) => 400
    case NotFound404 => 404
    case ServerError500 => 500
  }
}
