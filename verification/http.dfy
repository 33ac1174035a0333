/** What an action returns: the status code of the `IActionResult`, the
    object it carries, and the message text for the few messages modelled. */
module Http {
  import opened Wrappers

  /** 200, 201, 400, 404, and 500 for an exception escaping the action. */
  datatype Status = Ok | Created | BadRequest | NotFound | InternalServerError

  datatype Reply<+T> = Reply(status: Status, body: Option<T>, message: Option<string>)

  /** A reply with no object and no modelled message. */
  function Plain<T>(status: Status): (r: Reply<T>)
    ensures r.status == status && r.body.None? && r.message.None?
  {
    Reply(status, None, None)
  }

  /** A reply carrying `x`. */
  function With<T>(status: Status, x: T): (r: Reply<T>)
    ensures r.status == status && r.body == Some(x) && r.message.None?
  {
    Reply(status, Some(x), None)
  }

  /** A reply with a modelled message and no object. */
  function Say<T>(status: Status, message: string): (r: Reply<T>)
    ensures r.status == status && r.body.None? && r.message == Some(message)
  {
    Reply(status, None, Some(message))
  }
}
