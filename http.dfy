/** The request and response shapes shared by the middleware and the
    controllers. */
module Http {
  import opened Values

  /** The verified token payload that `authenticate` stores in `req.user`. */
  datatype Claims = Claims(userId: string, tenantId: string, role: string)

  /** What a handler sends: `{ success: true, data }`, `{ success: true,
      message }` or `{ success: false, message }`, with its status code. */
  datatype Response<T> =
    | Ok(status: int, data: T)
    | Done(status: int, message: string)
    | Err(status: int, message: string)

  /** How a middleware ends: it calls `next()` once, or it answers itself. */
  datatype Outcome = Next | Reply(status: int, message: string)

  /** The fields of the Express request object the middleware reads and
      assigns. */
  class Request {
    /** `req.headers.authorization` */
    var authorization: Option<string>
    /** `req.user` */
    var user: Option<Claims>
    /** `req.tenantId` */
    var tenantId: Option<string>

    constructor (authorization: Option<string>)
      ensures this.authorization == authorization
      ensures user == None && tenantId == None
    {
      this.authorization := authorization;
      user := None;
      tenantId := None;
    }
  }
}
