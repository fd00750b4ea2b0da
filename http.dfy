/** What a handler hands back to Express: a status with a JSON body, or an
    error passed on with `next(error)`. */
module Http {
  import opened Common
  import opened Database

  /** The payload `jwt.sign` signs; the signature and the secret are not
      modelled. */
  datatype TokenClaims = TokenClaims(userId: int, role: Role, expiresInHours: nat)

  /** The JSON bodies the handlers and the error middleware send; a
      `message` of None is a body without that key. */
  datatype Body =
    | ErrorBody(error: string, details: Option<string>)
    | ValidationErrors(errors: seq<FieldError>)
    | MessageBody(message: Option<string>)
    | TaskBody(message: Option<string>, task: TaskView)
    | TaskListBody(tasks: seq<TaskView>, count: int)
    | UserBody(message: Option<string>, user: PublicUser)
    | UserListBody(users: seq<PublicUser>)
    | LoginBody(message: Option<string>, token: TokenClaims, user: PublicUser)

  datatype Response = Response(status: int, body: Body)

  /** `res.status(...).json(...)`, or `next(error)`. */
  datatype Outcome = Reply(response: Response) | Forward(error: ServerError)

  /** `res.status(status).json({ error: message })`. */
  function Fail(status: int, message: string): Response {
    Response(status, ErrorBody(message, None))
  }
}
