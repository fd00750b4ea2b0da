/** `errorHandler`: the Express error middleware that turns whatever a
    handler passed to `next` into a status and a JSON body. Its
    `console.error` of the stack is not modelled. */
module ErrorHandler {
  import opened Common
  import opened Http

  const UniqueViolationCode := "23505"
  const ForeignKeyViolationCode := "23503"

  /** Whether `NODE_ENV` lets the stack out in `details`. */
  predicate Development(nodeEnv: Option<string>) {
    nodeEnv == Some("development")
  }

  /** The error middleware. A PostgreSQL code is looked at before the
      error's name; everything else keeps its own status (500 when it has
      none, or 0) and message (a default when it is empty). */
  function Handle(err: ServerError, nodeEnv: Option<string>): (r: Response)
    ensures r.body.ErrorBody?
    ensures r.status == 400 || r.status == 500 || (err.status.Some? && r.status == err.status.value)
    ensures err.code == Some(UniqueViolationCode) ==>
      r == Response(400, ErrorBody("Duplicate entry", Some("Username or email already exists")))
    ensures err.code == Some(ForeignKeyViolationCode) ==>
      r == Response(400, ErrorBody("Foreign key constraint violation", Some("Referenced record does not exist")))
    ensures err.name == "ValidationError" ==>
      (r.status == 400 &&
       (r.body == ErrorBody("Validation error", Some(err.message)) <==>
        err.code != Some(UniqueViolationCode) && err.code != Some(ForeignKeyViolationCode)))
  {
    if err.code == Some(UniqueViolationCode) then
      Response(400, ErrorBody("Duplicate entry", Some("Username or email already exists")))
    else if err.code == Some(ForeignKeyViolationCode) then
      Response(400, ErrorBody("Foreign key constraint violation", Some("Referenced record does not exist")))
    else if err.name == "ValidationError" then
      Response(400, ErrorBody("Validation error", Some(err.message)))
    else
      var status := if err.status.Some? && err.status.value != 0 then err.status.value else 500;
      var message := if err.message != "" then err.message else "Internal server error";
      Response(status, ErrorBody(message, if Development(nodeEnv) then Some(err.stack) else None))
  }

  /** Neither the name, the message, the status, the stack nor the
      environment matter once a constraint code has matched. */
  lemma ConstraintCodeDecides(e1: ServerError, e2: ServerError, env1: Option<string>, env2: Option<string>)
    requires e1.code == e2.code
    requires e1.code == Some(UniqueViolationCode) || e1.code == Some(ForeignKeyViolationCode)
    ensures Handle(e1, env1) == Handle(e2, env2) && Handle(e1, env1).status == 400
  {
  }

  /** Outside development the response does not depend on the stack, so no
      stack can leak into a body. */
  lemma StackHiddenOutsideDevelopment(e: ServerError, env: Option<string>, otherStack: string)
    requires !Development(env)
    ensures Handle(e.(stack := otherStack), env) == Handle(e, env)
  {
  }

  /** An error that is neither a constraint failure nor a ValidationError
      keeps its own status and message, with 500 and a generic message as
      fallbacks. */
  lemma GenericErrorKeepsStatusAndMessage(e: ServerError, env: Option<string>)
    requires e.code != Some(UniqueViolationCode) && e.code != Some(ForeignKeyViolationCode)
    requires e.name != "ValidationError"
    ensures Handle(e, env).status == if e.status.Some? && e.status.value != 0 then e.status.value else 500
    ensures Handle(e, env).body.error == if e.message != "" then e.message else "Internal server error"
  {
  }

  /** What the client receives for a handler's outcome: its reply, or the
      error middleware's answer to the forwarded error. */
  function Respond(out: Outcome, nodeEnv: Option<string>): (r: Response)
    ensures out.Reply? ==> r == out.response
    ensures out.Forward? ==> r == Handle(out.error, nodeEnv)
  {
    match out
    case Reply(resp) => resp
    case Forward(err) => Handle(err, nodeEnv)
  }
}
