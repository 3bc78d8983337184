/** The JSON replies the four serverless handlers send. */
module Http {

  /**
   * A handler's reply: status 200 with a JSON body, or an error status with
   * `{ error: message }`.
   */
  datatype Response<+B> = Ok(body: B) | Fail(status: int, error: string) {

    function Status(): int {
      if Ok? then 200 else status
    }
  }

  const BadRequest: int := 400
  const Unauthorized: int := 401
  const InternalError: int := 500

  /** The reply of every handler to an action name it does not know. */
  const InvalidAction: string := "Invalid action"
}
