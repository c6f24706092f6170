/** Failure-carrying values shared by the models of main.ts and agent/agent.go. */
module Common {

  datatype Option<+T> = None | Some(value: T)

  /** How a JavaScript expression in the model can fail: reading a property of `undefined`
      throws a TypeError. */
  datatype Error = UndefinedProperty(what: string)

  datatype Result<+T> = Ok(value: T) | Err(error: Error)
}
