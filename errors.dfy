/** The runtime's errors. `RuntimeError` has the three variants of the
    source's error enum; `Error` is what a fallible call returns: one of
    those, the "export kind is not a function" failure, or an operation the
    source leaves unimplemented (a panic there, an error value here). */
module Errors {

  datatype RuntimeError =
    | ExportNotFound(exportName: string)
    | FunctionNotFound(functionName: string)
    | FunctionTypeNotFound(functionName: string)

  datatype Error =
    | Runtime(runtimeError: RuntimeError)
    | ExportKindNotFunction(exportName: string)
    | Unimplemented(what: string)

  datatype Result<T> = Ok(value: T) | Err(error: Error) {
    predicate IsFailure() { Err? }

    function PropagateFailure<U>(): Result<U>
      requires Err?
    {
      Err(error)
    }

    function Extract(): T
      requires Ok?
    {
      value
    }
  }
}
