/**
 * The nullable-reference stand-in and the service's success/error carrier
 * (com.mybetapp.util.Result).
 */
module Util {

  /** A Java reference that may be null: `None` is null. */
  datatype Option<+T> = None | Some(value: T)

  /**
   * Java's `Result<T>`: an immutable pair of a value and an error message,
   * either of which may be null. Success is defined by the error alone.
   */
  datatype Result<+T> = Result(value: Option<T>, error: Option<string>)
  {
    /** `isSuccess()`: the error is null. */
    predicate IsSuccess() {
      error.None?
    }
  }

  /** `Result.ok(v)`: the value v and a null error. */
  function Ok<T>(v: T): (r: Result<T>)
    ensures r.IsSuccess()
    ensures r.value == Some(v)
  {
    Result(Some(v), None)
  }

  /**
   * `Result.error(msg)`: a null value and msg as the error. Nothing stops a
   * caller from passing null, and such a result then reads as a success.
   */
  function Error<T>(message: Option<string>): (r: Result<T>)
    ensures r.value == None
    ensures r.error == message
    ensures r.IsSuccess() <==> message == None
  {
    Result(None, message)
  }

  /** `Result.okVoid()`: a success that carries no value. */
  function OkVoid(): (r: Result<()>)
    ensures r.IsSuccess()
    ensures r.value == None
  {
    Result(None, None)
  }
}
