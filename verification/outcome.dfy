/**
 * The ways a service call can fail, and the `Result` every modelled
 * operation returns in place of raising.
 */
module Outcome {
  import Text

  /** The exceptions raised along the modelled paths. */
  datatype Error =
    | Http(status: int, detail: string)  // fastapi HTTPException
    | Runtime(message: string)           // RuntimeError from the cache wrapper
    | Redis(message: string)             // an error reply from the Redis server
    | Database(message: string)          // an error raised by the relational store
    | TypeError(message: string)         // Python TypeError

  /** `str(e)`: an HTTPException prints as "<status>: <detail>". */
  function Describe(e: Error): string {
    match e
    case Http(s, d) => Text.IntToString(s) + ": " + d
    case Runtime(m) => m
    case Redis(m) => m
    case Database(m) => m
    case TypeError(m) => m
  }

  /** The HTTP status the client receives: the exception's own, or 500 when uncaught. */
  function Status(e: Error): int {
    if e.Http? then e.status else 500
  }

  /**
   * `except Exception as e: raise HTTPException(status_code=500, detail=prefix + str(e))`:
   * every error, including a 404 raised inside the `try`, leaves as a 500.
   */
  function CatchAll(prefix: string, e: Error): (r: Error)
    ensures Status(r) == 500
    ensures r.Http? && r.detail == prefix + Describe(e)
  {
    Http(500, prefix + Describe(e))
  }

  /** How a 404 prints: "404: " followed by its detail. */
  lemma DescribeNotFound(detail: string)
    ensures Describe(Http(404, detail)) == "404: " + detail
  {
    assert Text.NatToString(4) == "4";
    assert Text.NatToString(40) == "40";
    assert Text.NatToString(404) == "404";
  }

  /** A 404 caught by a blanket handler becomes a 500 whose detail is the prefix and the 404's text. */
  lemma CatchAllNotFound(prefix: string, detail: string)
    ensures CatchAll(prefix, Http(404, detail)) == Http(500, prefix + "404: " + detail)
  {
    DescribeNotFound(detail);
    assert prefix + ("404: " + detail) == prefix + "404: " + detail;
  }

  datatype Result<+T> = Ok(value: T) | Err(error: Error) {

    predicate IsFailure() {
      Err?
    }

    function PropagateFailure<U>(): Result<U>
      requires Err?
    {
      Err(error)
    }

    function Extract(): T
      requires Ok?
    {
      value
    }
  }
}
