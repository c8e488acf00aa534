/** Values shared by every part of the model: nullable values, thrown
    errors, and the JavaScript truthiness tests the source relies on. */
module Common {

  /** A value that may be `null` or `undefined` in the source. */
  datatype Option<+T> = None | Some(value: T) {

    /** The `??` operator: the value when present, otherwise the fallback. */
    function GetOr(default: T): T {
      match this
      case Some(v) => v
      case None => default
    }
  }

  /** A thrown error as the source inspects it: `code`, `response.status`
      and `message`, each possibly absent. */
  datatype Fault = Fault(code: Option<int>, status: Option<int>, message: Option<string>)

  /** Either the awaited value or the error that was thrown instead. */
  datatype Result<+T> = Ok(value: T) | Err(error: Fault)

  /** An error that carries only a message, such as a database error. Its
      `code`, if any, is a string, so it never equals the number 401. */
  function Thrown(message: string): Fault {
    Fault(None, None, Some(message))
  }

  /** `e.code === 401 || e.response?.status === 401` */
  predicate IsUnauthorized(e: Fault) {
    e.code == Some(401) || e.status == Some(401)
  }

  /** JavaScript truthiness of a `string | null`: present and non-empty. */
  predicate Truthy(s: Option<string>) {
    s.Some? && s.value != ""
  }

  /** JavaScript truthiness of a `number | null`: present and non-zero. */
  predicate TruthyNumber(n: Option<int>) {
    n.Some? && n.value != 0
  }

  /** `a || b` on two nullable strings. */
  function OrElse(a: Option<string>, b: Option<string>): Option<string> {
    if Truthy(a) then a else b
  }

  /** A byte, as a number. */
  type byte = x: int | 0 <= x < 256
}
