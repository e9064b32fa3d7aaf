/** Success/failure wrappers shared by the action modules. */
module Results {

  datatype Option<+T> = None | Some(value: T)

  /** The `{ error: ... }` / `{ success: true, ... }` replies of the server actions. */
  datatype Result<+R, +E> = Success(value: R) | Failure(error: E)

  function Abs(x: int): (r: int)
    ensures r >= 0 && (r == x || r == -x)
  {
    if x < 0 then -x else x
  }
}
