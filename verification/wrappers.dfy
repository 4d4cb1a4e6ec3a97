/** Option and Result types shared by the whole model. */
module Wrappers {

  /** A value that may be absent, the model of Python's `None`. */
  datatype Option<+T> = None | Some(value: T)

  /** Either a value or the error the Python code would raise. */
  datatype Result<+R, +E> = Success(value: R) | Failure(error: E)

  /**
   * Python list indexing `xs[i]` on a list of length `n`: non-negative indices
   * below `n` address themselves, negative indices down to `-n` count from the
   * end, everything else raises `IndexError` (here: `None`).
   */
  function PyIndex(n: nat, i: int): (r: Option<nat>)
    ensures r.Some? <==> -(n as int) <= i < n
    ensures r.Some? ==> r.value < n && (r.value as int == i || r.value as int == i + n)
    ensures 0 <= i < n ==> r == Some(i as nat)
  {
    if 0 <= i < n then Some(i as nat)
    else if -(n as int) <= i < 0 then Some((i + n) as nat)
    else None
  }
}
