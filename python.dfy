/** Python runtime notions that the two game cores rely on: `None`, the
    exceptions they raise, and how a Python list is indexed. */
module Python {

  /** `None` or a value, as a Python function that may return `None`. */
  datatype Option<+T> = None | Some(value: T)

  /** The built-in exceptions the cores can raise. */
  datatype Exception = IndexError | ValueError

  /** A call that returns a value or raises an exception. */
  datatype Result<+T> = Ok(value: T) | Raise(error: Exception)

  /** The position `xs[k]` reads in a Python list of length `n`: a negative
      `k` counts from the end, and `None` means the access raises
      IndexError. */
  function ListIndex(k: int, n: nat): (r: Option<nat>)
    ensures r.Some? <==> -(n as int) <= k < n
    ensures r.Some? ==> r.value < n && (r.value == k || r.value == k + n)
  {
    if 0 <= k < n then Some(k)
    else if -(n as int) <= k < 0 then Some(k + n)
    else None
  }
}
