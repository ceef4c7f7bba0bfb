/** Shared vocabulary: optional values, results with an error side, and browser tab ids. */
module Common {

  /** A JavaScript value that may be null or undefined. */
  datatype Option<+T> = None | Some(value: T) {
    function GetOr(default: T): T {
      match this
      case Some(v) => v
      case None => default
    }
  }

  /** The outcome of an operation that may throw: the value, or the error it raised. */
  datatype Result<+T, +E> = Ok(value: T) | Err(error: E)

  /** Ids of tabs created by chrome.tabs.create are positive, so a tab id is truthy exactly when present. */
  type TabId = t: int | t > 0 witness 1

  /** Number of pages in the inclusive range start..end, 0 when the range is empty. */
  function RangeLength(start: int, end: int): (n: nat)
    ensures n == 0 <==> end < start
    ensures start <= end ==> start + n - 1 == end
  {
    if end < start then 0 else end - start + 1
  }
}
