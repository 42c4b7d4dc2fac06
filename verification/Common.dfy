/** Result types and small helpers shared by the models of the services. */
module Common {
  datatype Option<+T> = None | Some(value: T)

  datatype Error =
    | BadRequest
    | Unauthorized
    | NotFound
    | Conflict
    | Gone
    | Forbidden
    | Unprocessable
    | TooManyRequests
    | TooLarge
    | Internal

  /** What an HTTP-facing call returns: a value, or the exception it throws. */
  datatype Result<+T> = Ok(value: T) | Err(error: Error)

  function Max(a: int, b: int): int {
    if a < b then b else a
  }

  function Lookup<K, V>(m: map<K, V>, k: K): Option<V> {
    if k in m then Some(m[k]) else None
  }

  ghost predicate Distinct<T>(s: seq<T>) {
    forall i, j :: 0 <= i < j < |s| ==> s[i] != s[j]
  }

  lemma {:induction false} SubsetSize<T>(a: set<T>, b: set<T>)
    requires a <= b
    ensures |a| <= |b|
  {
    if a != {} {
      var x :| x in a;
      SubsetSize(a - {x}, b - {x});
    }
  }
}
