/** Failure-carrying wrappers shared by every module, and the Python
    exceptions the modelled code can raise, as values. */
module Base {

  datatype Option<T> = None | Some(value: T)

  /** The exception classes the modelled code raises or lets escape. */
  datatype Error =
    | SyntaxError(source: string)
    | EvalError(reason: string)
    | KeyError(key: string)
    | ValueError(reason: string)
    | TypeError(reason: string)
    | IndexError(reason: string)
    | AttributeError(reason: string)
    | Abort(reason: string)

  datatype Result<T> = Ok(value: T) | Fail(error: Error)

  /** No element occurs twice. */
  ghost predicate NoDup<T>(s: seq<T>)
  {
    forall a, b :: 0 <= a < b < |s| ==> s[a] != s[b]
  }

  /** The distinct elements of `s`, each at its first occurrence. */
  function Dedup<T(==,!new)>(s: seq<T>): (r: seq<T>)
    ensures forall x :: x in r <==> x in s
    ensures NoDup(r)
  {
    if |s| == 0 then []
    else
      var rest := Dedup(s[..|s| - 1]);
      assert forall x :: x in s <==> x in s[..|s| - 1] || x == s[|s| - 1];
      if s[|s| - 1] in rest then rest else rest + [s[|s| - 1]]
  }
}
