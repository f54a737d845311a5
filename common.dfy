/** Small value types shared by the rest of the model. */
module Common {

  /** A value that may be absent: Python's `None`, or a missing dictionary key. */
  datatype Option<+T> = None | Some(value: T)

  /** The outcome of an operation that can raise; `ValueError` is what Python's
      `float()` raises on a string that is not a number. */
  datatype Result<+T> = Ok(value: T) | ValueError

  /** Python's `s or ""` for a string that may be `None` (an empty string stays empty). */
  function OrEmpty(s: Option<string>): string
  {
    match s
    case None => ""
    case Some(v) => v
  }

  /** Python's `xs or []` for a list that may be `None`. */
  function OrNil<T>(xs: Option<seq<T>>): seq<T>
  {
    match xs
    case None => []
    case Some(v) => v
  }

  function Min(a: int, b: int): int { if a <= b then a else b }

  /** `[f(i, x) for i, x in enumerate(xs)]`, built the way a loop appending to a
      list builds it: the last element is appended to the list of the others. */
  function Enumerate<T, U>(xs: seq<T>, f: (nat, T) -> U): seq<U>
  {
    if xs == [] then []
    else
      var n := |xs| - 1;
      Enumerate(xs[..n], f) + [f(n, xs[n])]
  }

  /** There is one result per element, and the i-th is f applied to i and the
      i-th element. */
  lemma {:induction false} EnumerateAt<T, U>(xs: seq<T>, f: (nat, T) -> U)
    ensures |Enumerate(xs, f)| == |xs|
    ensures forall i :: 0 <= i < |xs| ==> Enumerate(xs, f)[i] == f(i, xs[i])
  {
    if xs != [] {
      var n := |xs| - 1;
      var prefix := xs[..n];
      EnumerateAt(prefix, f);
      assert forall i :: 0 <= i < n ==> prefix[i] == xs[i];
    }
  }

  /** The same loop when f can raise: the results in order, or the error of the
      first element on which f raises. */
  function EnumerateAll<T, U>(xs: seq<T>, f: (nat, T) -> Result<U>): Result<seq<U>>
  {
    if xs == [] then Ok([])
    else
      var n := |xs| - 1;
      match EnumerateAll(xs[..n], f)
      case ValueError => ValueError
      case Ok(ys) =>
        match f(n, xs[n])
        case ValueError => ValueError
        case Ok(y) => Ok(ys + [y])
  }

  /** Once a prefix has raised, so has the whole list. */
  lemma {:induction false} EnumerateAllFailure<T, U>(xs: seq<T>, f: (nat, T) -> Result<U>, n: nat)
    requires n <= |xs| && EnumerateAll(xs[..n], f).ValueError?
    ensures EnumerateAll(xs, f).ValueError?
    decreases |xs| - n
  {
    if n < |xs| {
      assert xs[..n + 1][..n] == xs[..n];
      EnumerateAllFailure(xs, f, n + 1);
    } else {
      assert xs[..n] == xs;
    }
  }

  /** The loop gets through exactly when f raises on no element; then there is one
      result per element, and the i-th is what f gives for the i-th element. */
  lemma {:induction false} EnumerateAllAt<T, U>(xs: seq<T>, f: (nat, T) -> Result<U>)
    ensures EnumerateAll(xs, f).Ok? <==> forall i :: 0 <= i < |xs| ==> f(i, xs[i]).Ok?
    ensures EnumerateAll(xs, f).Ok? ==>
      && |EnumerateAll(xs, f).value| == |xs|
      && forall i :: 0 <= i < |xs| ==> Ok(EnumerateAll(xs, f).value[i]) == f(i, xs[i])
  {
    if xs != [] {
      var n := |xs| - 1;
      var prefix := xs[..n];
      EnumerateAllAt(prefix, f);
      assert forall i :: 0 <= i < n ==> prefix[i] == xs[i];
    }
  }
}
