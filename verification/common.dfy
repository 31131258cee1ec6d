/** Shared vocabulary of the model: bytes, optional values and the outcome of
    a host-side routine that may return normally or raise an exception. */
module Common {

  /** An unsigned 8-bit value, as carried on the two-wire bus. */
  type byte = x: int | 0 <= x < 256

  /** A value that may be missing (a failed bus read, Python's `None`). */
  datatype Option<+T> = None | Some(value: T)

  /** How a host routine ended: it returned a truth value, or an exception
      escaped from it. */
  datatype Outcome = Returned(found: bool) | Raised

  /** Python's `s[i]`: a negative index counts from the end; `None` models
      the `IndexError` for an index out of range. */
  function PyIndex<T>(s: seq<T>, i: int): (r: Option<T>)
    ensures r.Some? <==> -|s| <= i < |s|
    ensures 0 <= i < |s| ==> r == Some(s[i])
    ensures -|s| <= i < 0 ==> r == Some(s[|s| + i])
  {
    if 0 <= i < |s| then Some(s[i])
    else if -|s| <= i < 0 then Some(s[|s| + i])
    else None
  }

  /** `n` copies of `x`: Python's `[x] * n`. */
  function Repeat<T>(x: T, n: nat): (r: seq<T>)
    ensures |r| == n
    ensures forall i :: 0 <= i < n ==> r[i] == x
  {
    seq(n, _ => x)
  }

  function Abs(x: int): nat {
    if x < 0 then -x else x
  }

  /** The distance between two integers. */
  function Dist(x: int, y: int): nat {
    Abs(x - y)
  }

  /** A sequence with no element is empty. */
  lemma NoneIn<T>(xs: seq<T>)
    requires forall x :: x !in xs
    ensures xs == []
  {
    HeadIn(xs);
  }

  lemma HeadIn<T>(xs: seq<T>)
    ensures xs != [] ==> xs[0] in xs
  {
  }
}
