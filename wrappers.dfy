/** The optional-value datatype used for every operation that can raise. */
module Wrappers {

  /** `None` stands for a Python exception (a failed `assert`, an `IndexError`). */
  datatype Option<+T> = None | Some(value: T)

  /**
   * Python's `xs[i]` on a list: a negative index counts from the end, and an
   * index outside `-len(xs) .. len(xs) - 1` raises `IndexError`.
   */
  function PyIndex<T>(xs: seq<T>, i: int): (r: Option<T>)
    ensures 0 <= i < |xs| ==> r == Some(xs[i])
    ensures r.None? <==> (i < -|xs| || |xs| <= i)
    ensures r.Some? ==> r.value in xs
  {
    if 0 <= i < |xs| then Some(xs[i])
    else if -|xs| <= i < 0 then Some(xs[|xs| + i])
    else None
  }

  /**
   * The position Python's `xs[i] = v` writes to in a list of length n: a
   * negative index counts from the end; `None` is `IndexError`.
   */
  function PyPosition(n: nat, i: int): (r: Option<nat>)
    ensures r.Some? <==> 0 <= n + i && i < n
    ensures r.Some? ==> r.value < n
    ensures 0 <= i < n ==> r == Some(i)
  {
    if 0 <= i < n then Some(i) else if i < 0 && 0 <= n + i then Some(n + i) else None
  }
}
