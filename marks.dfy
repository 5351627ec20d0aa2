/** One-hot indicator rows: a row of `n` marks where only position `current`
    carries the "on" value. Both the hero slide indicators and the gallery side
    indicator render such a row. */
module Marks {

  /** Number of occurrences of `x` in `s`. */
  function Count<T(==)>(s: seq<T>, x: T): (c: nat)
    ensures c <= |s|
  {
    if s == [] then 0
    else Count(s[..|s| - 1], x) + (if s[|s| - 1] == x then 1 else 0)
  }

  /** The row `[f(0), ..., f(n-1)]` with `f(i) = if i == current then on else off`. */
  function OneHot<T>(n: nat, current: nat, on: T, off: T): (r: seq<T>)
    ensures |r| == n
    ensures forall i :: 0 <= i < n ==> r[i] == if i == current then on else off
  {
    if n == 0 then [] else OneHot(n - 1, current, on, off) + [if n - 1 == current then on else off]
  }

  /** A row that stops before `current` carries no "on" mark. */
  lemma {:induction false} NoMarkBefore<T>(n: nat, current: nat, on: T, off: T)
    requires n <= current && on != off
    ensures Count(OneHot(n, current, on, off), on) == 0
  {
    if n > 0 {
      var r := OneHot(n, current, on, off);
      assert r[..n - 1] == OneHot(n - 1, current, on, off);
      NoMarkBefore(n - 1, current, on, off);
    }
  }

  /** A row that reaches past `current` carries exactly one "on" mark. */
  lemma {:induction false} ExactlyOneMark<T>(n: nat, current: nat, on: T, off: T)
    requires current < n && on != off
    ensures Count(OneHot(n, current, on, off), on) == 1
  {
    var r := OneHot(n, current, on, off);
    assert r[..n - 1] == OneHot(n - 1, current, on, off);
    if n - 1 == current {
      NoMarkBefore(n - 1, current, on, off);
    } else {
      ExactlyOneMark(n - 1, current, on, off);
    }
  }
}
