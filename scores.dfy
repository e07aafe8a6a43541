/**
 * Search scores. The source mixes integer evaluations with the float
 * sentinels `float("-inf")` and `float("inf")` (bot.py:82, 92, 108); here the
 * sentinels are constructors of their own and the order is Python's order on
 * those values.
 */
module Scores {
  datatype Score = NegInf | Fin(n: int) | PosInf

  /** Python's `a <= b` on the extended integers. */
  predicate Le(a: Score, b: Score) {
    a.NegInf? || b.PosInf? || (a.Fin? && b.Fin? && a.n <= b.n)
  }

  /** Python's `a < b`. */
  predicate Lt(a: Score, b: Score) {
    !Le(b, a)
  }

  /** Python's `max(a, b)`: the first argument unless the second is larger. */
  function Max(a: Score, b: Score): (r: Score)
    ensures Le(a, r) && Le(b, r) && (r == a || r == b)
  {
    if Lt(a, b) then b else a
  }

  /** Python's `min(a, b)`: the first argument unless the second is smaller. */
  function Min(a: Score, b: Score): (r: Score)
    ensures Le(r, a) && Le(r, b) && (r == a || r == b)
  {
    if Lt(b, a) then b else a
  }

  /** `a` strictly improves on `b` for the side that maximizes (or minimizes). */
  predicate Better(isMax: bool, a: Score, b: Score) {
    if isMax then Lt(b, a) else Lt(a, b)
  }

  /** The sentinel a node's running best starts from (bot.py:92, 108). */
  function Worst(isMax: bool): Score {
    if isMax then NegInf else PosInf
  }
}
