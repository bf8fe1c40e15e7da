/** Multiplication as repeated addition, for the counting lemmas about the
    timers' output: they add up one set at a time and stay in linear arithmetic. */
module Sums {
  /** `n` copies of `t` added up. */
  function Repeated(n: int, t: int): int
    decreases n
  {
    if n <= 0 then 0 else t + Repeated(n - 1, t)
  }

  lemma RepeatedSucc(n: int, t: int)
    requires n >= 0
    ensures Repeated(n + 1, t) == t + Repeated(n, t)
  {
  }

  lemma {:induction false} RepeatedIsProduct(n: nat, t: int)
    ensures Repeated(n, t) == n * t
  {
    if n > 0 {
      RepeatedIsProduct(n - 1, t);
    }
  }

  lemma MulSucc(a: int, t: int)
    ensures (a + 1) * t == t + a * t
  {
  }
}
