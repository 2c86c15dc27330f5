/** Small integer helpers shared by every part of the model. */
module Numbers {

  function Min(a: int, b: int): int { if a <= b then a else b }

  function Max(a: int, b: int): int { if a >= b then a else b }

  /** `n` is a positive power of two. */
  predicate IsPow2(n: int)
    decreases n
  {
    n == 1 || (n >= 2 && n % 2 == 0 && IsPow2(n / 2))
  }
}
