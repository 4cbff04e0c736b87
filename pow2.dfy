/** Powers of two, and the padded length `1 << Math.ceil(Math.log2(m))`
    that the Bluestein transforms choose. */
module Pow2 {
  predicate IsPow2(n: int)
    decreases n
  {
    if n <= 0 then false else if n == 1 then true else n % 2 == 0 && IsPow2(n / 2)
  }

  /** The largest shift the source's 32-bit `1 << k` performs without
      overflowing into the sign bit is 30. */
  const MaxPadded: nat := 0x4000_0000

  /** The smallest power of two that is at least m. */
  function NextPow2(m: int): (r: nat)
    ensures IsPow2(r)
    decreases m
  {
    if m <= 1 then 1 else var h := NextPow2((m + 1) / 2); Pow2Double(h); 2 * h
  }

  lemma Pow2Double(p: int)
    requires IsPow2(p)
    ensures IsPow2(2 * p)
  {
    assert (2 * p) % 2 == 0 && (2 * p) / 2 == p;
  }

  /** `1 << Math.ceil(Math.log2(m))`: a power of two at least m whose half
      is below m. */
  lemma {:induction false} NextPow2Bounds(m: int)
    ensures m <= NextPow2(m)
    ensures NextPow2(m) == 1 || NextPow2(m) / 2 < m
    decreases m
  {
    if m > 1 {
      var c := (m + 1) / 2;
      NextPow2Bounds(c);
      var p := NextPow2(c);
      if p > 1 {
        Pow2Even(p);
      }
    }
  }

  lemma Pow2Even(p: int)
    requires IsPow2(p) && p > 1
    ensures p % 2 == 0
  {}

}
