/** Notions shared by several parts of the model. */
module Basics {

  datatype Option<+T> = None | Some(value: T)

  type byte = x: int | 0 <= x < 256

  function Pow2(k: nat): (p: nat)
    ensures p > 0
  {
    if k == 0 then 1 else 2 * Pow2(k - 1)
  }

  lemma {:induction false} Pow2Splits(k: nat, m: nat)
    requires k <= m
    ensures Pow2(m) == Pow2(m - k) * Pow2(k)
    decreases m
  {
    if k == m {
    } else {
      Pow2Splits(k, m - 1);
      assert 2 * (Pow2(m - 1 - k) * Pow2(k)) == (2 * Pow2(m - 1 - k)) * Pow2(k);
    }
  }
}
