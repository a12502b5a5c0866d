/** Bitwise conjunction with a mask of low bits, as the hash table indexes its buckets. */
module Masks {

  /** Bitwise conjunction of two unsigned numbers. */
  function And(a: nat, b: nat): nat {
    if a == 0 || b == 0 then 0
    else 2 * And(a / 2, b / 2) + (if a % 2 == 1 && b % 2 == 1 then 1 else 0)
  }

  function Pow2(k: nat): (p: nat)
    ensures p > 0
  {
    if k == 0 then 1 else 2 * Pow2(k - 1)
  }

  ghost predicate IsPow2(n: nat) {
    exists k: nat :: n == Pow2(k)
  }

  lemma AndOnes(h: nat, p: nat)
    requires p > 0
    ensures And(h, 2 * p - 1) == 2 * And(h / 2, p - 1) + h % 2
  {
    assert (2 * p - 1) / 2 == p - 1 && (2 * p - 1) % 2 == 1;
  }

  lemma {:induction false} AndBound(h: nat, k: nat)
    ensures And(h, Pow2(k) - 1) < Pow2(k)
  {
    if k > 0 {
      AndBound(h / 2, k - 1);
      AndOnes(h, Pow2(k - 1));
    }
  }

  lemma {:induction false} AndDouble(h: nat, k: nat)
    ensures And(h, 2 * Pow2(k) - 1) == And(h, Pow2(k) - 1) || And(h, 2 * Pow2(k) - 1) == And(h, Pow2(k) - 1) + Pow2(k)
  {
    hide And;
    AndOnes(h, Pow2(k));
    if k > 0 {
      AndDouble(h / 2, k - 1);
      AndOnes(h, Pow2(k - 1));
    } else {
      AndZero(h);
      AndZero(h / 2);
    }
  }

  lemma AndZero(h: nat)
    ensures And(h, 0) == 0
  {
  }

  /** A masked hash is a bucket number. */
  lemma MaskBound(h: nat, size: nat)
    requires IsPow2(size)
    ensures And(h, size - 1) < size
  {
    var k: nat :| size == Pow2(k);
    AndBound(h, k);
  }

  /** Doubling the table either keeps a hash in its bucket or moves it up by the old size. */
  lemma MaskDouble(h: nat, size: nat)
    requires IsPow2(size)
    ensures IsPow2(2 * size)
    ensures And(h, 2 * size - 1) == And(h, size - 1) || And(h, 2 * size - 1) == And(h, size - 1) + size
  {
    var k: nat :| size == Pow2(k);
    AndDouble(h, k);
    assert 2 * size == Pow2(k + 1);
  }
}
