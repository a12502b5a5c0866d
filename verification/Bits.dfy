/** Exclusive or of unsigned numbers, and the shift-and-xor that xor folding is made of. */
module Bits {
  import opened Masks

  function Xor(a: nat, b: nat): nat
    decreases a + b
  {
    if a == 0 then b else if b == 0 then a
    else 2 * Xor(a / 2, b / 2) + (if a % 2 == b % 2 then 0 else 1)
  }

  /** One binary digit at a time, for all arguments. */
  lemma XorDigits(a: nat, b: nat)
    ensures Xor(a, b) / 2 == Xor(a / 2, b / 2)
    ensures Xor(a, b) % 2 == if a % 2 == b % 2 then 0 else 1
  {
  }

  /** A number is its half and its parity. */
  lemma Halves(a: nat, b: nat)
    requires a / 2 == b / 2 && a % 2 == b % 2
    ensures a == b
  {
  }

  lemma {:induction false} XorAssoc(a: nat, b: nat, c: nat)
    ensures Xor(Xor(a, b), c) == Xor(a, Xor(b, c))
    decreases a + b + c
  {
    hide Xor;
    if a + b + c > 0 {
      XorAssoc(a / 2, b / 2, c / 2);
      XorDigits(a, b);
      XorDigits(b, c);
      XorDigits(Xor(a, b), c);
      XorDigits(a, Xor(b, c));
      Halves(Xor(Xor(a, b), c), Xor(a, Xor(b, c)));
    } else {
      XorZero(0);
    }
  }

  lemma {:induction false} XorCommutes(a: nat, b: nat)
    ensures Xor(a, b) == Xor(b, a)
    decreases a + b
  {
    if a > 0 && b > 0 {
      XorCommutes(a / 2, b / 2);
    }
  }

  lemma XorZero(a: nat)
    ensures Xor(a, 0) == a && Xor(0, a) == a
  {
  }

  lemma {:induction false} XorSelf(a: nat)
    ensures Xor(a, a) == 0
  {
    if a > 0 {
      XorSelf(a / 2);
    }
  }

  lemma {:induction false} XorBound(a: nat, b: nat, k: nat)
    requires a < Pow2(k) && b < Pow2(k)
    ensures Xor(a, b) < Pow2(k)
  {
    if k > 0 {
      XorBound(a / 2, b / 2, k - 1);
    }
  }

  /** h shifted right by k. */
  function Shr(h: nat, k: nat): nat {
    if k == 0 then h else Shr(h / 2, k - 1)
  }

  lemma {:induction false} ShrXor(a: nat, b: nat, k: nat)
    ensures Shr(Xor(a, b), k) == Xor(Shr(a, k), Shr(b, k))
  {
    hide Xor;
    if k > 0 {
      XorDigits(a, b);
      ShrXor(a / 2, b / 2, k - 1);
    }
  }

  lemma {:induction false} ShrShr(h: nat, j: nat, k: nat)
    ensures Shr(Shr(h, j), k) == Shr(h, j + k)
  {
    if j > 0 {
      ShrShr(h / 2, j - 1, k);
    }
  }

  lemma {:induction false} ShrVanishes(h: nat, j: nat, k: nat)
    requires h < Pow2(j) && j <= k
    ensures Shr(h, k) == 0
  {
    if k > 0 {
      ShrVanishes(h / 2, if j > 0 then j - 1 else 0, k - 1);
    }
  }

  lemma {:induction false} ShrBound(h: nat, j: nat, k: nat)
    requires h < Pow2(j + k)
    ensures Shr(h, j) < Pow2(k)
  {
    if j > 0 {
      ShrBound(h / 2, j - 1, k);
    }
  }

  // ---- Shift and xor ----

  function XorShift(h: nat, k: nat): nat {
    Xor(h, Shr(h, k))
  }

  /** Doing it twice is doing it once with twice the shift. */
  lemma XorShiftTwice(h: nat, k: nat)
    ensures XorShift(XorShift(h, k), k) == XorShift(h, 2 * k)
  {
    hide Xor, Shr;
    var a, b := Shr(h, k), Shr(h, 2 * k);
    ShrXor(h, a, k);
    ShrShr(h, k, k);
    XorAssoc(h, a, Xor(a, b));
    XorAssoc(a, a, b);
    XorSelf(a);
    XorZero(b);
  }

  /** Below 2^32 a shift by 32 or more changes nothing. */
  lemma XorShiftNothing(h: nat, k: nat)
    requires h < Pow2(32) && k >= 32
    ensures XorShift(h, k) == h
  {
    hide Xor, Shr, Pow2;
    ShrVanishes(h, 32, k);
    XorZero(h);
  }

  lemma XorShiftBound(h: nat, k: nat)
    requires h < Pow2(32)
    ensures XorShift(h, k) < Pow2(32)
  {
    hide Xor, Shr, Pow2;
    ShrSmaller(h, k);
    XorBound(h, Shr(h, k), 32);
  }

  lemma {:induction false} ShrSmaller(h: nat, k: nat)
    ensures Shr(h, k) <= h
  {
    if k > 0 {
      ShrSmaller(h / 2, k - 1);
    }
  }

  /** On 32 bits shift and xor loses nothing: two words with the same image are the same. */
  lemma {:induction false} XorShiftInjective(g: nat, h: nat, k: nat)
    requires 1 <= k && g < Pow2(32) && h < Pow2(32) && XorShift(g, k) == XorShift(h, k)
    ensures g == h
    decreases 32 - k
  {
    hide XorShift, Pow2;
    if k >= 32 {
      XorShiftNothing(g, k);
      XorShiftNothing(h, k);
    } else {
      XorShiftTwice(g, k);
      XorShiftTwice(h, k);
      XorShiftInjective(g, h, 2 * k);
    }
  }

  /** Its inverse. */
  function UnShift(w: nat, k: nat): nat
    requires k >= 1
    decreases 32 - k
  {
    if k >= 32 then w else XorShift(UnShift(w, 2 * k), k)
  }

  lemma {:induction false} UnShiftInverts(w: nat, k: nat)
    requires k >= 1 && w < Pow2(32)
    ensures UnShift(w, k) < Pow2(32) && XorShift(UnShift(w, k), k) == w
    decreases 32 - k
  {
    hide XorShift, Pow2;
    if k >= 32 {
      XorShiftNothing(w, k);
    } else {
      var u := UnShift(w, 2 * k);
      UnShiftInverts(w, 2 * k);
      XorShiftBound(u, k);
      XorShiftTwice(u, k);
    }
  }

  // ---- The low bits ----

  /** The n low bits of h. */
  function Low(h: nat, n: nat): nat {
    And(h, Pow2(n) - 1)
  }

  lemma LowDigits(h: nat, n: nat)
    ensures Low(h, n + 1) == 2 * Low(h / 2, n) + h % 2 && Low(h, 0) == 0
  {
    AndOnes(h, Pow2(n));
  }

  lemma {:induction false} LowXor(a: nat, b: nat, n: nat)
    ensures Low(Xor(a, b), n) == Xor(Low(a, n), Low(b, n))
  {
    hide Xor, Low;
    if n == 0 {
      LowDigits(a, 0);
      LowDigits(b, 0);
      LowDigits(Xor(a, b), 0);
      XorZero(0);
    } else {
      LowXor(a / 2, b / 2, n - 1);
      LowDigits(a, n - 1);
      LowDigits(b, n - 1);
      LowDigits(Xor(a, b), n - 1);
      XorDigits(a, b);
      XorDigits(Low(a, n), Low(b, n));
      Halves(Low(Xor(a, b), n), Xor(Low(a, n), Low(b, n)));
    }
  }

  lemma {:induction false} LowOfSmall(h: nat, n: nat)
    requires h < Pow2(n)
    ensures Low(h, n) == h
  {
    hide Low;
    if n > 0 {
      LowOfSmall(h / 2, n - 1);
      LowDigits(h, n - 1);
    } else {
      LowDigits(h, 0);
    }
  }

  lemma LowBound(h: nat, n: nat)
    ensures Low(h, n) < Pow2(n)
  {
    AndBound(h, n);
  }

  /** A number is its high part and its low bits. */
  lemma {:induction false} HighAndLow(h: nat, n: nat)
    ensures h == Pow2(n) * Shr(h, n) + Low(h, n)
  {
    hide Low;
    if n > 0 {
      HighAndLow(h / 2, n - 1);
      LowDigits(h, n - 1);
      assert Pow2(n) * Shr(h, n) == 2 * (Pow2(n - 1) * Shr(h / 2, n - 1));
    } else {
      LowDigits(h, 0);
    }
  }

  lemma {:induction false} Composed(t: nat, v: nat, n: nat)
    requires v < Pow2(n)
    ensures Shr(Pow2(n) * t + v, n) == t && Low(Pow2(n) * t + v, n) == v
  {
    hide Low;
    var h := Pow2(n) * t + v;
    if n > 0 {
      assert h == 2 * (Pow2(n - 1) * t) + v;
      assert h / 2 == Pow2(n - 1) * t + v / 2 && h % 2 == v % 2;
      Composed(t, v / 2, n - 1);
      LowDigits(h, n - 1);
    } else {
      LowDigits(h, 0);
    }
  }
}
