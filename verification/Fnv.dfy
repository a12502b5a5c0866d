/** The 32-bit FNV-1a hash and its xor folding, as draft-eastlake-fnv describes them. */
module Fnv {
  import opened Masks
  import opened Bits
  import opened Octet

  const FNV_32A_INIT := 0x811C9DC5
  const FNV_32_PRIME := 0x01000193

  type word = x: int | 0 <= x < 0x1_0000_0000

  function TimesPrime(x: nat): word {
    (x * FNV_32_PRIME) % 0x1_0000_0000
  }

  /** A number whose product with the prime is a multiple of 2^32 is one itself: multiply with the inverse. */
  lemma PrimeCancels(d: int, q: int)
    requires d * 0x01000193 == 0x1_0000_0000 * q
    ensures d == 0x1_0000_0000 * (q * 0x359C449B - d * 3513497)
  {
  }

  lemma SameRest(a: nat, b: nat) returns (q: int)
    requires a % 0x1_0000_0000 == b % 0x1_0000_0000
    ensures a - b == 0x1_0000_0000 * q
  {
    q := a / 0x1_0000_0000 - b / 0x1_0000_0000;
  }

  /** The prime is odd, so no two words have the same product with it. */
  lemma TimesPrimeInjective(x: word, y: word)
    requires TimesPrime(x) == TimesPrime(y)
    ensures x == y
  {
    var q := SameRest(x * FNV_32_PRIME, y * FNV_32_PRIME);
    PrimeCancels(x - y, q);
  }

  /** One round: exclusive or with the byte, then multiplication with the prime. */
  function Mix(h: word, b: octet): word {
    TimesPrime(Xor(h, b))
  }

  /** The hash of s that starts from h. */
  function Hash(s: seq<octet>, h: word): word {
    if s == [] then h else Mix(Hash(s[..|s| - 1], h), s[|s| - 1])
  }

  /** _fnv32a. */
  method Fnv32a(buf: seq<octet>, init: word) returns (hval: word)
    ensures hval == Hash(buf, init)
  {
    hide Mix;
    hval := init;
    var i := 0;
    assert buf[..0] == [];
    while i < |buf|
      invariant 0 <= i <= |buf| && hval == Hash(buf[..i], init)
    {
      assert buf[..i + 1][..i] == buf[..i];
      hval := Mix(hval, buf[i]);
      i := i + 1;
    }
    assert buf[..i] == buf;
  }

  /** The hash of the letter a is the one in the test vectors of draft-eastlake-fnv: it fixes the start value,
      the prime and the order of the two operations. */
  lemma KnownAnswer()
    ensures Hash([0x61], FNV_32A_INIT) == 0xE40C292C
  {
    hide Xor;
    XorDigits(0x811C9DC5, 0x61);
    XorDigits(0x408E4EE2, 0x30);
    XorDigits(0x20472771, 0x18);
    XorDigits(0x102393B8, 0xC);
    XorDigits(0x811C9DC, 0x6);
    XorDigits(0x408E4EE, 0x3);
    XorDigits(0x2047277, 0x1);
    XorZero(0x102393B);
    assert [0x61][..0] == [];
  }

  lemma WordIsPow2()
    ensures Pow2(32) == 0x1_0000_0000
  {
    assert Pow2(8) == 256;
    assert Pow2(16) == 65536;
    assert Pow2(24) == 0x100_0000;
  }

  lemma MixInjective(h: word, b: octet, g: word, c: octet)
    requires Mix(h, b) == Mix(g, c)
    ensures Xor(h, b) == Xor(g, c)
  {
    hide Xor, TimesPrime, Pow2;
    WordIsPow2();
    XorBound(h, b, 32);
    XorBound(g, c, 32);
    TimesPrimeInjective(Xor(h, b), Xor(g, c));
  }

  lemma MixInjectiveInState(h: word, g: word, b: octet)
    requires Mix(h, b) == Mix(g, b)
    ensures h == g
  {
    hide Xor, Mix;
    MixInjective(h, b, g, b);
    XorUndone(h, b);
    XorUndone(g, b);
  }

  lemma MixInjectiveInByte(h: word, b: octet, c: octet)
    requires Mix(h, b) == Mix(h, c)
    ensures b == c
  {
    hide Xor, Mix;
    MixInjective(h, b, h, c);
    XorCommutes(h, b);
    XorCommutes(h, c);
    XorUndone(b, h);
    XorUndone(c, h);
  }

  lemma XorUndone(a: nat, b: nat)
    ensures Xor(Xor(a, b), b) == a
  {
    hide Xor;
    XorAssoc(a, b, b);
    XorSelf(b);
    XorZero(a);
  }

  lemma {:induction false} HashConcat(a: seq<octet>, b: seq<octet>, h: word)
    ensures Hash(a + b, h) == Hash(b, Hash(a, h))
  {
    hide Mix;
    if b == [] {
      assert a + b == a;
    } else {
      HashConcat(a, b[..|b| - 1], h);
      assert (a + b)[..|a + b| - 1] == a + b[..|b| - 1];
    }
  }

  /** What follows never makes two different states equal. */
  lemma {:induction false} HashInjectiveInState(s: seq<octet>, h: word, g: word)
    requires h != g
    ensures Hash(s, h) != Hash(s, g)
  {
    hide Mix;
    if s != [] {
      HashInjectiveInState(s[..|s| - 1], h, g);
      if Hash(s, h) == Hash(s, g) {
        MixInjectiveInState(Hash(s[..|s| - 1], h), Hash(s[..|s| - 1], g), s[|s| - 1]);
      }
    }
  }

  /** Strings that differ in exactly one byte never have the same hash. */
  lemma OneByteApart(a: seq<octet>, b: octet, c: octet, z: seq<octet>, h: word)
    requires b != c
    ensures Hash(a + [b] + z, h) != Hash(a + [c] + z, h)
  {
    hide Mix;
    HashConcat(a + [b], z, h);
    HashConcat(a + [c], z, h);
    assert (a + [b])[..|a|] == a && (a + [c])[..|a|] == a;
    var s := Hash(a, h);
    if Mix(s, b) == Mix(s, c) {
      MixInjectiveInByte(s, b, c);
    }
    HashInjectiveInState(z, Mix(s, b), Mix(s, c));
  }

  // ---- Folding ----

  /** _fold: the high n bits of a word, xor its low n bits. */
  function Fold(n: nat, h: nat): nat
    requires 1 <= n <= 31
  {
    Xor(Shr(h, 32 - n), Low(h, n))
  }

  /** A fold is the low bits of a shift-and-xor that keeps the bits above. */
  lemma FoldIsLowBits(n: nat, h: nat)
    requires 1 <= n <= 31 && h < Pow2(32)
    ensures Fold(n, h) == Low(XorShift(h, 32 - n), n) < Pow2(n)
  {
    hide Xor, Shr, Low, Pow2;
    var s := Shr(h, 32 - n);
    ShrBound(h, 32 - n, n);
    LowXor(h, s, n);
    LowOfSmall(s, n);
    XorCommutes(Low(h, n), s);
    LowBound(XorShift(h, 32 - n), n);
  }

  lemma {:induction false} ShrIsDivision(h: nat, k: nat)
    ensures Shr(h, k) == h / Pow2(k) && Low(h, k) == h % Pow2(k)
  {
    hide Shr, Low;
    HighAndLow(h, k);
    LowBound(h, k);
    DivisionIs(h, Pow2(k), Shr(h, k), Low(h, k));
  }

  lemma DivisionIs(a: nat, k: nat, q: nat, r: nat)
    requires k > 0 && a == k * q + r && r < k
    ensures a / k == q && a % k == r
  {
    var p := a / k;
    assert a == k * p + a % k;
    assert p < q ==> k * (p + 1) <= k * q;
    assert q < p ==> k * (q + 1) <= k * p;
  }

  function Quotient(a: nat, d: nat): nat
    requires d > 0
  {
    a / d
  }

  function Remainder(a: nat, d: nat): nat
    requires d > 0
  {
    a % d
  }

  /** A fold in plain arithmetic: the n high bits of a word, exclusive or its n low bits. */
  lemma FoldIsXor(n: nat, h: nat)
    requires 1 <= n <= 31
    ensures Fold(n, h) == Xor(Quotient(h, Pow2(32 - n)), Remainder(h, Pow2(n)))
  {
    hide Xor, Shr, Low, Pow2;
    ShrIsDivision(h, 32 - n);
    ShrIsDivision(h, n);
  }

  /** The t-th word that folds to v. */
  function Preimage(n: nat, v: nat, t: nat): nat
    requires 1 <= n <= 31
  {
    UnShift(Pow2(n) * t + v, 32 - n)
  }

  /** The words that fold to v are the preimages numbered from 0 to 2^(32-n) - 1, all of them different. */
  lemma FoldPreimages(n: nat, v: nat, h: nat)
    requires 1 <= n <= 31 && v < Pow2(n) && h < Pow2(32) && Fold(n, h) == v
    ensures var t := Shr(XorShift(h, 32 - n), n); t < Pow2(32 - n) && h == Preimage(n, v, t)
  {
    hide Xor, Shr, Low, Pow2, XorShift, Fold;
    var w := XorShift(h, 32 - n);
    FoldIsLowBits(n, h);
    XorShiftBound(h, 32 - n);
    HighAndLow(w, n);
    ShrBound(w, n, 32 - n);
    UnShiftInverts(w, 32 - n);
    XorShiftInjective(h, UnShift(w, 32 - n), 32 - n);
  }

  lemma PreimageFolds(n: nat, v: nat, t: nat)
    requires 1 <= n <= 31 && v < Pow2(n) && t < Pow2(32 - n)
    ensures Preimage(n, v, t) < Pow2(32) && Fold(n, Preimage(n, v, t)) == v
    ensures Shr(XorShift(Preimage(n, v, t), 32 - n), n) == t
  {
    hide Xor, Shr, Low, Pow2, XorShift, Fold;
    var w := Pow2(n) * t + v;
    WordBound(n, v, t);
    UnShiftInverts(w, 32 - n);
    FoldIsLowBits(n, Preimage(n, v, t));
    Composed(t, v, n);
  }

  lemma WordBound(n: nat, v: nat, t: nat)
    requires 1 <= n <= 31 && v < Pow2(n) && t < Pow2(32 - n)
    ensures Pow2(n) * t + v < Pow2(32)
  {
    hide Pow2;
    Pow2Sum(n, 32 - n);
    assert Pow2(n) * (t + 1) <= Pow2(n) * Pow2(32 - n);
  }

  lemma {:induction false} Pow2Sum(a: nat, b: nat)
    ensures Pow2(a + b) == Pow2(a) * Pow2(b)
  {
    if a > 0 {
      Pow2Sum(a - 1, b);
    }
  }

  ghost function Preimages(n: nat, v: nat, m: nat): set<nat>
    requires 1 <= n <= 31
  {
    set t: nat | 0 <= t < m :: Preimage(n, v, t)
  }

  lemma {:induction false} CountPreimages(n: nat, v: nat, m: nat)
    requires 1 <= n <= 31 && v < Pow2(n) && m <= Pow2(32 - n)
    ensures |Preimages(n, v, m)| == m
  {
    hide Preimage, Pow2;
    if m == 0 {
      assert Preimages(n, v, 0) == {};
    } else {
      CountPreimages(n, v, m - 1);
      var h := Preimage(n, v, m - 1);
      PreimageFolds(n, v, m - 1);
      forall t: nat | t < m - 1 ensures Preimage(n, v, t) != h {
        PreimageFolds(n, v, t);
      }
      assert Preimages(n, v, m) == Preimages(n, v, m - 1) + {h};
    }
  }

  /** Every value below 2^n is hit by exactly 2^(32-n) hashes. */
  lemma FoldIsUniform(n: nat, v: nat)
    requires 1 <= n <= 31 && v < Pow2(n)
    ensures |set h: nat | 0 <= h < Pow2(32) && Fold(n, h) == v| == Pow2(32 - n)
  {
    hide Preimage, Pow2, Fold;
    var all := set h: nat | 0 <= h < Pow2(32) && Fold(n, h) == v;
    var pre := Preimages(n, v, Pow2(32 - n));
    forall h | h in all ensures h in pre {
      FoldPreimages(n, v, h);
    }
    forall t: nat | t < Pow2(32 - n) ensures Preimage(n, v, t) in all {
      PreimageFolds(n, v, t);
    }
    assert all == pre;
    CountPreimages(n, v, Pow2(32 - n));
  }
}
