/** Exclusive or and shifts of natural numbers, bit by bit. */
module Bits {
  import opened Words

  function Xor(a: nat, b: nat): nat
    decreases a + b
  {
    if a == 0 && b == 0 then 0
    else 2 * Xor(a / 2, b / 2) + (if a % 2 == b % 2 then 0 else 1)
  }

  function Shr(x: nat, s: nat): nat
    decreases s
  {
    if s == 0 then x else Shr(x / 2, s - 1)
  }

  lemma {:induction false} XorZero(a: nat)
    ensures Xor(a, 0) == a
  {
    if a > 0 { XorZero(a / 2); }
  }

  lemma {:induction false} XorSelf(a: nat)
    ensures Xor(a, a) == 0
  {
    if a > 0 { XorSelf(a / 2); }
  }

  lemma {:induction false} XorCommutes(a: nat, b: nat)
    ensures Xor(a, b) == Xor(b, a)
    decreases a + b
  {
    if a > 0 || b > 0 { XorCommutes(a / 2, b / 2); }
  }

  lemma {:induction false} XorAssociates(a: nat, b: nat, c: nat)
    ensures Xor(Xor(a, b), c) == Xor(a, Xor(b, c))
    decreases a + b + c
  {
    if a > 0 || b > 0 || c > 0 {
      XorAssociates(a / 2, b / 2, c / 2);
      XorHalf(a, b);
      XorHalf(b, c);
      XorHalf(Xor(a, b), c);
      XorHalf(a, Xor(b, c));
    }
  }

  lemma XorHalf(a: nat, b: nat)
    ensures Xor(a, b) / 2 == Xor(a / 2, b / 2)
    ensures Xor(a, b) % 2 == (if a % 2 == b % 2 then 0 else 1)
  {
  }

  /** Xor with the same word twice gives back the first. */
  lemma XorCancels(a: nat, b: nat)
    ensures Xor(Xor(a, b), b) == a
  {
    XorAssociates(a, b, b);
    XorSelf(b);
    XorZero(a);
  }

  lemma {:induction false} ShrXor(a: nat, b: nat, s: nat)
    ensures Shr(Xor(a, b), s) == Xor(Shr(a, s), Shr(b, s))
    decreases s
  {
    if s > 0 {
      XorHalf(a, b);
      ShrXor(a / 2, b / 2, s - 1);
    }
  }

  lemma {:induction false} ShrShr(x: nat, s: nat, t: nat)
    ensures Shr(Shr(x, s), t) == Shr(x, s + t)
    decreases s
  {
    if s > 0 { ShrShr(x / 2, s - 1, t); }
  }

  lemma {:induction false} ShrVanishes(x: nat, s: nat)
    ensures Shr(x, s) == 0 <==> x < Pow2(s)
    decreases s
  {
    if s > 0 { ShrVanishes(x / 2, s - 1); }
  }

  /** A right shift divides by a power of two. */
  lemma {:induction false} ShrIsDiv(x: nat, s: nat)
    ensures Shr(x, s) == x / Pow2(s)
    decreases s
  {
    if s > 0 {
      ShrIsDiv(x / 2, s - 1);
      HalfDiv(x, Pow2(s - 1));
    }
  }

  lemma HalfDiv(x: nat, p: nat)
    requires p > 0
    ensures x / 2 / p == x / (2 * p)
  {
    var q, r := x / 2 / p, 2 * (x / 2 % p) + x % 2;
    assert x / 2 == p * q + x / 2 % p;
    assert x == 2 * p * q + r;
    DivOf(2 * p, q, r);
  }

  lemma DivOf(m: nat, q: nat, r: nat)
    requires r < m
    ensures (m * q + r) / m == q
  {
    var y := m * q + r;
    var d := y / m - q;
    assert m * d == r - y % m;
    FarMultiple(m, d);
  }

  lemma {:induction false} ShrShrinks(x: nat, s: nat)
    ensures Shr(x, s) <= x
    decreases s
  {
    if s > 0 { ShrShrinks(x / 2, s - 1); }
  }

  // ----- left shifts in a word of w bits -----

  function Shl(x: nat, s: nat): nat {
    if s == 0 then x else 2 * Shl(x, s - 1)
  }

  /** The lowest w bits. */
  function Low(x: nat, w: nat): nat
    decreases w
  {
    if w == 0 then 0 else 2 * Low(x / 2, w - 1) + x % 2
  }

  lemma {:induction false} LowBelow(x: nat, w: nat)
    ensures Low(x, w) < Pow2(w)
    decreases w
  {
    if w > 0 { LowBelow(x / 2, w - 1); }
  }

  /** The lowest w bits are the remainder of division by 2^w. */
  lemma {:induction false} LowIsMod(x: nat, w: nat)
    ensures Low(x, w) == x % Pow2(w)
    decreases w
  {
    if w > 0 {
      LowIsMod(x / 2, w - 1);
      HalfMod(x, Pow2(w - 1));
    }
  }

  lemma HalfMod(x: nat, p: nat)
    requires p > 0
    ensures x % (2 * p) == 2 * (x / 2 % p) + x % 2
  {
    var q := x / 2 / p;
    assert x / 2 == p * q + x / 2 % p;
    assert x == 2 * p * q + (2 * (x / 2 % p) + x % 2);
    ModOf(2 * p, q, 2 * (x / 2 % p) + x % 2);
  }

  lemma FarMultiple(m: nat, d: int)
    ensures d > 0 ==> m * d >= m
    ensures d < 0 ==> m * d + m <= 0
  {
  }

  lemma ModOf(m: nat, q: nat, r: nat)
    requires r < m
    ensures (m * q + r) % m == r
  {
    var y := m * q + r;
    var d := y / m - q;
    assert m * d == r - y % m;
    FarMultiple(m, d);
  }

  lemma {:induction false} LowXor(a: nat, b: nat, w: nat)
    ensures Low(Xor(a, b), w) == Xor(Low(a, w), Low(b, w))
    decreases w
  {
    if w > 0 {
      XorHalf(a, b);
      LowXor(a / 2, b / 2, w - 1);
      assert Low(a, w) / 2 == Low(a / 2, w - 1) && Low(b, w) / 2 == Low(b / 2, w - 1);
      XorHalf(Low(a, w), Low(b, w));
    }
  }

  lemma XorDouble(a: nat, b: nat)
    ensures Xor(2 * a, 2 * b) == 2 * Xor(a, b)
  {
    assert 2 * a / 2 == a && 2 * b / 2 == b;
  }

  lemma {:induction false} ShlXor(a: nat, b: nat, s: nat)
    ensures Shl(Xor(a, b), s) == Xor(Shl(a, s), Shl(b, s))
  {
    hide Xor;
    if s > 0 {
      ShlXor(a, b, s - 1);
      XorDouble(Shl(a, s - 1), Shl(b, s - 1));
    }
  }

  lemma {:induction false} ShlShl(x: nat, s: nat, t: nat)
    ensures Shl(Shl(x, s), t) == Shl(x, s + t)
  {
    if t > 0 { ShlShl(x, s, t - 1); }
  }

  /** Bits above the word do not come back down. */
  lemma {:induction false} LowShl(x: nat, s: nat, w: nat)
    ensures Low(Shl(Low(x, w), s), w) == Low(Shl(x, s), w)
    decreases s
  {
    if s == 0 {
      LowLow(x, w, w);
    } else if w > 0 {
      assert Shl(Low(x, w), s) / 2 == Shl(Low(x, w), s - 1) && Shl(x, s) / 2 == Shl(x, s - 1);
      LowShl(x, s - 1, w);
      LowLow(Shl(Low(x, w), s - 1), w, w - 1);
      LowLow(Shl(x, s - 1), w, w - 1);
    }
  }

  lemma {:induction false} LowLow(x: nat, w: nat, v: nat)
    requires v <= w
    ensures Low(Low(x, w), v) == Low(x, v)
    decreases v
  {
    if v > 0 {
      assert Low(x, w) / 2 == Low(x / 2, w - 1);
      LowLow(x / 2, w - 1, v - 1);
    }
  }

  lemma {:induction false} ShlVanishes(x: nat, s: nat, w: nat)
    requires s >= w
    ensures Low(Shl(x, s), w) == 0
    decreases w
  {
    if w > 0 {
      assert Shl(x, s) / 2 == Shl(x, s - 1);
      ShlVanishes(x, s - 1, w - 1);
    }
  }

  lemma {:induction false} ShlIsTimes(x: nat, s: nat)
    ensures Shl(x, s) == x * Pow2(s)
  {
    if s > 0 {
      ShlIsTimes(x, s - 1);
      assert x * Pow2(s) == 2 * (x * Pow2(s - 1));
    }
  }
}
