/** Powers of two, the 64-bit word and multiples. */
module Words {

  const WORD: nat := 0x1_0000_0000_0000_0000

  function Pow2(s: nat): (p: nat)
    ensures p > 0
  {
    if s == 0 then 1 else 2 * Pow2(s - 1)
  }

  lemma {:induction false} Pow2Monotone(a: nat, b: nat)
    requires a <= b
    ensures Pow2(a) <= Pow2(b)
    decreases b
  {
    if a < b { Pow2Monotone(a, b - 1); }
  }

  lemma Pow2Half()
    ensures Pow2(32) == 0x1_0000_0000
  {
    assert Pow2(8) == 0x100;
    assert Pow2(16) == 0x1_0000;
    assert Pow2(24) == 0x100_0000;
  }

  lemma Pow2Word()
    ensures Pow2(57) == 0x200_0000_0000_0000
    ensures Pow2(64) == WORD
  {
    assert Pow2(8) == 0x100;
    assert Pow2(16) == 0x1_0000;
    assert Pow2(24) == 0x100_0000;
    assert Pow2(32) == 0x1_0000_0000;
    assert Pow2(40) == 0x100_0000_0000;
    assert Pow2(48) == 0x1_0000_0000_0000;
    assert Pow2(56) == 0x100_0000_0000_0000;
  }

  function Min(a: nat, b: nat): nat {
    if a < b then a else b
  }

  lemma ModShift(a: int, k: int)
    ensures (a + WORD * k) % WORD == a % WORD
  {
  }

  lemma Distribute(k: int, m: int)
    ensures (k + 1) * m == k * m + m
  {
  }

  lemma Multiples(a: nat, b: nat, c: nat)
    requires a <= b
    ensures a * c <= b * c
  {
    assert b * c == a * c + (b - a) * c;
  }

  lemma NextMultiple(r: nat, n: nat, c: nat)
    requires r < n
    ensures (r + 1) * c == r * c + c <= n * c
  {
    Multiples(r + 1, n, c);
  }
}
