/** Key generators of the map benches: splitmix64 words and 16-letter strings.

    A 64-bit word is a natural number below 2^64; addition and multiplication wrap. */
module Keys {
  import opened Bits
  import opened Words

  const MISS_OFFSET: nat := 0x100_0000_0000

  type u64 = x: int | 0 <= x < 0x1_0000_0000_0000_0000

  // ----- words -----

  lemma WordWidth(x: nat)
    ensures x < WORD <==> Shr(x, 64) == 0
  {
    Pow2Word();
    ShrVanishes(x, 64);
  }

  lemma XorFits(a: u64, b: u64)
    ensures Xor(a, b) < WORD
  {
    WordWidth(a);
    WordWidth(b);
    ShrXor(a, b, 64);
    WordWidth(Xor(a, b));
  }

  // ----- the two kinds of mixing step and their inverses -----

  function XorShift(x: u64, s: nat): u64 {
    ShrShrinks(x, s);
    XorFits(x, Shr(x, s));
    Xor(x, Shr(x, s))
  }

  function UnXorShift(y: u64, s: nat): u64 {
    XorShift3Fits(y, s);
    Xor(Xor(y, Shr(y, s)), Shr(y, 2 * s))
  }

  lemma XorShift3Fits(y: u64, s: nat)
    ensures Xor(Xor(y, Shr(y, s)), Shr(y, 2 * s)) < WORD
  {
    ShrShrinks(y, s);
    ShrShrinks(y, 2 * s);
    XorFits(y, Shr(y, s));
    XorFits(Xor(y, Shr(y, s)), Shr(y, 2 * s));
  }

  lemma {:induction false} ShrPastWidth(x: u64, s: nat)
    requires s >= 64
    ensures Shr(x, s) == 0
  {
    WordWidth(x);
    ShrShr(x, 64, s - 64);
    ShrShrinks(0, s - 64);
  }

  /** A shift of at least 22 bits is undone by two more shifted copies, both ways round. */
  lemma XorShiftInverse(x: u64, s: nat)
    requires 3 * s >= 64
    ensures UnXorShift(XorShift(x, s), s) == x
    ensures XorShift(UnXorShift(x, s), s) == x
  {
    var x1, x2 := Shr(x, s), Shr(x, 2 * s);
    ShrShr(x, s, s);
    ShrShr(x, s, 2 * s);
    ShrShr(x, 2 * s, s);
    ShrPastWidth(x, 3 * s);
    XorZero(x2);
    var y := XorShift(x, s);
    ShrXor(x, x1, s);
    ShrXor(x, x1, 2 * s);
    assert Shr(y, s) == Xor(x1, x2) && Shr(y, 2 * s) == x2;
    XorAssociates(Xor(x, x1), Xor(x1, x2), x2);
    XorCancels(x1, x2);
    XorCancels(x, x1);
    var z := UnXorShift(x, s);
    ShrXor(Xor(x, x1), x2, s);
    ShrXor(x, x1, s);
    XorZero(Xor(x1, x2));
    assert Shr(z, s) == Xor(x1, x2);
    XorAssociates(x, x1, x2);
    XorCancels(x, Xor(x1, x2));
  }

  function Times(x: u64, c: nat): u64 {
    x * c % WORD
  }

  /** An odd multiplier has an inverse; d is one when c * d leaves remainder 1. */
  lemma TimesInverse(x: u64, c: nat, d: nat, k: nat)
    requires c * d == 1 + WORD * k
    ensures Times(Times(x, c), d) == x
  {
    var q, r := x * c / WORD, x * c % WORD;
    UndoFactor(x, c, d, k, q, r, WORD);
    ModShift(x, x * k - q * d);
  }

  lemma UndoFactor(x: int, c: int, d: int, k: int, q: int, r: int, w: int)
    requires x * c == w * q + r && c * d == 1 + w * k
    ensures r * d == x + w * (x * k - q * d)
  {
    Associate(x, c, d);
    Associate(w, q, d);
    Associate(x, w, k);
    Associate(w, x, k);
    assert r * d == x * c * d - w * q * d by { Spread(x * c, w * q, d); }
    assert x * (1 + w * k) == x + x * (w * k);
    assert w * (x * k - q * d) == w * (x * k) - w * (q * d);
  }

  lemma Associate(a: int, b: int, c: int)
    ensures a * b * c == a * (b * c)
  {
  }

  lemma Spread(a: int, b: int, c: int)
    ensures (a - b) * c == a * c - b * c
  {
  }

  function Plus(x: u64, c: int): u64 {
    (x + c) % WORD
  }

  lemma PlusInverse(x: u64, c: int)
    ensures Plus(Plus(x, c), -c) == x
  {
    var q := (x + c) / WORD;
    assert Plus(x, c) - c == x - WORD * q;
    ModShift(x, -q);
  }

  // ----- splitmix64 as a list of invertible steps -----

  datatype Op = Add(k: int) | XorShr(s: nat) | UnXorShr(s: nat) | Mul(c: nat)

  function Apply(op: Op, x: u64): u64 {
    match op
    case Add(k) => Plus(x, k)
    case XorShr(s) => XorShift(x, s)
    case UnXorShr(s) => UnXorShift(x, s)
    case Mul(c) => Times(x, c)
  }

  function Run(ops: seq<Op>, x: u64): u64 {
    if ops == [] then x else Run(ops[1..], Apply(ops[0], x))
  }

  const SPLITMIX: seq<Op> :=
    [Add(0x9E37_79B9_7F4A_7C15),
     XorShr(30), Mul(0xBF58_476D_1CE4_E5B9),
     XorShr(27), Mul(0x94D0_49BB_1331_11EB),
     XorShr(31)]

  const UNSPLITMIX: seq<Op> :=
    [UnXorShr(31),
     Mul(0x3196_42B2_D24D_8EC3), UnXorShr(27),
     Mul(0x96DE_1B17_3F11_9089), UnXorShr(30),
     Add(-0x9E37_79B9_7F4A_7C15)]

  function Splitmix64(x: u64): u64 {
    Run(SPLITMIX, x)
  }

  function Unsplitmix64(y: u64): u64 {
    Run(UNSPLITMIX, y)
  }

  lemma TimesWraps(x: u64, c: nat)
    ensures Times(x, c) == x * c % WORD
    ensures exists q: nat :: x * c == WORD * q + Times(x, c)
  {
    assert x * c == WORD * (x * c / WORD) + Times(x, c);
  }

  lemma PlusWraps(x: u64, c: int)
    ensures Plus(x, c) == (x + c) % WORD
    ensures exists q: int :: x + c == WORD * q + Plus(x, c)
  {
    assert x + c == WORD * ((x + c) / WORD) + Plus(x, c);
  }

  /** The expression of the source, on wrapping words. */
  lemma SplitmixWritten(x: u64)
    ensures var a := (x + 0x9E37_79B9_7F4A_7C15) % WORD;
            var b := Xor(a, Shr(a, 30)) * 0xBF58_476D_1CE4_E5B9 % WORD;
            var c := Xor(b, Shr(b, 27)) * 0x94D0_49BB_1331_11EB % WORD;
            Splitmix64(x) == Xor(c, Shr(c, 31))
  {
    hide Xor, Shr, Run;
    SplitmixUnrolled(x);
  }

  /** The steps in order. */
  lemma SplitmixUnrolled(x: u64)
    ensures var a := Plus(x, 0x9E37_79B9_7F4A_7C15);
            var b := Times(XorShift(a, 30), 0xBF58_476D_1CE4_E5B9);
            var c := Times(XorShift(b, 27), 0x94D0_49BB_1331_11EB);
            Splitmix64(x) == XorShift(c, 31)
  {
    hide Plus, Times, XorShift;
    var a := Plus(x, 0x9E37_79B9_7F4A_7C15);
    var b := Times(XorShift(a, 30), 0xBF58_476D_1CE4_E5B9);
    var c := Times(XorShift(b, 27), 0x94D0_49BB_1331_11EB);
    assert Run(SPLITMIX, x) == Run(SPLITMIX[1..], a);
    assert Run(SPLITMIX[1..], a) == Run(SPLITMIX[1..][1..], XorShift(a, 30));
    assert SPLITMIX[1..][1..] == SPLITMIX[2..];
    assert Run(SPLITMIX[2..], XorShift(a, 30)) == Run(SPLITMIX[2..][1..], b);
    assert SPLITMIX[2..][1..] == SPLITMIX[3..];
    assert Run(SPLITMIX[3..], b) == Run(SPLITMIX[3..][1..], XorShift(b, 27));
    assert SPLITMIX[3..][1..] == SPLITMIX[4..];
    assert Run(SPLITMIX[4..], XorShift(b, 27)) == Run(SPLITMIX[4..][1..], c);
    assert SPLITMIX[4..][1..] == SPLITMIX[5..] == [XorShr(31)];
    assert Run([XorShr(31)], c) == Run([XorShr(31)][1..], XorShift(c, 31));
    assert [XorShr(31)][1..] == [];
    assert Run([], XorShift(c, 31)) == XorShift(c, 31);
  }

  predicate Undoes(f: Op, g: Op) {
    match (f, g)
    case (Add(k), Add(k')) => k' == -k
    case (XorShr(s), UnXorShr(s')) => s == s' && 3 * s >= 64
    case (UnXorShr(s), XorShr(s')) => s == s' && 3 * s >= 64
    case (Mul(c), Mul(d)) => c * d % WORD == 1
    case _ => false
  }

  lemma UndoStep(f: Op, g: Op, x: u64)
    requires Undoes(f, g)
    ensures Apply(g, Apply(f, x)) == x
  {
    match f
    case Add(k) => PlusInverse(x, k);
    case XorShr(s) => XorShiftInverse(x, s);
    case UnXorShr(s) => XorShiftInverse(x, s);
    case Mul(c) => TimesInverse(x, c, g.c, c * g.c / WORD);
  }

  lemma {:induction false} RunSnoc(ops: seq<Op>, g: Op, x: u64)
    ensures Run(ops + [g], x) == Apply(g, Run(ops, x))
    decreases |ops|
  {
    if ops != [] {
      assert (ops + [g])[1..] == ops[1..] + [g];
      RunSnoc(ops[1..], g, Apply(ops[0], x));
    }
  }

  /** Undoing the steps last to first undoes the whole list. */
  lemma {:induction false} UndoRun(fs: seq<Op>, gs: seq<Op>, x: u64)
    requires |fs| == |gs| && forall i :: 0 <= i < |fs| ==> Undoes(fs[i], gs[|fs| - 1 - i])
    ensures Run(gs, Run(fs, x)) == x
    decreases |fs|
  {
    if fs != [] {
      var n := |fs| - 1;
      forall i | 0 <= i < n ensures Undoes(fs[1..][i], gs[..n][n - 1 - i]) {
        assert Undoes(fs[i + 1], gs[n - (i + 1)]);
      }
      UndoRun(fs[1..], gs[..n], Apply(fs[0], x));
      RunSnoc(gs[..n], gs[n], Run(fs, x));
      assert gs[..n] + [gs[n]] == gs;
      UndoStep(fs[0], gs[n], x);
    }
  }

  /** splitmix64 is a bijection on 64-bit words: it has a two-sided inverse. */
  lemma SplitmixBijective(x: u64)
    ensures Unsplitmix64(Splitmix64(x)) == x
    ensures Splitmix64(Unsplitmix64(x)) == x
  {
    UndoRun(SPLITMIX, UNSPLITMIX, x);
    UndoRun(UNSPLITMIX, SPLITMIX, x);
  }

  lemma SplitmixInjective(x: u64, y: u64)
    ensures Splitmix64(x) == Splitmix64(y) ==> x == y
  {
    SplitmixBijective(x);
    SplitmixBijective(y);
  }

  // ----- word keys -----

  function KeyU64(i: u64): u64 {
    Splitmix64(Plus(i, 1))
  }

  /** Position that the miss sweeps look up for loop index i. */
  function MissIndex(i: u64): u64 {
    Plus(i, MISS_OFFSET)
  }

  /** The positions looked up as misses are clear of the inserted ones exactly up to 2^40. */
  lemma MissIndexApart(n: nat, i: u64, j: u64)
    requires i < n && j < n
    ensures n <= MISS_OFFSET ==> MissIndex(j) != i
    ensures MissIndex(0) == MISS_OFFSET
  {
  }

  /** The arguments the source passes, wrapping. */
  lemma KeysWritten(i: u64)
    ensures KeyU64(i) == Splitmix64((i + 1) % WORD)
    ensures MissIndex(i) == (i + 0x100_0000_0000) % WORD
    ensures KeyStr(i) == Letters(Splitmix64((i + 7) % WORD), 16)
  {
    hide Splitmix64, Letters;
  }

  lemma KeyU64Injective(i: u64, j: u64)
    ensures KeyU64(i) == KeyU64(j) ==> i == j
  {
    SplitmixInjective(Plus(i, 1), Plus(j, 1));
    PlusInverse(i, 1);
    PlusInverse(j, 1);
  }

  /** All n inserted keys differ, and every miss key is outside them exactly when n <= 2^40. */
  lemma MissesMiss(n: nat)
    requires n <= WORD
    ensures forall i: u64, j: u64 :: i < j < n ==> KeyU64(i) != KeyU64(j)
    ensures (forall i: u64, j: u64 :: i < n && j < n ==> KeyU64(i) != KeyU64(MissIndex(j))) <==> n <= MISS_OFFSET
  {
    hide KeyU64, MissIndex;
    forall i: u64, j: u64 | i < j ensures KeyU64(i) != KeyU64(j) {
      KeyU64Injective(i, j);
    }
    if n > MISS_OFFSET {
      MissIndexApart(n, 0, 0);
      assert KeyU64(MISS_OFFSET) == KeyU64(MissIndex(0));
    }
    forall i: u64, j: u64 | i < n <= MISS_OFFSET && j < n ensures KeyU64(i) != KeyU64(MissIndex(j)) {
      MissIndexApart(n, i, j);
      KeyU64Injective(i, MissIndex(j));
    }
  }

  // ----- string keys -----

  function Letter(nibble: nat): char
    requires nibble < 16
  {
    'a' + nibble as char
  }

  /** The first k letters of the key of word v, lowest nibble first. */
  function Letters(v: nat, k: nat): (s: string)
    ensures |s| == k
  {
    if k == 0 then [] else [Letter(v % 16)] + Letters(v / 16, k - 1)
  }

  function KeyStr(i: u64): string {
    Letters(Splitmix64(Plus(i, 7)), 16)
  }

  function Unletters(s: string): int {
    if s == [] then 0 else (s[0] as int - 'a' as int) + 16 * Unletters(s[1..])
  }

  function Pow16(k: nat): nat {
    if k == 0 then 1 else 16 * Pow16(k - 1)
  }

  lemma {:induction false} LettersInvert(v: nat, k: nat)
    requires v < Pow16(k)
    ensures Unletters(Letters(v, k)) == v
    decreases k
  {
    if k > 0 { LettersInvert(v / 16, k - 1); }
  }

  /** The word behind a string key can be read back from its letters. */
  lemma KeyStrDecodes(i: u64)
    ensures Unletters(KeyStr(i)) == Splitmix64((i + 7) % WORD)
  {
    assert Pow16(8) == 0x1_0000_0000;
    assert Pow16(16) == WORD;
    LettersInvert(Splitmix64(Plus(i, 7)), 16);
  }

  lemma KeyStrInjective(i: u64, j: u64)
    ensures KeyStr(i) == KeyStr(j) ==> i == j
  {
    KeyStrDecodes(i);
    KeyStrDecodes(j);
    SplitmixInjective(Plus(i, 7), Plus(j, 7));
    PlusInverse(i, 7);
    PlusInverse(j, 7);
  }

  lemma StringMissesMiss(n: nat)
    requires n <= WORD
    ensures forall i: u64, j: u64 :: i < j < n ==> KeyStr(i) != KeyStr(j)
    ensures (forall i: u64, j: u64 :: i < n && j < n ==> KeyStr(i) != KeyStr(MissIndex(j))) <==> n <= MISS_OFFSET
  {
    hide KeyStr, MissIndex;
    forall i: u64, j: u64 | i < j ensures KeyStr(i) != KeyStr(j) {
      KeyStrInjective(i, j);
    }
    if n > MISS_OFFSET {
      MissIndexApart(n, 0, 0);
      assert KeyStr(MISS_OFFSET) == KeyStr(MissIndex(0));
    }
    forall i: u64, j: u64 | i < n <= MISS_OFFSET && j < n ensures KeyStr(i) != KeyStr(MissIndex(j)) {
      MissIndexApart(n, i, j);
      KeyStrInjective(i, MissIndex(j));
    }
  }

  lemma {:induction false} LettersAt(v: nat, k: nat, c: nat)
    requires c < k
    ensures Letters(v, k)[c] == Letter(Shr(v, 4 * c) % 16)
    decreases c
  {
    hide Shr, Letter;
    ShrFour(v);
    if c > 0 {
      LettersAt(v / 16, k - 1, c - 1);
      ShrShr(v, 4, 4 * (c - 1));
    }
  }

  lemma ShrFour(v: nat)
    ensures Shr(v, 0) == v && Shr(v, 4) == v / 16
  {
    var q := v / 2 / 2;
    assert Shr(v, 4) == Shr(q, 2) == q / 2 / 2;
    HalfTwice(v);
    HalfTwice(q);
    QuarterTwice(v);
  }

  lemma HalfTwice(v: nat)
    ensures v / 2 / 2 == v / 4
  {
  }

  lemma QuarterTwice(v: nat)
    ensures v / 4 / 4 == v / 16
  {
  }

  /** `key_str` fills the buffer with the 16 letters and a terminator; no letter is a
      terminator, so the C string is the whole key. */
  method FillKey(buf: array<char>, i: u64)
    requires buf.Length >= 17
    modifies buf
    ensures buf[..16] == KeyStr(i) && buf[16] == '\0'
    ensures forall c :: 0 <= c < 16 ==> 'a' <= buf[c] <= 'p'
    ensures forall c :: 17 <= c < buf.Length ==> buf[c] == old(buf[c])
  {
    var v := Splitmix64(Plus(i, 7));
    for c := 0 to 16
      invariant forall x :: 0 <= x < c ==> buf[x] == Letter(Shr(v, 4 * x) % 16)
      invariant forall x :: 17 <= x < buf.Length ==> buf[x] == old(buf[x])
    {
      buf[c] := Letter(Shr(v, 4 * c) % 16);
    }
    buf[16] := '\0';
    forall c | 0 <= c < 16 ensures buf[c] == KeyStr(i)[c] {
      LettersAt(v, 16, c);
    }
  }
}
