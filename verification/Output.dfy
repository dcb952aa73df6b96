/** Decimal printing and parsing, and the two hand-written output loops of the print bench.

    A C string is a sequence of characters without '\0'; reading one past its end gives '\0'. */
module Output {
  import opened Words

  // ----- decimal -----

  function Digit(d: nat): char
    requires d < 10
  {
    '0' + d as char
  }

  predicate IsDigit(c: char) {
    '0' <= c <= '9'
  }

  /** The decimal numeral of v, most significant digit first. */
  function Dec(v: nat): (s: string)
    ensures |s| > 0 && forall i :: 0 <= i < |s| ==> IsDigit(s[i])
  {
    if v < 10 then [Digit(v)] else Dec(v / 10) + [Digit(v % 10)]
  }

  function DigitValue(c: char): (d: nat)
    requires IsDigit(c)
    ensures d < 10
  {
    c as nat - '0' as nat
  }

  function Value(s: string): nat
    requires forall i :: 0 <= i < |s| ==> IsDigit(s[i])
  {
    if s == [] then 0 else 10 * Value(s[..|s| - 1]) + DigitValue(s[|s| - 1])
  }

  lemma {:induction false} ValueOfDec(v: nat)
    ensures Value(Dec(v)) == v
  {
    if v >= 10 {
      ValueOfDec(v / 10);
      assert Dec(v)[..|Dec(v)| - 1] == Dec(v / 10);
    } else {
      assert Dec(v)[..0] == [];
    }
  }

  /** Numerals have no leading zeros. */
  lemma {:induction false} NoLeadingZero(v: nat)
    ensures v > 0 ==> Dec(v)[0] != '0'
    ensures Dec(0) == "0"
  {
    if v >= 10 { NoLeadingZero(v / 10); }
  }

  function Pow10(k: nat): nat {
    if k == 0 then 1 else 10 * Pow10(k - 1)
  }

  lemma {:induction false} DecLength(v: nat, k: nat)
    requires k > 0 && v < Pow10(k)
    ensures |Dec(v)| <= k
    decreases k
  {
    if v >= 10 { DecLength(v / 10, k - 1); }
  }

  /** A 64-bit number has at most 20 digits, so the 24-byte scratch buffer is enough. */
  lemma DecFits(v: nat)
    requires v < WORD
    ensures |Dec(v)| <= 20
  {
    assert Pow10(5) == 100_000;
    assert Pow10(10) == 10_000_000_000;
    assert Pow10(15) == 1_000_000_000_000_000;
    assert Pow10(20) == 100_000_000_000_000_000_000;
    DecLength(v, 20);
  }

  function Reverse(s: string): (r: string)
    ensures |r| == |s| && forall i :: 0 <= i < |s| ==> r[i] == s[|s| - 1 - i]
  {
    seq(|s|, i requires 0 <= i < |s| => s[|s| - 1 - i])
  }

  /** Digits still to be written when x is left of the number. */
  function Pending(x: nat): string {
    if x == 0 then [] else Dec(x)
  }

  lemma PendingStep(x: nat)
    requires x > 0
    ensures Pending(x) == Pending(x / 10) + [Digit(x % 10)]
  {
  }

  lemma ReverseSnoc(s: string, c: char)
    ensures Reverse(s + [c]) == [c] + Reverse(s)
  {
  }

  /** The digit loop: least significant digit first into t. */
  method Digits(v: nat, t: array<char>) returns (n: nat)
    requires |Dec(v)| <= t.Length
    modifies t
    ensures n == |Dec(v)| && Reverse(t[..n]) == Dec(v)
  {
    hide Dec, Pending, Digit;
    n := 0;
    PendingAll(v);
    if v == 0 {
      assert Dec(0) == "0" by { DecZero(); }
      t[n] := '0';
      n := n + 1;
      return;
    }
    var x := v;
    while x > 0
      invariant n <= t.Length && Pending(x) + Reverse(t[..n]) == Dec(v)
    {
      PendingStep(x);
      ghost var before := t[..n];
      assert |Dec(v)| == |Pending(x)| + n;
      t[n] := Digit(x % 10);
      assert t[..n + 1] == before + [Digit(x % 10)];
      ReverseSnoc(before, Digit(x % 10));
      assert Pending(x) + Reverse(before) == Pending(x / 10) + ([Digit(x % 10)] + Reverse(before));
      n := n + 1;
      x := x / 10;
    }
  }

  lemma PendingAll(v: nat)
    ensures v > 0 ==> Pending(v) == Dec(v)
    ensures Pending(0) == []
  {
  }

  lemma DecZero()
    ensures Dec(0) == "0"
  {
  }

  /** `u_to_dec` at offset `at` of a buffer. */
  method UToDec(v: nat, out: array<char>, at: nat) returns (n: nat)
    requires v < WORD && at + |Dec(v)| <= out.Length
    modifies out
    ensures n == |Dec(v)| <= 20 && out[at..at + n] == Dec(v)
    ensures forall x :: 0 <= x < out.Length && !(at <= x < at + n) ==> out[x] == old(out[x])
  {
    DecFits(v);
    var t := new char[24];
    n := Digits(v, t);
    for i := 0 to n
      invariant forall x :: at <= x < at + i ==> out[x] == Dec(v)[x - at]
      invariant forall x :: 0 <= x < out.Length && !(at <= x < at + i) ==> out[x] == old(out[x])
      invariant Reverse(t[..n]) == Dec(v)
    {
      assert t[n - 1 - i] == t[..n][n - 1 - i] == Reverse(t[..n])[i];
      out[at + i] := t[n - 1 - i];
    }
  }

  // ----- parse_kv -----

  /** Length of the run of digits that s starts with. */
  function DigitRun(s: string): (n: nat)
    ensures n <= |s| && forall i :: 0 <= i < n ==> IsDigit(s[i])
    ensures n < |s| ==> !IsDigit(s[n])
  {
    if s == [] || !IsDigit(s[0]) then 0
    else
      var n := 1 + DigitRun(s[1..]);
      assert forall i :: 0 < i < n ==> s[i] == s[1..][i - 1];
      n
  }

  /** What `parse_kv` answers: 0 without the key, else the digits after it, modulo 2^64. */
  function Parsed(a: string, key: string): nat {
    if key <= a then Value(a[|key|..][..DigitRun(a[|key|..])]) % WORD else 0
  }

  predicate CString(s: string) {
    '\0' !in s
  }

  function CharAt(s: string, i: nat): char
    requires i <= |s|
  {
    if i < |s| then s[i] else '\0'
  }

  lemma {:induction false} ValueWraps(s: string, x: nat)
    requires |s| > 0 && (forall i :: 0 <= i < |s| ==> IsDigit(s[i])) && x == Value(s[..|s| - 1]) % WORD
    ensures (x * 10 + DigitValue(s[|s| - 1])) % WORD == Value(s) % WORD
  {
    var y, d := Value(s[..|s| - 1]), DigitValue(s[|s| - 1]);
    assert y == WORD * (y / WORD) + x;
    assert y * 10 + d == x * 10 + d + WORD * (10 * (y / WORD));
    ModShift(x * 10 + d, 10 * (y / WORD));
  }

  method ParseKv(a: string, key: string) returns (v: nat)
    requires CString(a) && CString(key)
    ensures v == Parsed(a, key) && (!(key <= a) ==> v == 0)
  {
    var p := 0;
    while CharAt(key, p) != '\0' && CharAt(a, p) == CharAt(key, p)
      invariant p <= |key| && p <= |a| && a[..p] == key[..p]
      decreases |key| - p
    {
      p := p + 1;
    }
    if CharAt(key, p) != '\0' {
      assert CharAt(key, p) == key[p] && (p < |a| ==> a[p] != key[p]);
      return 0;
    }
    assert p == |key|;
    ghost var s := a[p..];
    ghost var n := DigitRun(s);
    var k := 0;
    v := 0;
    while IsDigit(CharAt(a, p + k))
      invariant k <= n && p + k <= |a| && v == Value(s[..k]) % WORD
      decreases |a| - k
    {
      assert s[k] == a[p + k];
      assert s[..k + 1][..k] == s[..k];
      ValueWraps(s[..k + 1], v);
      v := (v * 10 + DigitValue(CharAt(a, p + k))) % WORD;
      k := k + 1;
    }
    assert p + k < |a| ==> s[k] == a[p + k];
    assert k == n;
  }

  lemma {:induction false} RunOfDigits(d: string, rest: string)
    requires forall i :: 0 <= i < |d| ==> IsDigit(d[i])
    requires rest == [] || !IsDigit(rest[0])
    ensures DigitRun(d + rest) == |d|
  {
    if d == [] {
      assert d + rest == rest;
    } else {
      assert (d + rest)[1..] == d[1..] + rest;
      RunOfDigits(d[1..], rest);
    }
  }

  /** Printing and parsing are inverse: a key, the numeral of any 64-bit v, and anything that
      does not start with a digit parses back to v. */
  lemma ParsePrinted(key: string, v: nat, rest: string)
    requires v < WORD && (rest == [] || !IsDigit(rest[0]))
    ensures Parsed(key + Dec(v) + rest, key) == v
  {
    hide Dec, Value, DigitRun;
    var a := key + Dec(v) + rest;
    assert a[|key|..] == Dec(v) + rest;
    RunOfDigits(Dec(v), rest);
    assert (Dec(v) + rest)[..|Dec(v)|] == Dec(v);
    ValueOfDec(v);
  }

  // ----- the output loops -----

  /** The number of a line can be read back from it. */
  lemma LineParses(i: nat)
    requires i < WORD
    ensures Parsed(Line(i), PREFIX) == i
  {
    hide Parsed, Dec;
    ParsePrinted(PREFIX, i, SUFFIX);
  }

  const BIG: nat := 4096
  const PREFIX: string := "log line number "
  const SUFFIX: string := " some payload text\n"

  function Line(i: nat): (s: string)
    ensures |s| > 0 && s[|s| - 1] == '\n'
  {
    PREFIX + Dec(i) + SUFFIX
  }

  function Lines(n: nat): seq<string> {
    seq(n, i requires 0 <= i => Line(i))
  }

  function Flatten(w: seq<string>): string {
    if w == [] then [] else Flatten(w[..|w| - 1]) + w[|w| - 1]
  }

  lemma FlattenSnoc(w: seq<string>, s: string)
    ensures Flatten(w + [s]) == Flatten(w) + s
  {
    assert (w + [s])[..|w|] == w;
  }

  lemma LinesSnoc(n: nat)
    ensures Lines(n + 1) == Lines(n) + [Line(n)]
  {
  }

  method CopyText(text: string, buf: array<char>, at: nat) returns (p: nat)
    requires at + |text| <= buf.Length
    modifies buf
    ensures p == at + |text| && buf[..p] == old(buf[..at]) + text
  {
    p := at;
    for k := 0 to |text|
      invariant p == at + k && buf[..p] == old(buf[..at]) + text[..k]
    {
      buf[p] := text[k];
      p := p + 1;
    }
    assert text[..|text|] == text;
  }

  /** Fills the 96-byte line buffer. */
  method FormatLine(i: nat, line: array<char>) returns (p: nat)
    requires i < WORD && line.Length == 96
    modifies line
    ensures p <= 55 && line[..p] == Line(i)
  {
    DecFits(i);
    p := CopyText(PREFIX, line, 0);
    assert line[..p] == PREFIX;
    var n := UToDec(i, line, p);
    assert line[..p + n] == PREFIX + line[p..p + n];
    p := CopyText(SUFFIX, line, p + n);
  }

  /** mode=rawline: one write per line. */
  method RawLine(n: nat) returns (writes: seq<string>)
    requires n <= WORD
    ensures writes == Lines(n)
  {
    writes := [];
    var line := new char[96];
    for i := 0 to n
      invariant writes == Lines(i)
    {
      var p := FormatLine(i, line);
      writes := writes + [line[..p]];
      LinesSnoc(i);
    }
  }

  /** Lines i to j, end to end. */
  function Span(i: nat, j: nat): string
    decreases j
  {
    if j <= i then [] else Span(i, j - 1) + Line(j - 1)
  }

  lemma {:induction false} SpanJoin(i: nat, j: nat, k: nat)
    requires i <= j <= k
    ensures Span(i, j) + Span(j, k) == Span(i, k)
    decreases k
  {
    hide Line;
    if j < k {
      SpanJoin(i, j, k - 1);
      assert Span(i, j) + (Span(j, k - 1) + Line(k - 1)) == Span(i, j) + Span(j, k - 1) + Line(k - 1);
    }
  }

  lemma {:induction false} LinesSpan(n: nat)
    ensures Flatten(Lines(n)) == Span(0, n)
  {
    if n > 0 {
      LinesSpan(n - 1);
      LinesSnoc(n - 1);
      FlattenSnoc(Lines(n - 1), Line(n - 1));
    }
  }

  /** Write k holds lines cuts[k] to cuts[k + 1], whole, in at most 4096 bytes. */
  predicate Holds(w: seq<string>, cuts: seq<nat>, k: nat)
    requires |cuts| == |w| + 1 && k < |w|
  {
    cuts[k] < cuts[k + 1] && w[k] == Span(cuts[k], cuts[k + 1]) && |w[k]| <= BIG
  }

  /** The writes are lines 0 to n in order, cut between lines. */
  predicate Batched(w: seq<string>, cuts: seq<nat>, n: nat) {
    && |cuts| == |w| + 1 && cuts[0] == 0 && cuts[|w|] == n
    && forall k :: 0 <= k < |w| ==> Holds(w, cuts, k)
  }

  /** The line after write k would not have fitted, for the first m writes. */
  predicate Full(w: seq<string>, cuts: seq<nat>, m: int)
    requires |cuts| == |w| + 1 && m <= |w|
  {
    forall k :: 0 <= k < m ==> |w[k]| + |Line(cuts[k + 1])| > BIG
  }

  lemma AddWrite(w: seq<string>, cuts: seq<nat>, n: nat, i: nat)
    requires Batched(w, cuts, n) && n < i && |Span(n, i)| <= BIG && Full(w, cuts, |w|)
    ensures Batched(w + [Span(n, i)], cuts + [i], i)
    ensures Full(w + [Span(n, i)], cuts + [i], |w|)
    ensures |Span(n, i)| + |Line(i)| > BIG ==> Full(w + [Span(n, i)], cuts + [i], |w| + 1)
  {
    hide Span, Line;
    var v, d := w + [Span(n, i)], cuts + [i];
    forall k | 0 <= k < |v| ensures Holds(v, d, k) {
      if k < |w| {
        assert Holds(w, cuts, k);
      }
    }
  }

  lemma {:induction false} BatchedBytes(w: seq<string>, cuts: seq<nat>, n: nat)
    requires Batched(w, cuts, n)
    ensures Flatten(w) == Flatten(Lines(n))
    decreases |w|
  {
    hide Line, Span, Lines;
    LinesSpan(n);
    NoLines();
    if w != [] {
      var m := |w| - 1;
      var v, d := w[..m], cuts[..m + 1];
      assert Holds(w, cuts, m);
      forall k | 0 <= k < m ensures Holds(v, d, k) {
        assert Holds(w, cuts, k);
      }
      BatchedBytes(v, d, cuts[m]);
      LinesSpan(cuts[m]);
      SpanJoin(0, cuts[m], n);
    }
  }

  lemma NoLines()
    ensures Span(0, 0) == []
  {
  }

  /** mode=rawbatch: the same bytes, in whole-line writes of at most 4096 bytes, each but the last
      without room for the line that follows it. */
  method RawBatch(n: nat) returns (writes: seq<string>, ghost cuts: seq<nat>)
    requires n <= WORD
    ensures Flatten(writes) == Flatten(Lines(n))
    ensures Batched(writes, cuts, n) && Full(writes, cuts, |writes| - 1)
  {
    hide Line, Lines, Flatten, Batched, Span;
    writes, cuts := [], [0];
    ghost var start: nat := 0;
    var big := new char[BIG];
    var used: nat := 0;
    var line := new char[96];
    NothingYet();
    for i := 0 to n
      invariant |cuts| == |writes| + 1 && Batched(writes, cuts, start) && Full(writes, cuts, |writes|)
      invariant used <= BIG && big[..used] == Span(start, i)
      invariant start <= i && (start == i ==> i == 0) && (used == 0 <==> i == 0)
    {
      var p := FormatLine(i, line);
      assert |Line(i)| == p;
      if used + p > BIG {
        assert |Span(start, i)| == used;
        AddWrite(writes, cuts, start, i);
        writes, cuts, start := writes + [big[..used]], cuts + [i], i;
        used := 0;
        EmptySpan(i);
      }
      used := CopyText(line[..p], big, used);
      SpanSnoc(start, i);
    }
    if used > 0 {
      assert |Span(start, n)| == used;
      AddWrite(writes, cuts, start, n);
      writes, cuts := writes + [big[..used]], cuts + [n];
      start := n;
    }
    BatchedBytes(writes, cuts, n);
  }

  lemma NothingYet()
    ensures Batched([], [0], 0) && Full([], [0], 0) && Span(0, 0) == []
  {
  }

  lemma EmptySpan(i: nat)
    ensures Span(i, i) == []
  {
  }

  lemma SpanSnoc(i: nat, j: nat)
    requires i <= j
    ensures Span(i, j + 1) == Span(i, j) + Line(j)
  {
  }

  /** A cut of the greedy loop is never behind the same cut of another way of batching. */
  lemma {:induction false} GreedyAhead(w: seq<string>, cuts: seq<nat>, v: seq<string>, other: seq<nat>, n: nat, k: nat)
    requires Batched(w, cuts, n) && Full(w, cuts, |w| - 1) && Batched(v, other, n) && k < |w| && k <= |v|
    ensures other[k] <= cuts[k]
  {
    hide Span, Line;
    if k > 0 {
      GreedyAhead(w, cuts, v, other, n, k - 1);
      assert Holds(w, cuts, k - 1) && Holds(v, other, k - 1);
      if cuts[k] < other[k] {
        SpanSnoc(cuts[k - 1], cuts[k]);
        SpanJoin(other[k - 1], cuts[k - 1], cuts[k] + 1);
        SpanJoin(other[k - 1], cuts[k] + 1, other[k]);
      }
    }
  }

  /** No way of sending the lines in whole-line writes of at most 4096 bytes takes fewer writes. */
  lemma FewestWrites(w: seq<string>, cuts: seq<nat>, v: seq<string>, other: seq<nat>, n: nat)
    requires Batched(w, cuts, n) && Full(w, cuts, |w| - 1) && Batched(v, other, n)
    ensures |w| <= |v|
  {
    if |v| < |w| {
      GreedyAhead(w, cuts, v, other, n, |v|);
      CutsBelow(w, cuts, n, |v|);
    }
  }

  lemma {:induction false} CutsBelow(w: seq<string>, cuts: seq<nat>, n: nat, k: nat)
    requires Batched(w, cuts, n) && k < |w|
    ensures cuts[k] < n
    decreases |w| - k
  {
    assert Holds(w, cuts, k);
    if k + 1 < |w| {
      CutsBelow(w, cuts, n, k + 1);
    }
  }
}
