/** Byte order of text, and decimal numbers written with a fixed number of digits. */
module TextOrder {

  function Sign(x: int): int {
    if x < 0 then -1 else if x == 0 then 0 else 1
  }

  /** Byte-by-byte comparison of two texts, as SQLite compares TEXT columns: negative, zero or
      positive as `s` sorts before, with or after `t`. */
  function Compare(s: string, t: string): int {
    if s == [] then (if t == [] then 0 else -1)
    else if t == [] then 1
    else if s[0] < t[0] then -1
    else if s[0] > t[0] then 1
    else Compare(s[1..], t[1..])
  }

  lemma {:induction false} CompareEqual(s: string, t: string)
    ensures Compare(s, t) == 0 <==> s == t
  {
    if s != [] && t != [] && s[0] == t[0] {
      CompareEqual(s[1..], t[1..]);
      assert s == [s[0]] + s[1..] && t == [t[0]] + t[1..];
    }
  }

  /** The first character that differs decides, and a text sorts after its beginnings. */
  lemma {:induction false} CompareIsLexicographic(s: string, t: string, k: nat)
    requires k <= |s| && k <= |t| && s[..k] == t[..k]
    ensures k < |s| && k < |t| && s[k] < t[k] ==> Compare(s, t) == -1 && Compare(t, s) == 1
    ensures k == |s| < |t| ==> Compare(s, t) == -1 && Compare(t, s) == 1
  {
    if k > 0 {
      assert s[0] == s[..k][0] == t[..k][0] == t[0];
      assert s[1..][..k - 1] == s[..k][1..] == t[..k][1..] == t[1..][..k - 1];
      CompareIsLexicographic(s[1..], t[1..], k - 1);
    }
  }

  /** Texts that start with blocks of one length compare by the blocks first. */
  lemma {:induction false} CompareBlocks(a: string, b: string, c: string, d: string)
    requires |a| == |b|
    ensures Compare(a + c, b + d) == if a == b then Compare(c, d) else Compare(a, b)
  {
    if a == [] {
      assert a + c == c && b + d == d;
    } else {
      assert (a + c)[1..] == a[1..] + c && (b + d)[1..] == b[1..] + d;
      assert a == [a[0]] + a[1..] && b == [b[0]] + b[1..];
      CompareBlocks(a[1..], b[1..], c, d);
    }
  }

  /** Once two texts differ, what follows does not matter. */
  lemma {:induction false} CompareDiverging(a: string, b: string, c: string, d: string)
    requires !(a <= b) && !(b <= a)
    ensures Compare(a + c, b + d) == Compare(a, b)
  {
    assert (a + c)[1..] == a[1..] + c && (b + d)[1..] == b[1..] + d;
    if a[0] == b[0] {
      assert a == [a[0]] + a[1..] && b == [b[0]] + b[1..];
      CompareDiverging(a[1..], b[1..], c, d);
    }
  }

  // ---------------------------------------------------------------- decimal digits

  predicate IsDigit(c: char) {
    '0' <= c <= '9'
  }

  predicate AllDigits(s: string) {
    forall i :: 0 <= i < |s| ==> IsDigit(s[i])
  }

  predicate AllZeros(s: string) {
    forall i :: 0 <= i < |s| ==> s[i] == '0'
  }

  function Pow10(w: nat): nat {
    if w == 0 then 1 else 10 * Pow10(w - 1)
  }

  function Digit(d: nat): (c: char)
    requires d < 10
    ensures IsDigit(c)
  {
    '0' + d as char
  }

  function DigitValue(c: char): (d: nat)
    requires IsDigit(c)
    ensures d < 10 && Digit(d) == c
  {
    (c - '0') as int
  }

  /** The last `w` decimal digits of `n`. */
  function Digits(n: nat, w: nat): (s: string)
    ensures |s| == w && AllDigits(s)
    decreases w, n
  {
    if w == 0 then [] else Digits(n / 10, w - 1) + [Digit(n % 10)]
  }

  function Value(s: string): nat
    requires AllDigits(s)
  {
    if s == [] then 0 else 10 * Value(s[..|s| - 1]) + DigitValue(s[|s| - 1])
  }

  lemma {:induction false} ValueOfDigits(n: nat, w: nat)
    requires n < Pow10(w)
    ensures Value(Digits(n, w)) == n
  {
    if w > 0 {
      ValueOfDigits(n / 10, w - 1);
      assert Digits(n, w)[..w - 1] == Digits(n / 10, w - 1);
    }
  }

  lemma {:induction false} DigitsOfValue(s: string)
    requires AllDigits(s)
    ensures Value(s) < Pow10(|s|) && Digits(Value(s), |s|) == s
  {
    if s != [] {
      DigitsOfValue(s[..|s| - 1]);
    }
  }

  /** Numbers written with one number of digits sort by value. */
  lemma {:induction false} DigitsSortByValue(a: nat, b: nat, w: nat)
    requires a < Pow10(w) && b < Pow10(w)
    ensures Compare(Digits(a, w), Digits(b, w)) == Sign(a - b)
  {
    if w > 0 {
      DigitsSortByValue(a / 10, b / 10, w - 1);
      CompareEqual(Digits(a / 10, w - 1), Digits(b / 10, w - 1));
      CompareBlocks(Digits(a / 10, w - 1), Digits(b / 10, w - 1), [Digit(a % 10)], [Digit(b % 10)]);
    }
  }

  // ---------------------------------------------------------------- trailing zeros

  function TrimZeros(s: string): string {
    if s != [] && s[|s| - 1] == '0' then TrimZeros(s[..|s| - 1]) else s
  }

  function Zeros(n: nat): (s: string)
    ensures |s| == n && AllZeros(s)
  {
    seq(n, i => '0')
  }

  lemma {:induction false} TrimZerosSplits(s: string)
    ensures |TrimZeros(s)| <= |s| && s == TrimZeros(s) + Zeros(|s| - |TrimZeros(s)|)
    ensures TrimZeros(s) != [] ==> TrimZeros(s)[|TrimZeros(s)| - 1] != '0'
    ensures AllDigits(s) ==> AllDigits(TrimZeros(s))
  {
    if s != [] && s[|s| - 1] == '0' {
      TrimZerosSplits(s[..|s| - 1]);
      assert s == s[..|s| - 1] + ['0'];
    }
  }

  lemma {:induction false} ZerosSortFirst(z: string, s: string)
    requires |z| == |s| && AllZeros(z) && AllDigits(s) && z != s
    ensures Compare(z, s) == -1
  {
    if z[0] == s[0] {
      assert z == [z[0]] + z[1..] && s == [s[0]] + s[1..];
      ZerosSortFirst(z[1..], s[1..]);
    }
  }

  /** `n` written with `w` digits, without trailing zeros: a fraction. */
  function Trimmed(n: nat, w: nat): string {
    TrimZeros(Digits(n, w))
  }

  lemma TrimmedPads(n: nat, w: nat)
    ensures |Trimmed(n, w)| <= w && AllDigits(Trimmed(n, w))
    ensures Digits(n, w) == Trimmed(n, w) + Zeros(w - |Trimmed(n, w)|)
    ensures Trimmed(n, w) != "" ==> Trimmed(n, w)[|Trimmed(n, w)| - 1] != '0'
  {
    TrimZerosSplits(Digits(n, w));
  }

  /** Padded with zeros, a text that continues another with more than zeros sorts after it. */
  lemma ContinuationSortsLater(f: string, tail: string, w: nat)
    requires tail != "" && tail[|tail| - 1] != '0' && AllDigits(tail) && |f| + |tail| <= w
    ensures Compare(f + Zeros(w - |f|), f + tail + Zeros(w - |f| - |tail|)) == -1
  {
    var z, h := Zeros(w - |f|), tail + Zeros(w - |f| - |tail|);
    assert h[|tail| - 1] != z[|tail| - 1];
    ZerosSortFirst(z, h);
    CompareBlocks(f, f, z, h);
    assert f + tail + Zeros(w - |f| - |tail|) == f + h;
  }

  /** A fraction that continues another is larger. */
  lemma LongerFractionIsLarger(m: nat, n: nat, w: nat)
    requires m < Pow10(w) && n < Pow10(w) && Trimmed(m, w) < Trimmed(n, w)
    ensures m < n
  {
    var f, g := Trimmed(m, w), Trimmed(n, w);
    TrimmedPads(m, w);
    TrimmedPads(n, w);
    ContinuationSortsLater(f, g[|f|..], w);
    assert f + g[|f|..] == g;
    DigitsSortByValue(m, n, w);
  }

  /** Fractions that diverge sort by value. */
  lemma DivergingFractionsSortByValue(m: nat, n: nat, w: nat)
    requires m < Pow10(w) && n < Pow10(w)
    requires !(Trimmed(m, w) <= Trimmed(n, w)) && !(Trimmed(n, w) <= Trimmed(m, w))
    ensures Compare(Trimmed(m, w), Trimmed(n, w)) == Sign(m - n)
  {
    var f, g := Trimmed(m, w), Trimmed(n, w);
    TrimmedPads(m, w);
    TrimmedPads(n, w);
    CompareDiverging(f, g, Zeros(w - |f|), Zeros(w - |g|));
    DigitsSortByValue(m, n, w);
  }

  /** Equal fractions have equal values. */
  lemma EqualFractionsAreEqual(m: nat, n: nat, w: nat)
    requires m < Pow10(w) && n < Pow10(w) && Trimmed(m, w) == Trimmed(n, w)
    ensures m == n
  {
    TrimmedPads(m, w);
    TrimmedPads(n, w);
    ValueOfDigits(m, w);
    ValueOfDigits(n, w);
  }

  lemma {:induction false} ZerosAreDigits(w: nat)
    ensures Digits(0, w) == Zeros(w)
  {
    if w > 0 {
      ZerosAreDigits(w - 1);
    }
  }

  lemma {:induction false} TrimZerosOfZeros(w: nat)
    ensures TrimZeros(Zeros(w)) == ""
  {
    if w > 0 {
      assert Zeros(w)[..w - 1] == Zeros(w - 1);
      TrimZerosOfZeros(w - 1);
    }
  }

  lemma {:induction false} TrimZerosIgnoresZeros(s: string, n: nat)
    ensures TrimZeros(s + Zeros(n)) == TrimZeros(s)
  {
    if n == 0 {
      assert s + Zeros(0) == s;
    } else {
      assert (s + Zeros(n))[..|s| + n - 1] == s + Zeros(n - 1);
      TrimZerosIgnoresZeros(s, n - 1);
    }
  }

  lemma TrimmedZero(w: nat)
    ensures Trimmed(0, w) == ""
  {
    ZerosAreDigits(w);
    TrimZerosOfZeros(w);
  }
}
