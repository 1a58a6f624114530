/** Positional number formatting and parsing: Rust's `{:0>N}` and `{:0Nx}`
    formats and `str::parse::<u64>`, as used to name run, day, frame and lock files. */
module Digits {
  import opened Base

  /** The value of a decimal or lower-case hexadecimal digit, or -1. */
  function DigitValue(c: char): int
  {
    if '0' <= c <= '9' then c as int - '0' as int
    else if 'a' <= c <= 'f' then c as int - 'a' as int + 10
    else -1
  }

  predicate IsDigit(c: char, base: nat)
  {
    0 <= DigitValue(c) < base
  }

  predicate AllDigits(s: string, base: nat)
  {
    forall i :: 0 <= i < |s| ==> IsDigit(s[i], base)
  }

  function DigitChar(d: nat): (c: char)
    requires d < 16
    ensures DigitValue(c) == d
  {
    if d < 10 then ('0' as int + d) as char else ('a' as int + d - 10) as char
  }

  /** The number a string of digits denotes, most significant digit first. */
  function ValueOf(s: string, base: nat): nat
    requires AllDigits(s, base)
  {
    if s == [] then 0 else ValueOf(s[..|s| - 1], base) * base + DigitValue(s[|s| - 1])
  }

  lemma DivMod(n: nat, b: nat)
    requires b > 0
    ensures (n / b) * b + n % b == n
  {
  }

  /** Division by the base removes the last digit. */
  lemma Euclid(n: nat, base: nat)
    requires 2 <= base <= n
    ensures n / base < n && n % base < base
    ensures (n / base) * base + n % base == n
  {
    DivMod(n, base);
  }

  /** Appending one digit shifts the value one place left. */
  lemma DigitStep(prefix: string, q: nat, d: nat, base: nat)
    requires 2 <= base <= 16 && d < base
    requires AllDigits(prefix, base) && ValueOf(prefix, base) == q
    ensures AllDigits(prefix + [DigitChar(d)], base)
    ensures ValueOf(prefix + [DigitChar(d)], base) == q * base + d
  {
    var s := prefix + [DigitChar(d)];
    assert s[..|s| - 1] == prefix;
  }

  /** Shortest representation of `n` in `base`, most significant digit first. */
  function ToDigits(n: nat, base: nat): (s: string)
    requires 2 <= base <= 16
    ensures |s| >= 1
    decreases n
  {
    if n < base then [DigitChar(n)]
    else
      Euclid(n, base);
      ToDigits(n / base, base) + [DigitChar(n % base)]
  }

  /** `ToDigits` writes `n` in digits of `base` and nothing else. */
  lemma {:induction false} ToDigitsValue(n: nat, base: nat)
    requires 2 <= base <= 16
    ensures AllDigits(ToDigits(n, base), base) && ValueOf(ToDigits(n, base), base) == n
    decreases n
  {
    if n < base {
      assert ToDigits(n, base)[..0] == [];
    } else {
      Euclid(n, base);
      ToDigitsValue(n / base, base);
      DigitStep(ToDigits(n / base, base), n / base, n % base, base);
    }
  }

  function Zeros(k: nat): (z: string)
    ensures |z| == k && forall i :: 0 <= i < k ==> z[i] == '0'
  {
    seq(k, _ => '0')
  }

  /** `format!("{:0>w}", s)`: left-pads with '0' up to width `w`; never truncates. */
  function PadLeft(s: string, w: nat): (r: string)
    ensures |r| == if |s| >= w then |s| else w
  {
    if |s| >= w then s else Zeros(w - |s|) + s
  }

  /** The zero-padded decimal name of a counter, `format!("{n:0>w}")`. */
  function Padded(n: nat, w: nat): string
  {
    PadLeft(ToDigits(n, 10), w)
  }

  /** `s.parse::<u64>()`: an optional '+', then one or more decimal digits,
      denoting at most `u64::MAX`. */
  function ParseU64(s: string): (r: Option<u64>)
    ensures r.Some? ==> |s| > 0
  {
    var digits := if |s| > 0 && s[0] == '+' then s[1..] else s;
    if digits == [] || !AllDigits(digits, 10) then None
    else if ValueOf(digits, 10) > U64_MAX then None
    else Some(ValueOf(digits, 10))
  }

  lemma {:induction false} ZerosValue(k: nat, base: nat)
    requires 2 <= base
    ensures AllDigits(Zeros(k), base) && ValueOf(Zeros(k), base) == 0
  {
    if k > 0 {
      assert Zeros(k)[..k - 1] == Zeros(k - 1);
      ZerosValue(k - 1, base);
    }
  }

  /** Leading zeros do not change the value of a digit string. */
  lemma {:induction false} LeadingZerosValue(k: nat, s: string, base: nat)
    requires 2 <= base && AllDigits(s, base)
    ensures AllDigits(Zeros(k) + s, base)
    ensures ValueOf(Zeros(k) + s, base) == ValueOf(s, base)
  {
    ZerosValue(k, base);
    if s != [] {
      var t := Zeros(k) + s;
      assert t[..|t| - 1] == Zeros(k) + s[..|s| - 1];
      LeadingZerosValue(k, s[..|s| - 1], base);
    } else {
      assert Zeros(k) + s == Zeros(k);
    }
  }

  /** Padding with '0' keeps a digit string's value. */
  lemma PadLeftValue(s: string, w: nat, base: nat)
    requires 2 <= base && AllDigits(s, base)
    ensures AllDigits(PadLeft(s, w), base) && ValueOf(PadLeft(s, w), base) == ValueOf(s, base)
  {
    if |s| < w {
      LeadingZerosValue(w - |s|, s, base);
    }
  }

  /** A counter written as a zero-padded name parses back to the same counter:
      this is what lets a later directory scan recover a run id. */
  lemma PaddedParses(n: u64, w: nat)
    ensures ParseU64(Padded(n, w)) == Some(n)
  {
    var s := Padded(n, w);
    ToDigitsValue(n, 10);
    PadLeftValue(ToDigits(n, 10), w, 10);
    assert AllDigits(s, 10) && ValueOf(s, 10) == n;
    assert s[0] != '+' by { assert IsDigit(s[0], 10); }
  }

  /** Distinct counters get distinct padded names. */
  lemma PaddedInjective(m: nat, n: nat, w: nat)
    requires Padded(m, w) == Padded(n, w)
    ensures m == n
  {
    ToDigitsValue(m, 10);
    PadLeftValue(ToDigits(m, 10), w, 10);
    ToDigitsValue(n, 10);
    PadLeftValue(ToDigits(n, 10), w, 10);
  }

  function Pow(b: nat, k: nat): nat
  {
    if k == 0 then 1 else b * Pow(b, k - 1)
  }

  lemma {:induction false} PowAdd(b: nat, i: nat, j: nat)
    ensures Pow(b, i + j) == Pow(b, i) * Pow(b, j)
    decreases i
  {
    if i > 0 {
      PowAdd(b, i - 1, j);
      assert Pow(b, i + j) == b * Pow(b, i - 1 + j);
    }
  }

  lemma DivBelow(n: nat, b: nat, p: nat)
    requires b > 0 && n < b * p
    ensures n / b < p
  {
  }

  /** A number below `base^k` needs at most `k` digits. */
  lemma {:induction false} ToDigitsLength(n: nat, base: nat, k: nat)
    requires 2 <= base <= 16 && 1 <= k && n < Pow(base, k)
    ensures |ToDigits(n, base)| <= k
    decreases k
  {
    if n >= base {
      assert Pow(base, 1) == base;
      assert k != 1;
      assert Pow(base, k) == base * Pow(base, k - 1);
      DivBelow(n, base, Pow(base, k - 1));
      ToDigitsLength(n / base, base, k - 1);
    }
  }

  lemma HexWidth()
    ensures Pow(16, 16) == U64_MAX + 1
  {
    assert Pow(16, 2) == 256;
    PowAdd(16, 2, 2);
    PowAdd(16, 4, 4);
    PowAdd(16, 8, 8);
  }

  /** `format!("{:016x}", h)`: sixteen lower-case hexadecimal digits. */
  function Hex16(h: u64): (r: string)
    ensures |r| == 16 && AllDigits(r, 16) && ValueOf(r, 16) == h
  {
    HexWidth();
    ToDigitsLength(h, 16, 16);
    ToDigitsValue(h, 16);
    PadLeftValue(ToDigits(h, 16), 16, 16);
    PadLeft(ToDigits(h, 16), 16)
  }
}
