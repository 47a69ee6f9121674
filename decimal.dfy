/** The string side of the digit search: BigInt's decimal `toString()`, JavaScript's
    one-argument `String.prototype.slice` and `String.prototype.padStart`, and the facts
    that turn comparisons of those strings into arithmetic modulo powers of ten. */
module Decimal {
  import opened Arith

  /** The character of a decimal digit. */
  function DigitChar(v: nat): char
    requires v < 10
  {
    ('0' as int + v) as char
  }

  function DigitValue(c: char): nat
  {
    if '0' <= c <= '9' then c as int - '0' as int else 0
  }

  predicate IsDigits(s: string)
  {
    forall i :: 0 <= i < |s| ==> '0' <= s[i] <= '9'
  }

  /** `n.toString()` for a non-negative BigInt: most significant digit first, no leading
      zeros, and "0" for zero. */
  function ToDecimal(n: nat): (s: string)
    ensures 1 <= |s| && IsDigits(s)
    ensures |s| == 1 <==> n < 10
  {
    if n < 10 then [DigitChar(n)] else ToDecimal(n / 10) + [DigitChar(n % 10)]
  }

  /** Reads a string of decimal digits back as a number. */
  function ParseDecimal(s: string): nat
  {
    if s == [] then 0 else 10 * ParseDecimal(s[..|s| - 1]) + DigitValue(s[|s| - 1])
  }

  /** Printing then reading a number gives the number back. */
  lemma {:induction false} ParseToDecimal(n: nat)
    ensures ParseDecimal(ToDecimal(n)) == n
  {
    if n >= 10 {
      var s := ToDecimal(n);
      assert s[..|s| - 1] == ToDecimal(n / 10);
      ParseToDecimal(n / 10);
    }
  }

  /** Distinct numbers print as distinct strings. */
  lemma ToDecimalInjective(a: nat, b: nat)
    ensures ToDecimal(a) == ToDecimal(b) ==> a == b
  {
    ParseToDecimal(a);
    ParseToDecimal(b);
  }

  /** `s.slice(start)`: a negative start counts from the end and is clamped to 0, a
      start past the end gives the empty string. */
  function Slice(s: string, start: int): string
  {
    var from := if start < 0 then (if |s| + start < 0 then 0 else |s| + start)
                else (if start > |s| then |s| else start);
    s[from..]
  }

  /** `s.slice(-k)` is the last k characters of s, or all of s when it is shorter. */
  lemma SliceFromEnd(s: string, k: nat)
    requires k >= 1
    ensures k <= |s| ==> Slice(s, -(k as int)) == s[|s| - k..]
    ensures k > |s| ==> Slice(s, -(k as int)) == s
  {
  }

  /** `s.padStart(len, fill)` with a one-character fill string. */
  function PadStart(s: string, len: nat, fill: char): (r: string)
    ensures |r| == if |s| >= len then |s| else len
    ensures |s| >= len ==> r == s
    ensures |s| < len ==> r[len - |s|..] == s && forall i :: 0 <= i < len - |s| ==> r[i] == fill
  {
    if |s| >= len then s else seq(len - |s|, _ => fill) + s
  }

  /** The lowest k decimal digits of p, zero-padded to exactly k characters. */
  function LowDigits(p: nat, k: nat): (r: string)
    ensures |r| == k
  {
    if k == 0 then [] else LowDigits(p / 10, k - 1) + [DigitChar(p % 10)]
  }

  /** A number has more than d digits exactly when d is 0 or it is at least 10^d. */
  lemma {:induction false} DigitCountBound(p: nat, d: nat)
    ensures |ToDecimal(p)| > d <==> d == 0 || Pow10(d) <= p
  {
    if d > 0 && p >= 10 {
      DigitCountBound(p / 10, d - 1);
      assert Pow10(d - 1) <= p / 10 <==> Pow10(d) <= p by {
        assert p == 10 * (p / 10) + p % 10;
      }
    } else if d > 0 {
      assert Pow10(d) >= 10 by { assert Pow10(d) == 10 * Pow10(d - 1); }
    }
  }

  /** The last k characters of a decimal string are the number's k low digits. */
  lemma {:induction false} SliceOfDecimal(n: nat, k: nat)
    requires 1 <= k <= |ToDecimal(n)|
    ensures Slice(ToDecimal(n), -(k as int)) == LowDigits(n, k)
  {
    var s := ToDecimal(n);
    if n >= 10 {
      var t := ToDecimal(n / 10);
      assert s == t + [DigitChar(n % 10)];
      if k == 1 {
        assert Slice(s, -(k as int)) == [DigitChar(n % 10)];
      } else {
        SliceOfDecimal(n / 10, k - 1);
        assert Slice(s, -(k as int)) == Slice(t, -((k - 1) as int)) + [DigitChar(n % 10)];
      }
    }
  }

  /** The low digits of zero are zeros. */
  lemma {:induction false} LowDigitsOfZero(k: nat)
    ensures LowDigits(0, k) == seq(k, _ => '0')
  {
    if k > 0 {
      LowDigitsOfZero(k - 1);
      assert seq(k, _ => '0') == seq(k - 1, _ => '0') + ['0'];
    }
  }

  /** Asking for more low digits than the number has pads its decimal string with zeros. */
  lemma {:induction false} LowDigitsOfShort(p: nat, k: nat)
    requires |ToDecimal(p)| <= k
    ensures LowDigits(p, k) == seq(k - |ToDecimal(p)|, _ => '0') + ToDecimal(p)
  {
    var z := k - |ToDecimal(p)|;
    if p < 10 {
      LowDigitsOfZero(k - 1);
      assert LowDigits(p, k) == LowDigits(0, k - 1) + [DigitChar(p)];
    } else {
      LowDigitsOfShort(p / 10, k - 1);
      assert ToDecimal(p) == ToDecimal(p / 10) + [DigitChar(p % 10)];
      assert LowDigits(p, k) == seq(z, _ => '0') + ToDecimal(p / 10) + [DigitChar(p % 10)];
    }
  }

  /** Zero-padding to k characters and then taking the last k gives the k low digits,
      whatever the length of the number. */
  lemma SliceOfPadded(p: nat, k: nat)
    requires k >= 1
    ensures Slice(PadStart(ToDecimal(p), k, '0'), -(k as int)) == LowDigits(p, k)
  {
    var s := ToDecimal(p);
    if |s| >= k {
      SliceOfDecimal(p, k);
    } else {
      LowDigitsOfShort(p, k);
      var t := PadStart(s, k, '0');
      assert t == seq(k - |s|, _ => '0') + s;
      SliceFromEnd(t, k);
    }
  }

  /** Two numbers have the same k low digits exactly when they agree modulo 10^k. */
  lemma {:induction false} LowDigitsEqual(p: nat, q: nat, k: nat)
    ensures LowDigits(p, k) == LowDigits(q, k) <==> p % Pow10(k) == q % Pow10(k)
  {
    if k > 0 {
      var m := Pow10(k - 1);
      LowDigitsEqual(p / 10, q / 10, k - 1);
      ModSplitLow(p, m);
      ModSplitLow(q, m);
      var lp, lq := LowDigits(p / 10, k - 1), LowDigits(q / 10, k - 1);
      var cp, cq := DigitChar(p % 10), DigitChar(q % 10);
      assert LowDigits(p, k) == lp + [cp];
      assert LowDigits(q, k) == lq + [cq];
      if LowDigits(p, k) == LowDigits(q, k) {
        assert lp == LowDigits(p, k)[..k - 1] == lq;
        assert cp == LowDigits(p, k)[k - 1] == cq;
      }
    }
  }
}
