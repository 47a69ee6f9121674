/** The digit-by-digit factor search shared by src/main.ts and src/noprint.ts.

    Both scripts build candidate factor pairs one decimal digit at a time, least
    significant first, keep a pair only while the trailing digits of its product agree
    with the input's and the product does not exceed the input, and finally keep the
    pairs whose product is the input exactly. The two scripts differ only in how they
    compare trailing digits, which is the `TrailingCheck` parameter here. */
module DigitSearch {
  import opened Arith
  import opened Decimal

  /** A candidate pair of factors [left, right]. */
  type Pair = (nat, nat)

  /** The one line in which the searches of the two scripts differ (they also differ in
      what they print, which is not modelled). */
  datatype TrailingCheck =
    | Unpadded    // src/main.ts:41: slice the product's decimal string as it is
    | ZeroPadded  // src/noprint.ts:42: pad the product's decimal string with zeros first

  /** The error the scripts throw for a negative input. */
  datatype Error = SyntaxError(message: string)

  datatype Result<T> = Success(value: T) | Failure(error: Error)

  const NegativeInputMessage := "Cannot factorize a negative BigInt"

  function Swap(m: Pair): Pair
  {
    (m.1, m.0)
  }

  function Product(m: Pair): nat
  {
    m.0 * m.1
  }

  /** The dedup key `${a},${b}` of a pair. */
  function Key(m: Pair): string
  {
    ToDecimal(m.0) + [','] + ToDecimal(m.1)
  }

  /** The candidate built from frontier pair p by putting digit `left` and digit `right`
      at position 10^d. */
  function Candidate(p: Pair, d: nat, left: nat, right: nat): Pair
  {
    (p.0 + left * Pow10(d), p.1 + right * Pow10(d))
  }

  /** The trailing-digit comparison of the scripts, on strings: the last d+1 characters of
      the product's decimal string (zero-padded to d+1 first under ZeroPadded) against the
      last d+1 characters of the input's. */
  function TrailingDigitsMatch(product: nat, inputString: string, d: nat, check: TrailingCheck): bool
  {
    var productString := ToDecimal(product);
    var shown := if check == ZeroPadded then PadStart(productString, d + 1, '0') else productString;
    Slice(shown, -(d as int) - 1) == Slice(inputString, -(d as int) - 1)
  }

  // ---------------------------------------------------------------------------------
  // The arithmetic specification of one digit iteration.

  /** When a candidate survives both tests at digit d: its product agrees with n in the
      low d+1 digits (and, for the unpadded comparison, has at least d+1 digits), and it
      does not exceed n. */
  predicate Admissible(c: Pair, n: nat, d: nat, check: TrailingCheck)
  {
    Product(c) % Pow10(d + 1) == n % Pow10(d + 1)
    && (check == Unpadded ==> d == 0 || Pow10(d) <= Product(c))
    && Product(c) <= n
  }

  /** Considering one candidate: it is skipped when it or its mirror image was already
      accepted in this iteration, or when it is not admissible; otherwise it is appended. */
  function Visit(ms: seq<Pair>, c: Pair, n: nat, d: nat, check: TrailingCheck): seq<Pair>
  {
    if c in ms || Swap(c) in ms || !Admissible(c, n, d, check) then ms else ms + [c]
  }

  /** The candidates of frontier pair p with digit `left` and digits right = 0 .. k-1. */
  function ScanRow(ms: seq<Pair>, p: Pair, left: nat, k: nat, n: nat, d: nat, check: TrailingCheck): seq<Pair>
  {
    if k == 0 then ms
    else Visit(ScanRow(ms, p, left, k - 1, n, d, check), Candidate(p, d, left, k - 1), n, d, check)
  }

  /** The candidates of frontier pair p with digits left = 0 .. k-1. */
  function ScanPair(ms: seq<Pair>, p: Pair, k: nat, n: nat, d: nat, check: TrailingCheck): seq<Pair>
  {
    if k == 0 then ms
    else ScanRow(ScanPair(ms, p, k - 1, n, d, check), p, k - 1, 10, n, d, check)
  }

  /** The candidates of the first k frontier pairs. */
  function ScanFrontier(f: seq<Pair>, k: nat, n: nat, d: nat, check: TrailingCheck): seq<Pair>
    requires k <= |f|
  {
    if k == 0 then []
    else ScanPair(ScanFrontier(f, k - 1, n, d, check), f[k - 1], 10, n, d, check)
  }

  /** The next frontier: what one digit iteration appends to `matches`. */
  function Extend(f: seq<Pair>, n: nat, d: nat, check: TrailingCheck): seq<Pair>
  {
    ScanFrontier(f, |f|, n, d, check)
  }

  /** The frontier after k digit iterations, starting from [(0, 0)]. */
  function Frontier(n: nat, check: TrailingCheck, k: nat): seq<Pair>
  {
    if k == 0 then [(0, 0)] else Extend(Frontier(n, check, k - 1), n, k - 1, check)
  }

  /** The pairs of s whose product is exactly n, in the order of s. */
  function ExactPairs(s: seq<Pair>, n: nat): seq<Pair>
  {
    if s == [] then []
    else ExactPairs(s[..|s| - 1], n) + (if Product(s[|s| - 1]) == n then [s[|s| - 1]] else [])
  }

  /** The number of digit iterations: the length of the input's decimal string. */
  function DigitCount(n: nat): nat
  {
    |ToDecimal(n)|
  }

  /** What a script computes from its input. */
  function Factor(input: int, check: TrailingCheck): Result<seq<Pair>>
  {
    if input < 0 then Failure(SyntaxError(NegativeInputMessage))
    else Success(ExactPairs(Frontier(input, check, DigitCount(input)), input))
  }

  // ---------------------------------------------------------------------------------
  // From the strings of the scripts to arithmetic.

  /** The trailing-digit comparison, as arithmetic. Zero-padded, it holds exactly when the
      product agrees with n modulo 10^(d+1). Unpadded, it additionally needs the product to
      have at least d+1 digits, because a shorter decimal string can never equal the d+1
      characters taken from n's. */
  lemma TrailingDigitsMatchIff(product: nat, n: nat, d: nat, check: TrailingCheck)
    requires d < DigitCount(n)
    ensures TrailingDigitsMatch(product, ToDecimal(n), d, check) <==>
            product % Pow10(d + 1) == n % Pow10(d + 1)
            && (check == Unpadded ==> d == 0 || Pow10(d) <= product)
  {
    if check == ZeroPadded {
      PaddedMatchIff(product, n, d);
    } else {
      UnpaddedMatchIff(product, n, d);
    }
  }

  lemma PaddedMatchIff(product: nat, n: nat, d: nat)
    requires d < DigitCount(n)
    ensures TrailingDigitsMatch(product, ToDecimal(n), d, ZeroPadded) <==>
            product % Pow10(d + 1) == n % Pow10(d + 1)
  {
    var k := d + 1;
    assert -(d as int) - 1 == -(k as int);
    var mine := Slice(PadStart(ToDecimal(product), k, '0'), -(k as int));
    var theirs := Slice(ToDecimal(n), -(k as int));
    assert TrailingDigitsMatch(product, ToDecimal(n), d, ZeroPadded) <==> mine == theirs;
    SliceOfDecimal(n, k);
    SliceOfPadded(product, k);
    LowDigitsEqual(product, n, k);
  }

  lemma UnpaddedMatchIff(product: nat, n: nat, d: nat)
    requires d < DigitCount(n)
    ensures TrailingDigitsMatch(product, ToDecimal(n), d, Unpadded) <==>
            product % Pow10(d + 1) == n % Pow10(d + 1) && (d == 0 || Pow10(d) <= product)
  {
    var k := d + 1;
    assert -(d as int) - 1 == -(k as int);
    var mine := Slice(ToDecimal(product), -(k as int));
    var theirs := Slice(ToDecimal(n), -(k as int));
    assert TrailingDigitsMatch(product, ToDecimal(n), d, Unpadded) <==> mine == theirs;
    SliceOfDecimal(n, k);
    UnpaddedSlice(product, k);
    if d == 0 || Pow10(d) <= product {
      assert mine == LowDigits(product, k);
      LowDigitsEqual(product, n, k);
    } else {
      assert |mine| < k == |theirs|;
    }
  }

  /** The unpadded slice of a product is its k low digits when it has at least k digits,
      and otherwise something shorter than k characters. */
  lemma UnpaddedSlice(product: nat, k: nat)
    requires k >= 1
    ensures var r := Slice(ToDecimal(product), -(k as int));
            (k == 1 || Pow10(k - 1) <= product ==> r == LowDigits(product, k))
            && (k > 1 && product < Pow10(k - 1) ==> |r| < k)
  {
    DigitCountBound(product, k - 1);
    SliceFromEnd(ToDecimal(product), k);
    if |ToDecimal(product)| >= k {
      SliceOfDecimal(product, k);
    }
  }

  /** A comma separates two comma-free strings in only one way. */
  lemma SplitAtComma(x: string, y: string, x': string, y': string)
    requires ',' !in x && ',' !in x'
    requires x + [','] + y == x' + [','] + y'
    ensures x == x' && y == y'
  {
    var s := x + [','] + y;
    assert s[|x|] == ',' && s[|x'|] == ',';
    assert |x| == |x'|;
    assert x == s[..|x|] == x';
    assert y == s[|x| + 1..] == y';
  }

  /** Distinct pairs have distinct dedup keys, since decimal strings hold no comma. */
  lemma KeyInjective(a: Pair, b: Pair)
    ensures Key(a) == Key(b) ==> a == b
  {
    if Key(a) == Key(b) {
      var sa, sb := ToDecimal(a.0), ToDecimal(b.0);
      SplitAtComma(sa, ToDecimal(a.1), sb, ToDecimal(b.1));
      ToDecimalInjective(a.0, b.0);
      ToDecimalInjective(a.1, b.1);
    }
  }

  /** The contents of the `factors` set after the pairs ms were accepted: each accepted pair
      adds its own key and its mirror image's. */
  function Keys(ms: seq<Pair>): set<string>
  {
    if ms == [] then {}
    else Keys(ms[..|ms| - 1]) + {Key(ms[|ms| - 1]), Key(Swap(ms[|ms| - 1]))}
  }

  /** A candidate's key is in `factors` exactly when the candidate or its mirror image has
      been accepted. */
  lemma {:induction false} KeysMembership(ms: seq<Pair>, c: Pair)
    ensures Key(c) in Keys(ms) <==> c in ms || Swap(c) in ms
  {
    if ms != [] {
      var init, last := ms[..|ms| - 1], ms[|ms| - 1];
      assert ms == init + [last];
      KeysMembership(init, c);
      KeyInjective(c, last);
      KeyInjective(c, Swap(last));
      assert Swap(c) == last <==> c == Swap(last);
    }
  }

  /** One step of the scripts' inner loop, stated on the `factors` set and the string
      comparison, agrees with `Visit`. */
  lemma VisitByKeys(ms: seq<Pair>, c: Pair, n: nat, d: nat, check: TrailingCheck)
    requires d < DigitCount(n)
    ensures Visit(ms, c, n, d, check) ==
            if Key(c) in Keys(ms) || !TrailingDigitsMatch(Product(c), ToDecimal(n), d, check)
               || Product(c) > n
            then ms else ms + [c]
    ensures Keys(ms + [c]) == Keys(ms) + {Key(c), Key(Swap(c))}
  {
    KeysMembership(ms, c);
    TrailingDigitsMatchIff(Product(c), n, d, check);
    KeysAppend(ms, c);
  }

  lemma KeysAppend(ms: seq<Pair>, c: Pair)
    ensures Keys(ms + [c]) == Keys(ms) + {Key(c), Key(Swap(c))}
  {
    assert (ms + [c])[..|ms|] == ms;
  }
}
