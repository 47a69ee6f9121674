/** What one digit iteration and the whole search guarantee, proved on the arithmetic
    specification in DigitSearch (which Engine's methods are proved to compute). */
module SearchProperties {
  import opened Arith
  import opened Decimal
  import opened DigitSearch

  /** No pair occurs twice, and no two entries are mirror images of each other. */
  predicate NoTwins(ms: seq<Pair>)
  {
    forall i, j :: 0 <= i < j < |ms| ==> ms[i] != ms[j] && ms[i] != Swap(ms[j])
  }

  /** m is built from some pair of f by one digit pair at position 10^d. */
  predicate IsCandidateOf(f: seq<Pair>, d: nat, m: Pair)
  {
    exists i, left, right :: 0 <= i < |f| && 0 <= left < 10 && 0 <= right < 10
                            && m == Candidate(f[i], d, left, right)
  }

  /** Every entry of ms passed both tests and came from f. */
  predicate Sound(ms: seq<Pair>, f: seq<Pair>, n: nat, d: nat, check: TrailingCheck)
  {
    forall m :: m in ms ==> Admissible(m, n, d, check) && IsCandidateOf(f, d, m)
  }

  /** If c passes both tests, then c or its mirror image is in ms. */
  predicate Covered(ms: seq<Pair>, c: Pair, n: nat, d: nat, check: TrailingCheck)
  {
    Admissible(c, n, d, check) ==> c in ms || Swap(c) in ms
  }

  lemma CoveredGrows(ms: seq<Pair>, r: seq<Pair>, c: Pair, n: nat, d: nat, check: TrailingCheck)
    requires ms <= r && Covered(ms, c, n, d, check)
    ensures Covered(r, c, n, d, check)
  {
    assert ms == r[..|ms|];
    if c in ms {
      var t :| 0 <= t < |ms| && ms[t] == c;
      assert r[t] == c;
    } else if Swap(c) in ms {
      var t :| 0 <= t < |ms| && ms[t] == Swap(c);
      assert r[t] == Swap(c);
    }
  }

  lemma VisitFacts(ms: seq<Pair>, c: Pair, f: seq<Pair>, n: nat, d: nat, check: TrailingCheck)
    requires NoTwins(ms) && Sound(ms, f, n, d, check) && IsCandidateOf(f, d, c)
    ensures var r := Visit(ms, c, n, d, check);
            ms <= r && |r| <= |ms| + 1 && NoTwins(r) && Sound(r, f, n, d, check)
            && Covered(r, c, n, d, check)
  {
  }

  lemma {:induction false} ScanRowFacts(ms: seq<Pair>, f: seq<Pair>, i: nat, left: nat, k: nat,
                                        n: nat, d: nat, check: TrailingCheck)
    requires i < |f| && left < 10 && k <= 10
    requires NoTwins(ms) && Sound(ms, f, n, d, check)
    ensures var r := ScanRow(ms, f[i], left, k, n, d, check);
            ms <= r && |r| <= |ms| + k && NoTwins(r) && Sound(r, f, n, d, check)
            && forall right :: 0 <= right < k ==> Covered(r, Candidate(f[i], d, left, right), n, d, check)
  {
    if k > 0 {
      var prev := ScanRow(ms, f[i], left, k - 1, n, d, check);
      var c := Candidate(f[i], d, left, k - 1);
      ScanRowFacts(ms, f, i, left, k - 1, n, d, check);
      assert IsCandidateOf(f, d, c);
      VisitFacts(prev, c, f, n, d, check);
      var r := Visit(prev, c, n, d, check);
      forall right | 0 <= right < k
        ensures Covered(r, Candidate(f[i], d, left, right), n, d, check)
      {
        if right < k - 1 {
          CoveredGrows(prev, r, Candidate(f[i], d, left, right), n, d, check);
        }
      }
    }
  }

  lemma {:induction false} ScanPairFacts(ms: seq<Pair>, f: seq<Pair>, i: nat, k: nat,
                                         n: nat, d: nat, check: TrailingCheck)
    requires i < |f| && k <= 10
    requires NoTwins(ms) && Sound(ms, f, n, d, check)
    ensures var r := ScanPair(ms, f[i], k, n, d, check);
            ms <= r && |r| <= |ms| + 10 * k && NoTwins(r) && Sound(r, f, n, d, check)
            && forall left, right :: 0 <= left < k && 0 <= right < 10 ==>
                 Covered(r, Candidate(f[i], d, left, right), n, d, check)
  {
    if k > 0 {
      var prev := ScanPair(ms, f[i], k - 1, n, d, check);
      ScanPairFacts(ms, f, i, k - 1, n, d, check);
      ScanRowFacts(prev, f, i, k - 1, 10, n, d, check);
      var r := ScanRow(prev, f[i], k - 1, 10, n, d, check);
      forall left, right | 0 <= left < k && 0 <= right < 10
        ensures Covered(r, Candidate(f[i], d, left, right), n, d, check)
      {
        if left < k - 1 {
          CoveredGrows(prev, r, Candidate(f[i], d, left, right), n, d, check);
        }
      }
    }
  }

  lemma {:induction false} ScanFrontierFacts(f: seq<Pair>, k: nat, n: nat, d: nat, check: TrailingCheck)
    requires k <= |f|
    ensures var r := ScanFrontier(f, k, n, d, check);
            |r| <= 100 * k && NoTwins(r) && Sound(r, f, n, d, check)
            && forall i, left, right :: 0 <= i < k && 0 <= left < 10 && 0 <= right < 10 ==>
                 Covered(r, Candidate(f[i], d, left, right), n, d, check)
  {
    if k > 0 {
      var prev := ScanFrontier(f, k - 1, n, d, check);
      ScanFrontierFacts(f, k - 1, n, d, check);
      ScanPairFacts(prev, f, k - 1, 10, n, d, check);
      var r := ScanPair(prev, f[k - 1], 10, n, d, check);
      forall i, left, right | 0 <= i < k && 0 <= left < 10 && 0 <= right < 10
        ensures Covered(r, Candidate(f[i], d, left, right), n, d, check)
      {
        if i < k - 1 {
          CoveredGrows(prev, r, Candidate(f[i], d, left, right), n, d, check);
        }
      }
    }
  }

  // ---------------------------------------------------------------------------------
  // One digit iteration.

  /** Every pair a digit iteration appends passed the trailing-digit test and the bound,
      and is a frontier pair with one more digit on each side. */
  lemma ExtendSound(f: seq<Pair>, n: nat, d: nat, check: TrailingCheck)
    ensures Sound(Extend(f, n, d, check), f, n, d, check)
  {
    ScanFrontierFacts(f, |f|, n, d, check);
  }

  /** Within one iteration no pair is appended twice, and a pair and its mirror image are
      never both appended. */
  lemma ExtendNoTwins(f: seq<Pair>, n: nat, d: nat, check: TrailingCheck)
    ensures NoTwins(Extend(f, n, d, check))
  {
    ScanFrontierFacts(f, |f|, n, d, check);
  }

  /** Every candidate that passes both tests ends up in the next frontier, itself or as its
      mirror image: deduplication loses nothing but the order of a pair. */
  lemma ExtendCovers(f: seq<Pair>, n: nat, d: nat, check: TrailingCheck)
    ensures forall i, left, right :: 0 <= i < |f| && 0 <= left < 10 && 0 <= right < 10 ==>
              Covered(Extend(f, n, d, check), Candidate(f[i], d, left, right), n, d, check)
  {
    ScanFrontierFacts(f, |f|, n, d, check);
  }

  /** The next frontier has at most 100 pairs per pair of the current one. */
  lemma ExtendSize(f: seq<Pair>, n: nat, d: nat, check: TrailingCheck)
    ensures |Extend(f, n, d, check)| <= 100 * |f|
  {
    ScanFrontierFacts(f, |f|, n, d, check);
  }

  // ---------------------------------------------------------------------------------
  // The frontier after k iterations.

  lemma CandidateBound(p: Pair, d: nat, left: nat, right: nat)
    requires p.0 < Pow10(d) && p.1 < Pow10(d) && left < 10 && right < 10
    ensures Candidate(p, d, left, right).0 < Pow10(d + 1)
    ensures Candidate(p, d, left, right).1 < Pow10(d + 1)
  {
    MulMono(left, Pow10(d), 9, Pow10(d));
    MulMono(right, Pow10(d), 9, Pow10(d));
  }

  /** After k iterations both components of every frontier pair are below 10^k, and (for
      k >= 1) every pair passed both tests at digit k-1: its product agrees with n in the
      low k digits and does not exceed n. */
  lemma {:induction false} FrontierBounded(n: nat, check: TrailingCheck, k: nat)
    ensures forall m :: m in Frontier(n, check, k) ==>
              m.0 < Pow10(k) && m.1 < Pow10(k) && (k >= 1 ==> Admissible(m, n, k - 1, check))
  {
    if k > 0 {
      var f := Frontier(n, check, k - 1);
      FrontierBounded(n, check, k - 1);
      ExtendSound(f, n, k - 1, check);
      forall m | m in Frontier(n, check, k)
        ensures m.0 < Pow10(k) && m.1 < Pow10(k)
      {
        var i, left, right :| 0 <= i < |f| && 0 <= left < 10 && 0 <= right < 10
                             && m == Candidate(f[i], k - 1, left, right);
        assert f[i] in f;
        CandidateBound(f[i], k - 1, left, right);
      }
    }
  }

  /** Each frontier is free of repeated and mirrored pairs. */
  lemma FrontierNoTwins(n: nat, check: TrailingCheck, k: nat)
    ensures NoTwins(Frontier(n, check, k))
  {
    if k > 0 {
      ExtendNoTwins(Frontier(n, check, k - 1), n, k - 1, check);
    }
  }

  /** Each iteration multiplies the frontier's length by at most 100. */
  lemma {:induction false} FrontierSize(n: nat, check: TrailingCheck, k: nat)
    ensures |Frontier(n, check, k)| <= Pow10(2 * k)
  {
    if k > 0 {
      FrontierSize(n, check, k - 1);
      ExtendSize(Frontier(n, check, k - 1), n, k - 1, check);
      assert Pow10(2 * k) == 100 * Pow10(2 * (k - 1));
    }
  }

  // ---------------------------------------------------------------------------------
  // The verification pass.

  /** The verification pass keeps exactly the pairs whose product is n. */
  lemma {:induction false} ExactPairsMembers(s: seq<Pair>, n: nat)
    ensures forall m :: m in ExactPairs(s, n) <==> m in s && Product(m) == n
    ensures |ExactPairs(s, n)| <= |s|
  {
    if s != [] {
      ExactPairsMembers(s[..|s| - 1], n);
      assert s == s[..|s| - 1] + [s[|s| - 1]];
    }
  }

  /** The verification pass keeps the frontier's order: filtering a concatenation filters
      each part and concatenates the results. */
  lemma {:induction false} ExactPairsAppend(s: seq<Pair>, t: seq<Pair>, n: nat)
    ensures ExactPairs(s + t, n) == ExactPairs(s, n) + ExactPairs(t, n)
  {
    if t != [] {
      var init := t[..|t| - 1];
      ExactPairsAppend(s, init, n);
      assert (s + t)[..|s + t| - 1] == s + init;
      assert (s + t)[|s + t| - 1] == t[|t| - 1];
    } else {
      assert s + t == s;
    }
  }

  /** Filtering keeps the frontier free of repeated and mirrored pairs. */
  lemma {:induction false} ExactPairsNoTwins(s: seq<Pair>, n: nat)
    requires NoTwins(s)
    ensures NoTwins(ExactPairs(s, n))
  {
    if s != [] {
      var init, last := s[..|s| - 1], s[|s| - 1];
      assert NoTwins(init) by {
        forall i, j | 0 <= i < j < |init| ensures init[i] != init[j] && init[i] != Swap(init[j]) {
          assert init[i] == s[i] && init[j] == s[j];
        }
      }
      ExactPairsNoTwins(init, n);
      ExactPairsMembers(init, n);
      var e := ExactPairs(init, n);
      if Product(last) == n {
        var r := e + [last];
        forall i, j | 0 <= i < j < |r| ensures r[i] != r[j] && r[i] != Swap(r[j]) {
          if j < |e| {
            assert r[i] == e[i] && r[j] == e[j];
          } else {
            assert r[i] == e[i] && e[i] in init;
            var t :| 0 <= t < |init| && init[t] == e[i];
            assert s[t] == r[i] && s[|s| - 1] == r[j];
          }
        }
      }
    }
  }

  // ---------------------------------------------------------------------------------
  // The whole search.

  /** A negative input fails with SyntaxError before any search. Otherwise every output pair
      multiplies to the input exactly, has components below 10^D for the input's digit
      count D, and no pair is output twice or together with its mirror image. */
  lemma FactorSound(input: int, check: TrailingCheck)
    ensures input < 0 <==> Factor(input, check).Failure?
    ensures input < 0 ==> Factor(input, check) == Failure(SyntaxError(NegativeInputMessage))
    ensures input >= 0 ==> forall m :: m in Factor(input, check).value ==>
              Product(m) == input && m.0 < Pow10(DigitCount(input)) && m.1 < Pow10(DigitCount(input))
    ensures input >= 0 ==> NoTwins(Factor(input, check).value)
  {
    if input >= 0 {
      var f := Frontier(input, check, DigitCount(input));
      ExactPairsMembers(f, input);
      FrontierBounded(input, check, DigitCount(input));
      FrontierNoTwins(input, check, DigitCount(input));
      ExactPairsNoTwins(f, input);
    }
  }

  /** The low digits of two true factors form a pair that passes the zero-padded test and
      the bound, in either order. */
  lemma FactorPrefixAdmissible(a: nat, b: nat, n: nat, d: nat)
    requires a * b == n
    ensures var q := Pow10(d + 1);
            Admissible((a % q, b % q), n, d, ZeroPadded) && Admissible((b % q, a % q), n, d, ZeroPadded)
  {
    var q := Pow10(d + 1);
    var x, y := a % q, b % q;
    ModMul(a, b, q);
    ModAtMost(a, q);
    ModAtMost(b, q);
    MulMono(x, y, a, b);
    assert Product((x, y)) == x * y == y * x == Product((y, x));
  }

  /** With the zero-padded test, the low k digits of any factorization a * b == n survive k
      iterations, in one order or the other. */
  lemma {:induction false} FrontierTracksFactors(n: nat, a: nat, b: nat, k: nat)
    requires a * b == n && k <= DigitCount(n)
    ensures var q := Pow10(k);
            (a % q, b % q) in Frontier(n, ZeroPadded, k) || (b % q, a % q) in Frontier(n, ZeroPadded, k)
  {
    if k > 0 {
      var p := Pow10(k - 1);
      var f := Frontier(n, ZeroPadded, k - 1);
      FrontierTracksFactors(n, a, b, k - 1);
      ModSplitHigh(a, p);
      ModSplitHigh(b, p);
      var x, y := (a / p) % 10, (b / p) % 10;
      var c := (a % (10 * p), b % (10 * p));
      FactorPrefixAdmissible(a, b, n, k - 1);
      ExtendCovers(f, n, k - 1, ZeroPadded);
      if (a % p, b % p) in f {
        var i :| 0 <= i < |f| && f[i] == (a % p, b % p);
        assert Candidate(f[i], k - 1, x, y) == c;
      } else {
        var i :| 0 <= i < |f| && f[i] == (b % p, a % p);
        assert Candidate(f[i], k - 1, y, x) == Swap(c);
      }
    }
  }

  /** A factorization that is in the last frontier, in either order, passes the
      verification pass. */
  lemma FactorSurvivesVerification(f: seq<Pair>, n: nat, a: nat, b: nat)
    requires a * b == n && ((a, b) in f || (b, a) in f)
    ensures (a, b) in ExactPairs(f, n) || (b, a) in ExactPairs(f, n)
  {
    ExactPairsMembers(f, n);
    assert Product((a, b)) == n && Product((b, a)) == n by {
      assert b * a == a * b;
    }
  }

  /** The factorization a * b == n reaches the output of the zero-padded search. */
  lemma PaddedFindsFactor(n: nat, a: nat, b: nat)
    requires a * b == n && a < Pow10(DigitCount(n)) && b < Pow10(DigitCount(n))
    ensures (a, b) in Factor(n, ZeroPadded).value || (b, a) in Factor(n, ZeroPadded).value
  {
    var q := Pow10(DigitCount(n));
    var f := Frontier(n, ZeroPadded, DigitCount(n));
    FrontierTracksFactors(n, a, b, DigitCount(n));
    ModAtMost(a, q);
    ModAtMost(b, q);
    assert (a, b) in f || (b, a) in f;
    FactorSurvivesVerification(f, n, a, b);
    FactorRuns(n, ZeroPadded);
  }

  /** Completeness of the zero-padded search: for every factorization a * b == n whose
      factors have at most as many digits as n, exactly one of (a, b) and (b, a) is output
      (the same pair when a == b). */
  lemma PaddedComplete(n: nat, a: nat, b: nat)
    requires a * b == n && a < Pow10(DigitCount(n)) && b < Pow10(DigitCount(n))
    ensures (a, b) in Factor(n, ZeroPadded).value || (b, a) in Factor(n, ZeroPadded).value
    ensures a != b ==> !((a, b) in Factor(n, ZeroPadded).value && (b, a) in Factor(n, ZeroPadded).value)
  {
    PaddedFindsFactor(n, a, b);
    var f := Frontier(n, ZeroPadded, DigitCount(n));
    FactorRuns(n, ZeroPadded);
    FrontierNoTwins(n, ZeroPadded, DigitCount(n));
    ExactPairsNoTwins(f, n);
    NoTwinsExcludesMirror(ExactPairs(f, n), (a, b));
  }

  /** A sequence without twins never holds both a pair and its distinct mirror image. */
  lemma NoTwinsExcludesMirror(ms: seq<Pair>, m: Pair)
    requires NoTwins(ms)
    ensures m != Swap(m) ==> !(m in ms && Swap(m) in ms)
  {
    forall i, j | 0 <= i < |ms| && 0 <= j < |ms|
      ensures ms[i] == m && ms[j] == Swap(m) ==> m == Swap(m)
    {
    }
  }

  /** A twin-free list whose entries are all m or its mirror image, and which starts with
      m, is just [m]. */
  lemma NoTwinsSingleton(ms: seq<Pair>, m: Pair)
    requires NoTwins(ms) && |ms| >= 1 && ms[0] == m
    requires forall x :: x in ms ==> x == m || x == Swap(m)
    ensures ms == [m]
  {
    Occurs(ms, 1);
  }

  /** Index i of ms, when it exists, is a member of ms. Stated as an implication so that
      callers can use it without first splitting on the length of ms. */
  lemma Occurs(ms: seq<Pair>, i: nat)
    ensures i < |ms| ==> ms[i] in ms
  {
  }

  // ---------------------------------------------------------------------------------
  // Concrete inputs.

  /** Later candidates only append: an earlier state of a scan is a prefix of a later one. */
  lemma {:induction false} ScanRowPrefix(ms: seq<Pair>, p: Pair, left: nat, j: nat, k: nat,
                                         n: nat, d: nat, check: TrailingCheck)
    requires j <= k
    ensures ScanRow(ms, p, left, j, n, d, check) <= ScanRow(ms, p, left, k, n, d, check)
  {
    if j < k {
      ScanRowPrefix(ms, p, left, j, k - 1, n, d, check);
    }
  }

  lemma {:induction false} ScanPairPrefix(ms: seq<Pair>, p: Pair, j: nat, k: nat,
                                          n: nat, d: nat, check: TrailingCheck)
    requires j <= k
    ensures ScanPair(ms, p, j, n, d, check) <= ScanPair(ms, p, k, n, d, check)
  {
    if j < k {
      ScanPairPrefix(ms, p, j, k - 1, n, d, check);
      ScanRowPrefix(ScanPair(ms, p, k - 1, n, d, check), p, k - 1, 0, 10, n, d, check);
    }
  }

  /** When every pair multiplies to n, the verification pass keeps them all. */
  lemma {:induction false} ExactPairsKeepsAll(s: seq<Pair>, n: nat)
    requires forall m :: m in s ==> Product(m) == n
    ensures ExactPairs(s, n) == s
  {
    if s != [] {
      assert s[|s| - 1] in s;
      ExactPairsKeepsAll(s[..|s| - 1], n);
    }
  }

  /** The pairs (0, 0), (0, 1), ..., (0, k-1). */
  function ZeroRow(k: nat): seq<Pair>
  {
    seq(k, j requires 0 <= j => (0, j as nat))
  }

  lemma ZeroRowGrows(k: nat)
    ensures (0, k) !in ZeroRow(k) && (k, 0) !in ZeroRow(k)
    ensures ZeroRow(k + 1) == ZeroRow(k) + [(0, k)]
  {
    forall j | 0 <= j < k
      ensures ZeroRow(k)[j] != (0, k) && ZeroRow(k)[j] != (k, 0)
    {
      assert ZeroRow(k)[j] == (0, j);
    }
  }

  lemma ZeroRowProducts(k: nat)
    ensures forall m :: m in ZeroRow(k) ==> Product(m) == 0
  {
    forall m | m in ZeroRow(k)
      ensures Product(m) == 0
    {
      var j :| 0 <= j < k && ZeroRow(k)[j] == m;
    }
  }

  /** For input 0, row left = 0 of the single iteration appends (0, 0) .. (0, k-1). */
  lemma {:induction false} ZeroFirstRow(k: nat, check: TrailingCheck)
    requires k <= 10
    ensures ScanRow([], (0, 0), 0, k, 0, 0, check) == ZeroRow(k)
  {
    if k > 0 {
      ZeroFirstRow(k - 1, check);
      var prev := ZeroRow(k - 1);
      var c := Candidate((0, 0), 0, 0, k - 1);
      assert c == (0, k - 1);
      assert Admissible(c, 0, 0, check) by {
        assert Product(c) == 0;
      }
      ZeroRowGrows(k - 1);
      assert Visit(prev, c, 0, 0, check) == prev + [c];
    }
  }

  /** For input 0, the rows left = 1 .. 9 append nothing: (left, 0) mirrors an accepted
      (0, left), and any other candidate has a non-zero product. */
  lemma {:induction false} ZeroLaterRow(left: nat, k: nat, check: TrailingCheck)
    requires 1 <= left < 10 && k <= 10
    ensures ScanRow(ZeroRow(10), (0, 0), left, k, 0, 0, check) == ZeroRow(10)
  {
    if k > 0 {
      ZeroLaterRow(left, k - 1, check);
      var c := Candidate((0, 0), 0, left, k - 1);
      assert c == (left, k - 1);
      if k - 1 == 0 {
        assert Swap(c) == ZeroRow(10)[left];
      } else {
        MulMono(1, 1, left, k - 1);
        assert !Admissible(c, 0, 0, check);
      }
    }
  }

  lemma {:induction false} ZeroPairScan(k: nat, check: TrailingCheck)
    requires 1 <= k <= 10
    ensures ScanPair([], (0, 0), k, 0, 0, check) == ZeroRow(10)
  {
    if k == 1 {
      ZeroFirstRow(10, check);
    } else {
      ZeroPairScan(k - 1, check);
      ZeroLaterRow(k - 1, 10, check);
    }
  }

  /** For input 0 the single iteration leaves (0, 0), (0, 1), ..., (0, 9), and all of them
      pass the verification pass. */
  lemma ZeroOutputs(check: TrailingCheck)
    ensures ExactPairs(Frontier(0, check, 1), 0) == ZeroRow(10)
  {
    var f := Frontier(0, check, 1);
    assert f == ScanPair([], (0, 0), 10, 0, 0, check) by {
      assert f == ScanFrontier([(0, 0)], 1, 0, 0, check);
    }
    ZeroPairScan(10, check);
    ZeroRowProducts(10);
    ExactPairsKeepsAll(ZeroRow(10), 0);
  }

  /** A non-negative input runs one iteration per decimal digit before the verification pass. */
  lemma FactorRuns(n: nat, check: TrailingCheck)
    ensures Factor(n, check) == Success(ExactPairs(Frontier(n, check, DigitCount(n)), n))
  {
  }

  lemma ZeroRowTen()
    ensures ZeroRow(10) == [(0, 0), (0, 1), (0, 2), (0, 3), (0, 4), (0, 5), (0, 6), (0, 7), (0, 8), (0, 9)]
  {
  }

  /** For input 0 both scripts run one iteration and output exactly (0, 0), (0, 1), ...,
      (0, 9): (left, 0) with left >= 1 is suppressed as the mirror image of (0, left), and
      every other candidate has a product above 0. */
  lemma FactorOfZero(check: TrailingCheck)
    ensures Factor(0, check) == Success([(0, 0), (0, 1), (0, 2), (0, 3), (0, 4),
                                         (0, 5), (0, 6), (0, 7), (0, 8), (0, 9)])
  {
    assert Factor(0, check) == Success(ZeroRow(10)) by {
      FactorRuns(0, check);
      assert DigitCount(0) == 1;
      ZeroOutputs(check);
    }
    ZeroRowTen();
  }
}
