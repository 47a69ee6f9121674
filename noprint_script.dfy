/** src/noprint.ts: the search with the zero-padded trailing-digit comparison. Its printing
    (a status line per iteration, the elapsed time, the count and the final list) is left
    out. */
module NoPrintScript {
  import opened Arith
  import opened Decimal
  import opened DigitSearch
  import opened SearchProperties
  import Engine

  /** The script from the parsed input to its outputs: a negative input throws SyntaxError;
      otherwise every output pair multiplies to the input, no pair is listed twice or
      together with its mirror image, and every factorization into numbers with no more digits than
      the input is listed in one order or the other. */
  method Run(inputBigInt: int) returns (r: Result<seq<Pair>>)
    ensures r == Factor(inputBigInt, ZeroPadded)
    ensures r.Failure? <==> inputBigInt < 0
    ensures r.Failure? ==> r.error == SyntaxError(NegativeInputMessage)
    ensures r.Success? ==> forall m :: m in r.value ==> Product(m) == inputBigInt
    ensures r.Success? ==> NoTwins(r.value)
    ensures r.Success? ==>
              inputBigInt >= 0
              && forall a: nat, b: nat ::
                   (a * b == inputBigInt && a < Pow10(DigitCount(inputBigInt))
                    && b < Pow10(DigitCount(inputBigInt)))
                   ==> (a, b) in r.value || (b, a) in r.value
  {
    r := Engine.Factorize(inputBigInt, ZeroPadded);
    FactorSound(inputBigInt, ZeroPadded);
    if inputBigInt >= 0 {
      var n: nat := inputBigInt;
      forall a: nat, b: nat | a * b == n && a < Pow10(DigitCount(n)) && b < Pow10(DigitCount(n))
        ensures (a, b) in r.value || (b, a) in r.value
      {
        PaddedComplete(n, a, b);
      }
    }
  }

  // The lemmas below take the input as a parameter n == 101 rather than as a literal, so
  // that the verifier does not try to evaluate the whole search on a constant.

  /** (1, 1) passes the zero-padded test and the bound for 101 at digits 0 and 1: its
      product 1 ends in 1 and in 01. */
  lemma OnesAdmissible101(n: nat)
    requires n == 101
    ensures Admissible((1, 1), n, 0, ZeroPadded) && Admissible((1, 1), n, 1, ZeroPadded)
  {
    assert Pow10(1) == 10 && Pow10(2) == 100;
    assert n % 10 == 1 && n % 100 == 1;
  }

  /** After the first iteration for 101 the frontier holds (1, 1): its product 1 ends in
      the digit 1 and does not exceed 101. */
  lemma OnesInFirstFrontier101(n: nat)
    requires n == 101
    ensures (1, 1) in Frontier(n, ZeroPadded, 1)
  {
    ExtendCovers([(0, 0)], n, 0, ZeroPadded);
    assert Candidate((0, 0), 0, 1, 1) == (1, 1);
    OnesAdmissible101(n);
  }

  /** Every pair that survives two iterations for 101 is (1, 1): it has components below
      100 and a product ending in 01 and at most 101, so a product of 1 (the product 101
      would need a component of 101). */
  lemma PaddedFrontier2Members(n: nat)
    requires n == 101
    ensures forall m :: m in Frontier(n, ZeroPadded, 2) ==> m == (1, 1)
  {
    assert Pow10(2) == 100 && Pow10(1) == 10;
    FrontierBounded(n, ZeroPadded, 2);
    forall m | m in Frontier(n, ZeroPadded, 2)
      ensures m == (1, 1)
    {
      var x := Product(m);
      assert x % 100 == 1 && x <= 101;
      EndsIn01(x);
      if x == 101 {
        Factors101(m.0, m.1);
      }
      FactorsOfOne(m.0, m.1);
    }
  }

  /** (1, 1) also survives the second iteration for 101: its product 1 ends in 01. */
  lemma OnesInSecondFrontier101(n: nat)
    requires n == 101
    ensures (1, 1) in Frontier(n, ZeroPadded, 2)
  {
    var f1 := Frontier(n, ZeroPadded, 1);
    OnesInFirstFrontier101(n);
    var i :| 0 <= i < |f1| && f1[i] == (1, 1);
    ExtendCovers(f1, n, 1, ZeroPadded);
    assert Candidate(f1[i], 1, 0, 0) == (1, 1);
    OnesAdmissible101(n);
  }

  /** After two iterations for 101 the frontier is exactly [(1, 1)]. */
  lemma PaddedFrontier2(n: nat)
    requires n == 101
    ensures Frontier(n, ZeroPadded, 2) == [(1, 1)]
  {
    var f := Frontier(n, ZeroPadded, 2);
    OnesInSecondFrontier101(n);
    PaddedFrontier2Members(n);
    FrontierNoTwins(n, ZeroPadded, 2);
    assert f[0] in f;
    NoTwinsSingleton(f, (1, 1));
  }

  /** The first candidates of the third iteration for 101, from (1, 1) with left digit 0:
      (1, 1) ends in 001 and is dropped, (1, 101) is accepted. */
  lemma PaddedThirdRow101(n: nat)
    requires n == 101
    ensures ScanRow([], (1, 1), 0, 2, n, 2, ZeroPadded) == [(1, 101)]
  {
    assert Pow10(2) == 100 && Pow10(3) == 1000;
    assert Candidate((1, 1), 2, 0, 0) == (1, 1);
    assert Candidate((1, 1), 2, 0, 1) == (1, 101);
    assert !Admissible((1, 1), n, 2, ZeroPadded);
    assert ScanRow([], (1, 1), 0, 1, n, 2, ZeroPadded) == [];
    assert Admissible((1, 101), n, 2, ZeroPadded);
  }

  /** The third frontier for 101 starts with (1, 101), which is reached before its mirror
      image (101, 1). */
  lemma PaddedFrontier3Starts(n: nat)
    requires n == 101
    ensures [(1, 101)] <= Frontier(n, ZeroPadded, 3)
  {
    PaddedFrontier2(n);
    assert Frontier(n, ZeroPadded, 3) == ScanFrontier([(1, 1)], 1, n, 2, ZeroPadded);
    assert ScanFrontier([(1, 1)], 1, n, 2, ZeroPadded) == ScanPair([], (1, 1), 10, n, 2, ZeroPadded);
    PaddedThirdRow101(n);
    ScanRowPrefix([], (1, 1), 0, 2, 10, n, 2, ZeroPadded);
    ScanPairPrefix([], (1, 1), 1, 10, n, 2, ZeroPadded);
  }

  /** Every pair of the third frontier for 101 multiplies to 101, so it is 1 x 101 in one
      order or the other. */
  lemma PaddedFrontier3Members(n: nat)
    requires n == 101
    ensures forall m :: m in Frontier(n, ZeroPadded, 3) ==> m == (1, 101) || m == (101, 1)
  {
    FrontierBounded(n, ZeroPadded, 3);
    assert Pow10(3) == 1000;
    forall m | m in Frontier(n, ZeroPadded, 3)
      ensures m == (1, 101) || m == (101, 1)
    {
      var x := Product(m);
      ModAtMost(x, 1000);
      assert x % 1000 == 101 && x <= 101;
      Factors101(m.0, m.1);
    }
  }

  /** After three iterations for 101 the frontier is exactly [(1, 101)]. */
  lemma PaddedFrontier3(n: nat)
    requires n == 101
    ensures Frontier(n, ZeroPadded, 3) == [(1, 101)]
  {
    PaddedFrontier3Starts(n);
    PaddedFrontier3Members(n);
    FrontierNoTwins(n, ZeroPadded, 3);
    NoTwinsSingleton(Frontier(n, ZeroPadded, 3), (1, 101));
  }

  /** For 101 the script outputs exactly the factorization 1 x 101. */
  lemma PaddedFinds101()
    ensures Factor(101, ZeroPadded) == Success([(1, 101)])
  {
    assert DigitCount(101) == 3 by {
      assert ToDecimal(101) == ToDecimal(10) + ['1'];
    }
    PaddedFrontier3(101);
    ExactPairsKeepsAll([(1, 101)], 101);
  }
}
