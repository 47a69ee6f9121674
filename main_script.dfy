/** src/main.ts: the search with the unpadded trailing-digit comparison, with its
    per-match and per-iteration printing left out. */
module MainScript {
  import opened Arith
  import opened Decimal
  import opened DigitSearch
  import opened SearchProperties
  import Engine

  /** The script from the parsed input to its outputs: a negative input throws SyntaxError,
      otherwise every output pair multiplies to the input, and no pair is listed twice or
      together with its mirror image. */
  method Run(inputBigInt: int) returns (r: Result<seq<Pair>>)
    ensures r == Factor(inputBigInt, Unpadded)
    ensures r.Failure? <==> inputBigInt < 0
    ensures r.Failure? ==> r.error == SyntaxError(NegativeInputMessage)
    ensures r.Success? ==> forall m :: m in r.value ==> Product(m) == inputBigInt
    ensures r.Success? ==> NoTwins(r.value)
  {
    r := Engine.Factorize(inputBigInt, Unpadded);
    FactorSound(inputBigInt, Unpadded);
  }

  /** At digit 1 the unpadded comparison sets "1" (the product of (1, 1)) against "01" (the
      last two characters of "101") and rejects it; zero-padding the product first to "01"
      would accept it. */
  lemma PaddingDecides101()
    ensures !TrailingDigitsMatch(1, ToDecimal(101), 1, Unpadded)
    ensures TrailingDigitsMatch(1, ToDecimal(101), 1, ZeroPadded)
  {
    assert ToDecimal(101) == "101" by {
      assert ToDecimal(10) == "10";
    }
    assert |Slice("101", -2)| == 2 && Slice("101", -2) == "01";
    assert |Slice(ToDecimal(1), -2)| == 1 && Slice(ToDecimal(1), -2) == "1";
    assert PadStart(ToDecimal(1), 2, '0') == "01";
    assert |Slice("01", -2)| == 2 && Slice("01", -2) == "01";
  }

  /** A pair that survives two unpadded iterations for 101 has components below 100, at
      least two product digits, and a product ending in 01 and at most 101, so a product of
      exactly 101: it is 1 x 101 in one order or the other. (The input is a parameter
      n == 101 so that the verifier does not evaluate the search on a constant.) */
  lemma UnpaddedSurvivors101(n: nat)
    requires n == 101
    ensures forall m :: m in Frontier(n, Unpadded, 2) ==>
              m.0 < 100 && m.1 < 100 && (m == (1, 101) || m == (101, 1))
  {
    FrontierBounded(n, Unpadded, 2);
    assert Pow10(2) == 100 && Pow10(1) == 10;
    forall m | m in Frontier(n, Unpadded, 2)
      ensures m == (1, 101) || m == (101, 1)
    {
      var x := Product(m);
      assert x % 100 == 1 && 10 <= x <= 101;
      EndsIn01(x);
      Factors101(m.0, m.1);
    }
  }

  /** Under the unpadded comparison no pair survives two iterations for 101, since both
      orders of 1 x 101 have a component of three digits. */
  lemma UnpaddedFrontier101(n: nat)
    requires n == 101
    ensures Frontier(n, Unpadded, 2) == []
  {
    UnpaddedSurvivors101(n);
    Occurs(Frontier(n, Unpadded, 2), 0);
  }

  /** For 101 the script outputs nothing, although 1 * 101 == 101 and both factors have at
      most three digits: the unpadded comparison loses the factorization 1 x 101. */
  lemma UnpaddedMisses101()
    ensures Factor(101, Unpadded) == Success([])
    ensures 1 * 101 == 101 && 101 < Pow10(DigitCount(101))
    ensures (1, 101) !in Factor(101, Unpadded).value && (101, 1) !in Factor(101, Unpadded).value
  {
    assert DigitCount(101) == 3 by {
      assert ToDecimal(101) == ToDecimal(10) + ['1'];
    }
    assert Pow10(3) == 1000;
    UnpaddedFrontier101(101);
    assert Frontier(101, Unpadded, 3) == Extend([], 101, 2, Unpadded) == [];
  }
}
