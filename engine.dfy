/** The search loop of the scripts, statement by statement, proved equal to the arithmetic
    specification in DigitSearch. Status printing and timing are left out. */
module Engine {
  import opened Arith
  import opened Decimal
  import opened DigitSearch

  /** One pass of the digit loop: every pair of `solutions` is extended by every digit pair
      at position 10^digits, candidates whose "a,b" key is already in `factors` are skipped,
      and the survivors of the trailing-digit test and the bound are appended to `matches`.
      `factors` starts empty here because the scripts clear it at the end of every pass. */
  method ExtendFrontier(solutions: seq<Pair>, inputBigInt: nat, inputString: string,
                        digits: nat, check: TrailingCheck)
    returns (matches: seq<Pair>)
    requires inputString == ToDecimal(inputBigInt) && digits < |inputString|
    ensures matches == Extend(solutions, inputBigInt, digits, check)
  {
    var factors: set<string> := {};
    matches := [];
    for index := 0 to |solutions|
      invariant matches == ScanFrontier(solutions, index, inputBigInt, digits, check)
      invariant factors == Keys(matches)
    {
      var solution := solutions[index];
      ghost var before := matches;
      for left := 0 to 10
        invariant matches == ScanPair(before, solution, left, inputBigInt, digits, check)
        invariant factors == Keys(matches)
      {
        ghost var rowStart := matches;
        for right := 0 to 10
          invariant matches == ScanRow(rowStart, solution, left, right, inputBigInt, digits, check)
          invariant factors == Keys(matches)
        {
          var candidate := Candidate(solution, digits, left, right);
          VisitByKeys(matches, candidate, inputBigInt, digits, check);
          assert ScanRow(rowStart, solution, left, right + 1, inputBigInt, digits, check)
              == Visit(matches, candidate, inputBigInt, digits, check);
          if Key(candidate) in factors {
            continue;
          }
          var product := Product(candidate);
          if !TrailingDigitsMatch(product, inputString, digits, check) {
            continue;
          }
          if product > inputBigInt {
            continue;
          }
          factors := factors + {Key(candidate), Key(Swap(candidate))};
          matches := matches + [candidate];
        }
        assert ScanPair(before, solution, left + 1, inputBigInt, digits, check) == matches;
      }
      assert ScanFrontier(solutions, index + 1, inputBigInt, digits, check) == matches;
    }
  }

  /** The verification pass: keeps, in order, the pairs whose product is the input. */
  method VerifyMatches(solutions: seq<Pair>, inputBigInt: nat) returns (outputs: seq<Pair>)
    ensures outputs == ExactPairs(solutions, inputBigInt)
  {
    outputs := [];
    for index := 0 to |solutions|
      invariant outputs == ExactPairs(solutions[..index], inputBigInt)
    {
      var solution := solutions[index];
      assert solutions[..index + 1][..index] == solutions[..index];
      if solution.0 * solution.1 == inputBigInt {
        outputs := outputs + [solution];
      }
    }
    assert solutions[..|solutions|] == solutions;
  }

  /** A script from the parsed input to its list of outputs: the negative check, the digit
      loop over the input's decimal length, and the verification pass. */
  method Factorize(inputBigInt: int, check: TrailingCheck) returns (r: Result<seq<Pair>>)
    ensures r == Factor(inputBigInt, check)
  {
    if inputBigInt < 0 {
      return Failure(SyntaxError(NegativeInputMessage));
    }
    var inputString := ToDecimal(inputBigInt);
    var solutions: seq<Pair> := [(0, 0)];
    for digits := 0 to |inputString|
      invariant solutions == Frontier(inputBigInt, check, digits)
    {
      solutions := ExtendFrontier(solutions, inputBigInt, inputString, digits, check);
    }
    var outputs := VerifyMatches(solutions, inputBigInt);
    return Success(outputs);
  }
}
