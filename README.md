# tffp: the digit-by-digit factor search, in Dafny

tffp ("trailing factor finder") is a pair of Node scripts, `src/main.ts` and
`src/noprint.ts`. Each reads a non-negative integer N and lists the pairs (L, R) with
L × R = N that a digit-by-digit search finds. The search builds both factors one decimal
digit at a time, least significant digit first, so it only reaches factors with at most as
many digits as N:

- The frontier starts as `[(0, 0)]`.
- For every digit position d, every frontier pair and every digit pair `left, right` in
  0..9, the scripts form the candidate `(L + left·10^d, R + right·10^d)`.
- A candidate is skipped when its key `"a,b"` is already in the per-iteration `factors`
  set.
- It is also skipped when the last d+1 characters of its product's decimal string differ
  from the input's, or when the product exceeds N.
- A survivor is appended to the next frontier, and both its key and its mirror image's key
  are recorded.
- After one iteration per digit of N, the pairs whose product is exactly N are output.

The search of the two scripts differs in a single line, the trailing-digit test:
`src/main.ts:41` slices the product's decimal string as it is, `src/noprint.ts:42` first
zero-pads it to d+1 characters. The scripts also differ in what they print:
`src/noprint.ts` drops the per-match, per-iteration count and verification messages of
`src/main.ts` and starts its timer after parsing the input.

The model is split into these modules:

- `Arith`: powers of ten and the exact division and remainder facts the proofs need.
- `Decimal`: BigInt `toString`, JavaScript's one-argument `slice` and `padStart`, and
  lemmas that turn comparisons of those strings into arithmetic modulo 10^k.
- `DigitSearch`: the arithmetic specification of the search, shared by both scripts and
  parameterised by `TrailingCheck` (`Unpadded` or `ZeroPadded`). It also holds the lemmas
  connecting the scripts' string tests and string-keyed `factors` set to that
  specification.
- `Engine`: the scripts' loops as imperative methods. They use `for` loops, a
  `set<string>` of keys, the string comparison and `continue`, and each is proved equal to
  the specification.
- `SearchProperties`: what an iteration and the whole search guarantee. This covers
  soundness, bounds, the absence of repeated and mirrored pairs, size bounds, completeness
  of the zero-padded search, and the output for N = 0.
- `MainScript` and `NoPrintScript`: each script's entry point with its contract, plus the
  concrete results for N = 101.

## Model

| member | source | states |
|---|---|---|
| Engine.ExtendFrontier | src/main.ts:32-61 | One digit iteration, run with the nested loops, the `factors` key set and the string comparison, produces exactly the next frontier `Extend` of the specification. |
| Engine.VerifyMatches | src/main.ts:68-78 | The verification loop outputs exactly `ExactPairs`: the frontier pairs whose product is the input, in frontier order. |
| Engine.Factorize | src/main.ts:18-78 | The whole search, including the negative-input throw, the loop over the input's digit count and the verification pass, computes `Factor(input, check)`. |
| MainScript.Run | src/main.ts:18-78 | The unpadded script fails with `SyntaxError("Cannot factorize a negative BigInt")` exactly when the input is negative. Otherwise every output pair multiplies to the input, and no pair appears twice or together with its mirror image. |
| NoPrintScript.Run | src/noprint.ts:16-68 | The same as for the unpadded script. In addition, every factorization a × b = N with a, b < 10^(digits of N) is output in one order or the other. |
| DigitSearch.TrailingDigitsMatchIff | src/noprint.ts:42 | `DigitSearch.TrailingDigitsMatch` is the string comparison of both scripts. The zero-padded comparison holds iff product ≡ N (mod 10^(d+1)). The unpadded comparison of src/main.ts:41 holds iff that congruence holds and the product has at least d+1 digits. |
| DigitSearch.KeyInjective | src/main.ts:37 | `DigitSearch.Key` is the template string `${a},${b}` of src/main.ts:37,47-48. Distinct pairs have distinct keys. |
| DigitSearch.KeysMembership | src/main.ts:37-48 | A candidate's key is in `factors` iff the candidate or its mirror image was already accepted in this iteration. |
| DigitSearch.VisitByKeys | src/main.ts:36-49 | One inner-loop step, stated on the key set and the string test, agrees with `DigitSearch.Visit`, the arithmetic step that skips a pair already accepted in either order or not admissible and appends it otherwise. Accepting a pair adds exactly its two keys. |
| Decimal.SliceOfDecimal | src/main.ts:41 | `s.slice(-k)` of a number's decimal string with at least k characters is its k low digits. |
| Decimal.SliceOfPadded | src/noprint.ts:42 | `padStart(k, "0")` followed by `slice(-k)` gives the k low digits of any number. |
| Decimal.LowDigitsEqual | src/noprint.ts:42 | Two numbers have equal k low digits iff they are congruent modulo 10^k. |
| Decimal.DigitCountBound | src/main.ts:41 | A number's decimal string is longer than d iff d = 0 or the number is at least 10^d. |
| SearchProperties.ExtendSound | src/main.ts:36-49 | Every pair of the next frontier passed both tests at digit d: its product is congruent to N, has enough digits under the unpadded test, and is at most N. It is also built from a frontier pair by one digit pair. |
| SearchProperties.ExtendNoTwins | src/noprint.ts:38-50 | Within one iteration no pair is appended twice, and a pair and its mirror image are never both appended. |
| SearchProperties.ExtendCovers | src/noprint.ts:37-50 | Every candidate that passes both tests ends up in the next frontier, either itself or as its mirror image. |
| SearchProperties.ExtendSize | src/main.ts:32-49 | The next frontier has at most 100 times as many pairs as the current one. |
| SearchProperties.FrontierBounded | src/main.ts:27-59 | After k iterations both components of every frontier pair are below 10^k. For k ≥ 1, every pair also passed both tests at digit k-1. |
| SearchProperties.FrontierNoTwins | src/noprint.ts:28-58 | No frontier holds a repeated or mirrored pair. |
| SearchProperties.FrontierSize | src/main.ts:27-59 | After k iterations the frontier has at most 10^(2k) pairs. |
| SearchProperties.ExactPairsMembers | src/main.ts:68-78 | A pair is output iff it is in the final frontier and its product is exactly N. |
| SearchProperties.ExactPairsAppend | src/noprint.ts:62-68 | The verification pass keeps frontier order: filtering a concatenation concatenates the filtered parts. |
| SearchProperties.ExactPairsNoTwins | src/noprint.ts:62-68 | The output inherits the frontier's freedom from repeated and mirrored pairs. |
| SearchProperties.FactorSound | src/main.ts:18-78 | A search fails iff the input is negative, and then with the SyntaxError message. Otherwise every output pair multiplies to N, has components below 10^(digits of N), and the output is free of twins. |
| SearchProperties.FrontierTracksFactors | src/noprint.ts:28-58 | Under the zero-padded test, the low k digits of any factorization a × b = N survive k iterations in one order or the other. |
| SearchProperties.PaddedComplete | src/noprint.ts:28-68 | Completeness of the zero-padded search: for a × b = N with a, b < 10^(digits of N), (a, b) or (b, a) is output. When a ≠ b, exactly one of the two is output. |
| SearchProperties.FactorOfZero | src/main.ts:27-71 | For N = 0 both scripts output exactly (0,0), (0,1), …, (0,9). |
| MainScript.PaddingDecides101 | src/main.ts:41 | At digit 1 for N = 101, the unpadded test rejects the product 1 ("1" against "01"), while the zero-padded test accepts it. |
| MainScript.UnpaddedFrontier101 | src/main.ts:27-59 | For N = 101, no pair survives two unpadded iterations. |
| MainScript.UnpaddedMisses101 | src/main.ts:27-78 | For N = 101 the unpadded script outputs nothing, although 1 × 101 = 101 with both factors below 10^3. |
| NoPrintScript.PaddedFrontier2 | src/noprint.ts:28-59 | For N = 101, the zero-padded frontier after two iterations is exactly [(1, 1)]. |
| NoPrintScript.PaddedFrontier3 | src/noprint.ts:28-59 | For N = 101, the zero-padded frontier after three iterations is exactly [(1, 101)]. |
| NoPrintScript.PaddedFinds101 | src/noprint.ts:28-68 | For N = 101 the zero-padded script outputs exactly [(1, 101)]. |

## Left out

- Terminal input through `node:readline` and the `question` wrapper (src/main.ts:6-9, 107-119; src/noprint.ts:6-9, 97-109): this is I/O. The entry methods take the parsed input as a parameter.
- `BigInt(...)` parsing of the typed text (src/main.ts:17; src/noprint.ts:15): this is runtime library behaviour, including whitespace handling, hex prefixes and the empty string becoming 0. The input is modelled as an `int`, so the SyntaxError that an unparsable string raises is not modelled; only the explicit negative-input throw is.
- All `chalk`/`console.log` output, including the catch block's error message: it has no effect on the computed result. A thrown SyntaxError is modelled as the `Failure` value.
- `Date.now()` timing and the `process.exit` codes: these are environment effects.
- Mutation of the `factors` set of the top-level script: the model creates it fresh inside `Engine.ExtendFrontier`. This is equivalent to the source, where the set starts empty and is cleared at the end of every iteration.
- Running time and memory: beyond the per-iteration bound `SearchProperties.ExtendSize` and `SearchProperties.FrontierSize`, nothing is stated about performance.

## Findings

| source | as written | input that shows it | evidently intended | confidence | as-written member | corrected member |
|---|---|---|---|---|---|---|
| src/main.ts:41 | The product's decimal string is sliced without zero-padding, so any product with fewer than d+1 digits fails the trailing-digit test at digit d. | N = 101: at digit 1 the pair (1, 1) has product "1", which is compared with "01" and rejected. No pair survives, so 1 × 101 is never output. | Zero-pad the product to d+1 characters before slicing, as src/noprint.ts:42 does. The search then outputs every factorization with factors of at most N's digit count, in one order or the other. | not executed | MainScript.UnpaddedMisses101 | SearchProperties.PaddedComplete |
