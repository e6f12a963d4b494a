# Constant term of a polynomial from base-N encoded roots

This project models the computation of `solver.js`. The script reads a
record holding a root count `n`, a leading coefficient `k` and a list of
roots. Each root is a digit string in its own base. The script decodes
every root into an unbounded integer, multiplies the roots together
starting from 1, and prints the constant term `k * (-1)^n * product`
(Vieta's formula).

The model has three modules:

- `Decoder` (`decoder.dfy`) covers `convertToBigInt`. The pure function
  `Decode` gives the meaning and the method `ConvertToBigInt` is the
  source's loop, proved equal to it. It also holds the reference meaning,
  positional notation (`Value` of the digit weights), and the lemmas that
  tie the two together: the exact failure condition, the first error
  reported, appending a digit, leading zeros, letter case and bounds.
- `Vieta` (`vieta.dfy`) covers the product fold, the sign factor and the
  constant-term formula. Its reference is the coefficient list of
  `k * (x - r_1) * ... * (x - r_m)`. The lemma `ConstantTermIsVieta`
  proves that the formula gives that polynomial's constant coefficient.
- `Solver` (`solver.dfy`) covers the root-collection loop (`CollectRoots`)
  and the whole computation (`Run`). Both are proved against the
  functions `DecodeAll` and `Solve`. It also has the lemmas about the
  whole computation (success condition, result, independence from root
  order) and the worked examples.

Where the code and its own doc comments (solver.js:4-10 and solver.js:15)
disagree, the model follows the code:

- The doc comment allows bases 2 to 36 only (solver.js:8). The code checks
  no range, so `Decode` takes any integer base. A base of 0 or below
  rejects every non-empty string. Base 1 accepts only `0`. A base of 37 or
  more accepts all 36 digits.
- The comment at solver.js:15 says the digits are `0`-`9` and `a`-`z`.
  The code lower-cases the string before it parses digits, and string
  lower-casing maps KELVIN SIGN (U+212A) to `k`. So the code also accepts
  that sign as the digit of weight 20. `RawWeight` says so.
- `toLowerCase` maps LATIN CAPITAL LETTER I WITH DOT ABOVE (U+0130) to two
  characters, `i` and a combining dot. That string is never a legal digit
  string, and the model keeps that expansion.
- A character with no radix-36 weight passes the source's range test,
  because NaN fails every comparison. The run then aborts in the BigInt
  conversion, and that error names no character. This is
  `DecodeError.NotANumber`. A weight at or above the base gives
  `InvalidDigit(ch, base)`, where `ch` is the lower-cased character.

An empty string decodes to 0 in every base, because the loop never runs
(`DecodeEmpty`).

## Model

| member | source | states |
|---|---|---|
| `Decoder.Decode` | solver.js:11-23 | what `convertToBigInt` produces; no contract of its own, its meaning is stated by `DecodeCorrect` (success condition and positional value) and `AccumulateFirstError` (the error) |
| `Decoder.DigitValue` | solver.js:16 | `parseInt(ch, 36)` for one character; no contract of its own, its meaning is stated by `DigitValueMeaning` |
| `Decoder.LowerChar` | solver.js:14 | per-character `toLowerCase`; no contract of its own, `ToLowerValid` and `ToLowerWeights` state that it keeps legality and weights |
| `Decoder.IsDigitFor` | solver.js:16-20 | the character has a radix-36 weight below the base, so neither the range test (solver.js:17) nor `BigInt(digit)` (solver.js:20) throws; no contract of its own, `AccumulateOkIff` states that decoding succeeds exactly when it holds for every character |
| `Decoder.DigitError` | solver.js:17-20 | which error a failing character raises; no contract of its own, `AccumulateFirstError` states that the first failing character's error is reported |
| `Decoder.DigitValueMeaning` | solver.js:16 | a character has a radix-36 weight exactly when it is `0`-`9`, `a`-`z` or `A`-`Z`; the weight is below 36 and is the position of the lower-cased character among `0`-`9`,`a`-`z` |
| `Decoder.DigitCharRoundTrip` | solver.js:16 | every weight below 36 is parsed back from its own digit |
| `Decoder.ToLower` | solver.js:14 | lower-casing leaves no ASCII upper-case letter and never shortens the string |
| `Decoder.Accumulate` | solver.js:12-21 | the accumulated value is never negative |
| `Decoder.ConvertToBigInt` | solver.js:11-23 | the loop over the lower-cased string returns exactly `Decode(s, base)`: the value, or the error of the first illegal character |
| `Decoder.AccumulatePrefixError` | solver.js:17-20 | once a prefix has failed, the whole string fails with that same error |
| `Decoder.AccumulateSnoc` | solver.js:20 | one more legal digit turns value v into v * base + weight |
| `Decoder.AccumulateOkIff` | solver.js:16-20 | the loop succeeds if and only if every character is a digit whose weight is below the base |
| `Decoder.AccumulateFirstError` | solver.js:16-20 | a failure reports the first illegal character: `NotANumber` if it has no weight, else `InvalidDigit(ch, base)` |
| `Decoder.AccumulateValue` | solver.js:12-21 | for a legal string, Horner accumulation equals the positional value sum of w_i * base^(len-1-i) |
| `Decoder.ToLowerValid` | solver.js:14-17 | a raw string is legal exactly when its lower-cased form is all legal digits |
| `Decoder.ToLowerWeights` | solver.js:14 | lower-casing a legal string keeps its length and its digit weights |
| `Decoder.DecodeCorrect` | solver.js:11-23 | decoding succeeds if and only if every character is a digit below the base, and then yields the positional value of the weights, most-significant first |
| `Decoder.DecodeEmpty` | solver.js:12-22 | the empty string decodes to 0 in every base |
| `Decoder.DecodeAppendDigit` | solver.js:14-20 | appending a legal digit c gives Decode(s) * base + weight(c) |
| `Decoder.DecodeLeadingZero` | solver.js:20 | a leading `0` changes neither the value nor the error, for any base of at least 1 |
| `Decoder.DecodeLeadingZeros` | solver.js:20 | any number of leading zeros changes neither the value nor the error |
| `Decoder.DecodeCaseInsensitive` | solver.js:14 | a string and its ASCII upper-cased form decode to the same value, or fail with the same error (full Unicode upper-casing would not keep this: `ß` becomes `SS`) |
| `Decoder.DecodeBounds` | solver.js:12-20 | a decoded value v satisfies 0 <= v < base^len |
| `Decoder.ExampleHexCase` | solver.js:11-23 | `ff` and `FF` both decode to 255 in base 16 |
| `Decoder.ExampleZero` | solver.js:11-23 | `0` decodes to 0 in every base of at least 1 |
| `Vieta.Product` | solver.js:47 | the `reduce` from 1; no contract of its own, its meaning is stated by `ProductAppend`, `ProductPermutation` and `ProductZero` |
| `Vieta.ConstantTerm` | solver.js:51 | `k * signFactor * productOfRoots`; no contract of its own, its meaning is stated by `ConstantTermIsVieta` and `ConstantTermWithCount` |
| `Vieta.ProductAppend` | solver.js:47 | the product of a concatenation is the product of the products |
| `Vieta.ProductPermutation` | solver.js:47 | the product does not depend on the order of the roots |
| `Vieta.ProductZero` | solver.js:47 | the product is 0 exactly when some root is 0 |
| `Vieta.Sign` | solver.js:50 | the sign factor is +1 or -1 |
| `Vieta.SignAlternates` | solver.js:50 | the sign factor flips between n and n + 1 |
| `Vieta.SignIsPower` | solver.js:49-50 | for n >= 0 the sign factor equals (-1)^n |
| `Vieta.ConstantTermNoRoots` | solver.js:47-51 | with no roots the product is 1 and the constant term is k * sign |
| `Vieta.ConstantTermIsPower` | solver.js:49-51 | the constant term equals k * (-1)^n * product |
| `Vieta.ConstantTermOrderIndependent` | solver.js:47-51 | reordering the roots leaves the constant term unchanged |
| `Vieta.MulByLinear` | solver.js:49 | the coefficients of p(x) * (x - r) are one longer; the lowest is -r * p[0] and the highest is that of p |
| `Vieta.EvalMulByLinear` | solver.js:49 | the coefficient list of p(x) * (x - r) evaluates to p(x) * (x - r) at every x |
| `Vieta.PolyFromRoots` | solver.js:49 | the reference polynomial k * prod (x - r_i) has degree m and leading coefficient k |
| `Vieta.EvalPolyFromRoots` | solver.js:49 | the reference polynomial evaluates to k * prod (x - r_i) |
| `Vieta.RootsAreRoots` | solver.js:49 | every given root is a zero of the reference polynomial |
| `Vieta.ConstantTermIsVieta` | solver.js:49-51 | with n the number of roots, the formula is the constant coefficient of k * prod (x - r_i) |
| `Vieta.ConstantTermWithCount` | solver.js:50-51 | with the n read from the input, the formula is that coefficient when n has the parity of the root count; when it has not and k and every root are non-zero, the formula is the negated, non-zero coefficient |
| `Solver.DecodeAll` | solver.js:35-44 | on success there is one value per entry, and value i is the decoding of entry i in its own base |
| `Solver.Solve` | solver.js:31-51 | the whole computation; no contract of its own, its meaning is stated by `SolveCorrect` and `SolveOrderIndependent` |
| `Solver.CollectRoots` | solver.js:35-44 | the push loop returns exactly `DecodeAll(entries)`: the decoded roots in order, or the first decoding error |
| `Solver.Run` | solver.js:31-51 | the main computation returns exactly `Solve(input)` |
| `Solver.DecodeAllPrefixError` | solver.js:41 | a decoding error in one entry stops the collection with that error |
| `Solver.DecodeAllSnoc` | solver.js:41-42 | decoding one more entry appends its value to the collected roots |
| `Solver.DecodeAllOkIff` | solver.js:36-44 | collecting succeeds if and only if every entry decodes |
| `Solver.DecodeAllFirstError` | solver.js:36-44 | a failed collection reports the error of the first entry that does not decode |
| `Solver.SolveCorrect` | solver.js:35-51 | the computation succeeds if and only if every digit of every root is legal for its base; the result is then k * sign * the product of the roots' positional values |
| `Solver.SolveOrderIndependent` | solver.js:35-51 | reordering the root entries leaves a successful result unchanged |
| `Solver.ExampleTwoRoots` | solver.js:35-51 | roots `4` (base 10) and `11` (base 2) with n = 2, k = 1 give 12 |
| `Solver.ExampleThreeRoots` | solver.js:35-51 | roots `a` (base 16), `10` (base 8) and `1` (base 10) with n = 3, k = 2 give -160 |
| `Solver.ExampleInvalidDigit` | solver.js:16-18 | `g` in base 10 aborts the computation with `InvalidDigit('g', 10)` |

## Left out

- Reading `input.json` (solver.js:27) and `JSON.parse` (solver.js:30) are left out. They are file I/O and a library parser. The model starts from an already parsed `Input`.
- The console report (solver.js:54-66) and the error printing (solver.js:68-72) are left out. They only present results. Errors are `Err` values instead.
- `BigInt(data.keys.k)` (solver.js:32) is left out. It is a string-to-number coercion, so `k` is an `int`, and a `k` that fails to convert is not modelled.
- `parseInt(rootObj.base, 10)` (solver.js:39) is left out for the same reason, so each base is an `int`. A base that parses to NaN aborts at solver.js:13 even for an empty value, and that case is not modelled.
- `n` (solver.js:31) is an `int`. A non-integer or string `n` from JSON, and its coercion under `%`, is not modelled.
- Key enumeration with `for...in` (solver.js:36) and the test that skips the `keys` entry (solver.js:37) are not modelled as such. `Input` keeps `keys` apart, and the root entries come as an ordered sequence.
- The `digit < 0` test (solver.js:17) is not modelled. A radix-36 parse of one character is never negative, so the test is dead.
- Lower-casing is modelled only where it can change a decoding: ASCII capitals, KELVIN SIGN and U+0130. Every other character stays unchanged. Such a character is not a digit before or after lower-casing, so the outcome is the same.
- A root entry whose `value` is missing or is not a string throws a TypeError at `str.toLowerCase()` (solver.js:14). That error is not modelled, because `RootEntry.value` is always a string.
- Lone UTF-16 surrogates in a value string are not modelled. Dafny characters are Unicode scalar values.
- Error messages are not modelled as text. An error is `InvalidDigit(ch, base)` or `NotANumber`.
- Re-encoding a number as a digit string is not modelled. The program has no encoder, so there is no round trip to state. Positional notation (`Decoder.Value`) serves as the reference for the decoder instead.
