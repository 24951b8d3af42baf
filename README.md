# Classic algorithms of `sisyphus`, modelled in Dafny

This project models the algorithm collection in `algorithm.go` of the Go
package `sisyphus`, and proves what each routine computes. The collection has
slice utilities (indexed removal, counting adjacent inversions, deduplication,
in-place compaction of sorted input), two iterative Fibonacci routines, two
binary searches, merge sort, Euclid's algorithm, square-and-multiply
exponentiation and a bit count.

Layout: two shared helper modules, then one module per section of the Go file:

- `ordering.dfy` (`Ordering`): sortedness, strict increase, no duplicates.
- `uint64.dfy` (`Uint64`): the `uint64` range and the modular facts behind Go's wrap-around.
- `slices.dfy` (`Slices`): `RemoveSlice`, `DisorderedSlice`, `DeduplicateSlice`, `UniquelySlice`.
- `fibonacci.dfy` (`Fibonacci`): `Fibonacci`, `FibonacciSlice`.
- `search.dfy` (`Search`): `BinSearch`, `BinSearch1`.
- `sorting.dfy` (`Sorting`): `MergeSort` and `merge` (here `Merge`).
- `numeric.dfy` (`Numeric`): `Gcd`, `BinPow`, `CountOnes`.

Modelling choices:

- The Go routines are generic over an ordered element type, and the constraint
  `Comparable` is not shown in the source. Elements are `int` here.
- Routines that loop are methods with loop invariants. Each is proved against a
  specification function or against a property stated outright.
- `RemoveSlice` and `UniquelySlice` change the caller's backing array. They are
  methods on an `array<int>` with `modifies`. They return the length of the
  slice that Go returns, which is a prefix of the same array.
- `uint64` arithmetic wraps. `Fibonacci`, `FibonacciSlice` and `BinPow` write
  every wrap-around as `% U64_MOD`, where `U64_MOD` is 2^64.
- Go's `%` truncates toward zero. `Gcd` uses `GoRem`, which models that operator
  for negative operands too. The model of `Gcd` therefore covers every `int64`
  argument, not only non-negative ones.
- The Go error value of `RemoveSlice` is the flag `outOfRange`.

## Model

| member | source | states |
|---|---|---|
| `Slices.Removed` | algorithm.go:28 | removing `index` gives length `len - 1`, keeps the elements before `index`, and shifts the elements after it one place left |
| `Slices.RemovedMultiset` | algorithm.go:28 | removal takes out exactly one occurrence of `items[index]` and nothing else |
| `Slices.RemoveSlice` | algorithm.go:24-29 | an index outside `[0, len)` is an error and leaves the slice and its length unchanged; otherwise the returned prefix of the same array is `items[..index] + items[index+1..]` of length `len - 1`, and the last array slot keeps its old value |
| `Slices.InversionsCountPositions` | algorithm.go:42-50 | the count the loop builds is the number of positions `i` in `[1, len)` with `items[i-1] > items[i]` |
| `Slices.InversionsZeroIffSorted` | algorithm.go:41-50 | the count is zero if and only if the slice is in non-decreasing order |
| `Slices.DisorderedSlice` | algorithm.go:42-50 | returns the number of out-of-order adjacent pairs, which is zero exactly for sorted input and at most `len - 1` |
| `Slices.DedupElements` | algorithm.go:53-63 | deduplication keeps exactly the values of the input, in both directions |
| `Slices.DedupNoDuplicates` | algorithm.go:53-63 | deduplication leaves no value twice |
| `Slices.DedupFirstOccurrenceOrder` | algorithm.go:53-63 | the kept values appear in the order of their first occurrence in the input |
| `Slices.DeduplicateSlice` | algorithm.go:53-63 | the `seen`-map loop returns the same values as the input, without repeats, in order of first occurrence |
| `Slices.CompactShape` | algorithm.go:66-76 | compaction keeps the set of values, never grows the input, and a non-empty input gives a non-empty result ending in the input's last value |
| `Slices.CompactSortedStrict` | algorithm.go:65-76 | on sorted input the compacted prefix is strictly increasing |
| `Slices.CompactSortedIsDedup` | algorithm.go:53-76 | on sorted input, in-place compaction and map-based deduplication give the same sequence |
| `Slices.CompactPrefixStep` | algorithm.go:68-73 | one loop turn either skips `items[j]`, when it equals the last value kept, or keeps it after the kept prefix |
| `Slices.UniquelySlice` | algorithm.go:66-76 | on non-empty input, the returned prefix of the same array has length between 1 and `len` and collapses each run of equal adjacent values; array slots from that length on are untouched |
| `Uint64.WrapAddSub` | algorithm.go:85-86 | with `uint64` wrap-around, `g += f; f = g - f` sets `f` to the old `g` even when the sum overflows |
| `Fibonacci.StepPair` | algorithm.go:83-87 | one loop turn moves the pair `(F(k), F(k+1))` mod 2^64 on to `(F(k+1), F(k+2))` mod 2^64 |
| `Fibonacci.WrappedRecurrence` | algorithm.go:95-100 | a list of Fibonacci numbers mod 2^64 keeps the recurrence, with wrap-around |
| `Fibonacci.Fibonacci` | algorithm.go:81-89 | returns F(n) mod 2^64 for `n > 0`, with F(0) = 0 and F(1) = 1, and returns 0 for `n <= 0` |
| `Fibonacci.FibonacciSlice` | algorithm.go:92-102 | returns `max(n, 0)` elements, the k-th being F(k+1) mod 2^64, so the last is what `Fibonacci(n)` returns; each element from the third on is the wrapped sum of the two before it |
| `Search.BinSearch` | algorithm.go:107-122 | on non-empty sorted input, returns -1 exactly when `e` is absent, and otherwise the largest index holding `e` |
| `Search.CountAtMostSplit` | algorithm.go:124-136 | when the window closes at `lo`, exactly `lo` elements are at most `e` |
| `Search.BinSearch1` | algorithm.go:124-136 | on sorted input, returns (the number of elements at most `e`) - 1, in `[-1, len - 1]`; everything up to the result is at most `e` and everything after it is greater |
| `Sorting.TakeLeft` | algorithm.go:155-157 | taking the smaller head of `left` keeps the merged prefix a sorted arrangement of what has been taken, not above anything still to take |
| `Sorting.TakeRight` | algorithm.go:158-161 | taking the head of `right` when it is not above the head of `left` keeps the same invariant |
| `Sorting.FinishWithLeft` | algorithm.go:165-167 | once `right` is used up, appending the rest of `left` gives a sorted result holding every element of both inputs |
| `Sorting.FinishWithRight` | algorithm.go:168-170 | once `left` is used up, appending the rest of `right` gives a sorted result holding every element of both inputs |
| `Sorting.Merge` | algorithm.go:151-173 | merging two sorted slices gives a sorted permutation of their concatenation, of length `len(left) + len(right)` |
| `Sorting.MergeSort` | algorithm.go:141-149 | returns a sorted permutation of its input; inputs shorter than 2 are returned as they are |
| `Sorting.SortedPermutationUnique` | algorithm.go:141-149 | two sorted permutations of the same elements are equal, so the contract of `MergeSort` fixes its result |
| `Numeric.GoRem` | algorithm.go:182 | Go's remainder is smaller than the divisor in magnitude and has the dividend's sign |
| `Numeric.GoRemCongruent` | algorithm.go:182 | Go's remainder differs from the dividend by a multiple of the divisor |
| `Numeric.RemKeepsCommonDivisors` | algorithm.go:178-183 | the step `(a, b) -> (b, a % b)` keeps exactly the same common divisors |
| `Numeric.EuclidStep` | algorithm.go:178-183 | a greatest common divisor of `b` and `a % b` is one of `a` and `b` |
| `Numeric.Gcd` | algorithm.go:178-183 | the result divides both arguments and every common divisor divides it; it is 0 only for `(0, 0)`, non-negative for non-negative arguments, and `Gcd(a, 0) == a`; the recursion ends because `abs(b)` decreases |
| `Numeric.PowSquare` | algorithm.go:192-193 | squaring the base while halving the exponent keeps the power |
| `Numeric.PowMod` | algorithm.go:190-192 | reducing the base modulo 2^64 does not change the power modulo 2^64 |
| `Numeric.BinPowStep` | algorithm.go:188-194 | one loop turn keeps `result * base^exponent` unchanged modulo 2^64 |
| `Numeric.BinPow` | algorithm.go:186-196 | returns `base^exponent` mod 2^64; `BinPow(_, 0) == 1` |
| `Numeric.OnesBelowHalve` | algorithm.go:201-204 | the 1 bits of `n` are its low bit plus the 1 bits of `n >> 1` |
| `Numeric.OnesBelowBound` | algorithm.go:199-206 | a `k`-bit window holds at most `k` ones |
| `Numeric.CountOnes` | algorithm.go:199-206 | returns the number of 1 bits in positions 0 to 63 of the binary expansion of `n`, which is at most 64 |

## Left out

- `PrintSlice` (algorithm.go:9-19): console output only.
- `UnSortSlice` (algorithm.go:31-39): a random shuffle that draws from `crypto/rand` and prints. Randomness and output are outside the model.
- `crypto/aes.go` is not part of this model. It is a wrapper over Go's AES-GCM and base64 packages, whose logic is not in the repository.
- `generate/generate.go` is not part of this model. It is a wrapper over `crypto/rand.Read`.
- Element types: the generic element type is fixed to `int`. Strings and floating-point elements are not modelled.
- `Search.BinSearch`, `Search.BinSearch1`: both require sorted input, as the routines assume. What they return on unsorted input is not described.
- `Search.BinSearch` and `Slices.UniquelySlice` require a non-empty slice. On an empty slice the Go code indexes `items[0]`, or slices `items[:1]`, which panics (for `UniquelySlice`, when the slice has no spare capacity).
- `Sorting.Merge`: its contract does not claim stability. On equal heads the Go code takes from `right` first, so equal elements need not keep their original order.
- `Sorting.Merge`: requires both inputs sorted. `MergeSort`, its only caller, always passes sorted halves.
- Integer widths: `int` indices and the `int64` arguments of `Gcd` are unbounded integers. The binary searches compute `lo + hi` in `int` before the shift, and that sum can reach `2 * len(items) - 1`. For a `[]int` slice this cannot overflow, because no such slice has anywhere near `MaxInt / 2` elements. For a narrow element type (a `[]byte` of more than 2^30 elements on a 32-bit platform) the sum could overflow, and that case is not modelled. `Gcd` cannot overflow, because a Go remainder is never larger in magnitude than its operands.
- `CountOnes` is modelled for the widest of its type arguments (`uint64`). A narrower unsigned value has the same bits in positions 0 to 63.
- Running time (the O(log n) notes in the source comments) is not modelled.
