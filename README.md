# prime-numbers-rs, modelled in Dafny

The program prints every prime in [2, N] for an upper limit N given on the
command line. It starts one thread per candidate i in [2, N]. Each thread runs
the trial-division test `is_prime(i)` and, when the test passes, sends i down
an `mpsc` channel. The main thread pushes every value it receives onto a
vector and sorts the vector before printing it.

The model has two modules:

- `Primality` (primality.dfy) models `is_prime`. `Prime` is the mathematical
  predicate: n >= 2 and no d with 2 <= d < n divides n. The test itself is a
  method with the source's loop: early exits for n <= 1, n <= 3 and multiples
  of 2 or 3, then a `while` loop over the divisors 6k - 1 and 6k + 1 while
  (6k - 1)^2 <= n. Its loop invariant says that no d with 2 <= d < 6k - 1
  divides n. Two lemmas carry the proof. `OffWheelNotDivisor` shows that every
  d that is not 1 or 5 modulo 6 is ruled out by the tests for 2 and 3.
  `SmallFactor` shows that a composite n has a divisor e with e * e <= n.
  The argument is a `u32`, so n < 2^32 is a precondition everywhere.
  `IsPrimeAsWritten` evaluates the guard product in `u32` with overflow checks,
  as a build with overflow checks does. It reports the overflow panic as an
  `Outcome`. `IsPrime` evaluates the guard in 64-bit arithmetic and is correct
  for every `u32` (see Findings).
- `PrimeSweep` (sweep.dfy) models the result of `main`. The threads become a
  sequential loop over 2..=N that calls `IsPrime`. The channel becomes the
  multiset of values that were sent and not yet received. The receiving loop
  takes an arbitrary element of that multiset (`:|`), so every arrival order
  the scheduler could produce is covered. `Vec::sort` becomes `SortAscending`.
  `Sweep` proves that the sorted vector is `PrimesUpTo(N)`, whatever the
  arrival order. That list is strictly ascending and holds exactly the primes
  in [2, N]. Running the program twice with the same N therefore gives the
  same list.

## Model

| member | source | states |
|---|---|---|
| `Primality.IsPrime` | src/main.rs:22-47 | with the loop guard widened to 64 bits, the test returns true exactly when n is prime, for every `u32` n; the loop terminates, every `u32` operation in it (`6 * k + 1`, the divisors) stays in range and the 64-bit guard product never overflows |
| `Primality.IsPrimeAsWritten` | src/main.rs:22-47 | the test as written, with the guard product in `u32`: whenever it returns, its answer is primality; it panics on overflow exactly when n >= 65531^2 and n is prime, so for n < 65531^2 no guard product overflows |
| `Primality.PrimeEarlyExits` | src/main.rs:24-34 | the early exits agree with primality: n <= 1 is not prime, 2 and 3 are, and n > 3 divisible by 2 or 3 is not |
| `Primality.PrimeReferenceCases` | src/main.rs:77-87 | the two test cases: 59 is prime (one pass of the loop, trying 5 and 7) and 100 is not |
| `Primality.NoDivisorNextBlock` | src/main.rs:40-44 | one loop iteration preserves the invariant: if n has no factor 2 or 3, no divisor below 6k - 1, and neither 6k - 1 nor 6k + 1 divides it, it has no divisor below 6(k + 1) - 1 |
| `Primality.PrimeByTrialDivision` | src/main.rs:40-46 | when the loop stops, (6k - 1)^2 > n and no d in [2, 6k - 1) divides n, so n is prime |
| `Primality.OffWheelMultipleOfTwoOrThree` | src/main.rs:37-39 | every d that is neither 1 nor 5 modulo 6 is divisible by 2 or 3 |
| `Primality.OffWheelNotDivisor` | src/main.rs:32-41 | once 2 and 3 are ruled out, no d >= 2 off the 6k +- 1 wheel divides n |
| `Primality.SmallFactor` | src/main.rs:38-40 | a number with a proper divisor has a divisor e >= 2 with e * e <= n, which is why the loop may stop at the square root |
| `Primality.NotPrimeByDivisor` | src/main.rs:41-42 | a divisor d with 2 <= d < n shows that n is not prime |
| `Primality.CandidatesBelowN` | src/main.rs:40-42 | inside the loop, 6k - 1 and 6k + 1 both lie in [2, n), so finding either as a divisor proves n composite |
| `Primality.GuardFitsU32` | src/main.rs:40-41 | the guard product (6k - 1)^2 fits in a `u32` exactly when k <= 10922, the counter whose divisor is 65531 |
| `Primality.GuardFitsU64` | src/main.rs:40 | up to k = 10923 the guard product fits in a `u64` |
| `PrimeSweep.PrimesUpToMembers` | src/main.rs:53-68 | the expected result holds exactly the p with 2 <= p <= N and p prime |
| `PrimeSweep.PrimesUpToAscending` | src/main.rs:68 | the expected result is strictly ascending, so it lists each prime once |
| `PrimeSweep.SendPassingCandidates` | src/main.rs:53-60 | after the spawning loop, the channel holds every prime in [2, N] exactly once and nothing else; it is empty when N < 2 |
| `PrimeSweep.ReceiveAll` | src/main.rs:62-66 | draining the channel in any arrival order pushes every sent value onto the vector, each as often as it was sent |
| `PrimeSweep.SortAscending` | src/main.rs:68 | sorting yields an ascending permutation of the collected values |
| `PrimeSweep.AscendingPermutationUnique` | src/main.rs:68 | two ascending sequences with the same elements and multiplicities are equal, so the sorted vector does not depend on the arrival order |
| `PrimeSweep.Sweep` | src/main.rs:51-68 | the sorted vector equals the strictly ascending list of exactly the primes in [2, N], whatever order they arrived in |
| `PrimeSweep.SweepExamples` | src/main.rs:53-68 | the results for N = 0 and N = 1 are empty, for N = 10 they are [2, 3, 5, 7], for N = 20 they are [2, 3, 5, 7, 11, 13, 17, 19] |

## Left out

- Threads, the `mpsc` channel, `drop(sender)` and the blocking receive loop (src/main.rs:52-66): replaced by a sequential spawning loop, a multiset of sent values and a receiving loop that takes any pending value. The model does not capture sends and receives interleaving in time, only the arbitrary order in which values reach the vector.
- The `.unwrap()` on a failed send (src/main.rs:57): the receiver outlives every sender, so the failure path cannot occur in the sequential model.
- Command-line parsing with `clap` and the `Args` struct (src/main.rs:10-15, 50): the upper limit is a parameter of `Sweep`, bounded by the `u32` range.
- The `println!` output (src/main.rs:70): I/O and `Debug` formatting.
- Release builds, where the overflowing guard product wraps around instead of panicking: not modelled; `IsPrimeAsWritten` reports the panic of a build with overflow checks.
- `SortAscending`: the standard library's sort algorithm is not modelled; an insertion sort stands in for it with the same result, an ascending permutation of the input.
- `Sweep`: uses the corrected `IsPrime`. With the test as written, the thread for a prime at or above 65531^2 would panic instead of sending it.

## Findings

The test is documented as exact for every `u32`, but the code as written overflows its loop guard for large primes.

| source | as written | input that shows it | evidently intended | confidence | as-written member | corrected member |
|---|---|---|---|---|---|---|
| src/main.rs:40 | the guard `(6 * k - 1) * (6 * k - 1)` is computed in `u32`; a prime n >= 65531^2 = 4294311961 survives every divisor up to 65533, so the loop reaches k = 10923, where 65537^2 exceeds `u32::MAX` and the multiplication panics when overflow checks are on | n = 4294967291 (2^32 - 5, a prime; its primality is not proved in the model) | `is_prime` returns true for every prime `u32`, for example by evaluating the guard in `u64` | not executed; the model proves that the panic happens for exactly the primes n >= 65531^2 | `Primality.IsPrimeAsWritten` | `Primality.IsPrime` |
