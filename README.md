# tgen pacing core in Dafny

`tgen` is a UDP traffic generator: it sends zero-filled datagrams toward a
fixed destination at a target byte rate. This project models the pacing
arithmetic in `tgen.c`:

- `ms_to_us`, the millisecond-to-microsecond conversion;
- `sleep_for`, the rate resolver. It inflates the rate to `rate + rate / 2`.
  Starting from a one-byte packet, it doubles the packet while the sleep
  `ms_to_us(1000) / (inflated / packet)` is below 100 microseconds. It then
  allocates a zero-filled packet of the chosen size;
- the scaling loop of `print_rate`, which divides by 1024 and counts the
  divisions to index the suffix table `endings`;
- the part of `main` that computes the plan for 10 MiB/s and the rate it
  reports.

This `tgen.c` has no rate controller that ramps the rate and reads no
command-line options: `main` always asks for 10 MiB/s. So the only rate the
program itself resolves is that fixed one, which `TenMiBPerSecondPlan`
works out; the other lemmas hold for every rate.

Layout:

- `division.dfy` (module `Division`) holds the facts about integer division
  the proofs need.
- `tgen.dfy` (module `Tgen`) holds the model.

`ResolveSize` is the search loop of `sleep_for` (tgen.c:30-39). Its
specification is the predicate `IsResolvedSize`: the size is a power of two
between 1 and the inflated rate, its sleep is at least 100, and no smaller
power of two reaches 100. `ResolvedSizeUnique` shows that at most one size
satisfies this predicate. `ResolveSize`'s postcondition shows that a size
satisfying it exists for every inflated rate `rate + rate / 2` with
`rate >= 1` and `rate + rate / 2 <= LONG_MAX`. `DeliveredRate` bounds the
bytes per second that sending the chosen packet after every sleep delivers.
From those bounds and `ResolvedPlanBounds`, `DeliveredRateWithinOnePercent`
proves that this delivered rate lies strictly within 1% of the inflated
rate. `SleepFor` adds the allocation and `memset`
(tgen.c:40-42). `ScaleRate` is the loop of `print_rate` (tgen.c:47-48). It
is specified by the unit bounds `Pow1024(ending) <= bytes < Pow1024(ending + 1)`
and by the in-bounds condition on `endings`.

Every division in the model has a positive divisor. A dividend that can be
negative is only divided by 1, with one exception: the postcondition of
`MsToUs` divides `us`, an exact multiple of 1000, by 1000. Euclidean and
truncating division agree in both cases, so Dafny's `/` and `%` compute what
C's `/` and `%` compute at each of these points.

## Model

| member | source | states |
|---|---|---|
| `Tgen.MsToUs` | tgen.c:26-28 | the result is a whole number of milliseconds in microseconds: divisible by 1000, and dividing by 1000 gives back the input |
| `Tgen.OneSecond` | tgen.c:35 | `ms_to_us(1000)`, the numerator of the sleep, is 1000000 microseconds |
| `Tgen.Inflated` | tgen.c:33 | `rate + rate / 2` is at least the rate and is exactly 1.5 times it rounded down (`2 r == 3 rate - rate % 2`), so it is not an exact factor of 1.5 for odd rates |
| `Tgen.Divisor` | tgen.c:35 | the divisor `real_s / packet_size` is non-zero if and only if the packet is no larger than the inflated rate |
| `Tgen.ZeroRateDividesByZero` | tgen.c:33-35 | for rate 0 the first divisor is 0, so a positive rate is a precondition |
| `Tgen.Sleep` | tgen.c:35-36 | the computed sleep is at most one second, and it reaches the 100 µs floor if and only if the divisor is at most 10000 |
| `Tgen.SleepFormula` | tgen.c:35-38 | for a packet within the inflated rate, the expression `sleep_for` evaluates divides by a non-zero value and equals `Sleep` |
| `Tgen.PowerOfTwoGap` | tgen.c:32-37 | a power of two larger than another power of two is at least twice as large, so doubling from 1 skips no power of two |
| `Tgen.SleepMonotone` | tgen.c:35-38 | a larger packet never gets a shorter sleep |
| `Tgen.ResolvedSizeUnique` | tgen.c:30-39 | at most one size satisfies the resolver's specification, so the result depends only on the inflated rate |
| `Tgen.HalfFallsShort` | tgen.c:36-39 | minimality: when the chosen packet is larger than 1 byte, half of it is a power of two whose sleep is below 100 |
| `Tgen.DoubledPacketCount` | tgen.c:37-38 | if the divisor for a packet exceeds 10000, the divisor for the doubled packet is at least 5000 |
| `Tgen.ResolvedPlanBounds` | tgen.c:35-39 | for the resolved size, the inflated rate holds fewer than 10001 packets. The 1-byte packet is kept if and only if the inflated rate is at most 10000. When the packet was doubled, the rate holds at least 5000 packets and the sleep is at most 200 µs |
| `Tgen.PacingArithmetic` | tgen.c:35-38 | with `d` the quotient of `x` by `size` and `s` the quotient of 1000000 by `d`, `s·(x − size + 1) ≤ size·1000000 < (s + 1)·x` |
| `Tgen.DeliveredRate` | tgen.c:30-43 | for the resolved size, `sleep·(realS − size + 1) ≤ size·1000000 < (sleep + 1)·realS`. So the bytes per second the plan delivers, `size·10^6/sleep`, lie above `realS − size` and below `realS·(sleep + 1)/sleep` |
| `Tgen.BandArithmetic` | tgen.c:35-38 | over plain integers: with `s ≥ 100`, `s·(x − size + 1) ≤ m < (s + 1)·x`, and either `size = 1` or `5000·size ≤ x`, the ratio `m/s` lies strictly between `0.99·x` and `1.01·x` |
| `Tgen.DeliveredRateWithinOnePercent` | tgen.c:30-43 | for the resolved size, the bytes per second the plan delivers, `size·10^6/sleep`, lie strictly between `0.99·realS` and `1.01·realS`: `100·size·10^6 < 101·sleep·realS` and `99·sleep·realS < 100·size·10^6` |
| `Tgen.OneBytePerSecondPlan` | tgen.c:30-44 | `sleep_for(1)` chooses a 1-byte packet and a 1000000 µs sleep |
| `Tgen.TenMiBPerSecondSmallerFallShort` | tgen.c:36-38 | at the inflated rate 15728640, no power of two below 2048 reaches the floor |
| `Tgen.TenMiBPerSecondPlan` | tgen.c:86-91 | `sleep_for(10485760)` chooses 2048-byte packets and a 130 µs sleep |
| `Tgen.DoublingFits` | tgen.c:36-37 | when the loop continues, the doubled packet is still no larger than the inflated rate, so the next divisor is non-zero |
| `Tgen.DoublingStep` | tgen.c:36-38 | one iteration keeps the size a power of two within the inflated rate, and no smaller power of two clears the floor |
| `Tgen.ResolveSize` | tgen.c:30-39 | for `rate >= 1` with `rate + rate / 2` within a `long`, the loop terminates. Every division it makes is by a non-zero value. The returned size satisfies `IsResolvedSize`: a power of two, at least 1 and at most `rate + rate / 2`, with sleep at least 100, and the smallest power of two that reaches 100. The returned sleep is that size's sleep and is at most 1000000 |
| `Tgen.SleepFor` | tgen.c:30-44 | everything `ResolveSize` states, plus a freshly allocated buffer of exactly `packet_len` bytes, each 0 |
| `Tgen.ScaleStep` | tgen.c:48 | one division by 1024 moves the value to the next unit: it stays `bytes / 1024^(ending+1)` and stays at least 1 |
| `Tgen.ScaleBounds` | tgen.c:15-49 | when the loop stops, a positive input lies in `[1024^ending, 1024^(ending+1))`, and the index is within the 5-entry `endings` table if and only if the input is below `1024^5` |
| `Tgen.ScaleRate` | tgen.c:46-49 | the scaled value is below 1024 and equals `bytes / 1024^ending`. An input below 1024 (negatives included) is left unscaled with ending 0. A positive input lies within the chosen unit. The index into `endings` is in bounds if and only if `bytes < 1024^5` |
| `Tgen.TenMiBPerSecondUnit` | tgen.c:94 | 10485760 bytes lies in the unit with index 2 ("mb") and reads as 10 there |
| `Tgen.StartupPlan` | tgen.c:86-94 | `main`'s 10 MiB/s rate gives a freshly allocated, zero-filled 2048-byte packet, a 130 µs sleep and the report "10 mb" |

## Left out

- Socket setup in `main` (`getaddrinfo`, `socket`, `connect`, `getnameinfo`, `freeaddrinfo`, tgen.c:65-84): network I/O through foreign calls.
- `sendall` (tgen.c:52-62): its only logic is a byte counter around the foreign `send`, and it exits the process on error. Without a model of `send` there is nothing to state.
- The endless send-and-`usleep` loop of `main` (tgen.c:96-99): I/O that never terminates by design.
- The `printf` and `fputs` output of `print_rate`, `main` and `xmalloc`. Only the value and suffix index that `print_rate` would print are modelled.
- The out-of-memory exit of `xmalloc` (tgen.c:17-24). Allocation is modelled as `new` succeeding.
- ResolveSize: C integer widths are not modelled. The precondition `rate + rate / 2 <= LONG_MAX` rules out overflow of `real_s`. `packet_size` never exceeds `real_s`, and the sleep never exceeds 1000000, so neither `long` nor `useconds_t` can overflow under that precondition.
- ResolveSize: the rate is a `nat` with `rate >= 1`, so negative rates are excluded. C accepts them without crashing: for rate -1, `real_s` is -1, the first sleep `1000000 / -1` is -1000000, which reads as 4293967296 in a 32-bit `useconds_t`, and the loop stops at once with `packet_len` 1. The only caller passes 10485760, and a positive rate is the caller's duty, so this path is not modelled.
- MsToUs: the 32-bit width of `useconds_t` is not modelled. The program only calls it with 1000, where it cannot matter.
- ScaleRate: reading `endings` past its end is undefined behaviour in C, and it happens for inputs of at least `1024^5`. The model returns the index and states exactly when it is in bounds. It does not model what the out-of-bounds read would print.
