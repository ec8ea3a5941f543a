/**
 The pacing core of the traffic generator `tgen.c`: the rate resolver
 `sleep_for`, which turns a byte rate into a payload size and a sleep
 interval, its helper `ms_to_us`, and the unit scaling performed by
 `print_rate` over the `endings` suffix table.
 */
module Tgen {
  import opened Division

  /** Largest value of a C `long` on the targets the program is built for. */
  const LongMax: int := 0x7FFF_FFFF_FFFF_FFFF

  /** Sleep intervals below this many microseconds are not accepted by the resolver. */
  const MinSleep: nat := 100

  /** The unit suffixes `print_rate` indexes with its division count. */
  const Endings: seq<string> := ["b", "kb", "mb", "gb", "tb"]

  // ---------------------------------------------------------------------
  // ms_to_us
  // ---------------------------------------------------------------------

  /** Milliseconds to microseconds: the result is a whole number of
      milliseconds, and dividing it back by 1000 recovers the input. */
  function MsToUs(millis: int): (us: int)
    ensures us % 1000 == 0 && us / 1000 == millis
  {
    millis * 1000
  }

  /** One second in microseconds: the numerator of every sleep computation. */
  lemma OneSecond()
    ensures MsToUs(1000) == 1000000
  {
  }

  // ---------------------------------------------------------------------
  // sleep_for: the quantities it computes
  // ---------------------------------------------------------------------

  /** The inflated rate `rate + rate / 2`: one and a half times the rate,
      rounded down when the rate is odd (so not an exact factor of 1.5). */
  function Inflated(rate: nat): (r: nat)
    ensures 2 * r == 3 * rate - rate % 2
    ensures rate <= r
  {
    rate + rate / 2
  }

  /** How many packets of `size` bytes the inflated rate `realS` holds:
      the divisor of the sleep computation. It is non-zero exactly when
      the packet is no larger than the inflated rate. */
  function Divisor(realS: nat, size: nat): (d: nat)
    requires size >= 1
    ensures d >= 1 <==> size <= realS
  {
    var d := realS / size;
    assert d >= 1 <==> size <= realS by {
      if size <= realS {
        QuotientAtLeast(realS, size, 1);
      } else {
        QuotientBelow(realS, size, 1);
      }
    }
    d
  }

  /** With a zero rate the very first divisor is zero: `sleep_for` divides
      by zero, which is why a positive rate is demanded of its callers. */
  lemma ZeroRateDividesByZero()
    ensures Inflated(0) == 0 && Divisor(Inflated(0), 1) == 0
  {
  }

  /** The sleep, in microseconds, between packets of `size` bytes at the
      inflated rate `realS`. It never exceeds one second, and it clears the
      floor exactly when the divisor is at most 10000. */
  function Sleep(realS: nat, size: nat): (us: nat)
    requires 1 <= size <= realS
    ensures us <= MsToUs(1000)
    ensures us >= MinSleep <==> Divisor(realS, size) <= 10000
  {
    var d := Divisor(realS, size);
    var us := MsToUs(1000) / d;
    QuotientAntitone(1000000, 1, d);
    assert us >= MinSleep <==> d <= 10000 by {
      if d <= 10000 {
        QuotientAtLeast(1000000, d, 100);
      } else {
        QuotientBelow(1000000, d, 100);
      }
    }
    us
  }

  /** The expression `sleep_for` evaluates divides by a non-zero value and
      yields `Sleep`. */
  lemma SleepFormula(realS: nat, size: nat)
    requires 1 <= size <= realS
    ensures realS / size >= 1 && MsToUs(1000) / (realS / size) == Sleep(realS, size)
  {
    assert Divisor(realS, size) >= 1;
  }

  /** The resolver stops at `size` when its sleep reaches the floor. */
  predicate ClearsFloor(realS: nat, size: nat)
    requires 1 <= size <= realS
  {
    Sleep(realS, size) >= MinSleep
  }

  /** `n` is 1 or a 1 doubled some number of times: the sizes the search
      loop of `sleep_for` can reach. */
  predicate IsPowerOfTwo(n: nat)
  {
    n == 1 || (n >= 2 && n % 2 == 0 && IsPowerOfTwo(n / 2))
  }

  /** No power of two below `size` clears the floor. */
  predicate NoSmallerClears(realS: nat, size: nat)
    requires size <= realS
  {
    forall p :: 1 <= p < size && IsPowerOfTwo(p) ==> !ClearsFloor(realS, p)
  }

  /** What `sleep_for` chooses for the inflated rate `realS`: the smallest
      power of two that clears the floor, never larger than `realS`. */
  predicate IsResolvedSize(realS: nat, size: nat)
  {
    && 1 <= size <= realS
    && IsPowerOfTwo(size)
    && ClearsFloor(realS, size)
    && NoSmallerClears(realS, size)
  }

  // ---------------------------------------------------------------------
  // sleep_for: properties of the choice
  // ---------------------------------------------------------------------

  /** Between a power of two and the next larger one there is a factor of
      at least two. */
  lemma {:induction false} PowerOfTwoGap(q: nat, p: nat)
    requires IsPowerOfTwo(q) && IsPowerOfTwo(p) && q < p
    ensures 2 * q <= p
  {
    if q >= 2 {
      PowerOfTwoGap(q / 2, p / 2);
    }
  }

  /** A larger packet never gets a shorter sleep. */
  lemma SleepMonotone(realS: nat, a: nat, b: nat)
    requires 1 <= a <= b <= realS
    ensures Sleep(realS, a) <= Sleep(realS, b)
  {
    QuotientAntitone(realS, a, b);
    QuotientAntitone(1000000, Divisor(realS, b), Divisor(realS, a));
  }

  /** The floor characterises at most one size: the resolver's answer is
      determined by the inflated rate alone. */
  lemma ResolvedSizeUnique(realS: nat, a: nat, b: nat)
    requires IsResolvedSize(realS, a) && IsResolvedSize(realS, b)
    ensures a == b
  {
  }

  /** If the resolver doubled at least once, the packet before the final
      one fell short of the floor. */
  lemma HalfFallsShort(realS: nat, size: nat)
    requires IsResolvedSize(realS, size) && size > 1
    ensures 1 <= size / 2 && IsPowerOfTwo(size / 2) && !ClearsFloor(realS, size / 2)
  {
  }

  /** Halving the packet at least doubles the packet count, up to rounding. */
  lemma DoubledPacketCount(realS: nat, half: nat)
    requires half >= 1 && realS / half > 10000
    ensures realS / (2 * half) >= 5000 && realS > 10000
  {
    QuotientOfQuotient(realS, half, 2);
    assert half * 2 == 2 * half;
    AtLeastFromQuotient(realS, half, 10001);
  }

  /** How the resolved plan relates to the rate: the inflated rate holds
      fewer than 10001 packets, the single-byte packet is kept exactly when
      it already does, and once the packet has been doubled the rate holds
      at least 5000 packets and the sleep is at most 200 microseconds. */
  lemma ResolvedPlanBounds(realS: nat, size: nat)
    requires IsResolvedSize(realS, size)
    ensures realS < 10001 * size
    ensures size == 1 <==> realS <= 10000
    ensures size > 1 ==> 5000 * size <= realS && Sleep(realS, size) <= 200
  {
    var d := Divisor(realS, size);
    BelowFromQuotient(realS, size, 10001);
    if size > 1 {
      HalfFallsShort(realS, size);
      var h := size / 2;
      DoubledPacketCount(realS, h);
      assert 2 * h == size;
      AtLeastFromQuotient(realS, size, 5000);
      QuotientBelow(1000000, d, 201);
    }
  }

  /** The arithmetic behind `DeliveredRate`, over plain integers: `d` is
      the quotient of `x` by `size`, and `s` the quotient of 1000000 by `d`. */
  lemma PacingArithmetic(x: int, size: int, d: int, s: int)
    requires size >= 1 && d >= 1 && s >= 0
    requires s * d <= 1000000 < (s + 1) * d
    requires d * size <= x < (d + 1) * size
    ensures s * (x - size + 1) <= size * 1000000 < (s + 1) * x
  {
    assert (d + 1) * size == d * size + size;
    MulLeft(s, x - size + 1, d * size);
    assert s * (d * size) == (s * d) * size;
    MulLeft(size, s * d, 1000000);
    MulLeft(size, 1000001, (s + 1) * d);
    assert size * ((s + 1) * d) == (s + 1) * (d * size);
    MulLeft(s + 1, d * size, x);
  }

  /** The plan reproduces the inflated rate: one packet of `size` bytes
      every `Sleep(realS, size)` microseconds delivers `size * 1000000 / sleep`
      bytes per second, which lies above `realS - size` and below
      `realS * (sleep + 1) / sleep`. `DeliveredRateWithinOnePercent` turns
      these bounds into a 1% band. */
  lemma DeliveredRate(realS: nat, size: nat)
    requires IsResolvedSize(realS, size)
    ensures Sleep(realS, size) * (realS - size + 1) <= size * 1000000
    ensures size * 1000000 < (Sleep(realS, size) + 1) * realS
  {
    var d := Divisor(realS, size);
    var s := Sleep(realS, size);
    assert s == 1000000 / d;
    AtLeastFromQuotient(1000000, d, s);
    BelowFromQuotient(1000000, d, s + 1);
    AtLeastFromQuotient(realS, size, d);
    BelowFromQuotient(realS, size, d + 1);
    PacingArithmetic(realS, size, d, s);
  }

  /** The arithmetic behind `DeliveredRateWithinOnePercent`, over plain
      integers: `m` is the bytes one second of packets of `size` bytes
      carries, `s` the sleep, `x` the inflated rate. */
  lemma BandArithmetic(x: int, size: int, s: int, m: int)
    requires size >= 1 && s >= 100 && x >= size
    requires s * (x - size + 1) <= m < (s + 1) * x
    requires size == 1 || 5000 * size <= x
    ensures 100 * m < 101 * (s * x)
    ensures 99 * (s * x) < 100 * m
  {
    // Upper bound: m < s * x + x, and 100 * x <= s * x.
    assert (s + 1) * x == s * x + x;
    MulLeft(x, 100, s);
    assert x * 100 <= x * s;
    // Lower bound: 100 * (size - 1) < x, so 100 * s * (size - 1) < s * x.
    assert 100 * (size - 1) < x;
    assert s * (x - size + 1) == s * x - s * (size - 1);
    MulLeft(s, 100 * (size - 1) + 1, x);
    assert s * (100 * (size - 1) + 1) == 100 * (s * (size - 1)) + s;
  }

  /** The bytes per second the plan delivers, `size * 1000000 / sleep`, lie
      strictly within 1% of the inflated rate `realS`. */
  lemma DeliveredRateWithinOnePercent(realS: nat, size: nat)
    requires IsResolvedSize(realS, size)
    ensures 100 * (size * 1000000) < 101 * (Sleep(realS, size) * realS)
    ensures 99 * (Sleep(realS, size) * realS) < 100 * (size * 1000000)
  {
    DeliveredRate(realS, size);
    ResolvedPlanBounds(realS, size);
    BandArithmetic(realS, size, Sleep(realS, size), size * 1000000);
  }

  /** `sleep_for(1)`: a one-byte packet once a second. */
  lemma OneBytePerSecondPlan()
    ensures Inflated(1) == 1
    ensures IsResolvedSize(1, 1) && Sleep(1, 1) == 1000000
  {
    assert Divisor(1, 1) == 1;
    assert Sleep(1, 1) == 1000000;
  }

  /** At ten MiB/s no power of two up to 1024 bytes clears the floor. */
  lemma TenMiBPerSecondSmallerFallShort()
    ensures NoSmallerClears(15728640, 2048)
  {
    var realS := 15728640;
    assert IsPowerOfTwo(1024);
    assert Divisor(realS, 1024) == 15360;
    assert Sleep(realS, 1024) == 65;
    forall p | 1 <= p < 2048 && IsPowerOfTwo(p)
      ensures !ClearsFloor(realS, p)
    {
      if p > 1024 {
        PowerOfTwoGap(1024, p);
      }
      SleepMonotone(realS, p, 1024);
    }
  }

  /** `sleep_for(10485760)`, the ten-MiB/s rate `main` uses: 2048-byte
      packets every 130 microseconds. */
  lemma TenMiBPerSecondPlan()
    ensures Inflated(10485760) == 15728640
    ensures IsResolvedSize(15728640, 2048) && Sleep(15728640, 2048) == 130
  {
    assert IsPowerOfTwo(2048);
    assert Divisor(15728640, 2048) == 7680;
    assert Sleep(15728640, 2048) == 130;
    TenMiBPerSecondSmallerFallShort();
  }

  /** Below the floor the divisor exceeds 10000, so doubling the packet
      does not pass the inflated rate. */
  lemma DoublingFits(realS: nat, size: nat)
    requires 1 <= size <= realS && !ClearsFloor(realS, size)
    ensures 2 * size <= realS
  {
    assert realS / size >= 2;
    AtLeastFromQuotient(realS, size, 2);
  }

  /** One iteration of the search loop: a power of two below the floor can
      be doubled without passing the inflated rate, and the doubled size
      still has no smaller power of two that clears the floor. */
  lemma DoublingStep(realS: nat, size: nat)
    requires 1 <= size <= realS && IsPowerOfTwo(size)
    requires !ClearsFloor(realS, size) && NoSmallerClears(realS, size)
    ensures 2 * size <= realS && IsPowerOfTwo(2 * size)
    ensures NoSmallerClears(realS, 2 * size)
  {
    DoublingFits(realS, size);
    assert (2 * size) / 2 == size;
    forall p | 1 <= p < 2 * size && IsPowerOfTwo(p)
      ensures !ClearsFloor(realS, p)
    {
      if p > size {
        PowerOfTwoGap(size, p);
      }
    }
  }

  /** The state of the search loop of `sleep_for` after it has tried
      `size`: a power of two within the inflated rate, its sleep, and no
      smaller power of two clearing the floor. */
  predicate Searching(realS: nat, size: int, sleep: int)
  {
    && 1 <= size <= realS
    && IsPowerOfTwo(size)
    && sleep == Sleep(realS, size)
    && NoSmallerClears(realS, size)
  }

  // ---------------------------------------------------------------------
  // sleep_for: the algorithm
  // ---------------------------------------------------------------------

  /** The search loop of `sleep_for`: starting from a one-byte packet,
      double it while the sleep is below the floor. Every division is by
      a non-zero value, and the loop stops at the resolved size. */
  method ResolveSize(rate: nat) returns (sleep: int, packetLen: nat)
    requires rate >= 1 && Inflated(rate) <= LongMax
    ensures IsResolvedSize(Inflated(rate), packetLen)
    ensures sleep == Sleep(Inflated(rate), packetLen)
    ensures MinSleep <= sleep <= MsToUs(1000)
  {
    var packetSize := 1;
    var realS := rate + rate / 2;
    SleepFormula(realS, packetSize);
    sleep := MsToUs(1000) / (realS / packetSize);
    while sleep < 100
      invariant Searching(realS, packetSize, sleep)
      decreases realS - packetSize
    {
      DoublingStep(realS, packetSize);
      packetSize := packetSize * 2;
      SleepFormula(realS, packetSize);
      sleep := MsToUs(1000) / (realS / packetSize);
    }
    packetLen := packetSize;
  }

  /** `sleep_for`: resolve the rate, then allocate a zero-filled payload
      buffer of the chosen size. */
  method SleepFor(rate: nat) returns (sleep: nat, packetLen: nat, packet: array<bv8>)
    requires rate >= 1 && Inflated(rate) <= LongMax
    ensures IsResolvedSize(Inflated(rate), packetLen)
    ensures sleep == Sleep(Inflated(rate), packetLen)
    ensures MinSleep <= sleep <= MsToUs(1000)
    ensures fresh(packet) && packet.Length == packetLen
    ensures forall i :: 0 <= i < packet.Length ==> packet[i] == 0
  {
    sleep, packetLen := ResolveSize(rate);
    packet := new bv8[packetLen];
    forall i | 0 <= i < packet.Length {
      packet[i] := 0;
    }
  }

  // ---------------------------------------------------------------------
  // print_rate: unit scaling
  // ---------------------------------------------------------------------

  /** `1024` raised to the power `k`: the size of the unit `Endings[k]`. */
  function Pow1024(k: nat): (r: nat)
    ensures r >= 1
  {
    if k == 0 then 1 else 1024 * Pow1024(k - 1)
  }

  lemma {:induction false} Pow1024Monotone(j: nat, k: nat)
    requires j <= k
    ensures Pow1024(j) <= Pow1024(k)
  {
    if j < k {
      Pow1024Monotone(j, k - 1);
    }
  }

  /** One division of the scaling loop moves to the next larger unit. */
  lemma ScaleStep(bytes: int, ending: nat, value: int)
    requires value == bytes / Pow1024(ending) && value >= 1024
    ensures value / 1024 == bytes / Pow1024(ending + 1) && value / 1024 >= 1
  {
    QuotientOfQuotient(bytes, Pow1024(ending), 1024);
    QuotientAtLeast(value, 1024, 1);
  }

  /** Once the scaled value is below 1024, a positive input lies within
      the chosen unit, and the unit is in the table exactly when the input
      is below 1024 to the fifth. */
  lemma ScaleBounds(bytes: int, ending: nat, value: int)
    requires value == bytes / Pow1024(ending) && value < 1024
    requires ending > 0 ==> value >= 1
    ensures bytes >= 1 ==> Pow1024(ending) <= bytes < Pow1024(ending + 1)
    ensures ending < |Endings| <==> bytes < Pow1024(|Endings|)
  {
    if bytes >= 1 {
      if ending > 0 {
        AtLeastFromQuotient(bytes, Pow1024(ending), 1);
      }
      BelowFromQuotient(bytes, Pow1024(ending), 1024);
      if ending < |Endings| {
        Pow1024Monotone(ending + 1, |Endings|);
      } else {
        Pow1024Monotone(|Endings|, ending);
      }
    }
  }

  /** Ten MiB lies in the unit "mb", where it reads as 10. */
  lemma TenMiBPerSecondUnit(ending: nat)
    requires Pow1024(ending) <= 10485760 < Pow1024(ending + 1)
    ensures ending == 2 && 10485760 / Pow1024(ending) == 10 && Endings[ending] == "mb"
  {
    if ending < 2 {
      Pow1024Monotone(ending + 1, 2);
    } else if ending > 2 {
      Pow1024Monotone(3, ending);
    }
    assert Pow1024(2) == 1048576;
  }

  /** The scaling loop of `print_rate`: divide by 1024 while the value is
      at least 1024, counting the divisions. The count indexes `Endings`,
      which is in bounds exactly when the input is below 1024 to the fifth. */
  method ScaleRate(bytes: int) returns (value: int, ending: nat)
    ensures value < 1024
    ensures value == bytes / Pow1024(ending)
    ensures bytes < 1024 ==> ending == 0 && value == bytes
    ensures bytes >= 1 ==> Pow1024(ending) <= bytes < Pow1024(ending + 1)
    ensures ending < |Endings| <==> bytes < Pow1024(|Endings|)
  {
    value, ending := bytes, 0;
    while value >= 1024
      invariant value == bytes / Pow1024(ending)
      invariant ending > 0 ==> value >= 1
    {
      ScaleStep(bytes, ending, value);
      value := value / 1024;
      ending := ending + 1;
    }
    ScaleBounds(bytes, ending, value);
  }

  // ---------------------------------------------------------------------
  // main: the plan it serves
  // ---------------------------------------------------------------------

  /** What `main` computes before it starts sending: the plan for ten MiB/s
      and the scaled rate it reports, "10 mb". */
  method StartupPlan() returns (sleep: nat, packetLen: nat, packet: array<bv8>, value: int, ending: nat)
    ensures packetLen == 2048 && sleep == 130
    ensures fresh(packet) && packet.Length == 2048
    ensures forall i :: 0 <= i < packet.Length ==> packet[i] == 0
    ensures value == 10 && ending < |Endings| && Endings[ending] == "mb"
  {
    var perS := (1024 * 1024) * 10;
    sleep, packetLen, packet := SleepFor(perS);
    TenMiBPerSecondPlan();
    ResolvedSizeUnique(15728640, packetLen, 2048);
    value, ending := ScaleRate(perS);
    TenMiBPerSecondUnit(ending);
  }
}
