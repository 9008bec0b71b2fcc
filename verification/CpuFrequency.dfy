/** The search for PLL settings, with the 32-bit arithmetic of the LPC17xx. */
module CpuFrequency {
  import opened Extremes
  const CCO_MIN := 275_000_000
  const CCO_MAX := 550_000_000
  const MAX_DIV := 32
  const ULONG: nat := 0x1_0000_0000
  const LONG_MAX: nat := 0x7FFF_FFFF

  /** Conversion to `unsigned long`. */
  function Unsigned(x: int): (r: nat)
    ensures r < ULONG
  {
    x % ULONG
  }

  /** `labs` of the `long` that an `unsigned long` converts to. */
  function Labs(x: nat): nat
    requires x < ULONG
  {
    if x <= LONG_MAX then x else ULONG - x
  }

  /** Division of unsigned values. */
  function Div(x: nat, y: nat): nat
    requires y > 0
  {
    x / y
  }

  /** The distance between a frequency and the wanted one. */
  function Distance(cpu: nat, frequency: nat): nat {
    if cpu < frequency then frequency - cpu else cpu - frequency
  }

  /** The oscillator frequency a multiplier gives. */
  function Cco(input: nat, mul: nat): nat {
    mul * input
  }

  /** A multiplier the hardware allows: within 6..512, and the oscillator within its range. */
  predicate Allowed(input: nat, mul: nat) {
    6 <= mul <= 512 && CCO_MIN <= Cco(input, mul) <= CCO_MAX
  }

  predicate AllowedDiv(div: nat) {
    1 <= div <= MAX_DIV
  }

  function LowerDiv(cco: nat, frequency: nat): nat
    requires frequency > 0
  {
    Max(1, cco / frequency)
  }

  function UpperDiv(cco: nat, frequency: nat): nat
    requires frequency > 0
  {
    Min(MAX_DIV, (cco + frequency - 1) / frequency)
  }

  predicate Tried(cco: nat, frequency: nat, div: nat)
    requires frequency > 0
  {
    LowerDiv(cco, frequency) <= div <= UpperDiv(cco, frequency) && AllowedDiv(div)
  }

  // ---------------------------------------------------------------------------------------------
  // Division

  lemma MulMonotonic(a: nat, b: nat, m: nat)
    requires a <= b
    ensures a * m <= b * m
  {
    assert b * m == a * m + (b - a) * m;
    assert (b - a) * m >= 0;
  }

  lemma DivAntitone(c: nat, a: nat, b: nat)
    requires 0 < a <= b
    ensures c / b <= c / a
  {
    var q := c / b;
    MulMonotonic(a, b, q);
    assert q * a <= q * b <= c;
    DivAbove(c, a, q);
  }

  lemma DivAbove(c: nat, d: nat, f: nat)
    requires d > 0 && f * d <= c
    ensures c / d >= f
  {
    var q := c / d;
    assert c == q * d + c % d;
    if q < f {
      MulMonotonic(q + 1, f, d);
    }
  }

  lemma DivBelow(c: nat, d: nat, f: nat)
    requires d > 0 && c < (f + 1) * d
    ensures c / d <= f
  {
    var q := c / d;
    assert c == q * d + c % d;
    if q > f {
      MulMonotonic(f + 1, q, d);
    }
  }

  // ---------------------------------------------------------------------------------------------
  // One multiplier

  lemma QuotientAndCeiling(cco: nat, frequency: nat)
    requires cco > 0 && frequency > 0
    ensures var q, u := cco / frequency, (cco + frequency - 1) / frequency;
            && q * frequency <= cco <= u * frequency
            && q <= u <= q + 1 && u >= 1
  {
    DivAbove(cco + frequency - 1, frequency, 1);
    var q, r := cco / frequency, cco % frequency;
    assert cco == q * frequency + r;
    var u := if r == 0 then q else q + 1;
    DivAbove(cco + frequency - 1, frequency, u);
    DivBelow(cco + frequency - 1, frequency, u);
  }

  lemma TriedRange(cco: nat, frequency: nat)
    requires cco > 0 && frequency > 0
    ensures cco / frequency <= MAX_DIV <==> LowerDiv(cco, frequency) <= UpperDiv(cco, frequency)
  {
    QuotientAndCeiling(cco, frequency);
  }

  /**
   When the quotient is at most 32, no divisor in 1..32 is better than one of the at most two that are tried.
   */
  lemma BestDivisorIsTried(cco: nat, frequency: nat, div: nat) returns (best: nat)
    requires cco > 0 && frequency > 0 && cco / frequency <= MAX_DIV && AllowedDiv(div)
    ensures Tried(cco, frequency, best)
    ensures Distance(cco / best, frequency) <= Distance(cco / div, frequency)
  {
    TriedRange(cco, frequency);
    QuotientAndCeiling(cco, frequency);
    var q, u := cco / frequency, (cco + frequency - 1) / frequency;
    if div <= q {
      best := q;
      DivAntitone(cco, div, q);
      assert frequency * q <= cco;
      DivAbove(cco, q, frequency);
    } else {
      best := u;
      DivAntitone(cco, u, div);
      assert cco < (frequency + 1) * u;
      DivBelow(cco, u, frequency);
    }
  }

  // ---------------------------------------------------------------------------------------------
  // Multipliers that are skipped

  /** A multiplier whose quotient exceeds 32 misses the wanted frequency by at least a 32nd of it. */
  lemma SkippedIsFar(cco: nat, frequency: nat, div: nat)
    requires frequency > 0 && cco / frequency > MAX_DIV && AllowedDiv(div)
    ensures Distance(cco / div, frequency) >= frequency / 32
  {
    ThirtyThreeTimes(cco, frequency);
    MulMonotonic(div, 32, frequency + frequency / 32);
    DivAbove(cco, div, frequency + frequency / 32);
  }

  lemma ThirtyThreeTimes(cco: nat, frequency: nat)
    requires frequency > 0
    ensures cco / frequency > MAX_DIV <==> 33 * frequency <= cco
  {
    if 33 * frequency <= cco {
      DivAbove(cco, frequency, 33);
    } else {
      DivBelow(cco, frequency, 32);
    }
  }

  /** A multiplier that is tried comes at least that near, as soon as some allowed multiplier is skipped. */
  lemma TriedIsNear(cco: nat, frequency: nat) returns (best: nat)
    requires frequency > 0 && cco >= CCO_MIN && cco / frequency <= MAX_DIV && 33 * frequency <= CCO_MAX
    ensures Tried(cco, frequency, best)
    ensures Distance(cco / best, frequency) <= frequency / 32
  {
    QuotientAndCeiling(cco, frequency);
    ThirtyThreeTimes(cco, frequency);
    var q, r := cco / frequency, cco % frequency;
    DivAbove(cco, frequency, 16);
    if q == 32 || 2 * r <= frequency {
      best := q;
      NearFromAbove(cco, q, frequency, r);
    } else {
      best := q + 1;
      assert (q + 1) * frequency >= cco > q * frequency;
      TriedAbove(cco, q, frequency);
      NearFromBelow(cco, q, frequency, r);
    }
  }

  lemma TriedAbove(cco: nat, q: nat, frequency: nat)
    requires frequency > 0 && q * frequency < cco <= (q + 1) * frequency && 16 <= q <= 31
    ensures Tried(cco, frequency, q + 1)
  {
    DivBelow(cco, frequency, q + 1);
    DivAbove(cco + frequency - 1, frequency, q + 1);
  }

  lemma NearFromAbove(cco: nat, q: nat, frequency: nat, r: nat)
    requires cco == q * frequency + r && r < frequency && 16 <= q <= 32
    requires q == 32 || 2 * r <= frequency
    ensures frequency <= cco / q <= frequency + frequency / 32
  {
    var e := frequency / 32;
    MulMonotonic(16, q, e + 1);
    assert (frequency + e + 1) * q == q * frequency + q * (e + 1);
    DivAbove(cco, q, frequency);
    DivBelow(cco, q, frequency + e);
  }

  lemma NearFromBelow(cco: nat, q: nat, frequency: nat, r: nat)
    requires cco == q * frequency + r && r < frequency < 2 * r && 16 <= q <= 31 && frequency >= 32 * 32
    ensures frequency - frequency / 32 <= cco / (q + 1) <= frequency
  {
    var e, p := frequency / 32, q + 1;
    MulMonotonic(17, p, e);
    assert (frequency - e) * p == q * frequency + frequency - p * e;
    assert (frequency + 1) * p == q * frequency + frequency + p;
    DivAbove(cco, p, frequency - e);
    DivBelow(cco, p, frequency);
  }

  // ---------------------------------------------------------------------------------------------
  // The search

  /** How far the settings miss the wanted frequency. */
  function Error(input: nat, frequency: nat, mul: nat, div: nat): nat
    requires div > 0
  {
    Distance(Cco(input, mul) / div, frequency)
  }

  predicate Skipped(input: nat, frequency: nat, mul: nat)
    requires frequency > 0
  {
    Cco(input, mul) / frequency > MAX_DIV
  }

  /** The settings come at least as near to the wanted frequency as any allowed ones. */
  ghost predicate Optimal(input: nat, frequency: nat, mul: nat, div: nat)
    requires AllowedDiv(div)
  {
    forall m: nat, d: nat | Allowed(input, m) && AllowedDiv(d) ::
      Error(input, frequency, mul, div) <= Error(input, frequency, m, d)
  }

  /** No allowed multiplier is small enough for a divisor of at most 32. */
  ghost predicate OutOfReach(input: nat, frequency: nat)
    requires frequency > 0
  {
    forall m: nat | Allowed(input, m) :: Skipped(input, frequency, m)
  }

  /** An error is at most that of all the tried settings of a range of multipliers. */
  ghost predicate BestTried(input: nat, frequency: nat, lower: nat, upper: nat, error: nat)
    requires frequency > 0
  {
    forall m: nat, d: nat | lower <= m < upper && Tried(Cco(input, m), frequency, d) ::
      error <= Error(input, frequency, m, d)
  }

  lemma TriedBeatsAll(input: nat, frequency: nat, mul: nat, m: nat, d: nat) returns (best: nat, from: nat)
    requires frequency > 0 && Allowed(input, mul) && !Skipped(input, frequency, mul)
    requires Allowed(input, m) && AllowedDiv(d)
    ensures (from == m || from == mul) && Tried(Cco(input, from), frequency, best)
    ensures Error(input, frequency, from, best) <= Error(input, frequency, m, d)
  {
    if Skipped(input, frequency, m) {
      SkippedIsFar(Cco(input, m), frequency, d);
      ThirtyThreeTimes(Cco(input, m), frequency);
      from := mul;
      best := TriedIsNear(Cco(input, mul), frequency);
    } else {
      from := m;
      best := BestDivisorIsTried(Cco(input, m), frequency, d);
    }
  }

  lemma TriedBestIsOptimal(input: nat, frequency: nat, lower: nat, upper: nat, mul: nat, div: nat)
    requires frequency > 0
    requires forall m: nat :: lower <= m < upper <==> Allowed(input, m)
    requires Allowed(input, mul) && Tried(Cco(input, mul), frequency, div)
    requires BestTried(input, frequency, lower, upper, Error(input, frequency, mul, div))
    ensures !Skipped(input, frequency, mul)
    ensures Optimal(input, frequency, mul, div)
  {
    TriedRange(Cco(input, mul), frequency);
    forall m: nat, d: nat | Allowed(input, m) && AllowedDiv(d)
      ensures Error(input, frequency, mul, div) <= Error(input, frequency, m, d)
    {
      var best, from := TriedBeatsAll(input, frequency, mul, m, d);
    }
  }

  /** What the search knows about its result: nothing was tried yet, or the result was tried and has this error. */
  ghost predicate Found(input: nat, frequency: nat, lower: nat, m: nat, error: nat, div: nat, mul: nat)
    requires frequency > 0
  {
    if div == 0 then
      mul == 0 && error == ULONG - 1 && forall k: nat | lower <= k < m :: Skipped(input, frequency, k)
    else
      Tried(Cco(input, mul), frequency, div) && error == Error(input, frequency, mul, div)
  }

  /** No setting that is tried before these comes as near. */
  ghost predicate FirstTried(input: nat, frequency: nat, lower: nat, mul: nat, div: nat)
    requires frequency > 0
  {
    div > 0 ==>
      forall m: nat, d: nat | lower <= m && Tried(Cco(input, m), frequency, d) && (m < mul || (m == mul && d < div)) ::
        Error(input, frequency, mul, div) < Error(input, frequency, m, d)
  }

  function LowerMul(input: nat): nat
    requires input > 0
  {
    Max(6, Unsigned(CCO_MIN + input - 1) / input)
  }

  function UpperMul(input: nat): nat
    requires input > 0
  {
    Min(512, CCO_MAX / input)
  }

  /** The loop bounds enclose exactly the allowed multipliers. */
  lemma MultiplierRange(input: nat, m: nat)
    requires 0 < input < ULONG
    ensures LowerMul(input) <= m <= UpperMul(input) <==> Allowed(input, m)
  {
    UpperMultiplier(input, m);
    if m >= 1 {
      LowerMultiplier(input, m);
    }
  }

  lemma UpperMultiplier(input: nat, m: nat)
    requires input > 0
    ensures m <= CCO_MAX / input <==> Cco(input, m) <= CCO_MAX
  {
    var high := CCO_MAX / input;
    assert high * input <= CCO_MAX;
    if m <= high {
      MulMonotonic(m, high, input);
    } else {
      if Cco(input, m) <= CCO_MAX {
        DivAbove(CCO_MAX, input, m);
      }
    }
  }

  lemma LowerMultiplier(input: nat, m: nat)
    requires 0 < input < ULONG && m >= 1
    ensures Unsigned(CCO_MIN + input - 1) / input <= m <==> CCO_MIN <= Cco(input, m)
  {
    var sum := CCO_MIN + input - 1;
    if sum < ULONG {
      if CCO_MIN <= Cco(input, m) {
        assert sum < (m + 1) * input;
        DivBelow(sum, input, m);
      } else {
        assert sum >= (m + 1) * input;
        DivAbove(sum, input, m + 1);
      }
    } else {
      assert Unsigned(sum) == sum - ULONG < input;
      DivBelow(Unsigned(sum), input, 0);
      MulMonotonic(1, m, input);
    }
  }

  lemma ErrorIsDistance(cpu: nat, frequency: nat)
    requires cpu <= CCO_MAX && frequency <= LONG_MAX
    ensures Labs(Unsigned(cpu - frequency)) == Distance(cpu, frequency)
  {
  }

  lemma OneMoreMultiplier(input: nat, frequency: nat, lower: nat, m: nat, error: nat, div: nat, mul: nat)
    requires frequency > 0 && lower <= m && Allowed(input, m)
    requires BestTried(input, frequency, lower, m, error) && Found(input, frequency, lower, m, error, div, mul)
    requires forall k: nat | Tried(Cco(input, m), frequency, k) :: error <= Error(input, frequency, m, k)
    requires div == 0 ==> LowerDiv(Cco(input, m), frequency) > UpperDiv(Cco(input, m), frequency)
    ensures BestTried(input, frequency, lower, m + 1, error)
    ensures Found(input, frequency, lower, m + 1, error, div, mul)
  {
    TriedRange(Cco(input, m), frequency);
  }

  // ---------------------------------------------------------------------------------------------
  // Frequencies above the greatest `long`

  /** What the search takes for the distance to a frequency that far above: it shrinks again beyond 2^31. */
  function Wrapped(distance: nat): int {
    if distance <= LONG_MAX + 1 then distance else ULONG - distance
  }

  /** Only divisor 1 is tried, and only when the sum that rounds up does not wrap. */
  predicate TriedHigh(input: nat, frequency: nat, m: nat) {
    Cco(input, m) + frequency <= ULONG
  }

  function HighError(input: nat, frequency: nat, m: nat): int {
    Wrapped(Distance(Cco(input, m), frequency))
  }

  /** What is known about the result: nothing was tried yet, or it is the first one of the least error. */
  ghost predicate FoundHigh(input: nat, frequency: nat, lower: nat, m: nat, error: nat, div: nat, mul: nat)
  {
    if div == 0 then
      mul == 0 && error == ULONG - 1 && forall k: nat | lower <= k < m :: !TriedHigh(input, frequency, k)
    else
      && div == 1 && lower <= mul < m && TriedHigh(input, frequency, mul) && error == HighError(input, frequency, mul)
      && (forall k: nat | lower <= k < m && TriedHigh(input, frequency, k) :: error <= HighError(input, frequency, k))
      && (forall k: nat | lower <= k < mul && TriedHigh(input, frequency, k) :: error < HighError(input, frequency, k))
  }

  /** The greatest allowed multiplier is tried, and comes out nearer than the least one even with wrap-around. */
  predicate NearEnough(input: nat, frequency: nat)
    requires input > 0
  {
    var l, u := LowerMul(input), UpperMul(input);
    l <= u ==> TriedHigh(input, frequency, u) && (l == u || 2 * frequency < ULONG + Cco(input, l) + Cco(input, u))
  }

  lemma CcoMonotonic(input: nat, a: nat, b: nat)
    requires a <= b
    ensures Cco(input, a) <= Cco(input, b)
    ensures a < b && input > 0 ==> Cco(input, a) < Cco(input, b)
  {
    MulMonotonic(a, b, input);
    if a < b {
      MulMonotonic(a + 1, b, input);
    }
  }

  /** Of two multipliers the greater comes out nearer exactly when the wanted frequency is not too far above both. */
  lemma HighOrder(input: nat, frequency: nat, a: nat, b: nat)
    requires 0 < input < ULONG && LONG_MAX < frequency < ULONG && a < b && Cco(input, b) <= CCO_MAX
    ensures HighError(input, frequency, b) < HighError(input, frequency, a) <==>
            2 * frequency < ULONG + Cco(input, a) + Cco(input, b)
  {
    CcoMonotonic(input, a, b);
    WrappedOrder(frequency - Cco(input, b), frequency - Cco(input, a));
  }

  lemma WrappedOrder(near: nat, far: nat)
    requires near < far < ULONG
    ensures Wrapped(near) < Wrapped(far) <==> near + far < ULONG
  {
  }

  /** No allowed frequency reaches such a wanted one, so the greatest multiplier undivided is the one optimum. */
  lemma OptimalHigh(input: nat, frequency: nat, mul: nat)
    requires 0 < input < ULONG && LONG_MAX < frequency < ULONG && Allowed(input, mul)
    ensures Optimal(input, frequency, mul, 1) <==> mul == UpperMul(input)
  {
    var u := UpperMul(input);
    MultiplierRange(input, mul);
    MultiplierRange(input, u);
    CcoMonotonic(input, mul, u);
    if mul < u {
      assert Error(input, frequency, mul, 1) > Error(input, frequency, u, 1);
    } else {
      forall m: nat, d: nat | Allowed(input, m) && AllowedDiv(d)
        ensures Error(input, frequency, mul, 1) <= Error(input, frequency, m, d)
      {
        MultiplierRange(input, m);
        CcoMonotonic(input, m, u);
        DivAntitone(Cco(input, m), 1, d);
      }
    }
  }

  lemma GreatestIsFound(input: nat, frequency: nat, error: nat, div: nat, mul: nat)
    requires 0 < input < ULONG && LONG_MAX < frequency < ULONG && LowerMul(input) <= UpperMul(input)
    requires forall k: nat :: LowerMul(input) <= k <= UpperMul(input) <==> Allowed(input, k)
    requires FoundHigh(input, frequency, LowerMul(input), UpperMul(input) + 1, error, div, mul)
    ensures div == 1 && mul == UpperMul(input) <==> NearEnough(input, frequency)
  {
    var l, u := LowerMul(input), UpperMul(input);
    assert Allowed(input, l) && Allowed(input, u);
    CcoMonotonic(input, l, u);
    if l < u {
      HighOrder(input, frequency, l, u);
    }
    if div != 0 && mul < u {
      CcoMonotonic(input, l, mul);
      HighOrder(input, frequency, mul, u);
    }
  }

  /** The result is right: an optimum, or (0, 0) when everything is out of reach. */
  ghost predicate Right(input: nat, frequency: nat, div: nat, mul: nat)
    requires frequency > 0
  {
    if div == 0 then mul == 0 && OutOfReach(input, frequency)
    else Allowed(input, mul) && AllowedDiv(div) && Optimal(input, frequency, mul, div) && !OutOfReach(input, frequency)
  }

  /** For such a frequency the result is right if and only if the greatest multiplier is near enough. */
  lemma RightWhen(input: nat, frequency: nat, error: nat, div: nat, mul: nat)
    requires 0 < input < ULONG && LONG_MAX < frequency < ULONG
    requires forall k: nat :: LowerMul(input) <= k <= UpperMul(input) <==> Allowed(input, k)
    requires FoundHigh(input, frequency, LowerMul(input), UpperMul(input) + 1, error, div, mul)
    ensures Right(input, frequency, div, mul) <==> NearEnough(input, frequency)
  {
    var l, u := LowerMul(input), UpperMul(input);
    if l <= u {
      GreatestIsFound(input, frequency, error, div, mul);
      assert Allowed(input, u);
      DivBelow(Cco(input, u), frequency, 0);
      assert !Skipped(input, frequency, u);
      if div != 0 {
        OptimalHigh(input, frequency, mul);
      }
    }
  }

  method FindPllConfig(input: nat, frequency: nat) returns (div: nat, mul: nat)
    requires 0 < input < ULONG && 0 < frequency < ULONG
    ensures Right(input, frequency, div, mul) <==> frequency <= LONG_MAX || NearEnough(input, frequency)
    ensures frequency <= LONG_MAX ==> FirstTried(input, frequency, LowerMul(input), mul, div)
  {
    var lowerMul, upperMul := LowerMul(input), UpperMul(input);
    var frequencyError: nat := ULONG - 1;
    div, mul := 0, 0;
    forall m: nat ensures lowerMul <= m <= upperMul <==> Allowed(input, m) {
      MultiplierRange(input, m);
    }

    var m := lowerMul;
    while m <= upperMul
      invariant lowerMul <= m && (m <= upperMul + 1 || m == lowerMul)
      invariant Searched(input, frequency, lowerMul, m, frequencyError, div, mul)
    {
      frequencyError, div, mul := TryMultiplier(input, frequency, lowerMul, m, frequencyError, div, mul);
      m := m + 1;
    }
    if frequency > LONG_MAX {
      RightWhenSearched(input, frequency, m, frequencyError, div, mul);
    } else if div != 0 {
      TriedBestIsOptimal(input, frequency, lowerMul, upperMul + 1, mul, div);
    }
  }

  /** What the search has come to before multiplier m. */
  ghost predicate Searched(input: nat, frequency: nat, lower: nat, m: nat, error: nat, div: nat, mul: nat)
    requires 0 < frequency < ULONG
  {
    && (div != 0 ==> lower <= mul < m)
    && (forall k: nat | lower <= k < m :: Allowed(input, k))
    && if frequency <= LONG_MAX then
         && BestTried(input, frequency, lower, m, error) && Found(input, frequency, lower, m, error, div, mul)
         && FirstTried(input, frequency, lower, mul, div)
       else FoundHigh(input, frequency, lower, m, error, div, mul)
  }

  lemma RightWhenSearched(input: nat, frequency: nat, m: nat, error: nat, div: nat, mul: nat)
    requires 0 < input < ULONG && LONG_MAX < frequency < ULONG
    requires forall k: nat :: LowerMul(input) <= k <= UpperMul(input) <==> Allowed(input, k)
    requires m > UpperMul(input) && (m == UpperMul(input) + 1 || m == LowerMul(input))
    requires Searched(input, frequency, LowerMul(input), m, error, div, mul)
    ensures Right(input, frequency, div, mul) <==> NearEnough(input, frequency)
  {
    RightWhen(input, frequency, error, div, mul);
  }

  method CurrentError(input: nat, frequency: nat, m: nat, cco: nat, d: nat) returns (currentError: nat)
    requires Allowed(input, m) && cco == Cco(input, m) && d > 0 && frequency < ULONG
    ensures frequency <= LONG_MAX ==> currentError == Error(input, frequency, m, d) < ULONG - 1
    ensures frequency > LONG_MAX && d == 1 ==> currentError == HighError(input, frequency, m)
  {
    var cpuFrequency := Div(cco, d);
    currentError := Labs(Unsigned(cpuFrequency - frequency));
    if frequency <= LONG_MAX {
      DivAntitone(cco, 1, d);
      ErrorIsDistance(cpuFrequency, frequency);
    } else if d == 1 {
      ErrorIsWrapped(cco, frequency);
    }
  }

  lemma ErrorIsWrapped(cco: nat, frequency: nat)
    requires cco <= CCO_MAX && LONG_MAX < frequency < ULONG
    ensures Div(cco, 1) == cco && Labs(Unsigned(cco - frequency)) == Wrapped(frequency - cco)
  {
  }

  /** The range of divisors that are tried, for a frequency above the greatest `long`. */
  lemma HighRange(cco: nat, frequency: nat)
    requires 0 < cco <= CCO_MAX && LONG_MAX < frequency < ULONG
    ensures Max(1, Div(cco, frequency)) == 1
    ensures Min(MAX_DIV, Div(Unsigned(cco + frequency - 1), frequency)) == if cco + frequency <= ULONG then 1 else 0
  {
    DivBelow(cco, frequency, 0);
    var sum := cco + frequency - 1;
    if sum < ULONG {
      DivAbove(sum, frequency, 1);
      DivBelow(sum, frequency, 1);
    } else {
      DivBelow(Unsigned(sum), frequency, 0);
    }
  }

  /** The one turn of the inner loop for such a frequency. */
  function StepHigh(input: nat, frequency: nat, m: nat, error: nat, div: nat, mul: nat): (int, nat, nat) {
    if TriedHigh(input, frequency, m) && HighError(input, frequency, m) < error then
      (HighError(input, frequency, m), 1, m)
    else (error, div, mul)
  }

  lemma OneMoreHigh(input: nat, frequency: nat, lower: nat, m: nat, error: nat, div: nat, mul: nat)
    requires LONG_MAX < frequency < ULONG && lower <= m && Allowed(input, m)
    requires FoundHigh(input, frequency, lower, m, error, div, mul)
    ensures var r := StepHigh(input, frequency, m, error, div, mul);
            r.0 >= 0 && FoundHigh(input, frequency, lower, m + 1, r.0, r.1, r.2)
  {
    assert 0 <= HighError(input, frequency, m) < ULONG - 1;
  }

  /** What the inner loop has come to before divisor d. */
  ghost predicate SearchedWithin(input: nat, frequency: nat, lower: nat, m: nat, d: nat, error: nat, div: nat, mul: nat)
    requires 0 < frequency <= LONG_MAX
  {
    var lowerDiv := LowerDiv(Cco(input, m), frequency);
    && lowerDiv <= d && (div != 0 ==> lower <= mul <= m)
    && BestTried(input, frequency, lower, m, error) && Found(input, frequency, lower, m, error, div, mul)
    && (div == 0 ==> d == lowerDiv)
    && (forall k | lowerDiv <= k < d :: error <= Error(input, frequency, m, k))
    && FirstTried(input, frequency, lower, mul, div)
  }

  /** The inner loop: the divisors of one multiplier. */
  method TryMultiplier(input: nat, frequency: nat, ghost lowerMul: nat, m: nat, error: nat, oldDiv: nat, oldMul: nat)
    returns (frequencyError: nat, div: nat, mul: nat)
    requires 0 < input < ULONG && 0 < frequency < ULONG && Allowed(input, m) && lowerMul <= m
    requires Searched(input, frequency, lowerMul, m, error, oldDiv, oldMul)
    ensures Searched(input, frequency, lowerMul, m + 1, frequencyError, div, mul)
  {
    frequencyError, div, mul := error, oldDiv, oldMul;
    var cco := Unsigned(Cco(input, m));
    var lowerDiv := Max(1, Div(cco, frequency));
    var upperDiv := Min(MAX_DIV, Div(Unsigned(cco + frequency - 1), frequency));
    ghost var high := frequency > LONG_MAX;
    DivisorRange(input, frequency, m, cco);
    var d := lowerDiv;
    while d <= upperDiv
      invariant !high ==> SearchedWithin(input, frequency, lowerMul, m, d, frequencyError, div, mul)
      invariant high && d == 1 ==> (frequencyError, div, mul) == (error, oldDiv, oldMul)
      invariant high ==> d <= 2
      invariant high && d == 2 ==>
                  (frequencyError, div, mul) == StepHigh(input, frequency, m, error, oldDiv, oldMul)
      invariant lowerDiv <= d
    {
      var currentError := CurrentError(input, frequency, m, cco, d);
      if currentError < frequencyError {
        frequencyError := currentError;
        div := d;
        mul := m;
      }
      d := d + 1;
    }
    if high {
      OneMoreHigh(input, frequency, lowerMul, m, error, oldDiv, oldMul);
    } else {
      OneMoreMultiplier(input, frequency, lowerMul, m, frequencyError, div, mul);
    }
  }

  lemma DivisorRange(input: nat, frequency: nat, m: nat, cco: nat)
    requires Allowed(input, m) && cco == Unsigned(Cco(input, m)) && 0 < frequency < ULONG
    ensures cco == Cco(input, m)
    ensures var lower := Max(1, Div(cco, frequency));
            var upper := Min(MAX_DIV, Div(Unsigned(cco + frequency - 1), frequency));
            if frequency <= LONG_MAX then lower == LowerDiv(cco, frequency) && upper == UpperDiv(cco, frequency)
            else lower == 1 && upper == if TriedHigh(input, frequency, m) then 1 else 0
  {
    if frequency > LONG_MAX {
      HighRange(cco, frequency);
    }
  }

  // ---------------------------------------------------------------------------------------------
  // The 12 MHz instance

  /** With 12 MHz the multipliers from 23 to 45 are allowed, and no others. */
  lemma AllowedAtTwelve(m: nat)
    ensures Allowed(12_000_000, m) <==> 23 <= m <= 45
  {
  }

  /** With 12 MHz everything is out of reach exactly for frequencies of at most 276 MHz divided by 33. */
  lemma OutOfReachAtTwelve(frequency: nat)
    requires 0 < frequency < ULONG
    ensures OutOfReach(12_000_000, frequency) <==> 33 * frequency <= 276_000_000
  {
    AllowedAtTwelve(23);
    ThirtyThreeTimes(276_000_000, frequency);
    assert Cco(12_000_000, 23) == 276_000_000;
    forall m: nat | Allowed(12_000_000, m) && 33 * frequency <= 276_000_000
      ensures Skipped(12_000_000, frequency, m)
    {
      AllowedAtTwelve(m);
      ThirtyThreeTimes(Cco(12_000_000, m), frequency);
    }
  }

  /** Settings that meet 100 MHz exactly are optimal, and only such settings are: 25 / 3 for one. */
  lemma OneHundredMegahertz(mul: nat, div: nat)
    requires Allowed(12_000_000, mul) && AllowedDiv(div)
    ensures Optimal(12_000_000, 100_000_000, mul, div) <==> mul * 12_000_000 / div == 100_000_000
    ensures AllowedDiv(3) && 25 * 12_000_000 / 3 == 100_000_000
  {
    AllowedAtTwelve(25);
    assert Error(12_000_000, 100_000_000, 25, 3) == 0;
  }

  /** Divisors are those from 1 to 32. */
  lemma AllowedDivisors(div: nat)
    ensures AllowedDiv(div) <==> 1 <= div <= 32
  {
  }
}
