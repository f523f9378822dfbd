/** The waveform arithmetic of tools/smart_turn_golden.py: the integer noise generator that a
    TypeScript test replays in doubles, and the truncation of a recording to its last seconds. */
module SmartTurnGolden {

  const MULTIPLIER: int := 1664525
  const INCREMENT: int := 1013904223
  const MODULUS: int := 0x1_0000_0000
  const SEED: nat := 1234567891

  /** One draw of the generator. */
  function Next(state: nat): (next: nat)
    ensures next < MODULUS
  {
    (state * MULTIPLIER + INCREMENT) % MODULUS
  }

  /** The state after `n` draws. */
  function State(seed: nat, n: nat): nat {
    if n == 0 then seed else Next(State(seed, n - 1))
  }

  /** A state mapped to [-1, 1). */
  function Sample(state: nat): real {
    (state as real / MODULUS as real) * 2.0 - 1.0
  }

  method LcgNoise(n: nat) returns (out: array<real>)
    ensures fresh(out) && out.Length == n
    ensures forall k | 0 <= k < n :: out[k] == Sample(State(1234567891, k + 1))
  {
    var state := SEED;
    out := new real[n];
    for index := 0 to n
      invariant state == State(SEED, index)
      invariant forall k | 0 <= k < index :: out[k] == Sample(State(SEED, k + 1))
    {
      state := (state * MULTIPLIER + INCREMENT) % MODULUS;
      out[index] := (state as real / MODULUS as real) * 2.0 - 1.0;
    }
  }

  /** The recurrence that Numerical Recipes gives, its first draws from the script's seed, and the ends and the middle
      of the samples' range. */
  lemma {:induction false} FirstDraws(seed: nat, n: nat)
    ensures State(seed, n + 1) == (1664525 * State(seed, n) + 1013904223) % 4294967296
    ensures State(1234567891, 1) == 80226838 && State(1234567891, 2) == 1468258941
    ensures Sample(0) == -1.0 && Sample(2147483648) == 0.0 && Sample(4294967295) == 2147483647.0 / 2147483648.0
  {
    assert State(1234567891, 0) == 1234567891;
    assert State(1234567891, 1) == Next(1234567891) == 80226838;
    assert State(1234567891, 2) == Next(80226838) == 1468258941;
  }

  // ------------------------------------------------------------------ full period

  /** The generator without its modulus. */
  function Unreduced(x: int, n: nat): int {
    if n == 0 then x else Unreduced(x, n - 1) * MULTIPLIER + INCREMENT
  }

  /** 1 + a + ... + a^(n-1), for the multiplier a. */
  function Geometric(n: nat): int {
    if n == 0 then 0 else Geometric(n - 1) * MULTIPLIER + 1
  }

  function MultiplierPower(n: nat): int {
    if n == 0 then 1 else MultiplierPower(n - 1) * MULTIPLIER
  }

  /** 2^k divides x, by repeated halving. */
  predicate Halves(k: nat, x: int) {
    k == 0 || (x % 2 == 0 && Halves(k - 1, x / 2))
  }

  function Pow2(k: nat): (p: nat)
    ensures p > 0
  {
    if k == 0 then 1 else 2 * Pow2(k - 1)
  }

  lemma {:induction false} HalvesIsDivisibility(k: nat, x: int)
    ensures Halves(k, x) <==> x % Pow2(k) == 0
  {
    if k > 0 {
      HalvesIsDivisibility(k - 1, x / 2);
      if x % 2 == 0 {
        HalfDivides(x, Pow2(k - 1));
      } else {
        EvenDoesNotDivideOdd(x, Pow2(k - 1));
      }
    }
  }

  lemma {:induction false} HalfDivides(x: int, p: nat)
    requires x % 2 == 0 && p > 0
    ensures x % (2 * p) == 0 <==> (x / 2) % p == 0
  {
    var y := x / 2;
    var q, r := y / p, y % p;
    assert y == p * q + r;
    assert x == (2 * p) * q + 2 * r;
    RemainderIsUnique(x, 2 * p, q, 2 * r);
  }

  lemma {:induction false} EvenDoesNotDivideOdd(x: int, p: nat)
    requires x % 2 == 1 && p > 0
    ensures x % (2 * p) != 0
  {
    var q := x / (2 * p);
    assert x == (2 * p) * q + x % (2 * p);
    assert (2 * p) * q == 2 * (p * q);
  }

  lemma {:induction false} RemainderIsUnique(x: int, m: int, q: int, r: int)
    requires 0 <= r < m && x == m * q + r
    ensures x % m == r
  {
    var d := x / m - q;
    assert x % m - r == -(m * d);
    ProductSize(m, d);
  }

  lemma {:induction false} ProductSize(m: int, d: int)
    requires m > 0
    ensures d > 0 ==> m * d >= m
    ensures d < 0 ==> m * d <= -m
  {
  }

  /** Numbers a multiple of the modulus apart have one remainder, and conversely. */
  lemma {:induction false} SameRemainder(x: int, y: int)
    ensures x % MODULUS == y % MODULUS <==> (x - y) % MODULUS == 0
  {
  }

  /** Reducing at every draw or only at the end gives the same state. */
  lemma {:induction false} StateIsReduced(seed: nat, n: nat)
    ensures State(seed, n) % MODULUS == Unreduced(seed, n) % MODULUS
    ensures n > 0 ==> State(seed, n) == Unreduced(seed, n) % MODULUS
  {
    if n > 0 {
      StateIsReduced(seed, n - 1);
      NextOfReduced(State(seed, n - 1), Unreduced(seed, n - 1));
    }
  }

  lemma {:induction false} NextOfReduced(s: nat, u: int)
    requires s % MODULUS == u % MODULUS
    ensures Next(s) == (u * MULTIPLIER + INCREMENT) % MODULUS
  {
    var q := s / MODULUS - u / MODULUS;
    assert s == u + MODULUS * q;
    var p := q * MULTIPLIER;
    assert s * MULTIPLIER + INCREMENT == (u * MULTIPLIER + INCREMENT) + MODULUS * p;
    MultiplesVanish(u * MULTIPLIER + INCREMENT, p);
  }

  lemma {:induction false} MultiplesVanish(x: int, p: int)
    ensures (x + MODULUS * p) % MODULUS == x % MODULUS
  {
  }

  lemma {:induction false} UnreducedComposes(x: int, m: nat, n: nat)
    ensures Unreduced(x, m + n) == Unreduced(Unreduced(x, m), n)
  {
    if n > 0 {
      UnreducedComposes(x, m, n - 1);
    }
  }

  /** The distance travelled in `n` draws. */
  lemma {:induction false} Displacement(x: int, n: nat)
    ensures Unreduced(x, n) - x == Geometric(n) * ((MULTIPLIER - 1) * x + INCREMENT)
  {
    if n > 0 {
      Displacement(x, n - 1);
      var q := (MULTIPLIER - 1) * x + INCREMENT;
      var g := Geometric(n - 1);
      assert Unreduced(x, n) - x == MULTIPLIER * (g * q) + q;
      assert (g * MULTIPLIER + 1) * q == MULTIPLIER * (g * q) + q;
    }
  }

  lemma {:induction false} GeometricSplits(m: nat, n: nat)
    ensures Geometric(m + n) == Geometric(n) + MultiplierPower(n) * Geometric(m)
  {
    if n > 0 {
      GeometricSplits(m, n - 1);
      var p, g := MultiplierPower(n - 1), Geometric(m);
      assert (p * g) * MULTIPLIER == (p * MULTIPLIER) * g;
    }
  }

  lemma {:induction false} PowerIsOneModFour(n: nat)
    ensures MultiplierPower(n) % 4 == 1
  {
    if n > 0 {
      PowerIsOneModFour(n - 1);
      MultiplierIsOneModFour(MultiplierPower(n - 1));
    }
  }

  lemma {:induction false} MultiplierIsOneModFour(p: int)
    ensures (p * MULTIPLIER) % 4 == p % 4
    ensures (p * MULTIPLIER) % 2 == p % 2
  {
    assert p * MULTIPLIER == 4 * (416131 * p) + p;
  }

  lemma {:induction false} GeometricParity(n: nat)
    ensures Geometric(n) % 2 == n % 2
  {
    if n > 0 {
      GeometricParity(n - 1);
      MultiplierIsOneModFour(Geometric(n - 1));
    }
  }

  /** An odd factor does not change how often 2 divides. */
  lemma {:induction false} OddFactorCancels(k: nat, x: int, odd: int)
    requires odd % 2 == 1
    ensures Halves(k, x * odd) <==> Halves(k, x)
  {
    if k > 0 {
      OddProductParity(x, odd);
      if x % 2 == 0 {
        HalfOfProduct(x / 2, odd);
        OddFactorCancels(k - 1, x / 2, odd);
      }
    }
  }

  lemma {:induction false} TwicePlus(q: int, r: int)
    ensures (2 * q + r) % 2 == r % 2
  {
  }

  lemma {:induction false} OddProductParity(x: int, odd: int)
    requires odd % 2 == 1
    ensures (x * odd) % 2 == x % 2
  {
    var h := odd / 2;
    assert x * odd == 2 * (x * h) + x;
    TwicePlus(x * h, x);
  }

  lemma {:induction false} HalfOfProduct(half: int, odd: int)
    ensures ((2 * half) * odd) / 2 == half * odd
  {
    var z := half * odd;
    assert (2 * half) * odd == 2 * z;
  }

  /** A power of two divides the geometric sum exactly when it divides the number of terms. */
  lemma {:induction false} GeometricHalves(k: nat, n: nat)
    ensures Halves(k, Geometric(n)) <==> Halves(k, n)
  {
    GeometricParity(n);
    if k > 0 && n % 2 == 0 {
      var e := n / 2;
      var odd := GeometricDoubles(e);
      assert n == e + e && Geometric(n) / 2 == Geometric(e) * odd;
      OddFactorCancels(k - 1, Geometric(e), odd);
      GeometricHalves(k - 1, e);
    }
  }

  /** Doubling the number of terms multiplies the sum by twice an odd number. */
  lemma {:induction false} GeometricDoubles(e: nat) returns (odd: int)
    ensures odd % 2 == 1 && Geometric(e + e) == 2 * (Geometric(e) * odd)
  {
    GeometricSplits(e, e);
    PowerIsOneModFour(e);
    odd := TwiceOdd(Geometric(e), MultiplierPower(e));
  }

  lemma {:induction false} TwiceOdd(g: int, p: int) returns (odd: int)
    requires p % 4 == 1
    ensures odd % 2 == 1 && g + p * g == 2 * (g * odd)
  {
    odd := (p + 1) / 2;
    assert p == 2 * odd - 1;
  }

  lemma {:induction false} Pow2Is32()
    ensures Pow2(32) == MODULUS
  {
    assert Pow2(4) == 16;
    assert Pow2(8) == 256;
    assert Pow2(12) == 4096;
    assert Pow2(16) == 0x1_0000;
    assert Pow2(20) == 0x10_0000;
    assert Pow2(24) == 0x100_0000;
    assert Pow2(28) == 0x1000_0000;
  }

  lemma {:induction false} AgreeIffDisplacementVanishes(seed: nat, i: nat, d: nat)
    requires 0 < i
    ensures var displacement := Geometric(d) * ((MULTIPLIER - 1) * Unreduced(seed, i) + INCREMENT);
            State(seed, i) == State(seed, i + d) <==> displacement % MODULUS == 0
  {
    var displacement := Geometric(d) * ((MULTIPLIER - 1) * Unreduced(seed, i) + INCREMENT);
    var before, after := Unreduced(seed, i), Unreduced(seed, i + d);
    assert after - before == displacement by {
      UnreducedComposes(seed, i, d);
      Displacement(before, d);
    }
    StateIsReduced(seed, i);
    StateIsReduced(seed, i + d);
    SameRemainder(after, before);
  }

  /** A displacement of `d` draws vanishes exactly when 2^32 divides `d`. */
  lemma {:induction false} DisplacementVanishesIff(odd: int, d: nat)
    requires odd % 2 == 1
    ensures (Geometric(d) * odd) % MODULUS == 0 <==> d % MODULUS == 0
  {
    Pow2Is32();
    HalvesIsDivisibility(32, Geometric(d) * odd);
    OddFactorCancels(32, Geometric(d), odd);
    GeometricHalves(32, d);
    HalvesIsDivisibility(32, d);
  }

  lemma {:induction false} StrideIsOdd(x: int)
    ensures ((MULTIPLIER - 1) * x + INCREMENT) % 2 == 1
  {
    var q := 832262 * x + 506952111;
    assert (MULTIPLIER - 1) * x + INCREMENT == 2 * q + 1;
    TwicePlus(q, 1);
  }

  /** From any seed, two of the first draws agree exactly when they are a multiple of 2^32 draws
      apart: the generator visits all 2^32 states before it repeats one. */
  lemma {:induction false} FullPeriod(seed: nat, i: nat, j: nat)
    requires 0 < i <= j
    ensures State(seed, i) == State(seed, j) <==> (j - i) % MODULUS == 0
  {
    AgreeIffDisplacementVanishes(seed, i, j - i);
    StrideIsOdd(Unreduced(seed, i));
    DisplacementVanishesIff((MULTIPLIER - 1) * Unreduced(seed, i) + INCREMENT, j - i);
  }

  /** `lcg_noise(n)` repeats no sample for any n up to 2^32. */
  lemma {:induction false} NoiseNeverRepeats(i: nat, j: nat)
    requires i < j < MODULUS
    ensures Sample(State(SEED, i + 1)) != Sample(State(SEED, j + 1))
  {
    FullPeriod(SEED, i + 1, j + 1);
  }

  // ------------------------------------------------------------------ the replay in doubles

  function Scaled(m: int, e: int): real {
    if e >= 0 then m as real * Pow2(e) as real else m as real / Pow2(-e) as real
  }

  /** The finite values of IEEE 754 binary64. */
  ghost predicate Binary64(r: real) {
    exists m: int, e: int :: -0x20_0000_0000_0000 < m < 0x20_0000_0000_0000 && -1074 <= e <= 971 && r == Scaled(m, e)
  }

  /** A rounding leaves alone what is already a double. */
  ghost predicate Rounds(rnd: real -> real) {
    forall r :: Binary64(r) ==> rnd(r) == r
  }

  /** The remainder of two doubles, which IEEE 754 makes exact. */
  function Remainder(r: real, m: real): real
    requires m > 0.0
  {
    r - (r / m).Floor as real * m
  }

  /** The generator as a double-precision program runs it: every operation rounded. */
  function FloatNext(rnd: real -> real, state: real): real {
    Remainder(rnd(rnd(state * MULTIPLIER as real) + INCREMENT as real), MODULUS as real)
  }

  function FloatState(rnd: real -> real, seed: nat, n: nat): real {
    if n == 0 then seed as real else FloatNext(rnd, FloatState(rnd, seed, n - 1))
  }

  function FloatSample(rnd: real -> real, state: real): real {
    rnd(rnd(rnd(state / MODULUS as real) * 2.0) - 1.0)
  }

  lemma {:induction false} IntegersAreBinary64(m: int)
    requires -0x20_0000_0000_0000 < m < 0x20_0000_0000_0000
    ensures Binary64(m as real)
  {
    assert m as real == Scaled(m, 0);
  }

  lemma {:induction false} DyadicsAreBinary64(m: int, k: nat)
    requires -0x20_0000_0000_0000 < m < 0x20_0000_0000_0000 && k <= 1074
    ensures Binary64(m as real / Pow2(k) as real)
  {
    if k == 0 {
      IntegersAreBinary64(m);
    } else {
      assert m as real / Pow2(k) as real == Scaled(m, -(k as int));
    }
  }

  lemma {:induction false} IntegerRemainder(x: nat)
    ensures Remainder(x as real, MODULUS as real) == (x % MODULUS) as real
  {
    var q, r := x / MODULUS, x % MODULUS;
    assert x as real == MODULUS as real * q as real + r as real;
    assert x as real / MODULUS as real == q as real + r as real / MODULUS as real;
    assert (x as real / MODULUS as real).Floor == q;
  }

  /** No product of the generator reaches 2^53. */
  lemma {:induction false} ProductsStayBelow53Bits(state: nat)
    requires state < MODULUS
    ensures 0 <= state * MULTIPLIER <= state * MULTIPLIER + INCREMENT < 0x20_0000_0000_0000
  {
  }

  /** Under every rounding, the double-precision replay is the integer generator, draw for draw, and
      every sample is exact and in [-1, 1). */
  lemma {:induction false} FloatReplayIsExact(rnd: real -> real, seed: nat, n: nat)
    requires Rounds(rnd) && seed < MODULUS
    ensures FloatState(rnd, seed, n) == State(seed, n) as real
    ensures State(seed, n) < MODULUS
    ensures FloatSample(rnd, FloatState(rnd, seed, n)) == Sample(State(seed, n))
    ensures -1.0 <= Sample(State(seed, n)) < 1.0
  {
    hide Rounds, Next, FloatNext, Sample, FloatSample;
    if n > 0 {
      FloatReplayIsExact(rnd, seed, n - 1);
      DrawIsExact(rnd, State(seed, n - 1));
    }
    SampleIsExact(rnd, State(seed, n));
  }

  lemma {:induction false} DrawIsExact(rnd: real -> real, s: nat)
    requires Rounds(rnd) && s < MODULUS
    ensures FloatNext(rnd, s as real) == Next(s) as real
  {
    hide Binary64, Remainder;
    var product := s * MULTIPLIER;
    ProductsStayBelow53Bits(s);
    assert s as real * MULTIPLIER as real == product as real;
    assert product as real + INCREMENT as real == (product + INCREMENT) as real;
    IntegersAreBinary64(product);
    IntegersAreBinary64(product + INCREMENT);
    IntegerRemainder(product + INCREMENT);
  }

  lemma {:induction false} SampleIsExact(rnd: real -> real, state: nat)
    requires Rounds(rnd) && state < MODULUS
    ensures FloatSample(rnd, state as real) == Sample(state)
    ensures -1.0 <= Sample(state) < 1.0
  {
    Pow2Is32();
    assert Pow2(31) == 0x8000_0000;
    hide Binary64, Pow2;
    DyadicsAreBinary64(state, 32);
    DyadicsAreBinary64(state, 31);
    DyadicsAreBinary64(state - 0x8000_0000, 31);
    assert (state as real / MODULUS as real) * 2.0 == state as real / Pow2(31) as real;
    assert state as real / Pow2(31) as real - 1.0 == (state - 0x8000_0000) as real / Pow2(31) as real;
  }

  // ------------------------------------------------------------------ the last seconds of a recording

  /** Python's `s[k:]`. */
  function SliceFrom<T>(s: seq<T>, k: int): seq<T> {
    if k >= |s| then [] else if k >= 0 then s[k..] else if -k >= |s| then s else s[|s| + k..]
  }

  function TruncateAudio(audio: seq<real>, seconds: int, rate: int): seq<real> {
    var most := seconds * rate;
    if |audio| > most then SliceFrom(audio, -most)
    else if |audio| < most then seq(most - |audio|, _ => 0.0) + audio
    else audio
  }

  /** For a positive budget the result has exactly that many samples and ends with the end of the
      recording; a shorter recording is preceded by silence. */
  lemma {:induction false} TruncateKeepsTheEnd(audio: seq<real>, seconds: int, rate: int, fromEnd: nat)
    requires 0 < fromEnd <= seconds * rate
    ensures var kept := TruncateAudio(audio, seconds, rate);
            && |kept| == seconds * rate
            && kept[|kept| - fromEnd] == if fromEnd <= |audio| then audio[|audio| - fromEnd] else 0.0
  {
  }

  /** The promised length is met exactly when the budget is positive, or when both are empty: a budget
      of zero samples slices from -0, which keeps the whole recording; a negative one drops its beginning. */
  lemma {:induction false} TruncateMeetsItsLengthIff(audio: seq<real>, seconds: int, rate: int)
    ensures |TruncateAudio(audio, seconds, rate)| == seconds * rate
        <==> seconds * rate > 0 || (seconds * rate == 0 && audio == [])
    ensures seconds * rate == 0 ==> TruncateAudio(audio, seconds, rate) == audio
    ensures 0 < -(seconds * rate) <= |audio| ==> TruncateAudio(audio, seconds, rate) == audio[-(seconds * rate)..]
    ensures |audio| < -(seconds * rate) ==> TruncateAudio(audio, seconds, rate) == []
  {
    assert audio[0..] == audio;
  }
}
