/**
 Deterministic delays (packages/core/src/behavioral-privacy/jitter.ts) over exact
 rationals: the 32-bit hash, the base jitter and the delay scaled by score and risk.
 */
module Jitter {
  import opened Correlations
  import opened Numbers
  import B = Behavior

  datatype Policy = Policy(enabled: bool, minDelayMs: int, maxDelayMs: int, adaptive: bool)
  datatype Reason = Disabled | AdaptiveJitter | BaseJitter
  datatype Result = Result(delayMs: int, adaptive: bool, reason: Reason)

  const TWO_31 := 0x8000_0000
  const TWO_32 := 0x1_0000_0000

  /** `x | 0`: the signed 32-bit integer congruent to `x`. */
  function ToInt32(x: int): (r: int)
    ensures -TWO_31 <= r < TWO_31
  {
    var m := x % TWO_32;
    if m < TWO_31 then m else m - TWO_32
  }

  /** `h << 5` on a 32-bit operand. */
  function ShiftLeft5(h: int): int {
    ToInt32(h * 32)
  }

  // ---- The hash ---------------------------------------------------------------

  /** A text is what `charCodeAt` reads: UTF-16 code units, lone surrogates included. */
  type CodeUnit = x: int | 0 <= x < 0x1_0000
  type Text = seq<CodeUnit>

  /** The polynomial of base 31, with no wrapping at all. */
  function Polynomial(seed: Text): int {
    if seed == [] then 0 else 31 * Polynomial(seed[..|seed| - 1]) + seed[|seed| - 1]
  }

  /** The hash of a seed: the polynomial wrapped once, at the end. */
  function Hash(seed: Text): int {
    ToInt32(Polynomial(seed))
  }

  lemma ToInt32Congruent(x: int)
    ensures (ToInt32(x) - x) % TWO_32 == 0
  {
  }

  lemma ModCancels(a: int, b: int)
    requires (a - b) % TWO_32 == 0
    ensures ToInt32(a) == ToInt32(b)
  {
    var k := (a - b) / TWO_32;
    assert a == b + k * TWO_32;
    ModShift(b, k);
  }

  lemma ModShift(b: int, k: int)
    ensures (b + k * TWO_32) % TWO_32 == b % TWO_32
  {
    var q := b / TWO_32;
    assert b + k * TWO_32 == (q + k) * TWO_32 + b % TWO_32;
  }

  /** One turn of the source's loop is one turn of the unwrapped recurrence, wrapped. */
  lemma TurnWraps(h: int, p: int, c: int)
    requires h == ToInt32(p)
    ensures ToInt32(ShiftLeft5(h) - h + c) == ToInt32(31 * p + c)
  {
    ToInt32Congruent(p);
    ToInt32Congruent(h * 32);
    var k := (h - p) / TWO_32;
    assert h == p + k * TWO_32;
    var j := (ShiftLeft5(h) - h * 32) / TWO_32;
    assert ShiftLeft5(h) == h * 32 + j * TWO_32;
    var a := ShiftLeft5(h) - h + c;
    assert a - (31 * p + c) == (31 * k + j) * TWO_32;
    ModShift(0, 31 * k + j);
    ModCancels(a, 31 * p + c);
  }

  /** The loop of deterministicJitter, wrapping at each turn, computes the wrapped polynomial. */
  method HashLoop(seed: Text) returns (hash: int)
    ensures hash == Hash(seed)
  {
    hash := 0;
    var i := 0;
    while i < |seed|
      invariant 0 <= i <= |seed|
      invariant hash == ToInt32(Polynomial(seed[..i]))
    {
      assert seed[..i + 1][..i] == seed[..i];
      TurnWraps(hash, Polynomial(seed[..i]), seed[i]);
      hash := ToInt32(ShiftLeft5(hash) - hash + seed[i]);
      i := i + 1;
    }
    assert seed[..i] == seed;
  }

  // ---- The seed ---------------------------------------------------------------

  /** Characters beyond the basic plane take a surrogate pair. */
  function Utf16(c: char): Text {
    var n := c as int;
    if n < 0x1_0000 then [n] else [0xD800 + (n - 0x1_0000) / 0x400, 0xDC00 + (n - 0x1_0000) % 0x400]
  }

  function Encode(s: string): Text {
    if s == "" then [] else Encode(s[..|s| - 1]) + Utf16(s[|s| - 1])
  }

  function Decimal(n: nat): Text {
    if n < 10 then [48 + n] else Decimal(n / 10) + [48 + n % 10]
  }

  /** The agent id, a colon, and the second of a clock reading, which may lie before 1970. */
  function Seed(agentId: string, now: int): Text {
    var second := now / 1000;
    Encode(agentId) + [58] + (if second < 0 then [45] + Decimal(-second) else Decimal(second))
  }

  // ---- The base jitter --------------------------------------------------------

  function AbsInt(x: int): int {
    if x < 0 then -x else x
  }

  function FromHash(hash: int, min: int, max: int): int {
    Round(min as real + AbsInt(hash) as real / (TWO_31 - 1) as real * (max - min) as real)
  }

  function Base(seed: Text, min: int, max: int): int {
    FromHash(Hash(seed), min, max)
  }

  method DeterministicJitter(seed: Text, min: int, max: int) returns (jitter: int)
    ensures jitter == Base(seed, min, max)
  {
    var hash := HashLoop(seed);
    var normalized := (if hash < 0 then -hash else hash) as real / 0x7fff_ffff as real;
    jitter := Round(min as real + normalized * (max - min) as real);
  }

  predicate InRange(x: int, min: int, max: int) {
    min <= x <= max
  }

  lemma MulMonotone(b: real, f: real, g: real)
    requires b >= 0.0 && f <= g
    ensures b * f <= b * g
  {
    assert b * (g - f) >= 0.0;
  }

  /** The normalised hash is at most one, or just above it for the least 32-bit integer. */
  lemma Normalised(hash: int)
    requires -TWO_31 <= hash < TWO_31
    ensures 0.0 <= AbsInt(hash) as real / (TWO_31 - 1) as real <= 1.0 + 1.0 / 2147483647.0
  {
  }

  lemma RoundWithin(x: real, min: int, max: int)
    requires min as real <= x < max as real + 0.5
    ensures InRange(Round(x), min, max)
  {
  }

  lemma ShareBelow(q: real, d: real)
    requires 0.0 <= q <= 1.0 + 1.0 / 2147483647.0 && 0.0 <= d < 1073741823.5
    ensures 0.0 <= q * d < d + 0.5
  {
    MulMonotone(d, 0.0, q);
    MulMonotone(d, q, 1.0 + 1.0 / 2147483647.0);
    assert d * q == q * d;
    assert d * (1.0 + 1.0 / 2147483647.0) < d + 0.5;
  }

  lemma RangeFromHash(hash: int, min: int, max: int)
    requires -TWO_31 <= hash < TWO_31 && min <= max && 2 * (max - min) < TWO_31 - 1
    ensures InRange(FromHash(hash, min, max), min, max)
  {
    Normalised(hash);
    ShareBelow(AbsInt(hash) as real / (TWO_31 - 1) as real, (max - min) as real);
    RoundWithin(min as real + AbsInt(hash) as real / (TWO_31 - 1) as real * (max - min) as real, min, max);
  }

  lemma ExtremeOvershoots(min: int, max: int)
    requires min <= max && 2 * (max - min) >= TWO_31 - 1
    ensures FromHash(-TWO_31, min, max) > max
  {
    var d := (max - min) as real;
    assert AbsInt(-TWO_31) as real / (TWO_31 - 1) as real == 1.0 + 1.0 / 2147483647.0;
    assert (1.0 + 1.0 / 2147483647.0) * d >= d + 0.5;
  }

  // A seed whose hash is the least 32-bit integer: the code units of "polygenelubricants".
  const EXTREME_SEED: Text :=
    [112, 111, 108, 121, 103, 101, 110, 101, 108, 117, 98, 114, 105, 99, 97, 110, 116, 115]

  lemma {:induction false} PolynomialConcat(a: Text, b: Text)
    ensures Polynomial(a + b) == Polynomial(a) * Power31(|b|) + Polynomial(b)
  {
    if b == [] {
      assert a + b == a;
    } else {
      var init := b[..|b| - 1];
      PolynomialConcat(a, init);
      assert (a + b)[..|a + b| - 1] == a + init;
      Distribute(Polynomial(a), Power31(|init|), Polynomial(init));
    }
  }

  lemma Distribute(x: int, y: int, z: int)
    ensures 31 * (x * y + z) == x * (31 * y) + 31 * z
  {
  }

  function Power31(n: nat): int {
    if n == 0 then 1 else 31 * Power31(n - 1)
  }

  lemma Three(a: CodeUnit, b: CodeUnit, c: CodeUnit)
    ensures Polynomial([a, b, c]) == 961 * a + 31 * b + c
  {
    assert [a, b, c][..2] == [a, b];
    assert [a, b][..1] == [a];
    assert [a][..0] == [];
    assert Polynomial([a]) == a;
    assert Polynomial([a, b]) == 31 * Polynomial([a]) + b;
    assert Polynomial([a, b, c]) == 31 * Polynomial([a, b]) + c;
  }

  lemma Join(a: Text, x: CodeUnit, y: CodeUnit, z: CodeUnit)
    ensures Polynomial(a + [x, y, z]) == 29791 * Polynomial(a) + 961 * x + 31 * y + z
  {
    PolynomialConcat(a, [x, y, z]);
    Three(x, y, z);
    assert Power31(3) == 31 * Power31(2) == 961 * Power31(1) == 29791;
  }

  lemma ExtremeHash()
    ensures Hash(EXTREME_SEED) == -TWO_31
  {
    var s3: Text := [112, 111, 108];
    var s6 := s3 + [121, 103, 101];
    var s9 := s6 + [110, 101, 108];
    var s12 := s9 + [117, 98, 114];
    var s15 := s12 + [105, 99, 97];
    var s18 := s15 + [110, 116, 115];
    assert s18 == EXTREME_SEED;
    Three(112, 111, 108);
    Join(s3, 121, 103, 101);
    Join(s6, 110, 101, 108);
    Join(s9, 117, 98, 114);
    Join(s12, 105, 99, 97);
    Join(s15, 110, 116, 115);
  }

  /**
   For integer delays the base jitter lies within them for every seed exactly
   when twice the width of the range is below 2^31 - 1.
   */
  lemma BaseInRangeExactly(min: int, max: int)
    requires 0 <= min <= max
    ensures (forall seed :: InRange(Base(seed, min, max), min, max)) <==> 2 * (max - min) < TWO_31 - 1
  {
    if 2 * (max - min) < TWO_31 - 1 {
      forall seed ensures InRange(Base(seed, min, max), min, max) { RangeFromHash(Hash(seed), min, max); }
    } else {
      ExtremeHash();
      ExtremeOvershoots(min, max);
      assert !InRange(Base(EXTREME_SEED, min, max), min, max);
    }
  }

  // ---- The delay --------------------------------------------------------------

  function Multiplier(r: Risk): real {
    match r case Low => 1.0 case Medium => 1.5 case High => 2.0 case Critical => 3.0
  }

  function Factor(score: int, r: Risk): real {
    1.0 + score as real / 100.0 * Multiplier(r)
  }

  function Scaled(base: int, factor: real, maxDelayMs: int): int {
    Min(Round(base as real * factor), maxDelayMs * 2)
  }

  /** The delay for a base jitter; the source derives the base from agent and second. */
  function Delay(base: int, score: int, r: Risk, p: Policy): Result {
    if !p.enabled then Result(0, false, Disabled)
    else if p.adaptive && score > 0 then Result(Scaled(base, Factor(score, r), p.maxDelayMs), true, AdaptiveJitter)
    else Result(Scaled(base, Multiplier(r), p.maxDelayMs), false, BaseJitter)
  }

  method ComputeJitter(agentId: string, score: int, r: Risk, p: Policy, now: int) returns (result: Result)
    ensures result == Delay(Base(Seed(agentId, now), p.minDelayMs, p.maxDelayMs), score, r, p)
  {
    if !p.enabled { return Result(0, false, Disabled); }
    var multiplier := Multiplier(r);
    var base := DeterministicJitter(Seed(agentId, now), p.minDelayMs, p.maxDelayMs);
    var delayMs, adaptive := base, false;
    if p.adaptive && score > 0 {
      var factor := 1.0 + score as real / 100.0 * multiplier;
      delayMs := Scaled(base, factor, p.maxDelayMs);
      adaptive := true;
    } else {
      delayMs := Scaled(base, multiplier, p.maxDelayMs);
    }
    result := Result(delayMs, adaptive, if adaptive then AdaptiveJitter else BaseJitter);
  }

  lemma ScaledMonotone(base: int, f: real, g: real, maxDelayMs: int)
    requires base >= 0 && f <= g
    ensures Scaled(base, f, maxDelayMs) <= Scaled(base, g, maxDelayMs)
  {
    MulMonotone(base as real, f, g);
  }

  lemma ScaledAtLeast(base: int, f: real, p: Policy)
    requires 0 <= p.minDelayMs <= base <= p.maxDelayMs && f >= 1.0
    ensures p.minDelayMs <= Scaled(base, f, p.maxDelayMs) <= 2 * p.maxDelayMs
  {
    ScaledMonotone(base, 1.0, f, p.maxDelayMs);
    assert Round(base as real * 1.0) == base;
  }

  lemma FactorMonotone(m: int, n: int, r: Risk, t: Risk)
    requires 0 <= m <= n && Multiplier(r) <= Multiplier(t)
    ensures 1.0 <= Factor(m, r) <= Factor(n, t)
  {
    var a, b := m as real / 100.0, n as real / 100.0;
    MulMonotone(Multiplier(r), 0.0, a);
    MulMonotone(Multiplier(r), a, b);
    MulMonotone(b, Multiplier(r), Multiplier(t));
  }

  /** An enabled delay lies between the least delay and twice the greatest, for any score and risk. */
  lemma DelayInRange(seed: Text, score: int, r: Risk, p: Policy)
    requires p.enabled && 0 <= p.minDelayMs <= p.maxDelayMs && 2 * (p.maxDelayMs - p.minDelayMs) < TWO_31 - 1
    ensures InRange(Delay(Base(seed, p.minDelayMs, p.maxDelayMs), score, r, p).delayMs, p.minDelayMs, 2 * p.maxDelayMs)
  {
    var base := Base(seed, p.minDelayMs, p.maxDelayMs);
    RangeFromHash(Hash(seed), p.minDelayMs, p.maxDelayMs);
    if p.adaptive && score > 0 {
      FactorMonotone(0, score, r, r);
      ScaledAtLeast(base, Factor(score, r), p);
    } else {
      ScaledAtLeast(base, Multiplier(r), p);
    }
  }

  /** For positive scores more score or more risk never shortens the delay. */
  lemma DelayMonotone(base: int, m: int, n: int, r: Risk, t: Risk, p: Policy)
    requires base >= 0 && 0 < m <= n && Multiplier(r) <= Multiplier(t)
    ensures Delay(base, m, r, p).delayMs <= Delay(base, n, t, p).delayMs
  {
    FactorMonotone(m, n, r, t);
    ScaledMonotone(base, Factor(m, r), Factor(n, t), p.maxDelayMs);
    ScaledMonotone(base, Multiplier(r), Multiplier(t), p.maxDelayMs);
  }

  lemma ClassifyMonotone(m: int, n: int)
    requires m <= n
    ensures Multiplier(B.Classify(m)) <= Multiplier(B.Classify(n))
  {
  }

  /**
   As the engine asks for it, with the risk classified from the score, the delay
   is monotone over all scores from zero on.
   */
  lemma EngineDelayMonotone(base: int, m: int, n: int, p: Policy)
    requires base >= 0 && 0 <= m <= n
    ensures Delay(base, m, B.Classify(m), p).delayMs <= Delay(base, n, B.Classify(n), p).delayMs
  {
    ClassifyMonotone(m, n);
    if m > 0 {
      DelayMonotone(base, m, n, B.Classify(m), B.Classify(n), p);
    } else if p.enabled && p.adaptive && n > 0 {
      FactorMonotone(0, n, B.Classify(n), B.Classify(n));
      ScaledMonotone(base, 1.0, Factor(n, B.Classify(n)), p.maxDelayMs);
    } else {
      ScaledMonotone(base, Multiplier(B.Classify(m)), Multiplier(B.Classify(n)), p.maxDelayMs);
    }
  }

  /** One point of score gives a shorter delay than none, for the same base and risk. */
  predicate FirstPointShortens(base: int, r: Risk, p: Policy) {
    Delay(base, 1, r, p).delayMs < Delay(base, 0, r, p).delayMs
  }

  /**
   With the risk given apart from the score, the first point of score shortens the
   delay exactly when the policy is adaptive, the risk is above low and the base
   is not zero.
   */
  lemma FirstPointShortensExactly(base: int, r: Risk, p: Policy)
    requires 0 <= base <= p.maxDelayMs
    ensures FirstPointShortens(base, r, p) <==> p.enabled && p.adaptive && r != Low && base >= 1
  {
    var b := base as real;
    ScaledMonotone(base, 1.0, Factor(1, r), p.maxDelayMs);
    if r == Low {
      assert b * Multiplier(r) == b * 1.0;
    } else if base >= 1 {
      MulMonotone(b, 1.5, Multiplier(r));
      MulMonotone(b, Factor(1, r), 1.03);
      assert base == 1 ==> Round(b * Factor(1, r)) == 1;
    } else {
      assert Round(b * Factor(1, r)) == 0 && Round(b * Multiplier(r)) == 0;
    }
  }

  /** No first point of score ever shortens a delay, exactly for low risk or a policy that cannot show it. */
  lemma FirstPointNeverShortensExactly(r: Risk, p: Policy)
    ensures (forall base :: base >= 0 ==> !FirstPointShortens(base, r, p))
            <==> !p.enabled || !p.adaptive || p.maxDelayMs < 1 || r == Low
  {
    forall base | base >= 0 && (!p.enabled || !p.adaptive || p.maxDelayMs < 1 || r == Low)
      ensures !FirstPointShortens(base, r, p)
    {
      ScaledMonotone(base, 1.0, Factor(1, r), p.maxDelayMs);
      MulMonotone(base as real, 0.0, Factor(1, r));
      MulMonotone(base as real, 0.0, Multiplier(r));
    }
    if p.maxDelayMs >= 1 { FirstPointShortensExactly(1, r, p); }
  }

  // ---- Exact delays and seeds -------------------------------------------------

  /**
   Without a score to adapt to, an even base is given once, one and a half times,
   twice or three times by risk, and never more than twice the greatest delay; a
   score of one hundred adds the base once more.
   */
  lemma EvenDelays(half: nat, r: Risk, p: Policy)
    requires p.enabled && 2 * half <= p.maxDelayMs
    ensures var times := half * (match r case Low => 2 case Medium => 3 case High => 4 case Critical => 6);
            && Delay(2 * half, 0, r, p).delayMs == (if times <= 2 * p.maxDelayMs then times else 2 * p.maxDelayMs)
            && (p.adaptive ==>
                  Delay(2 * half, 100, r, p).delayMs
                  == if 2 * half + times <= 2 * p.maxDelayMs then 2 * half + times else 2 * p.maxDelayMs)
  {
    var b := (2 * half) as real;
    assert Factor(100, r) == 1.0 + Multiplier(r);
    match r
    case Low => assert b * 1.0 == (2 * half) as real && b * 2.0 == (4 * half) as real;
    case Medium => assert b * 1.5 == (3 * half) as real && b * 2.5 == (5 * half) as real;
    case High => assert b * 2.0 == (4 * half) as real && b * 3.0 == (6 * half) as real;
    case Critical => assert b * 3.0 == (6 * half) as real && b * 4.0 == (8 * half) as real;
  }

  /** A disabled policy gives no delay; a delay is adaptive exactly when the policy is and there is a score. */
  lemma AdaptiveExactly(base: int, score: int, r: Risk, p: Policy)
    ensures var d := Delay(base, score, r, p);
            && (d.adaptive <==> p.enabled && p.adaptive && score > 0)
            && (d.reason == AdaptiveJitter <==> d.adaptive)
            && (d.reason == Disabled <==> !p.enabled)
            && (!p.enabled ==> d.delayMs == 0)
  {
  }

  predicate Surrogate(u: CodeUnit) {
    0xD800 <= u < 0xE000
  }

  /** What a reader of UTF-16 makes of one or two units. */
  function Utf16Value(units: Text): int
    requires |units| == 1 || |units| == 2
  {
    var high: int := units[0];
    if |units| == 1 then high else 0x1_0000 + (high - 0xD800) * 0x400 + (units[1] as int - 0xDC00)
  }

  lemma Utf16RoundTrip(c: char)
    ensures var units := Utf16(c);
            && (|units| == 1 || |units| == 2) && Utf16Value(units) == c as int
            && (|units| == 1 ==> !Surrogate(units[0]))
            && (|units| == 2 ==> 0xD800 <= units[0] < 0xDC00 && 0xDC00 <= units[1] < 0xE000)
  {
  }

  /** The number a text of decimal digits stands for. */
  function DecimalValue(digits: Text): int {
    if digits == [] then 0 else 10 * DecimalValue(digits[..|digits| - 1]) + digits[|digits| - 1] - '0' as int
  }

  predicate AllDigits(digits: Text) {
    forall i :: 0 <= i < |digits| ==> '0' as int <= digits[i] <= '9' as int
  }

  /** Decimal digits, without a leading zero unless it is the only digit. */
  lemma {:induction false} DecimalReads(n: nat)
    ensures var digits := Decimal(n);
            && digits != [] && AllDigits(digits) && DecimalValue(digits) == n
            && (|digits| > 1 ==> digits[0] != '0' as int)
  {
    if n < 10 {
      assert [48 + n][..0] == [];
    } else {
      DecimalReads(n / 10);
      var digits := Decimal(n);
      assert digits[..|digits| - 1] == Decimal(n / 10);
      assert digits[0] == Decimal(n / 10)[0];
      assert DecimalValue(Decimal(n / 10)) > 0;
      if |Decimal(n / 10)| == 1 { assert Decimal(n / 10)[..0] == []; }
    }
  }

  /** What the digits of a seed stand for, after a minus sign if there is one. */
  function SignedValue(digits: Text): int {
    if digits != [] && digits[0] == '-' as int then -DecimalValue(digits[1..]) else DecimalValue(digits)
  }

  /**
   A seed is the agent id in UTF-16, a colon, and the whole second of the clock
   reading, rounded down, in decimal.
   */
  lemma SeedReads(agentId: string, now: int) returns (digits: Text)
    ensures Seed(agentId, now) == Encode(agentId) + [':' as int] + digits
    ensures SignedValue(digits) * 1000 <= now < SignedValue(digits) * 1000 + 1000
    ensures AllDigits(if digits != [] && digits[0] == '-' as int then digits[1..] else digits)
  {
    var second := now / 1000;
    if second < 0 {
      digits := [45] + Decimal(-second);
      DecimalReads(-second);
      assert digits[1..] == Decimal(-second);
    } else {
      digits := Decimal(second);
      DecimalReads(second);
    }
  }

  /** Characters are encoded one after another. */
  lemma {:induction false} EncodeConcat(a: string, b: string)
    ensures Encode(a + b) == Encode(a) + Encode(b)
    ensures |b| == 1 ==> Encode(b) == Utf16(b[0])
  {
    if b == "" {
      assert a + b == a;
    } else {
      var init := b[..|b| - 1];
      EncodeConcat(a, init);
      assert (a + b)[..|a + b| - 1] == a + init;
      assert Encode(a) + Encode(init) + Utf16(b[|b| - 1]) == Encode(a) + (Encode(init) + Utf16(b[|b| - 1]));
    }
  }
}
