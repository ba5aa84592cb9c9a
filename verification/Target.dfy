/** Proof-of-work targets: 8 bits of chain length over 24 bits of fractional length, and how they are retargeted. */
module Target {
  import opened Words
  import opened Bits
  import opened NumberTheory

  const FRACTIONAL_BITS: nat := 24
  const FRACTION: nat := 0x100_0000                          // 1 << FRACTIONAL_BITS
  const FRACTIONAL_DIFFICULTY_MAX: nat := 0x100_0000_0000_0000  // 1 << 56
  const FRACTIONAL_DIFFICULTY_MIN: nat := 0x1_0000_0000         // 1 << 32
  const FRACTIONAL_DIFFICULTY_THRESHOLD: nat := 0x100_0000_0000 // 1 << 40
  const TARGET_MIN_LENGTH: nat := 6

  type uint64 = x: nat | x < 0x1_0000_0000_0000_0000

  function Add64(a: uint64, b: uint64): uint64 { (a + b) % WORD64 }

  function Sub64(a: uint64, b: uint64): uint64 { (a - b) % WORD64 }

  function Mul64(a: uint64, b: uint64): uint64 { (a * b) % WORD64 }

  function TargetGetLength(nBits: nat): (r: nat)
    ensures r < 256
  {
    nBits / FRACTION % 256
  }

  function TargetGetFractional(nBits: nat): (r: nat)
    ensures r < FRACTION
  {
    nBits % FRACTION
  }

  function TargetFromInt(nLength: nat): nat {
    nLength * FRACTION
  }

  /** nBits & TARGET_LENGTH_MASK */
  function LengthBits(nBits: nat): nat {
    TargetGetLength(nBits) * FRACTION
  }

  function TargetIncrementLength(nBits: nat): nat {
    nBits + FRACTION
  }

  function TargetDecrementLength(nBits: nat): nat {
    if TargetGetLength(nBits) > TARGET_MIN_LENGTH then
      LengthAtLeastOne(nBits);
      nBits - FRACTION
    else
      nBits
  }

  lemma LengthAtLeastOne(nBits: nat)
    requires TargetGetLength(nBits) > 0
    ensures nBits >= FRACTION
  {
  }

  function TargetGetFractionalDifficulty(nBits: nat): (D: nat)
    ensures FRACTIONAL_DIFFICULTY_MIN <= D <= FRACTIONAL_DIFFICULTY_MAX
  {
    QuotientBounds(FRACTION - TargetGetFractional(nBits));
    FRACTIONAL_DIFFICULTY_MAX / (FRACTION - TargetGetFractional(nBits))
  }

  lemma QuotientBounds(x: nat)
    requires 1 <= x <= FRACTION
    ensures FRACTIONAL_DIFFICULTY_MIN <= FRACTIONAL_DIFFICULTY_MAX / x <= FRACTIONAL_DIFFICULTY_MAX
    ensures FRACTIONAL_DIFFICULTY_MAX / x == FRACTIONAL_DIFFICULTY_MIN <==> x == FRACTION
  {
    QuotientBetween(FRACTIONAL_DIFFICULTY_MAX, x, FRACTION);
    QuotientBetween(FRACTIONAL_DIFFICULTY_MAX, 1, x);
    ModOf(FRACTIONAL_DIFFICULTY_MAX, FRACTION, FRACTIONAL_DIFFICULTY_MIN, 0);
    if x < FRACTION {
      assert x * (FRACTIONAL_DIFFICULTY_MIN + 1) <= FRACTIONAL_DIFFICULTY_MAX by {
        MulMonotone(x, FRACTION - 1, FRACTIONAL_DIFFICULTY_MIN + 1);
        assert (FRACTION - 1) * (FRACTIONAL_DIFFICULTY_MIN + 1) <= FRACTIONAL_DIFFICULTY_MAX;
      }
      QuotientAtLeast(FRACTIONAL_DIFFICULTY_MAX, x, FRACTIONAL_DIFFICULTY_MIN + 1);
    }
  }

  lemma QuotientBetween(M: nat, x: nat, y: nat)
    requires 1 <= x <= y
    ensures M / y <= M / x
  {
    ModSpec(M, y);
    MulMonotone(M / y, x, y);
    assert x * (M / y) <= M;
    QuotientAtLeast(M, x, M / y);
  }

  datatype Written = Written(nBits: nat) | BelowMinimum | FractionalOverflow

  function TargetSetFractionalDifficulty(nFractionalDifficulty: nat, nBits: nat): Written {
    if nFractionalDifficulty < FRACTIONAL_DIFFICULTY_MIN then BelowMinimum
    else
      var nFractional := FRACTIONAL_DIFFICULTY_MAX / nFractionalDifficulty;
      if nFractional > FRACTION then FractionalOverflow
      else Written(LengthBits(nBits) + (FRACTION - nFractional))
  }

  /** Writing can only fail below the minimum, and keeps the length. */
  lemma SetSucceeds(D: nat, nBits: nat)
    requires FRACTIONAL_DIFFICULTY_MIN <= D <= FRACTIONAL_DIFFICULTY_MAX
    ensures 1 <= FRACTIONAL_DIFFICULTY_MAX / D <= FRACTION
    ensures (var w := TargetSetFractionalDifficulty(D, nBits);
             w.Written? && w.nBits < 256 * FRACTION
             && TargetGetLength(w.nBits) == TargetGetLength(nBits)
             && TargetGetFractional(w.nBits) == FRACTION - FRACTIONAL_DIFFICULTY_MAX / D)
  {
    QuotientAtLeast(FRACTIONAL_DIFFICULTY_MAX, D, 1);
    QuotientBetween(FRACTIONAL_DIFFICULTY_MAX, FRACTIONAL_DIFFICULTY_MIN, D);
    Parts(TargetGetLength(nBits), FRACTION - FRACTIONAL_DIFFICULTY_MAX / D);
  }

  lemma Parts(length: nat, fraction: nat)
    requires length < 256 && fraction < FRACTION
    ensures TargetGetLength(length * FRACTION + fraction) == length
    ensures TargetGetFractional(length * FRACTION + fraction) == fraction
  {
    ModOf(length * FRACTION + fraction, FRACTION, length, fraction);
  }

  /** A target is its two parts. */
  lemma FromParts(nBits: nat)
    requires nBits < 256 * FRACTION
    ensures nBits == TargetGetLength(nBits) * FRACTION + TargetGetFractional(nBits)
  {
  }

  /** Dividing by a small enough number twice gives it back. */
  lemma DivideTwice(M: nat, x: nat)
    requires x > 0 && x * x <= M
    ensures M / x > 0 && M / (M / x) == x
  {
    QuotientAtLeast(M, x, x);
    ModSpec(M, x);
    ModOf(M, M / x, x, M % x) by { MulCommutes(M / x, x); }
  }

  /** Reading the fractional difficulty and writing it back changes nothing. */
  lemma ReadThenWrite(nBits: nat)
    requires nBits < 256 * FRACTION
    ensures TargetSetFractionalDifficulty(TargetGetFractionalDifficulty(nBits), nBits) == Written(nBits)
  {
    hide TargetGetFractional, TargetGetLength;
    var x := FRACTION - TargetGetFractional(nBits);
    assert x * x <= FRACTIONAL_DIFFICULTY_MAX by {
      MulMonotone(x, x, FRACTION);
      MulMonotone(FRACTION, x, FRACTION);
    }
    DivideTwice(FRACTIONAL_DIFFICULTY_MAX, x);
    FromParts(nBits);
    SetSucceeds(TargetGetFractionalDifficulty(nBits), nBits);
  }

  // ---- retargeting ----

  function Clamp(d: nat): (r: nat)
    ensures FRACTIONAL_DIFFICULTY_MIN <= r <= FRACTIONAL_DIFFICULTY_MAX
  {
    if d > FRACTIONAL_DIFFICULTY_MAX then FRACTIONAL_DIFFICULTY_MAX
    else if d < FRACTIONAL_DIFFICULTY_MIN then FRACTIONAL_DIFFICULTY_MIN
    else d
  }

  function Scaled(D: nat, num: nat, den: nat): nat
    requires den > 0
  {
    QuotientAtLeast(D * num, den, 0);
    D * num / den
  }

  /** The new difficulty: the old one scaled by num / den, kept within bounds. */
  function NewDifficulty(nBits: nat, num: nat, den: nat): (D: nat)
    requires den > 0
    ensures FRACTIONAL_DIFFICULTY_MIN <= D <= FRACTIONAL_DIFFICULTY_MAX
  {
    Clamp(Scaled(TargetGetFractionalDifficulty(nBits), num, den))
  }

  /** The target for a new difficulty, its length stepping at either end of the range. */
  function Stepped(length: nat, D: nat): int
    requires FRACTIONAL_DIFFICULTY_MIN <= D
  {
    if D > FRACTIONAL_DIFFICULTY_THRESHOLD then (length + 1) % 256 * FRACTION
    else if D == FRACTIONAL_DIFFICULTY_MIN && length > TARGET_MIN_LENGTH then (length - 1) * FRACTION + 0xFF_0000
    else length * FRACTION + (FRACTION - FRACTIONAL_DIFFICULTY_MAX / D)
  }

  datatype Retargeted = Next(nBits: nat) | Error | DivisionByZero

  /** (nInterval + 1) * nTargetSpacing, as computed in 64 bits */
  function Numerator(nInterval: uint64, nTargetSpacing: uint64): uint64 {
    Mul64(Add64(nInterval, 1), nTargetSpacing)
  }

  /** (nInterval - 1) * nTargetSpacing + nActualSpacing + nActualSpacing, as computed in 64 bits */
  function Denominator(nInterval: uint64, nTargetSpacing: uint64, nActualSpacing: uint64): uint64 {
    Add64(Add64(Mul64(Sub64(nInterval, 1), nTargetSpacing), nActualSpacing), nActualSpacing)
  }

  /** No 64-bit overflow, and something to divide by. */
  predicate Computable(nInterval: uint64, nTargetSpacing: uint64, nActualSpacing: uint64) {
    && 1 <= nInterval < WORD64 - 1
    && (nInterval + 1) * nTargetSpacing < WORD64
    && 0 < (nInterval - 1) * nTargetSpacing + 2 * nActualSpacing < WORD64
  }

  lemma Exact64(nInterval: uint64, nTargetSpacing: uint64, nActualSpacing: uint64)
    requires Computable(nInterval, nTargetSpacing, nActualSpacing)
    ensures Numerator(nInterval, nTargetSpacing) == (nInterval + 1) * nTargetSpacing
    ensures Denominator(nInterval, nTargetSpacing, nActualSpacing) == (nInterval - 1) * nTargetSpacing + 2 * nActualSpacing
  {
    hide Add64, Mul64, Sub64;
    var low := (nInterval - 1) * nTargetSpacing;
    AddExact(nInterval, 1);
    MulExact(nInterval + 1, nTargetSpacing);
    SubExact(nInterval, 1);
    MulExact(nInterval - 1, nTargetSpacing);
    AddExact(low, nActualSpacing);
    AddExact(low + nActualSpacing, nActualSpacing);
  }

  lemma AddExact(a: uint64, b: uint64)
    requires a + b < WORD64
    ensures Add64(a, b) == a + b
  {
    Fits64(a + b);
  }

  lemma SubExact(a: uint64, b: uint64)
    requires b <= a
    ensures Sub64(a, b) == a - b
  {
    Fits64(a - b);
  }

  lemma MulExact(a: uint64, b: uint64)
    requires a * b < WORD64
    ensures Mul64(a, b) == a * b
  {
    Fits64(a * b);
  }

  lemma Fits64(x: nat)
    requires x < WORD64
    ensures x % WORD64 == x
  {
    ModOf(x, WORD64, 0, x);
  }

  ghost function RetargetDifficulty(nBits: nat, nInterval: uint64, nTargetSpacing: uint64, nActualSpacing: uint64): (D: nat)
    requires Computable(nInterval, nTargetSpacing, nActualSpacing)
    ensures FRACTIONAL_DIFFICULTY_MIN <= D <= FRACTIONAL_DIFFICULTY_MAX
  {
    Exact64(nInterval, nTargetSpacing, nActualSpacing);
    NewDifficulty(nBits, Numerator(nInterval, nTargetSpacing), Denominator(nInterval, nTargetSpacing, nActualSpacing))
  }

  ghost function Retarget(nBits: nat, nInterval: uint64, nTargetSpacing: uint64, nActualSpacing: uint64): int
    requires Computable(nInterval, nTargetSpacing, nActualSpacing)
  {
    Stepped(TargetGetLength(nBits), RetargetDifficulty(nBits, nInterval, nTargetSpacing, nActualSpacing))
  }

  lemma ComputedRetarget(nBits: nat, nInterval: uint64, nTargetSpacing: uint64, nActualSpacing: uint64)
    requires Computable(nInterval, nTargetSpacing, nActualSpacing)
    ensures Denominator(nInterval, nTargetSpacing, nActualSpacing) > 0
    ensures Retarget(nBits, nInterval, nTargetSpacing, nActualSpacing)
         == Stepped(TargetGetLength(nBits), NewDifficulty(nBits, Numerator(nInterval, nTargetSpacing),
                                                          Denominator(nInterval, nTargetSpacing, nActualSpacing)))
  {
    hide Numerator, Denominator, NewDifficulty, Stepped;
    Exact64(nInterval, nTargetSpacing, nActualSpacing);
  }

  /**
   When nothing overflows: with D the floor of 2^56 by what the fraction leaves of
   2^24, and E the floor of D scaled by (nInterval + 1) * nTargetSpacing over
   (nInterval - 1) * nTargetSpacing + 2 * nActualSpacing, the next target by E kept
   between 2^32 and 2^56.
   */
  ghost predicate NextByScaling(nBits: nat, nInterval: nat, nTargetSpacing: nat, nActualSpacing: nat, D: nat, E: nat,
                                next: int)
  {
    var x := 0x100_0000 - nBits % 0x100_0000;
    var num, den := (nInterval + 1) * nTargetSpacing, (nInterval - 1) * nTargetSpacing + 2 * nActualSpacing;
    && D * x <= 0x100_0000_0000_0000 < (D + 1) * x
    && E * den <= D * num < (E + 1) * den
    && next == NextOf(nBits / 0x100_0000 % 256,
                      if E > 0x100_0000_0000_0000 then 0x100_0000_0000_0000
                      else if E < 0x1_0000_0000 then 0x1_0000_0000
                      else E)
  }

  /** The next target: a length up past 2^40, a length down at the minimum, else the fraction for the difficulty. */
  ghost function NextOf(length: nat, C: nat): int
    requires C > 0
  {
    if C > 0x100_0000_0000 then (length + 1) % 256 * 0x100_0000
    else if C == 0x1_0000_0000 && length > 6 then (length - 1) * 0x100_0000 + 0xFF_0000
    else length * 0x100_0000 + (0x100_0000 - 0x100_0000_0000_0000 / C)
  }

  ghost predicate Scales(nBits: nat, nInterval: nat, nTargetSpacing: nat, nActualSpacing: nat, next: int) {
    exists D: nat, E: nat :: NextByScaling(nBits, nInterval, nTargetSpacing, nActualSpacing, D, E, next)
  }

  lemma RetargetScales(nBits: nat, nInterval: uint64, nTargetSpacing: uint64, nActualSpacing: uint64)
    requires Computable(nInterval, nTargetSpacing, nActualSpacing)
    ensures Scales(nBits, nInterval, nTargetSpacing, nActualSpacing, Retarget(nBits, nInterval, nTargetSpacing, nActualSpacing))
  {
    var D := TargetGetFractionalDifficulty(nBits);
    var num, den := (nInterval + 1) * nTargetSpacing, (nInterval - 1) * nTargetSpacing + 2 * nActualSpacing;
    Exact64(nInterval, nTargetSpacing, nActualSpacing);
    var E := Scaled(D, num, den);
    FloorBounds(FRACTIONAL_DIFFICULTY_MAX, FRACTION - TargetGetFractional(nBits));
    ScaledFloor(D, num, den);
    hide Scaled, Numerator, Denominator, Computable, TargetGetFractionalDifficulty;
    assert Retarget(nBits, nInterval, nTargetSpacing, nActualSpacing) == Stepped(TargetGetLength(nBits), Clamp(E));
    assert NextByScaling(nBits, nInterval, nTargetSpacing, nActualSpacing, D, E,
                         Retarget(nBits, nInterval, nTargetSpacing, nActualSpacing));
  }

  lemma ScaledFloor(D: nat, num: nat, den: nat)
    requires den > 0
    ensures Scaled(D, num, den) * den <= D * num < (Scaled(D, num, den) + 1) * den
  {
    FloorBounds(D * num, den);
  }

  lemma FloorBounds(x: nat, n: nat)
    requires n > 0
    ensures x / n * n <= x < (x / n + 1) * n
  {
    ModSpec(x, n);
  }

  /** D and E are determined by their bounds, and so is the next target. */
  lemma ScalesUnique(nBits: nat, nInterval: nat, nTargetSpacing: nat, nActualSpacing: nat, next: int, next': int)
    requires Scales(nBits, nInterval, nTargetSpacing, nActualSpacing, next)
    requires Scales(nBits, nInterval, nTargetSpacing, nActualSpacing, next')
    ensures next == next'
  {
    hide NextOf;
    var D: nat, E: nat :| NextByScaling(nBits, nInterval, nTargetSpacing, nActualSpacing, D, E, next);
    var D': nat, E': nat :| NextByScaling(nBits, nInterval, nTargetSpacing, nActualSpacing, D', E', next');
    FloorUnique(D, D', 0x100_0000_0000_0000, 0x100_0000 - nBits % 0x100_0000);
    FloorUnique(E, E', D * ((nInterval + 1) * nTargetSpacing), (nInterval - 1) * nTargetSpacing + 2 * nActualSpacing);
  }

  lemma FloorUnique(a: nat, b: nat, x: int, n: int)
    requires a * n <= x < (a + 1) * n && b * n <= x < (b + 1) * n
    ensures a == b
  {
    assert (a + 1) * n == a * n + n;
    StepApart(n, a, b);
    StepApart(n, b, a);
  }

  lemma StepApart(n: nat, a: nat, b: nat)
    ensures a < b ==> (a + 1) * n <= b * n
  {
    if a < b {
      MulMonotone(n, a + 1, b);
    }
  }

  /** The error exit is never taken; a zero denominator makes the big-number division throw. */
  method TargetGetNext(nBits: nat, nInterval: uint64, nTargetSpacing: uint64, nActualSpacing: uint64) returns (r: Retargeted)
    requires nBits < 256 * FRACTION
    ensures (var den := Denominator(nInterval, nTargetSpacing, nActualSpacing);
             if den == 0 then r == DivisionByZero
             else r.Next? && r.nBits == Stepped(TargetGetLength(nBits),
                                                NewDifficulty(nBits, Numerator(nInterval, nTargetSpacing), den)))
    ensures Computable(nInterval, nTargetSpacing, nActualSpacing) ==>
              r.Next? && r.nBits == Retarget(nBits, nInterval, nTargetSpacing, nActualSpacing)
    ensures 1 <= nInterval < 0xFFFF_FFFF_FFFF_FFFF && (nInterval + 1) * nTargetSpacing < 0x1_0000_0000_0000_0000
            && 0 < (nInterval - 1) * nTargetSpacing + 2 * nActualSpacing < 0x1_0000_0000_0000_0000 ==>
              r.Next? && Scales(nBits, nInterval, nTargetSpacing, nActualSpacing, r.nBits)
  {
    assert Computable(nInterval, nTargetSpacing, nActualSpacing) <==>
           1 <= nInterval < 0xFFFF_FFFF_FFFF_FFFF && (nInterval + 1) * nTargetSpacing < 0x1_0000_0000_0000_0000
           && 0 < (nInterval - 1) * nTargetSpacing + 2 * nActualSpacing < 0x1_0000_0000_0000_0000;
    hide Numerator, Denominator, TargetGetFractionalDifficulty, Scaled, Computable, Scales, Retarget;
    if Computable(nInterval, nTargetSpacing, nActualSpacing) {
      RetargetScales(nBits, nInterval, nTargetSpacing, nActualSpacing);
      ComputedRetarget(nBits, nInterval, nTargetSpacing, nActualSpacing);
    }
    var nBitsNext := nBits;
    var nFractionalDifficulty := TargetGetFractionalDifficulty(nBits);
    var den := Denominator(nInterval, nTargetSpacing, nActualSpacing);
    if den == 0 {
      return DivisionByZero;
    }
    var bnFractionalDifficulty := Scaled(nFractionalDifficulty, Numerator(nInterval, nTargetSpacing), den);
    if bnFractionalDifficulty > FRACTIONAL_DIFFICULTY_MAX {
      bnFractionalDifficulty := FRACTIONAL_DIFFICULTY_MAX;
    }
    if bnFractionalDifficulty < FRACTIONAL_DIFFICULTY_MIN {
      bnFractionalDifficulty := FRACTIONAL_DIFFICULTY_MIN;
    }
    var nFractionalDifficultyNew := bnFractionalDifficulty;
    if nFractionalDifficultyNew > FRACTIONAL_DIFFICULTY_THRESHOLD {
      nFractionalDifficultyNew := FRACTIONAL_DIFFICULTY_MIN;
      nBitsNext := TargetIncrementLength(nBitsNext);
    } else if nFractionalDifficultyNew == FRACTIONAL_DIFFICULTY_MIN && TargetGetLength(nBitsNext) > TARGET_MIN_LENGTH {
      nFractionalDifficultyNew := FRACTIONAL_DIFFICULTY_THRESHOLD;
      nBitsNext := TargetDecrementLength(nBitsNext);
    }
    LengthMoves(nBits);
    SetSucceeds(nFractionalDifficultyNew, nBitsNext);
    match TargetSetFractionalDifficulty(nFractionalDifficultyNew, nBitsNext)
    case Written(n) => r := Next(n);
    case _ => r := Error;
  }

  lemma LengthMoves(nBits: nat)
    ensures TargetGetLength(TargetIncrementLength(nBits)) == (TargetGetLength(nBits) + 1) % 256
    ensures TargetGetLength(nBits) > TARGET_MIN_LENGTH ==>
              TargetGetLength(TargetDecrementLength(nBits)) == TargetGetLength(nBits) - 1
  {
    var q := nBits / FRACTION;
    ModSpec(nBits, FRACTION);
    ModOf(nBits + FRACTION, FRACTION, q + 1, nBits % FRACTION);
    ModSpec(q, 256);
    ModShift(q + 1, q % 256 + 1, 256, q / 256);
    if q % 256 > TARGET_MIN_LENGTH {
      ModOf(nBits - FRACTION, FRACTION, q - 1, nBits % FRACTION);
      ModOf(q - 1, 256, q / 256, q % 256 - 1);
    }
  }

  /** From a length in use the target moves by at most one length and never below the minimum length. */
  lemma LengthStepsByOne(length: nat, D: nat)
    requires 6 <= length <= 254 && FRACTIONAL_DIFFICULTY_MIN <= D <= FRACTIONAL_DIFFICULTY_MAX
    ensures 0 <= Stepped(length, D) < 0x1_0000_0000
    ensures 6 <= TargetGetLength(Stepped(length, D))
    ensures length - 1 <= TargetGetLength(Stepped(length, D)) <= length + 1
  {
    hide TargetGetLength;
    SetSucceeds(D, length * FRACTION);
    Parts(length + 1, 0);
    Parts(length - 1, 0xFF_0000);
    Parts(length, FRACTION - FRACTIONAL_DIFFICULTY_MAX / D);
  }

  /** A higher difficulty never gives a lower target. */
  lemma SteppedMonotone(length: nat, D: nat, E: nat)
    requires TARGET_MIN_LENGTH <= length <= 254 && FRACTIONAL_DIFFICULTY_MIN <= D <= E <= FRACTIONAL_DIFFICULTY_MAX
    ensures Stepped(length, D) <= Stepped(length, E)
  {
    QuotientBetween(FRACTIONAL_DIFFICULTY_MAX, D, E);
    QuotientBetween(FRACTIONAL_DIFFICULTY_MAX, FRACTIONAL_DIFFICULTY_MIN, D);
    QuotientAtLeast(FRACTIONAL_DIFFICULTY_MAX, E, 1);
  }

  lemma SlowerDifficulty(nBits: nat, nInterval: uint64, nTargetSpacing: uint64, fast: uint64, slow: uint64)
    requires fast <= slow
    requires Computable(nInterval, nTargetSpacing, fast) && Computable(nInterval, nTargetSpacing, slow)
    ensures RetargetDifficulty(nBits, nInterval, nTargetSpacing, slow) <= RetargetDifficulty(nBits, nInterval, nTargetSpacing, fast)
  {
    hide TargetGetFractionalDifficulty, Numerator, Denominator, Computable;
    SlowerDenominator(nInterval, nTargetSpacing, fast, slow);
    QuotientBetween(TargetGetFractionalDifficulty(nBits) * Numerator(nInterval, nTargetSpacing),
                    Denominator(nInterval, nTargetSpacing, fast), Denominator(nInterval, nTargetSpacing, slow));
  }

  lemma SlowerDenominator(nInterval: uint64, nTargetSpacing: uint64, fast: uint64, slow: uint64)
    requires fast <= slow
    requires Computable(nInterval, nTargetSpacing, fast) && Computable(nInterval, nTargetSpacing, slow)
    ensures 0 < Denominator(nInterval, nTargetSpacing, fast) <= Denominator(nInterval, nTargetSpacing, slow)
  {
    hide Numerator, Denominator;
    Exact64(nInterval, nTargetSpacing, fast);
    Exact64(nInterval, nTargetSpacing, slow);
  }

  /** Slower blocks never raise the target. */
  lemma SlowerBlocksNeverRaise(nBits: nat, nInterval: uint64, nTargetSpacing: uint64, fast: uint64, slow: uint64)
    requires nBits < 256 * FRACTION && TARGET_MIN_LENGTH <= TargetGetLength(nBits) <= 254 && fast <= slow
    requires Computable(nInterval, nTargetSpacing, fast) && Computable(nInterval, nTargetSpacing, slow)
    ensures Retarget(nBits, nInterval, nTargetSpacing, slow) <= Retarget(nBits, nInterval, nTargetSpacing, fast)
  {
    hide Stepped, TargetGetLength, RetargetDifficulty, Computable;
    SlowerDifficulty(nBits, nInterval, nTargetSpacing, fast, slow);
    SteppedMonotone(TargetGetLength(nBits), RetargetDifficulty(nBits, nInterval, nTargetSpacing, slow),
                    RetargetDifficulty(nBits, nInterval, nTargetSpacing, fast));
  }

  lemma OnTargetRatio(nInterval: uint64, nTargetSpacing: uint64)
    requires Computable(nInterval, nTargetSpacing, nTargetSpacing)
    ensures Numerator(nInterval, nTargetSpacing) == Denominator(nInterval, nTargetSpacing, nTargetSpacing) > 0
  {
    hide Numerator, Denominator;
    Exact64(nInterval, nTargetSpacing, nTargetSpacing);
    assert (nInterval + 1) * nTargetSpacing == (nInterval - 1) * nTargetSpacing + 2 * nTargetSpacing;
  }

  lemma ScaledByOne(D: nat, n: nat)
    requires n > 0
    ensures Scaled(D, n, n) == D
  {
    ModOf(D * n, n, D, 0) by { MulCommutes(D, n); }
  }

  /** When blocks arrive exactly on target the difficulty does not change... */
  lemma OnTargetDifficulty(nBits: nat, nInterval: uint64, nTargetSpacing: uint64)
    requires Computable(nInterval, nTargetSpacing, nTargetSpacing)
    ensures RetargetDifficulty(nBits, nInterval, nTargetSpacing, nTargetSpacing) == TargetGetFractionalDifficulty(nBits)
  {
    hide TargetGetFractionalDifficulty, Scaled, Numerator, Denominator, Computable;
    OnTargetRatio(nInterval, nTargetSpacing);
    ScaledByOne(TargetGetFractionalDifficulty(nBits), Numerator(nInterval, nTargetSpacing));
  }

  /**
   ...but the target does, exactly when that difficulty lies past the threshold, or
   at the minimum with a length that can still step down.
   */
  lemma OnTargetFixedPoint(nBits: nat, nInterval: uint64, nTargetSpacing: uint64)
    requires nBits < 256 * FRACTION && Computable(nInterval, nTargetSpacing, nTargetSpacing)
    ensures (var D := TargetGetFractionalDifficulty(nBits);
             Retarget(nBits, nInterval, nTargetSpacing, nTargetSpacing) == nBits
             <==> D <= FRACTIONAL_DIFFICULTY_THRESHOLD
                  && (D > FRACTIONAL_DIFFICULTY_MIN || TargetGetLength(nBits) <= TARGET_MIN_LENGTH))
  {
    hide TargetGetFractionalDifficulty, RetargetDifficulty;
    OnTargetDifficulty(nBits, nInterval, nTargetSpacing);
    var D := TargetGetFractionalDifficulty(nBits);
    ReadThenWrite(nBits);
    FromParts(nBits);
    SetSucceeds(D, nBits);
  }
}
