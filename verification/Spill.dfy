/** The spill (outlier) thresholds. */
module Spill {
  // The largest ones the code word length allows, and the best one for the zero escape mechanism.

  import opened BitStrings
  import opened Golomb

  const MIN_NON_IMA_GOLOMB_PAR := 1
  const MAX_NON_IMA_GOLOMB_PAR := 0xFFFF
  const MIN_NON_IMA_SPILL := 2
  const MAX_IMA_GOLOMB_PAR := 63

  predicate ParIsValid(par: nat) {
    MIN_NON_IMA_GOLOMB_PAR <= par <= MAX_NON_IMA_GOLOMB_PAR
  }

  /** The source's formula for code words of maxCwBits bits: one symbol is set
      aside for every two bits of an escaped value. */
  function SpillFormula(par: nat, maxCwBits: nat): int
    requires par > 0 && ILog2(par) < maxCwBits
  {
    var maxNSymOffset := maxCwBits / 2 - 1;
    Times(maxCwBits - 1 - ILog2(par), par) + Cutoff(par) - maxNSymOffset - 1
  }

  function IcuMaxSpill(par: nat): (s: nat)
    ensures ParIsValid(par) <==> s >= MIN_NON_IMA_SPILL
    ensures !ParIsValid(par) ==> s == 0
  {
    if !ParIsValid(par) then 0
    else
      IcuFormulaIsLarge(par);
      SpillFormula(par, 32)
  }

  lemma IcuFormulaIsLarge(par: nat)
    requires ParIsValid(par)
    ensures ILog2(par) <= 15 && SpillFormula(par, 32) >= 16
  {
    ParLog(par);
    if par == 1 {
      TimesMonotone2(31, 1, 1);
    } else {
      TimesMonotone(16, 31 - ILog2(par), par);
      TimesMonotone2(16, 2, par);
      TimesIsProduct(16, 2);
    }
  }

  /** Golomb parameters fit 16 bits, so their logarithm is at most 15. */
  lemma ParLog(par: nat)
    requires ParIsValid(par)
    ensures ILog2(par) <= 15
  {
    if ILog2(par) >= 16 {
      Pow2Values();
      Pow2Monotone(16, ILog2(par));
    }
  }

  lemma {:induction false} TimesMonotone(a: nat, b: nat, m: nat)
    requires a <= b
    ensures Times(a, m) <= Times(b, m)
  {
    if a < b {
      TimesMonotone(a, b - 1, m);
    }
  }

  lemma {:induction false} TimesMonotone2(q: nat, m: nat, n: nat)
    requires m <= n
    ensures Times(q, m) <= Times(q, n)
    ensures m == 1 ==> Times(q, m) == q
  {
    if q > 0 {
      TimesMonotone2(q - 1, m, n);
    }
  }

  lemma {:induction false} QuotientBelow(x: nat, m: nat, n: nat)
    requires m > 0
    ensures Quotient(x, m) < n <==> x < Times(n, m)
  {
    if x >= m {
      if n > 0 {
        QuotientBelow(x - m, m, n - 1);
      }
    } else if n > 0 {
      TimesMonotone(1, n, m);
      assert Times(1, m) == Times(0, m) + m;
    }
  }

  /** Exactly the values below (limit - 1 - log2 m) * m + cutoff have short code words. */
  lemma CodeLengthBound(v: nat, m: nat, limit: nat)
    requires m > 0 && limit > ILog2(m)
    ensures |Code(v, m)| <= limit <==> v < Times(limit - 1 - ILog2(m), m) + Cutoff(m)
  {
    CodeLength(v, m);
    if v >= Cutoff(m) {
      QuotientBelow(v - Cutoff(m), m, limit - 1 - ILog2(m));
    }
  }

  lemma CodeLength(v: nat, m: nat)
    requires m > 0
    ensures |Code(v, m)| == if v < Cutoff(m) then ILog2(m) + 1 else ILog2(m) + 2 + Quotient(v - Cutoff(m), m)
  {
    GolombEncoderLength(v, m);
  }

  /** The 32-bit threshold is tight: every normal value and every escape symbol of a
      threshold has a code word of at most 32 bits exactly when the threshold is at
      most IcuMaxSpill. Escape symbols use offsets 0 to 15 for 32-bit data. */
  lemma MaxSpillIsTight(par: nat, spill: nat)
    requires ParIsValid(par)
    ensures spill <= IcuMaxSpill(par) <==> forall v: nat :: v <= spill + 15 ==> |Code(v, par)| <= 32
    ensures |Code(IcuMaxSpill(par) + 15, par)| == 32 && |Code(IcuMaxSpill(par) + 16, par)| == 33
  {
    forall v: nat ensures |Code(v, par)| <= 32 <==> v <= IcuMaxSpill(par) + 15 {
      LongestWord(v, par);
    }
    if spill > IcuMaxSpill(par) {
      assert |Code(spill + 15, par)| > 32;
    }
    EdgeWords(par);
  }

  lemma LongestWord(v: nat, par: nat)
    requires ParIsValid(par)
    ensures |Code(v, par)| <= 32 <==> v <= IcuMaxSpill(par) + 15
  {
    IcuFormulaIsLarge(par);
    CodeLengthBound(v, par, 32);
  }

  lemma EdgeWords(par: nat)
    requires ParIsValid(par)
    ensures |Code(IcuMaxSpill(par) + 15, par)| == 32 && |Code(IcuMaxSpill(par) + 16, par)| == 33
  {
    IcuFormulaIsLarge(par);
    var edge := IcuMaxSpill(par);
    LongestWord(edge + 15, par);
    LongestWord(edge + 16, par);
    CodeLengthBound(edge + 15, par, 31);
    CodeLengthBound(edge + 16, par, 33);
    assert Times(31 - ILog2(par), par) == Times(30 - ILog2(par), par) + par;
    assert Times(32 - ILog2(par), par) == Times(31 - ILog2(par), par) + par;
  }

  /** A value codable with a threshold, or its escape symbol, fits one word. */
  lemma CodableFits(v: nat, par: nat, spill: nat)
    requires ParIsValid(par) && spill <= IcuMaxSpill(par) && v <= spill + 15
    ensures |Code(v, par)| <= 32
  {
    MaxSpillIsTight(par, spill);
  }

  // ----- the imagette table

  /** The look-up table, entry by entry; 0 beyond its end. */
  function ImaMaxSpill(par: nat): nat {
    match par
    case 0 => 0 case 1 => 8 case 2 => 22 case 3 => 35 case 4 => 48 case 5 => 60 case 6 => 72 case 7 => 84
    case 8 => 96 case 9 => 107 case 10 => 118 case 11 => 129 case 12 => 140 case 13 => 151 case 14 => 162 case 15 => 173
    case 16 => 184 case 17 => 194 case 18 => 204 case 19 => 214
    case 20 => 224 case 21 => 234 case 22 => 244 case 23 => 254
    case 24 => 264 case 25 => 274 case 26 => 284 case 27 => 294
    case 28 => 304 case 29 => 314 case 30 => 324 case 31 => 334
    case 32 => 344 case 33 => 353 case 34 => 362 case 35 => 371
    case 36 => 380 case 37 => 389 case 38 => 398 case 39 => 407
    case 40 => 416 case 41 => 425 case 42 => 434 case 43 => 443
    case 44 => 452 case 45 => 461 case 46 => 470 case 47 => 479
    case 48 => 488 case 49 => 497 case 50 => 506 case 51 => 515
    case 52 => 524 case 53 => 533 case 54 => 542 case 55 => 551
    case 56 => 560 case 57 => 569 case 58 => 578 case 59 => 587
    case 60 => 596 case 61 => 605 case 62 => 614 case 63 => 623
    case _ => 0
  }

  /** The table of the RDCU is the same formula for code words of 16 bits. */
  lemma ImaTableIsFormula(par: nat)
    requires 1 <= par <= MAX_IMA_GOLOMB_PAR
    ensures ILog2(par) < 16 && ImaMaxSpill(par) == SpillFormula(par, 16)
  {
    Octave(par);
    TimesIsProduct(15 - ILog2(par), par);
    ImaEntry(par);
  }

  function Linear(par: nat): int {
    if par < 2 then 8 * par else if par < 4 then 13 * par - 4 else if par < 8 then 12 * par
    else if par < 16 then 11 * par + 8 else if par < 32 then 10 * par + 24 else 9 * par + 56
  }

  /** Within an octave of parameters the table is linear. */
  lemma ImaEntry(par: nat)
    requires par <= MAX_IMA_GOLOMB_PAR
    ensures ImaMaxSpill(par) == Linear(par)
  {
  }

  lemma Octave(par: nat)
    requires 1 <= par < 64
    ensures ILog2(par) == if par < 2 then 0 else if par < 4 then 1 else if par < 8 then 2
                          else if par < 16 then 3 else if par < 32 then 4 else 5
    ensures Cutoff(par) + par == if par < 2 then 2 else if par < 4 then 4 else if par < 8 then 8
                                 else if par < 16 then 16 else if par < 32 then 32 else 64
  {
    assert Pow2(1) == 2 && Pow2(2) == 4 && Pow2(3) == 8 && Pow2(4) == 16 && Pow2(5) == 32 && Pow2(6) == 64;
  }

  // ----- thresholds derived for chunk compression

  function BestZeroSpill(par: nat, maxDataBits: nat): nat {
    var maxSpill := IcuMaxSpill(par);
    if par < MIN_NON_IMA_GOLOMB_PAR then 0
    else if par > MAX_NON_IMA_GOLOMB_PAR then 0
    else
      var spill := Times(maxDataBits, par) + Cutoff(par);
      if spill > maxSpill then maxSpill else spill
  }

  function GetSpill(par: nat, zeroEscape: bool, maxDataBits: nat): nat {
    if zeroEscape then BestZeroSpill(par, maxDataBits) else IcuMaxSpill(par)
  }

  /** The check both halves make of a parameter pair in the non-raw modes. */
  predicate ParsAreValid(par: nat, spill: nat) {
    ParIsValid(par) && MIN_NON_IMA_SPILL <= spill <= IcuMaxSpill(par)
  }

  /** Every derived threshold passes the validity check, exactly when the parameter is in range. */
  lemma DerivedSpillIsValid(par: nat, zeroEscape: bool, maxDataBits: nat)
    requires maxDataBits >= 1
    ensures ParsAreValid(par, GetSpill(par, zeroEscape, maxDataBits)) <==> ParIsValid(par)
    ensures GetSpill(par, zeroEscape, maxDataBits) <= 0xFF_FFFF
  {
    if ParIsValid(par) {
      TimesMonotone(1, maxDataBits, par);
      assert Times(1, par) == Times(0, par) + par;
      ParLog(par);
      TimesMonotone(31 - ILog2(par), 31, par);
      TimesMonotone2(31, par, 0xFFFF);
      TimesIsProduct(31, 0xFFFF);
    }
  }

  /** With the zero escape mechanism, the bits spent on mapped value x at threshold spill. */
  function ZeroEscapeCost(x: nat, par: nat, spill: nat, maxDataBits: nat): nat
    requires par > 0
  {
    if x + 1 < spill then |Code(x + 1, par)| else |Code(0, par)| + maxDataBits
  }

  /** No legal threshold spends fewer bits on any value than the derived one. */
  lemma BestZeroSpillIsOptimal(x: nat, par: nat, spill: nat, maxDataBits: nat)
    requires ParsAreValid(par, spill)
    ensures ZeroEscapeCost(x, par, BestZeroSpill(par, maxDataBits), maxDataBits)
            <= ZeroEscapeCost(x, par, spill, maxDataBits)
  {
    CodeOfFirstGroup(0, par);
    CodeLengthBound(x + 1, par, ILog2(par) + 1 + maxDataBits);
  }
}
