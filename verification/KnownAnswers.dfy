/** Two imagette streams and an updated model of the unit tests. The streams are followed
    value by value, from the last one to the first, to the words the tests expect. */
module KnownAnswers {
  import opened BitStrings
  import opened Golomb
  import opened Spill
  import opened Values
  import opened Streams
  import opened Predictions
  import opened Canonical

  /** A string of n bits read as a number. */
  predicate Reads(b: Bits, n: nat, x: nat) {
    |b| == n && FromBits(b) == x
  }

  lemma UpIsProduct(x: nat, n: nat)
    ensures Up(x, n) == x * Pow2(n)
  {
    UpIsTimes(x, n);
    TimesIsProduct(x, Pow2(n));
  }

  /** One string in front of another. */
  lemma InFront(a: Bits, b: Bits, n: nat, x: nat, m: nat, y: nat)
    requires Reads(a, n, x) && Reads(b, m, y)
    ensures Reads(a + b, n + m, x * Pow2(m) + y)
  {
    FromBitsConcat(a, b);
    UpIsProduct(x, m);
  }

  lemma NumberReads(x: nat, n: nat)
    requires x < Pow2(n)
    ensures Reads(ToBits(x, n), n, x)
  {
    FromToBits(x, n);
  }

  lemma SmallSpill(par: nat)
    requires par in {1, 3}
    ensures ParsAreValid(par, 8)
  {
    if par == 1 {
      TimesIsProduct(23, 1);
      CodeAt(23, 1, 23, 0);
    } else {
      assert Times(7, 3) == 21;
      CodeAt(23, 3, 7, 2);
    }
    LongestWord(23, par);
  }

  /** The folded difference of 16-bit samples. */
  function Folded16(value: nat, prediction: nat): int
    requires value < 0x1_0000 && prediction < 0x1_0000
  {
    Fold(if value >= prediction then value - prediction else value - prediction + 0x1_0000, 0x1_0000)
  }

  lemma Folded16Is(value: nat, prediction: nat, su: Setup)
    requires su.Valid() && su.round == 0 && su.width == 16 && value < 0x1_0000 && prediction < 0x1_0000
    ensures Folded16(value, prediction) >= 0
    ensures var u: nat := Folded16(value, prediction);
            ValueBits(value, prediction, su) == if su.zeroEscape then ZeroEscapeBits(u, su) else MultiEscapeBits(u, su)
  {
    hide Code, ToBits, ZeroEscapeBits, MultiEscapeBits, IcuMaxSpill, Pow2;
    Pow2Values();
    assert RoundFwd(value, 0) == value && RoundFwd(prediction, 0) == prediction;
    ValueIsFoldedDifference(value, prediction, su);
  }

  lemma OneField(value: nat, prediction: nat, su: Setup)
    requires su.Valid()
    ensures RecordBits([value], [prediction], [su], 0) == ValueBits(value, prediction, su)
  {
    hide ValueBits;
    FieldsAgainst([value], [prediction], [su], 0);
  }

  /** The first bits of the stream of samples with one field. */
  lemma NextSample(recs: seq<Record>, models: seq<Record>, cfg: LoopCfg, i: nat, value: nat, prediction: nat)
    requires CanCode(recs, models, cfg) && i < |recs| && |cfg.setups| == 1 && recs[i] == [value]
    requires if cfg.modelMode then models[i] == [prediction]
             else if i == 0 then prediction == 0 else recs[i - 1] == [prediction]
    ensures StreamBits(recs, models, cfg, i)
            == ValueBits(value, prediction, cfg.setups[0]) + StreamBits(recs, models, cfg, i + 1)
  {
    SampleBitsAgainst(recs, models, cfg, i);
    assert ZeroRecord(1) == [0];
    assert cfg.setups == [cfg.setups[0]];
    hide ValueBits, StreamBits, RecordBits, IcuMaxSpill;
    OneField(value, prediction, cfg.setups[0]);
  }

  /** What the stream of samples with one field reads from sample i on. */
  ghost predicate StreamReads(recs: seq<Record>, models: seq<Record>, cfg: LoopCfg, i: nat, n: nat, x: nat) {
    CanCode(recs, models, cfg) && i <= |recs| && Reads(StreamBits(recs, models, cfg, i), n, x)
  }

  predicate ValueReads(value: nat, prediction: nat, su: Setup, n: nat, x: nat) {
    su.Valid() && Reads(ValueBits(value, prediction, su), n, x)
  }

  lemma NextReads(recs: seq<Record>, models: seq<Record>, cfg: LoopCfg, i: nat, value: nat, prediction: nat,
                  n: nat, x: nat, m: nat, p: nat, y: nat, z: nat)
    requires |cfg.setups| == 1 && i < |recs| && recs[i] == [value] && StreamReads(recs, models, cfg, i + 1, m, y)
    requires if cfg.modelMode then i < |models| && models[i] == [prediction]
             else if i == 0 then prediction == 0 else recs[i - 1] == [prediction]
    requires ValueReads(value, prediction, cfg.setups[0], n, x) && p == Pow2(m) && z == x * p + y
    ensures StreamReads(recs, models, cfg, i, n + m, z)
  {
    hide ValueBits, StreamBits, CanCode, Reads, IcuMaxSpill, Pow2, Setup.Valid;
    NextSample(recs, models, cfg, i, value, prediction);
    InFront(ValueBits(value, prediction, cfg.setups[0]), StreamBits(recs, models, cfg, i + 1), n, x, m, y);
  }

  lemma EndReads(recs: seq<Record>, models: seq<Record>, cfg: LoopCfg)
    requires CanCode(recs, models, cfg)
    ensures StreamReads(recs, models, cfg, |recs|, 0, 0)
  {
    NoneLeft(recs, models, cfg);
  }

  // ----- differences with the zero escape mechanism

  const DIFF := Setup(1, 8, 0, 16, true)
  const DIFF_DATA: seq<Record> := [[0xFFFF], [1], [0], [42], [0x8000], [0x7FFF], [0xFFFF]]

  lemma Normal(value: nat, prediction: nat, u: nat)
    requires value < 0x1_0000 && prediction < 0x1_0000 && u == Folded16(value, prediction) && u < 7
    ensures ValueReads(value, prediction, DIFF, u + 2, Pow2(u + 2) - 2)
  {
    hide ValueBits, IcuMaxSpill, Fold, Code;
    SmallSpill(1);
    Folded16Is(value, prediction, DIFF);
    Unary(u + 1);
    UnaryReads(u + 1);
  }

  /** With parameter 1 a value is that many ones and a zero. */
  lemma Unary(v: nat)
    ensures Code(v, 1) == Ones(v) + [false]
  {
    TimesIsProduct(v, 1);
    CodeAt(v, 1, v, 0);
    assert Remainder(0, 1) == [];
  }

  lemma UnaryReads(v: nat)
    ensures Reads(Ones(v) + [false], v + 1, Pow2(v + 1) - 2)
  {
    OnesValue(v);
    FromToBits(Pow2(v) - 1, v);
    assert (Ones(v) + [false])[..v] == Ones(v);
  }

  lemma Outlier(value: nat, prediction: nat, u: nat)
    requires value < 0x1_0000 && prediction < 0x1_0000 && u == Folded16(value, prediction) && u >= 7
    ensures ValueReads(value, prediction, DIFF, 17, if u == 0xFFFF then 0 else u + 1)
  {
    hide ValueBits, Code, IcuMaxSpill, ToBits, Reads;
    SmallSpill(1);
    Folded16Is(value, prediction, DIFF);
    Unary(0);
    assert Ones(0) + [false] == [false];
    RawReads(u + 1);
  }

  lemma RawReads(x: nat)
    requires x <= 0x1_0000
    ensures Reads([false] + ToBits(x, 16), 17, if x == 0x1_0000 then 0 else x)
  {
    Pow2Values();
    hide ToBits, Pow2, Low;
    LowOfAdded(0, 16);
    ToBitsOfLow(x, 16);
    var y := if x == 0x1_0000 then 0 else x;
    NumberReads(y, 16);
    InFront([false], ToBits(y, 16), 1, 0, 16, y);
  }

  lemma DiffCanCode()
    ensures CanCode(DIFF_DATA, [], LoopCfg([DIFF], false, 8))
  {
    Pow2Values();
    hide IcuMaxSpill, Pow2;
    SmallSpill(1);
  }

  lemma PowerOfSum(a: nat, b: nat)
    ensures Pow2(a + b) == Pow2(a) * Pow2(b)
  {
    UpOfPow2(a, b);
    UpIsProduct(Pow2(a), b);
  }

  lemma Powers()
    ensures Pow2(0) == 1 && Pow2(3) == 8 && Pow2(6) == 64 && Pow2(17) == 0x2_0000 && Pow2(20) == 0x10_0000
    ensures Pow2(37) == 0x20_0000_0000 && Pow2(54) == 0x40_0000_0000_0000 && Pow2(57) == 0x200_0000_0000_0000
    ensures Pow2(63) == 0x8000_0000_0000_0000
  {
    assert Pow2(3) == 8 && Pow2(6) == 64 && Pow2(17) == 0x2_0000;
    hide Pow2;
    PowerOfSum(3, 17);
    PowerOfSum(20, 17);
    PowerOfSum(37, 17);
    PowerOfSum(54, 3);
    PowerOfSum(57, 6);
  }

  lemma DifferenceValues()
    ensures ValueReads(0xFFFF, 0x7FFF, DIFF, 17, 0) && ValueReads(0x7FFF, 0x8000, DIFF, 3, 6)
    ensures ValueReads(0x8000, 42, DIFF, 17, 65453) && ValueReads(42, 0, DIFF, 17, 85)
    ensures ValueReads(0, 1, DIFF, 3, 6) && ValueReads(1, 0xFFFF, DIFF, 6, 62) && ValueReads(0xFFFF, 0, DIFF, 3, 6)
  {
    Powers();
    hide Pow2, ValueReads;
    Outlier(0xFFFF, 0x7FFF, 0xFFFF);
    Normal(0x7FFF, 0x8000, 1);
    Outlier(0x8000, 42, 65452);
    Outlier(42, 0, 84);
    Normal(0, 1, 1);
    Normal(1, 0xFFFF, 4);
    Normal(0xFFFF, 0, 1);
  }

  lemma LastDifferences()
    ensures StreamReads(DIFF_DATA, [], LoopCfg([DIFF], false, 8), 4, 37, 0xF_FADC_0000)
  {
    hide Pow2, StreamReads, ValueReads, CanCode;
    var d, cfg: LoopCfg := DIFF_DATA, LoopCfg([DIFF], false, 8);
    DifferenceValues();
    Powers();
    DiffCanCode();
    EndReads(d, [], cfg);
    NextReads(d, [], cfg, 6, 0xFFFF, 0x7FFF, 17, 0, 0, 1, 0, 0);
    NextReads(d, [], cfg, 5, 0x7FFF, 0x8000, 3, 6, 17, 0x2_0000, 0, 0xC_0000);
    NextReads(d, [], cfg, 4, 0x8000, 42, 17, 65453, 20, 0x10_0000, 0xC_0000, 0xF_FADC_0000);
  }

  lemma MiddleDifferences()
    ensures StreamReads(DIFF_DATA, [], LoopCfg([DIFF], false, 8), 2, 57, 0x180_0AAF_FADC_0000)
  {
    hide Pow2, StreamReads, ValueReads, CanCode;
    var d, cfg: LoopCfg := DIFF_DATA, LoopCfg([DIFF], false, 8);
    LastDifferences();
    DifferenceValues();
    Powers();
    NextReads(d, [], cfg, 3, 42, 0, 17, 85, 37, 0x20_0000_0000, 0xF_FADC_0000, 0xAAF_FADC_0000);
    NextReads(d, [], cfg, 2, 0, 1, 3, 6, 54, 0x40_0000_0000_0000, 0xAAF_FADC_0000, 0x180_0AAF_FADC_0000);
  }

  /** The differences of the test are compressed to its words 0xDF6002AB and 0xFEB70000 and two zero bits. */
  lemma KnownDifferences()
    ensures StreamReads(DIFF_DATA, [], LoopCfg([DIFF], false, 8), 0, 66, 0xDF6002AB_FEB70000 * 4)
  {
    hide Pow2, StreamReads, ValueReads, CanCode;
    var d, cfg: LoopCfg := DIFF_DATA, LoopCfg([DIFF], false, 8);
    MiddleDifferences();
    DifferenceValues();
    Powers();
    NextReads(d, [], cfg, 1, 1, 0xFFFF, 6, 62, 57, 0x200_0000_0000_0000, 0x180_0AAF_FADC_0000, 0x7D80_0AAF_FADC_0000);
    NextReads(d, [], cfg, 0, 0xFFFF, 0, 3, 6, 63, 0x8000_0000_0000_0000, 0x7D80_0AAF_FADC_0000,
              0xDF6002AB_FEB70000 * 4);
  }

  // ----- the model mode with the multi escape mechanism

  const MULTI := Setup(3, 8, 0, 16, false)
  const MODEL_DATA: seq<Record> := [[0], [1], [0x42], [0x8000], [0x7FFF], [0xFFFF], [0xFFFF]]
  const MODEL: seq<Record> := [[0], [0xFFFF], [0xF301], [0x8FFF], [0], [0xFFFF], [0]]

  lemma CodesOf3()
    ensures Reads(Code(0, 3), 2, 0) && Reads(Code(1, 3), 3, 2) && Reads(Code(4, 3), 4, 10)
    ensures Reads(Code(14, 3), 7, 123) && Reads(Code(15, 3), 7, 124)
  {
    assert Times(0, 3) == 0 && Times(1, 3) == 3 && Times(4, 3) == 12 && Times(5, 3) == 15;
    CodeAt(0, 3, 0, 0);
    CodeAt(1, 3, 0, 1);
    CodeAt(4, 3, 1, 1);
    CodeAt(14, 3, 4, 2);
    CodeAt(15, 3, 5, 0);
    assert Remainder(0, 3) == [false] && Remainder(1, 3) == [true, false] && Remainder(2, 3) == [true, true];
    OnesReads(0, [false], 1, 0);
    OnesReads(0, [true, false], 2, 2);
    OnesReads(1, [true, false], 2, 2);
    OnesReads(4, [true, true], 2, 3);
    OnesReads(5, [false], 1, 0);
  }

  lemma OnesReads(q: nat, r: Bits, n: nat, x: nat)
    requires q <= 5 && 1 <= n <= 2 && Reads(r, n, x)
    ensures Reads(Ones(q) + [false] + r, q + 1 + n, (Pow2(q + 1) - 2) * Pow2(n) + x)
  {
    UnaryReads(q);
    InFront(Ones(q) + [false], r, q + 1, Pow2(q + 1) - 2, n, x);
  }

  lemma SmallDifference(value: nat, prediction: nat, u: nat, n: nat, x: nat)
    requires value < 0x1_0000 && prediction < 0x1_0000 && u == Folded16(value, prediction) && u < 8
    requires Reads(Code(u, 3), n, x)
    ensures ValueReads(value, prediction, MULTI, n, x)
  {
    hide ValueBits, IcuMaxSpill, Fold, Code;
    SmallSpill(3);
    Folded16Is(value, prediction, MULTI);
  }

  lemma LargeDifference(value: nat, prediction: nat, u: nat, offset: nat, k: nat, p: nat, n: nat, x: nat, z: nat)
    requires value < 0x1_0000 && prediction < 0x1_0000 && u == Folded16(value, prediction) && u >= 8
    requires offset <= 7 && k == 2 * offset + 2 && p == Pow2(k) && z == x * p + (u - 8)
    requires Reads(Code(8 + offset, 3), n, x) && Pow2(2 * offset) <= u - 8 < p
    ensures ValueReads(value, prediction, MULTI, n + k, z)
  {
    hide ValueBits, IcuMaxSpill, Fold, Code, ToBits, Pow2, Reads, EscapeSymOffset;
    SmallSpill(3);
    OffsetIs(u - 8, offset);
    Folded16Is(value, prediction, MULTI);
    NumberReads(u - 8, k);
    InFront(Code(8 + offset, 3), ToBits(u - 8, k), n, x, k, u - 8);
  }

  lemma OffsetIs(x: nat, offset: nat)
    requires Pow2(2 * offset) <= x < Pow2(2 * offset + 2)
    ensures EscapeSymOffset(x) == offset
  {
    var l := ILog2(x);
    if l < 2 * offset {
      Pow2Monotone(l + 1, 2 * offset);
    }
    if l >= 2 * offset + 2 {
      Pow2Monotone(2 * offset + 2, l);
    }
  }

  lemma ModelValues()
    ensures ValueReads(0, 0, MULTI, 2, 0) && ValueReads(1, 0xFFFF, MULTI, 4, 10)
    ensures ValueReads(0x42, 0xF301, MULTI, 21, 2022010) && ValueReads(0x8000, 0x8FFF, MULTI, 21, 2023413)
    ensures ValueReads(0x7FFF, 0, MULTI, 23, 8191990)
    ensures ValueReads(0xFFFF, 0xFFFF, MULTI, 2, 0) && ValueReads(0xFFFF, 0, MULTI, 3, 2)
  {
    CodesOf3();
    ModelPowers();
    hide Pow2, ValueReads, Reads, Code;
    SmallDifference(0, 0, 0, 2, 0);
    SmallDifference(1, 0xFFFF, 4, 4, 10);
    LargeDifference(0x42, 0xF301, 6786, 6, 14, 0x4000, 7, 123, 2022010);
    LargeDifference(0x8000, 0x8FFF, 8189, 6, 14, 0x4000, 7, 123, 2023413);
    LargeDifference(0x7FFF, 0, 65534, 7, 16, 0x1_0000, 7, 124, 8191990);
    SmallDifference(0xFFFF, 0xFFFF, 0, 2, 0);
    SmallDifference(0xFFFF, 0, 1, 3, 2);
  }

  lemma ModelPowers()
    ensures Pow2(0) == 1 && Pow2(3) == 8 && Pow2(5) == 32 && Pow2(12) == 0x1000 && Pow2(14) == 0x4000
    ensures Pow2(16) == 0x1_0000 && Pow2(28) == 0x1000_0000 && Pow2(49) == 0x2_0000_0000_0000
    ensures Pow2(70) == 0x40_0000_0000_0000_0000 && Pow2(74) == 0x400_0000_0000_0000_0000
  {
    assert Pow2(3) == 8 && Pow2(4) == 16 && Pow2(5) == 32 && Pow2(12) == 0x1000 && Pow2(14) == 0x4000
           && Pow2(16) == 0x1_0000;
    hide Pow2;
    PowerOfSum(12, 16);
    PowerOfSum(28, 5);
    PowerOfSum(33, 16);
    PowerOfSum(49, 16);
    PowerOfSum(65, 5);
    PowerOfSum(70, 4);
  }

  lemma ModelCanCode()
    ensures CanCode(MODEL_DATA, MODEL, LoopCfg([MULTI], true, 8))
  {
    Pow2Values();
    hide IcuMaxSpill, Pow2;
    SmallSpill(3);
  }

  lemma LastModelled()
    ensures StreamReads(MODEL_DATA, MODEL, LoopCfg([MULTI], true, 8), 4, 28, 0xF9F_FEC2)
  {
    hide Pow2, StreamReads, ValueReads, CanCode;
    var d, models: seq<Record>, cfg: LoopCfg := MODEL_DATA, MODEL, LoopCfg([MULTI], true, 8);
    ModelCanCode();
    EndReads(d, models, cfg);
    ModelValues();
    ModelPowers();
    NextReads(d, models, cfg, 6, 0xFFFF, 0, 3, 2, 0, 1, 0, 2);
    NextReads(d, models, cfg, 5, 0xFFFF, 0xFFFF, 2, 0, 3, 8, 2, 2);
    NextReads(d, models, cfg, 4, 0x7FFF, 0, 23, 8191990, 5, 0x20, 2, 0xF9F_FEC2);
  }

  lemma MiddleModelled()
    ensures StreamReads(MODEL_DATA, MODEL, LoopCfg([MULTI], true, 8), 2, 70, 0x3D_B4F5_EDFF_5F9F_FEC2)
  {
    hide Pow2, StreamReads, ValueReads, CanCode;
    var d, models: seq<Record>, cfg: LoopCfg := MODEL_DATA, MODEL, LoopCfg([MULTI], true, 8);
    LastModelled();
    ModelValues();
    ModelPowers();
    NextReads(d, models, cfg, 3, 0x8000, 0x8FFF, 21, 2023413, 28, 0x1000_0000, 0xF9F_FEC2, 0x1_EDFF_5F9F_FEC2);
    NextReads(d, models, cfg, 2, 0x42, 0xF301, 21, 2022010, 49, 0x2_0000_0000_0000, 0x1_EDFF_5F9F_FEC2,
              0x3D_B4F5_EDFF_5F9F_FEC2);
  }

  /** The samples of the test are compressed against its model to 0x2BDB4F5E, 0xDFF5F9FF and twelve bits 0xEC2. */
  lemma KnownModelled()
    ensures StreamReads(MODEL_DATA, MODEL, LoopCfg([MULTI], true, 8), 0, 76, 0x2BDB4F5E_DFF5F9FF_EC2)
  {
    hide Pow2, StreamReads, ValueReads, CanCode;
    var d, models: seq<Record>, cfg: LoopCfg := MODEL_DATA, MODEL, LoopCfg([MULTI], true, 8);
    MiddleModelled();
    ModelValues();
    ModelPowers();
    NextReads(d, models, cfg, 1, 1, 0xFFFF, 4, 10, 70, 0x40_0000_0000_0000_0000, 0x3D_B4F5_EDFF_5F9F_FEC2,
              0x2BD_B4F5_EDFF_5F9F_FEC2);
    NextReads(d, models, cfg, 0, 0, 0, 2, 0, 74, 0x400_0000_0000_0000_0000, 0x2BD_B4F5_EDFF_5F9F_FEC2,
              0x2BD_B4F5_EDFF_5F9F_FEC2);
  }

  lemma UpdatedTo(i: nat, average: nat)
    requires i < 7 && average == (MODEL[i][0] + MODEL_DATA[i][0]) / 2
    ensures CanCode(MODEL_DATA, MODEL, LoopCfg([MULTI], true, 8))
    ensures UpRecords(MODEL_DATA, MODEL, LoopCfg([MULTI], true, 8))[i] == [average]
  {
    ModelCanCode();
    var cfg: LoopCfg := LoopCfg([MULTI], true, 8);
    var up := UpRecords(MODEL_DATA, MODEL, cfg)[i];
    assert |up| == 1;
    hide CanCode, UpRecords, IcuMaxSpill, Pow2;
    UpdatedSampleIsAverage(MODEL_DATA, MODEL, cfg, i, 0);
    UnroundedAverage(MODEL[i][0], MODEL_DATA[i][0]);
  }

  /** And the updated model is the one the test expects. */
  lemma KnownUpdate()
    ensures CanCode(MODEL_DATA, MODEL, LoopCfg([MULTI], true, 8))
    ensures UpRecords(MODEL_DATA, MODEL, LoopCfg([MULTI], true, 8))
            == [[0], [0x8000], [0x79A1], [0x87FF], [0x3FFF], [0xFFFF], [0x7FFF]]
  {
    hide CanCode, UpRecords;
    UpdatedTo(0, 0);
    UpdatedTo(1, 0x8000);
    UpdatedTo(2, 0x79A1);
    UpdatedTo(3, 0x87FF);
    UpdatedTo(4, 0x3FFF);
    UpdatedTo(5, 0xFFFF);
    UpdatedTo(6, 0x7FFF);
  }

  lemma UnroundedAverage(model: nat, data: nat)
    requires data < TWO_32
    ensures Average(model, Rounded(data, 0), 8) == (model + data) / 2
  {
    RoundedAgain(data, 0);
    assert (model * 8 + data * 8) / 16 == (model + data) / 2;
  }
}
