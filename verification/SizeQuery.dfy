/** The size query, compress_chunk without a destination, against the real run: where they agree,
    and exactly when they do not. */
module SizeQuery {
  import opened BitStrings
  import opened Results
  import opened Golomb
  import opened Spill
  import opened Values
  import opened Streams
  import opened Memory
  import opened DataTypes
  import opened Config
  import opened Parameters
  import opened Chunks
  import opened Entities
  import opened Compressor
  import opened ChunkCompressor
  import opened ChunkTheorems

  /** The model the real run finds after a size query: the query updates the model like a real run,
      so if its updated model is the model buffer itself the run starts from another model. */
  ghost predicate ModelAfterQuery(chunk: Bits, model: Option<Bits>, model': Option<Bits>, inPlace: bool, ct: ChunkType,
                                  cfg: Cfg, query: Result<nat>)
    requires cfg.WellFormed() && !ct.UnknownChunk? && ModelMatches(chunk, model)
  {
    if inPlace then model.Some? && model'.Some? && ChunkUpdate(model.value, model'.value, chunk, model, ct, cfg, query)
    else model' == model
  }

  /** The size query makes the decisions of the real run that follows it: with enough capacity both
      agree, unless the query updated the model in place, and except that only the real run can
      find that the header cannot be built. */
  lemma SizeQueryAgrees(buffer: Bits, before: Bits, after: Bits, capacity: nat, chunk: Bits, model: Option<Bits>,
                        model': Option<Bits>, inPlace: bool, ct: ChunkType, cfg: Cfg, clock: Clock, query: Result<nat>,
                        run: Result<nat>, hq: Option<Header>, hr: Option<Header>)
    requires cfg.WellFormed() && !ct.UnknownChunk? && ModelMatches(chunk, model) && ModelMatches(chunk, model')
    requires |chunk| % 8 == 0
    requires ChunkPut(true, buffer, buffer, 0, chunk, model, ct, cfg, clock, query, hq)
    requires ModelAfterQuery(chunk, model, model', inPlace, ct, cfg, query)
    requires ChunkPut(false, before, after, capacity, chunk, model', ct, cfg, clock, run, hr)
    requires capacity >= BoundFor(|chunk| / 8, NumCols(chunk))
    ensures query.Err? ==> run == query
    ensures query.Ok? && !(inPlace && ModelModeIsUsed(cfg.cmpMode)) ==>
              && Accepted(chunk, model, ct, cfg) && query.value == CompressedSize(chunk, model, ct, cfg)
              && run == if !HeaderFits(cfg, |chunk| / 8, query.value) then Err(EntityHeader)
                        else if !clock.Fit() then Err(EntityTimestamp)
                        else query
  {
    hide Frames, NumCols, ChunkError, Appended, HeaderFits, BoundFor;
    BoundIsEnough(false, before, after, capacity, chunk, model', ct, cfg, clock, run, hr);
  }

  /** The header of an accepted chunk can be built exactly when the queried size, the caller's
      parameters of this chunk type, used by a collection or not, the model value and the times fit
      their fields. */
  lemma HeaderIsBuiltWhen(chunk: Bits, model: Option<Bits>, ct: ChunkType, par: CmpPar, clock: Clock)
    requires Accepted(chunk, model, ct, InitialCfg(ct, par)) && chunk != [] && |chunk| % 8 == 0
    requires |chunk| / 8 <= CMP_ENTITY_MAX_ORIGINAL_SIZE
    ensures var cfg := InitialCfg(ct, par);
            BuildHeader(cfg, |chunk| / 8, CompressedSize(chunk, model, ct, cfg), clock).Ok?
            <==> && CompressedSize(chunk, model, ct, cfg) <= CMP_ENTITY_MAX_SIZE
                 && clock.Fit() && par.modelValue <= 0xFF
                 && (par.cmpMode != CMP_MODE_RAW ==>
                       forall p: Param :: par.For(ct, p).Some? ==> par.For(ct, p).value.0 <= 0xFFFF)
  {
    hide Frames, NumCols, ChunkError, Owner, CmpPar.For, GetSpill, Slot;
    var cfg := InitialCfg(ct, par);
    AcceptedIsSupported(chunk, model, ct, cfg);
    forall s | 0 <= s < 6
      ensures cfg.slots[s].spill <= 0xFF_FFFF
    {
      InitialSpillsFit(ct, par, s);
    }
    ParsFit(ct, par);
  }

  lemma ParsFit(ct: ChunkType, par: CmpPar)
    ensures (forall s :: 0 <= s < 6 ==> InitialCfg(ct, par).slots[s].par <= 0xFFFF)
            <==> forall p: Param :: par.For(ct, p).Some? ==> par.For(ct, p).value.0 <= 0xFFFF
  {
    hide Owner, CmpPar.For, GetSpill, Slot;
    var cfg := InitialCfg(ct, par);
    if forall s :: 0 <= s < 6 ==> cfg.slots[s].par <= 0xFFFF {
      forall p: Param | par.For(ct, p).Some? ensures par.For(ct, p).value.0 <= 0xFFFF {
        ParameterOwnsSlot(par, ct, p);
        assert cfg.slots[Slot(p)].par <= 0xFFFF;
      }
    }
  }

  /** An empty collection of short cadence fluxes. */
  function EmptyFluxes(): (b: Bits)
    ensures |b| == HDR_BITS
  {
    Zeros(65) + ToBits(9, 6) + Zeros(25)
  }

  lemma EmptyFluxesAre()
    ensures Subservice(EmptyFluxes()) == 9 && DataLength(EmptyFluxes()) == 0
  {
    hide FromBits, ToBits;
    var b := EmptyFluxes();
    assert b[65..71] == ToBits(9, 6);
    FromToBits(9, 6);
    assert Pow2(6) == 64;
    assert b[80..96] == Zeros(16);
    ZerosValue(16);
  }

  /** The size query does not look at parameters no collection uses: here the one for the
      extended center of brightness, too large for the header, makes only the real run fail. */
  lemma SizeQueryIsTooOptimistic(par: CmpPar)
    requires par.cmpMode == CMP_MODE_DIFF_ZERO && par.sFx == 1 && par.sExpFlags == 1 && par.sEcob == 70000
    ensures var chunk, ct := EmptyFluxes(), ShortCadence;
            && Accepted(chunk, None, ct, InitialCfg(ct, par))
            && !HeaderFits(InitialCfg(ct, par), |chunk| / 8, CompressedSize(chunk, None, ct, InitialCfg(ct, par)))
  {
    hide GetSpill, EmptyFluxes, Frames;
    var chunk, ct := EmptyFluxes(), ShortCadence;
    var cfg := InitialCfg(ct, par);
    EmptyFluxesAre();
    DerivedSpillIsValid(1, true, 8);
    DerivedSpillIsValid(1, true, 32);
    FluxParsAreValid(cfg);
    assert chunk[ColBits(chunk)..] == [];
    assert cfg.slots[4].par == 70000;
  }

  lemma FluxParsAreValid(cfg: Cfg)
    requires cfg.WellFormed() && cfg.cmpMode == CMP_MODE_DIFF_ZERO
    requires ParsAreValid(cfg.Get(Fx).par, cfg.Get(Fx).spill)
    requires ParsAreValid(cfg.Get(ExpFlags).par, cfg.Get(ExpFlags).spill)
    ensures !cfg.SpecificIsInvalid(SFx)
  {
  }

  // ----- a query that exceeds the size field

  /** A chunk of n empty collections. */
  function Empties(n: nat): (b: Bits)
    ensures |b| == HDR_BITS * n
  {
    if n == 0 then [] else EmptyFluxes() + Empties(n - 1)
  }

  lemma EmptiesBegin(n: nat)
    requires n > 0
    ensures Subservice(Empties(n)) == 9 && DataLength(Empties(n)) == 0 && Empties(n)[HDR_BITS..] == Empties(n - 1)
  {
    hide EmptyFluxes, FromBits;
    EmptyFluxesAre();
    assert Empties(n)[65..71] == EmptyFluxes()[65..71] && Empties(n)[80..96] == EmptyFluxes()[80..96];
  }

  lemma {:induction false} EmptiesAreAccepted(n: nat, cfg: Cfg)
    requires cfg.WellFormed() && cfg.cmpMode == CMP_MODE_RAW && !cfg.GenParIsInvalid()
    ensures ChunkError(Empties(n), ShortCadence, cfg, false).None?
  {
    hide Subservice, DataLength, Cfg.GenParIsInvalid;
    if n > 0 {
      EmptiesBegin(n);
      EmptiesAreAccepted(n - 1, cfg);
    }
  }

  /** No collection need be large, and no parameter: as many empty collections as a chunk may have, kept
      raw, have a query of more bytes than the size field of the header holds. */
  lemma SizeFieldOverflows(par: CmpPar)
    requires par.cmpMode == CMP_MODE_RAW
    ensures var chunk, ct, cfg := Empties(1398101), ShortCadence, InitialCfg(ShortCadence, par);
            && EarlyError(chunk).None? && ChunkTypeOf(Subservice(chunk)) == ct && Accepted(chunk, None, ct, cfg)
            && CompressedSize(chunk, None, ct, cfg) == 0x100_001C > CMP_ENTITY_MAX_SIZE
            && !HeaderFits(cfg, |chunk| / 8, CompressedSize(chunk, None, ct, cfg))
  {
    hide Frames, Empties, Subservice, DataLength, ChunkError;
    var chunk, cfg := Empties(1398101), InitialCfg(ShortCadence, par);
    EmptiesBegin(1398101);
    CfgKeepsMode(ShortCadence, par);
    InitialCfgIsLossless(ShortCadence, par);
    EmptiesAreAccepted(1398101, cfg);
    RawFrames(chunk, None, ShortCadence, cfg, HeaderSize(cfg.cmpMode));
  }

  // ----- an in-place query that misleads

  lemma {:induction false} CodeOfOne(v: nat)
    ensures |Code(v, 1)| == v + 1
  {
    TimesIsProduct(v, 1);
    CodeAt(v, 1, v, 0);
  }

  /** If the bits of every sample are within bounds, so is the stream. */
  lemma {:induction false} StreamBetween(recs: seq<Record>, models: seq<Record>, cfg: LoopCfg, i: nat, lo: nat, hi: nat)
    requires CanCode(recs, models, cfg) && i <= |recs|
    requires forall k :: 0 <= k < |recs| ==>
                && |ModelOf(recs, models, cfg, k)| == |cfg.setups|
                && lo <= |RecordBits(recs[k], ModelOf(recs, models, cfg, k), cfg.setups, 0)| <= hi
    ensures Times(|recs| - i, lo) <= |StreamBits(recs, models, cfg, i)| <= Times(|recs| - i, hi)
    decreases |recs| - i
  {
    hide RecordBits, ModelOf, AllFit;
    if i < |recs| {
      StreamBitsFirst(recs, models, cfg, i);
      StreamBetween(recs, models, cfg, i + 1, lo, hi);
    }
  }

  /** The setup of imagettes with Golomb parameter 1 in the model modes. */
  function UnitSetup(zeroEscape: bool): (su: Setup)
    ensures su.Valid()
  {
    UnitSpill();
    Setup(1, 16, 0, 16, zeroEscape)
  }

  lemma UnitSpill()
    ensures IcuMaxSpill(1) == 16 && ParsAreValid(1, 16) && BestZeroSpill(1, 16) == 16
  {
    TimesIsProduct(31, 1);
    TimesIsProduct(16, 1);
  }

  lemma FoldedAre()
    ensures MapToPos(0x4000, 16) == 0x8000 && MapToPos(0, 16) == 0
  {
    hide MapToPos, Low, Pow2;
    Pow2Values();
    MapToPosIsFold(0x4000, 16);
    MapToPosIsFold(0, 16);
    LowSmall(0x4000, 16);
    LowSmall(0, 16);
  }

  lemma UnitMapped(zeroEscape: bool)
    ensures ValueBits(0x4000, 0, UnitSetup(zeroEscape)) == EscapeBits(0x8000, UnitSetup(zeroEscape))
    ensures ValueBits(0x4000, 0x4000, UnitSetup(zeroEscape)) == EscapeBits(0, UnitSetup(zeroEscape))
  {
    hide EscapeBits, MapToPos, Low, Pow2, IcuMaxSpill;
    FoldedAre();
    assert U32(0x4000) == 0x4000 && U32(0) == 0;
  }

  lemma UnitEscape(zeroEscape: bool)
    ensures |EscapeBits(0x8000, UnitSetup(zeroEscape))| >= 17 && 1 <= |EscapeBits(0, UnitSetup(zeroEscape))| <= 2
  {
    hide Code, ToBits, EscapeSymOffset, IcuMaxSpill;
    CodeOfOne(0);
    CodeOfOne(1);
    CodeOfOne(16 + EscapeSymOffset(0x8000 - 16));
  }

  /** A difference of 0x4000 takes more bits than the sample, no difference at most two. */
  lemma UnitBits(zeroEscape: bool)
    ensures |ValueBits(0x4000, 0, UnitSetup(zeroEscape))| >= 17
    ensures 1 <= |ValueBits(0x4000, 0x4000, UnitSetup(zeroEscape))| <= 2
  {
    hide ValueBits, EscapeBits, UnitSetup;
    UnitMapped(zeroEscape);
    UnitEscape(zeroEscape);
  }

  // four imagette samples

  function FourRecords(value: nat): (r: seq<Record>)
    ensures |r| == 4
  {
    [[value], [value], [value], [value]]
  }

  function FourSamples(value: nat): (b: Bits)
    ensures |b| == 64
  {
    ToBits(value, 16) + ToBits(value, 16) + ToBits(value, 16) + ToBits(value, 16)
  }

  lemma FourInMemory(value: nat, su: Setup)
    requires su.width == 16
    ensures BitsOfAll(FourRecords(value), [su]) == FourSamples(value)
  {
    hide ToBits, BitsOf;
    var recs := FourRecords(value);
    OneField(value, su);
    BitsOfAllSnoc(recs, 0, [su]);
    BitsOfAllSnoc(recs, 1, [su]);
    BitsOfAllSnoc(recs, 2, [su]);
    BitsOfAllSnoc(recs, 3, [su]);
    assert |recs[..0]| == 0 && recs[..4] == recs;
  }

  /** Four samples in memory are four records of one field. */
  lemma FourSamplesAre(value: nat, su: Setup)
    requires su.width == 16 && value < 0x1_0000
    ensures SampleBits([su]) == 16 && Times(4, 16) == 64
    ensures AllFit(FourRecords(value), [su])
    ensures RecordsOf(FourSamples(value), 4, [su]) == FourRecords(value)
  {
    hide ToBits, BitsOfAll, RecordsOf, FourSamples;
    TimesIsProduct(4, 16);
    Pow2Values();
    OneField(value, su);
    FourInMemory(value, su);
    RecordsOfBitsOfAll(FourRecords(value), [su]);
  }

  lemma OneField(value: nat, su: Setup)
    ensures SampleBits([su]) == su.width && BitsOf([value], [su]) == ToBits(value, su.width)
  {
    assert [su][1..] == [];
    assert SampleBits([]) == 0;
    assert ToBits(value, su.width) + [] == ToBits(value, su.width);
  }

  /** Where the payload of the first collection begins. */
  const FIRST_PAYLOAD := NON_IMAGETTE_HEADER_SIZE + FRAME_HDR_SIZE

  /** The header of a collection of four imagette samples, otherwise zero. */
  function ImagetteHeader(): (b: Bits)
    ensures |b| == HDR_BITS
  {
    Zeros(65) + ToBits(3, 6) + Zeros(9) + ToBits(8, 16)
  }

  lemma ImagetteHeaderIs(rest: Bits)
    ensures var b := ImagetteHeader() + rest; Subservice(b) == 3 && DataLength(b) == 8
  {
    hide FromBits, ToBits;
    var b := ImagetteHeader() + rest;
    assert b[65..71] == ToBits(3, 6) && b[80..96] == ToBits(8, 16);
    FromToBits(3, 6);
    FromToBits(8, 16);
    Pow2Values();
    assert Pow2(6) == 64;
  }

  // ----- the chunk of one such collection

  /** The chunk, and a model of zeros of the same size. */
  function FourImagettes(value: nat): (b: Bits)
    ensures |b| == 160
  {
    ImagetteHeader() + FourSamples(value)
  }

  /** Compressed against zeros the samples stay raw, compressed against themselves they shrink. */
  lemma FourStreams(model: nat, zeroEscape: bool, modelValue: nat)
    requires model in {0, 0x4000} && modelValue <= MAX_MODEL_VALUE
    ensures var loop := LoopCfg([UnitSetup(zeroEscape)], true, modelValue);
            && Codable(FourSamples(0x4000), FourSamples(model), 4, loop)
            && var s := Stream(FourSamples(0x4000), FourSamples(model), 4, loop);
               (model == 0 ==> |s| >= 68) && (model == 0x4000 ==> 4 <= |s| <= 8)
  {
    hide ToBits, StreamBits, RecordsOf, FourSamples, UnitSetup, ValueBits, SampleBits, Times;
    var su := UnitSetup(zeroEscape);
    var loop := LoopCfg([su], true, modelValue);
    UnitSetupIs(zeroEscape);
    FourSamplesAre(0x4000, su);
    FourSamplesAre(model, su);
    UnitBits(zeroEscape);
    var recs, models := FourRecords(0x4000), FourRecords(model);
    OneFieldRecord(0x4000, model, su);
    var n := |ValueBits(0x4000, model, su)|;
    StreamBetween(recs, models, loop, 0, n, n);
    TimesIsProduct(4, n);
  }

  lemma UnitSetupIs(zeroEscape: bool)
    ensures UnitSetup(zeroEscape) == Setup(1, 16, 0, 16, zeroEscape)
  {
  }

  lemma OneFieldRecord(value: nat, model: nat, su: Setup)
    requires su.Valid()
    ensures RecordBits([value], [model], [su], 0) == ValueBits(value, model, su)
  {
    hide ValueBits;
    assert RecordBits([value], [model], [su], 1) == [];
  }

  /** A model mode with Golomb parameter 1 for imagettes. */
  predicate UnitPar(par: CmpPar) {
    ModelModeIsUsed(par.cmpMode) && par.ncImagette == 1 && par.modelValue <= MAX_MODEL_VALUE
  }

  lemma UnitCfg(par: CmpPar)
    requires UnitPar(par)
    ensures var cfg := InitialCfg(NcamImagette, par);
            && cfg.Loop(Imagette) == LoopCfg([UnitSetup(ZeroEscapeIsUsed(par.cmpMode))], true, par.modelValue)
            && !cfg.GenParIsInvalid() && !cfg.SpecificIsInvalid(Imagette) && cfg.cmpMode == par.cmpMode
  {
    hide IcuMaxSpill, BestZeroSpill, ParsAreValid;
    UnitSpill();
    UnitSetupIs(ZeroEscapeIsUsed(par.cmpMode));
    var cfg := InitialCfg(NcamImagette, par);
    assert cfg.Get(ImagettePar) == Pair(1, 16);
  }

  lemma FourImagettesAre(value: nat, model: nat, par: CmpPar)
    requires UnitPar(par)
    ensures var b, cfg := FourImagettes(value), InitialCfg(NcamImagette, par);
            && TypeOf(b) == Imagette && DataLength(b) == 8 && Samples(b) == 4
            && ColData(b) == FourSamples(value) && ModelData(b, Some(FourImagettes(model))) == FourSamples(model)
            && ColError(b, NcamImagette, cfg, true).None? && Accepted(b, Some(FourImagettes(model)), NcamImagette, cfg)
  {
    hide FourSamples, ImagetteHeader, InitialCfg, Cfg.GenParIsInvalid, Cfg.SpecificIsInvalid, DataLength, Subservice;
    ImagetteHeaderIs(FourSamples(value));
    UnitCfg(par);
    var b, cfg := FourImagettes(value), InitialCfg(NcamImagette, par);
    assert ColBits(b) == 160 && ColError(b, NcamImagette, cfg, true).None?;
    assert b[160..] == [];
    assert ChunkError(b[160..], NcamImagette, cfg, true).None?;
    assert b[HDR_BITS..160] == FourSamples(value) && FourImagettes(model)[HDR_BITS..160] == FourSamples(model);
  }

  /** Eight bytes of data behind the first header. */
  lemma PayloadBehindHeader(data: Bits, model: Bits, loop: LoopCfg)
    requires Codable(data, model, 4, loop) && |data| == 64 && loop.modelMode
    ensures var s := Stream(data, model, 4, loop);
            && (|s| > 48 ==> !IsCoded(data, model, 4, loop, FIRST_PAYLOAD)
                             && Payload(data, model, 4, loop, FIRST_PAYLOAD) == data
                             && UpdatedModel(data, model, 4, loop, FIRST_PAYLOAD) == data)
            && (1 <= |s| <= 8 ==> |Payload(data, model, 4, loop, FIRST_PAYLOAD)| == 8)
  {
    hide Stream, Codable, Records, BitsOfAll, UpRecords, SizeToBits, BytePad;
    WordsAndBytes(|Stream(data, model, 4, loop)|);
  }

  lemma WordsAndBytes(k: nat)
    ensures SizeToBits(85) == 672 && (1 <= k <= 8 ==> k + BytePad(k) == 8)
  {
  }

  /** Raw against zeros, one byte against itself. */
  lemma FourPayloads(model: nat, par: CmpPar)
    requires UnitPar(par) && model in {0, 0x4000}
    ensures var loop := InitialCfg(NcamImagette, par).Loop(Imagette);
            && Codable(FourSamples(0x4000), FourSamples(model), 4, loop)
            && (model == 0 ==> !IsCoded(FourSamples(0x4000), FourSamples(model), 4, loop, FIRST_PAYLOAD)
                               && Payload(FourSamples(0x4000), FourSamples(model), 4, loop, FIRST_PAYLOAD)
                               == FourSamples(0x4000)
                               && UpdatedModel(FourSamples(0x4000), FourSamples(model), 4, loop, FIRST_PAYLOAD)
                               == FourSamples(0x4000))
            && (model == 0x4000 ==> |Payload(FourSamples(0x4000), FourSamples(model), 4, loop, FIRST_PAYLOAD)| == 8)
  {
    hide FourSamples, InitialCfg, Stream, Codable, IsCoded, Payload, UpdatedModel, UnitSetup;
    FourStreams(model, ZeroEscapeIsUsed(par.cmpMode), par.modelValue);
    UnitCfg(par);
    PayloadBehindHeader(FourSamples(0x4000), FourSamples(model), InitialCfg(NcamImagette, par).Loop(Imagette));
  }

  /** A chunk of a single collection. */
  lemma SingleCollection(b: Bits, model: Option<Bits>, ct: ChunkType, cfg: Cfg)
    requires Accepted(b, model, ct, cfg) && |b| >= HDR_BITS && ColBits(b) == |b|
    requires ColError(b, ct, cfg, model.Some?).None?
    ensures Frames(b, model, ct, cfg, HeaderSize(cfg.cmpMode)) == ColFrame(b, model, ct, cfg, HeaderSize(cfg.cmpMode))
    ensures ModelModeIsUsed(cfg.cmpMode) ==>
              Updates(b, model, ct, cfg, HeaderSize(cfg.cmpMode))
              == ColUpdate(b, model, ct, cfg, HeaderSize(cfg.cmpMode))
  {
    hide ColError, ColFrame, ColUpdate, ChunkError;
    var at := HeaderSize(cfg.cmpMode);
    var at' := at + |ColFrame(b, model, ct, cfg, at)| / 8;
    assert b[ColBits(b)..] == [];
    FramesStep(b, model, ct, cfg, at, at');
    NothingFramedAtAll(ModelAfter(b, model), ct, cfg, at');
    if ModelModeIsUsed(cfg.cmpMode) {
      UpdatesStep(b, model, ct, cfg, at, at');
    }
  }

  /** What becomes of the collection against a model. */
  lemma FourImagettesFrame(model: nat, par: CmpPar)
    requires UnitPar(par) && model in {0, 0x4000}
    ensures var b, m, cfg := FourImagettes(0x4000), Some(FourImagettes(model)), InitialCfg(NcamImagette, par);
            && ColError(b, NcamImagette, cfg, true).None?
            && |ColFrame(b, m, NcamImagette, cfg, NON_IMAGETTE_HEADER_SIZE)| == (if model == 0 then 176 else 120)
            && (model == 0 ==> ColUpdate(b, m, NcamImagette, cfg, NON_IMAGETTE_HEADER_SIZE) == b)
  {
    hide FourSamples, ImagetteHeader, InitialCfg, ColError, DataLength, TypeOf, UpdatedModel, Payload, IsCoded, Codable,
      Samples, ColData, ModelData;
    FourImagettesAre(0x4000, model, par);
    FourPayloads(model, par);
    UnitCfg(par);
    assert ImagetteHeader() == FourImagettes(0x4000)[..HDR_BITS];
  }

  /** What becomes of the chunk against a model. */
  lemma FourImagettesCompressed(model: nat, par: CmpPar)
    requires UnitPar(par) && model in {0, 0x4000}
    ensures var b, m, cfg := FourImagettes(0x4000), Some(FourImagettes(model)), InitialCfg(NcamImagette, par);
            && Accepted(b, m, NcamImagette, cfg)
            && CompressedSize(b, m, NcamImagette, cfg) == (if model == 0 then 86 else 79)
            && (model == 0 ==> Updates(b, m, NcamImagette, cfg, HeaderSize(cfg.cmpMode)) == b)
  {
    hide FourImagettes, InitialCfg, ColError, DataLength, TypeOf, ColFrame, ColUpdate, Frames, Updates, ChunkError;
    FourImagettesAre(0x4000, model, par);
    FourImagettesFrame(model, par);
    UnitCfg(par);
    SingleCollection(FourImagettes(0x4000), Some(FourImagettes(model)), NcamImagette, InitialCfg(NcamImagette, par));
  }

  /** A query that updates the model in place misleads: these samples are reported, and were to be
      stored, raw, but after the query they are their own model and the real run shrinks them. */
  lemma InPlaceQueryMisleads(par: CmpPar)
    requires UnitPar(par)
    ensures var chunk, model, cfg := FourImagettes(0x4000), FourImagettes(0), InitialCfg(NcamImagette, par);
            && Accepted(chunk, Some(model), NcamImagette, cfg) && Accepted(chunk, Some(chunk), NcamImagette, cfg)
            && ModelAfterQuery(chunk, Some(model), Some(chunk), true, NcamImagette, cfg,
                               Ok(CompressedSize(chunk, Some(model), NcamImagette, cfg)))
            && CompressedSize(chunk, Some(chunk), NcamImagette, cfg)
               != CompressedSize(chunk, Some(model), NcamImagette, cfg)
  {
    hide FourImagettes, InitialCfg, Updates, CompressedSize, Accepted;
    var chunk, model := FourImagettes(0x4000), FourImagettes(0);
    FourImagettesCompressed(0, par);
    FourImagettesCompressed(0x4000, par);
    UnitCfg(par);
    assert model[..0] + chunk + model[160..] == chunk;
  }

  /** After a query of this kind, whatever was compressed, a real run computes the queried size. */
  ghost predicate QueryIsReliable(inPlace: bool, cmpMode: nat) {
    forall chunk: Bits, model: Option<Bits>, model': Option<Bits>, ct: ChunkType, par: CmpPar, size: nat ::
      && par.cmpMode == cmpMode && !ct.UnknownChunk? && ModelMatches(chunk, model) && ModelMatches(chunk, model')
      && Accepted(chunk, model, ct, InitialCfg(ct, par))
      && size == CompressedSize(chunk, model, ct, InitialCfg(ct, par))
      && ModelAfterQuery(chunk, model, model', inPlace, ct, InitialCfg(ct, par), Ok(size))
      ==>
        && Accepted(chunk, model', ct, InitialCfg(ct, par))
        && CompressedSize(chunk, model', ct, InitialCfg(ct, par)) == size
  }

  /** The query can be relied on exactly when it does not update the model in place in a model mode. */
  lemma QueryIsReliableIff(inPlace: bool, cmpMode: nat)
    ensures QueryIsReliable(inPlace, cmpMode) <==> !(inPlace && ModelModeIsUsed(cmpMode))
  {
    hide InitialCfg, CompressedSize, Accepted, Updates, FourImagettes;
    forall ct: ChunkType, par: CmpPar ensures InitialCfg(ct, par).cmpMode == par.cmpMode {
      CfgKeepsMode(ct, par);
    }
    if inPlace && ModelModeIsUsed(cmpMode) {
      var par := SomeUnitPar(cmpMode);
      InPlaceQueryMisleads(par);
      var chunk, model := FourImagettes(0x4000), FourImagettes(0);
      if QueryIsReliable(inPlace, cmpMode) {
        ReliableFor(chunk, Some(model), Some(chunk), inPlace, NcamImagette, par,
                    CompressedSize(chunk, Some(model), NcamImagette, InitialCfg(NcamImagette, par)));
      }
    }
  }

  lemma ReliableFor(chunk: Bits, model: Option<Bits>, model': Option<Bits>, inPlace: bool, ct: ChunkType, par: CmpPar,
                    size: nat)
    requires QueryIsReliable(inPlace, par.cmpMode)
    requires !ct.UnknownChunk? && ModelMatches(chunk, model) && ModelMatches(chunk, model')
    requires Accepted(chunk, model, ct, InitialCfg(ct, par))
    requires size == CompressedSize(chunk, model, ct, InitialCfg(ct, par))
    requires ModelAfterQuery(chunk, model, model', inPlace, ct, InitialCfg(ct, par), Ok(size))
    ensures Accepted(chunk, model', ct, InitialCfg(ct, par))
    ensures CompressedSize(chunk, model', ct, InitialCfg(ct, par)) == size
  {
    hide InitialCfg, CompressedSize, Accepted, Updates, ModelMatches, ModelAfterQuery;
  }

  function SomeUnitPar(cmpMode: nat): (par: CmpPar)
    requires ModelModeIsUsed(cmpMode)
    ensures UnitPar(par) && par.cmpMode == cmpMode
  {
    CmpPar(cmpMode, 8, 0, 1, 1, 1, 1, 1, 1, 1, 1, 1, 1, 1, 1, 1, 1, 1, 1, 1, 1, 1, 1, 1, 1, 1, 1, 1, 1, 1)
  }
}
