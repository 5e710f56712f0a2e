/** The caller's parameters up to the decoder. */
module Parameters {
  import opened Results
  import opened Spill
  import opened DataTypes
  import opened Config

  datatype ChunkType =
    | UnknownChunk | NcamImagette | SatImagetteChunk | ShortCadence | LongCadence | OffsetBackground | SmearingChunk
    | FChain

  /** cmp_col_get_chunk_type. */
  function ChunkTypeOf(subservice: nat): ChunkType {
    match subservice
    case 3 => NcamImagette
    case 4 => SatImagetteChunk
    case 5 | 6 => OffsetBackground
    case 7 => SmearingChunk
    case 9 | 10 | 11 | 12 => ShortCadence
    case 13 | 14 | 15 | 16 => LongCadence
    case 1 | 2 | 25 => FChain
    case _ => UnknownChunk
  }

  /** The caller's parameters, with the names of the source. */
  datatype CmpPar = CmpPar(
    cmpMode: nat, modelValue: nat, lossyPar: nat,
    ncImagette: nat,
    sExpFlags: nat, sFx: nat, sNcob: nat, sEfx: nat, sEcob: nat,
    lExpFlags: nat, lFx: nat, lNcob: nat, lEfx: nat, lEcob: nat, lFxCobVariance: nat,
    saturatedImagette: nat,
    ncOffsetMean: nat, ncOffsetVariance: nat,
    ncBackgroundMean: nat, ncBackgroundVariance: nat, ncBackgroundOutlierPixels: nat,
    smearingMean: nat, smearingVarianceMean: nat, smearingOutlierPixels: nat,
    fcImagette: nat, fcOffsetMean: nat, fcOffsetVariance: nat,
    fcBackgroundMean: nat, fcBackgroundVariance: nat, fcBackgroundOutlierPixels: nat)
  {
    /** The caller's value for a parameter of a chunk type, and the width of the data it is meant for. */
    function For(ct: ChunkType, p: Param): Option<(nat, nat)> {
      match (ct, p)
      case (NcamImagette, ImagettePar) => Some((ncImagette, 16))
      case (SatImagetteChunk, ImagettePar) => Some((saturatedImagette, 16))
      case (ShortCadence, ExpFlags) => Some((sExpFlags, 8))
      case (ShortCadence, Fx) => Some((sFx, 32))
      case (ShortCadence, Ncob) => Some((sNcob, 32))
      case (ShortCadence, Efx) => Some((sEfx, 32))
      case (ShortCadence, Ecob) => Some((sEcob, 32))
      case (LongCadence, ExpFlags) => Some((lExpFlags, 24))
      case (LongCadence, Fx) => Some((lFx, 32))
      case (LongCadence, Ncob) => Some((lNcob, 32))
      case (LongCadence, Efx) => Some((lEfx, 32))
      case (LongCadence, Ecob) => Some((lEcob, 32))
      case (LongCadence, FxCobVariance) => Some((lFxCobVariance, 32))
      case (OffsetBackground, OffsetMean) => Some((ncOffsetMean, 32))
      case (OffsetBackground, OffsetVariance) => Some((ncOffsetVariance, 32))
      case (OffsetBackground, BackgroundMean) => Some((ncBackgroundMean, 32))
      case (OffsetBackground, BackgroundVariance) => Some((ncBackgroundVariance, 32))
      case (OffsetBackground, BackgroundPixelsError) => Some((ncBackgroundOutlierPixels, 16))
      case (SmearingChunk, SmearingMean) => Some((smearingMean, 32))
      case (SmearingChunk, SmearingVariance) => Some((smearingVarianceMean, 32))
      case (SmearingChunk, SmearingPixelsError) => Some((smearingOutlierPixels, 16))
      case (FChain, ImagettePar) => Some((fcImagette, 16))
      case (FChain, OffsetMean) => Some((fcOffsetMean, 32))
      case (FChain, OffsetVariance) => Some((fcOffsetVariance, 32))
      case (FChain, BackgroundMean) => Some((fcBackgroundMean, 32))
      case (FChain, BackgroundVariance) => Some((fcBackgroundVariance, 32))
      case (FChain, BackgroundPixelsError) => Some((fcBackgroundOutlierPixels, 16))
      case _ => None
    }
  }

  /** The configuration holds the caller's value and its derived threshold for this parameter. */
  predicate Configured(cfg: Cfg, par: CmpPar, ct: ChunkType, p: Param)
    requires cfg.WellFormed()
  {
    par.For(ct, p).Some? ==>
      var (value, width) := par.For(ct, p).value;
      cfg.Get(p) == Pair(value, GetSpill(value, ZeroEscapeIsUsed(par.cmpMode), width))
  }

  /** A configuration whose slots are all zero. */
  function Blank(par: CmpPar): (c: Cfg)
    ensures c.WellFormed()
  {
    Cfg(par.cmpMode, par.modelValue, 0, seq(6, i => Pair(0, 0)))
  }

  /** The parameter a chunk type keeps in a slot. */
  function Owner(ct: ChunkType, s: nat): Option<Param> {
    match (ct, s)
    case (NcamImagette, 0) => Some(ImagettePar)
    case (SatImagetteChunk, 0) => Some(ImagettePar)
    case (ShortCadence, 0) => Some(ExpFlags)
    case (ShortCadence, 1) => Some(Fx)
    case (ShortCadence, 2) => Some(Ncob)
    case (ShortCadence, 3) => Some(Efx)
    case (ShortCadence, 4) => Some(Ecob)
    case (LongCadence, 0) => Some(ExpFlags)
    case (LongCadence, 1) => Some(Fx)
    case (LongCadence, 2) => Some(Ncob)
    case (LongCadence, 3) => Some(Efx)
    case (LongCadence, 4) => Some(Ecob)
    case (LongCadence, 5) => Some(FxCobVariance)
    case (OffsetBackground, 1) => Some(OffsetMean)
    case (OffsetBackground, 2) => Some(OffsetVariance)
    case (OffsetBackground, 3) => Some(BackgroundMean)
    case (OffsetBackground, 4) => Some(BackgroundVariance)
    case (OffsetBackground, 5) => Some(BackgroundPixelsError)
    case (SmearingChunk, 3) => Some(SmearingMean)
    case (SmearingChunk, 4) => Some(SmearingVariance)
    case (SmearingChunk, 5) => Some(SmearingPixelsError)
    case (FChain, 0) => Some(ImagettePar)
    case (FChain, 1) => Some(OffsetMean)
    case (FChain, 2) => Some(OffsetVariance)
    case (FChain, 3) => Some(BackgroundMean)
    case (FChain, 4) => Some(BackgroundVariance)
    case (FChain, 5) => Some(BackgroundPixelsError)
    case _ => None
  }

  /** What a slot holds: its owner's value with the threshold derived from it, or nothing. */
  function SlotPair(ct: ChunkType, par: CmpPar, s: nat): Pair {
    if Owner(ct, s).None? || par.For(ct, Owner(ct, s).value).None? then Pair(0, 0)
    else
      var (value, width) := par.For(ct, Owner(ct, s).value).value;
      Pair(value, GetSpill(value, ZeroEscapeIsUsed(par.cmpMode), width))
  }

  /** The configuration a chunk starts with. Lossy compression is switched off. */
  function InitialCfg(ct: ChunkType, par: CmpPar): (c: Cfg)
    ensures c.WellFormed()
  {
    Cfg(par.cmpMode, par.modelValue, 0, seq(6, s requires 0 <= s < 6 => SlotPair(ct, par, s)))
  }

  /** A parameter and the threshold cmp_get_spill derives from it. */
  function SetDerived(cfg: Cfg, p: Param, par: nat, width: nat): (c: Cfg)
    requires cfg.WellFormed()
    ensures c.WellFormed() && c == cfg.(slots := c.slots)
    ensures c.slots == cfg.slots[Slot(p) := Pair(par, GetSpill(par, ZeroEscapeIsUsed(cfg.cmpMode), width))]
  {
    cfg.Set(p, par, GetSpill(par, ZeroEscapeIsUsed(cfg.cmpMode), width))
  }

  method InitNcamImagette(before: Cfg, par: CmpPar) returns (cfg: Cfg)
    requires before == Blank(par)
    ensures cfg == InitialCfg(NcamImagette, par)
  {
    hide GetSpill;
    cfg := SetDerived(before, ImagettePar, par.ncImagette, 16);
  }

  method InitSatImagette(before: Cfg, par: CmpPar) returns (cfg: Cfg)
    requires before == Blank(par)
    ensures cfg == InitialCfg(SatImagetteChunk, par)
  {
    hide GetSpill;
    cfg := SetDerived(before, ImagettePar, par.saturatedImagette, 16);
  }

  method InitShortCadence(before: Cfg, par: CmpPar) returns (cfg: Cfg)
    requires before == Blank(par)
    ensures cfg == InitialCfg(ShortCadence, par)
  {
    hide GetSpill, SetDerived;
    cfg := SetDerived(before, ExpFlags, par.sExpFlags, 8);
    cfg := SetDerived(cfg, Fx, par.sFx, 32);
    cfg := SetDerived(cfg, Ncob, par.sNcob, 32);
    cfg := SetDerived(cfg, Efx, par.sEfx, 32);
    cfg := SetDerived(cfg, Ecob, par.sEcob, 32);
  }

  method InitLongCadence(before: Cfg, par: CmpPar) returns (cfg: Cfg)
    requires before == Blank(par)
    ensures cfg == InitialCfg(LongCadence, par)
  {
    hide GetSpill, SetDerived;
    cfg := SetDerived(before, ExpFlags, par.lExpFlags, 24);
    cfg := SetDerived(cfg, Fx, par.lFx, 32);
    cfg := SetDerived(cfg, Ncob, par.lNcob, 32);
    cfg := SetDerived(cfg, Efx, par.lEfx, 32);
    cfg := SetDerived(cfg, Ecob, par.lEcob, 32);
    cfg := SetDerived(cfg, FxCobVariance, par.lFxCobVariance, 32);
  }

  method InitOffsetBackground(before: Cfg, par: CmpPar) returns (cfg: Cfg)
    requires before == Blank(par)
    ensures cfg == InitialCfg(OffsetBackground, par)
  {
    hide GetSpill, SetDerived;
    cfg := SetDerived(before, OffsetMean, par.ncOffsetMean, 32);
    cfg := SetDerived(cfg, OffsetVariance, par.ncOffsetVariance, 32);
    cfg := SetDerived(cfg, BackgroundMean, par.ncBackgroundMean, 32);
    cfg := SetDerived(cfg, BackgroundVariance, par.ncBackgroundVariance, 32);
    cfg := SetDerived(cfg, BackgroundPixelsError, par.ncBackgroundOutlierPixels, 16);
  }

  method InitSmearing(before: Cfg, par: CmpPar) returns (cfg: Cfg)
    requires before == Blank(par)
    ensures cfg == InitialCfg(SmearingChunk, par)
  {
    hide GetSpill, SetDerived;
    cfg := SetDerived(before, SmearingMean, par.smearingMean, 32);
    cfg := SetDerived(cfg, SmearingVariance, par.smearingVarianceMean, 32);
    cfg := SetDerived(cfg, SmearingPixelsError, par.smearingOutlierPixels, 16);
  }

  method InitFChain(before: Cfg, par: CmpPar) returns (cfg: Cfg)
    requires before == Blank(par)
    ensures cfg == InitialCfg(FChain, par)
  {
    hide GetSpill, SetDerived;
    cfg := SetDerived(before, ImagettePar, par.fcImagette, 16);
    cfg := SetDerived(cfg, OffsetMean, par.fcOffsetMean, 32);
    cfg := SetDerived(cfg, OffsetVariance, par.fcOffsetVariance, 32);
    cfg := SetDerived(cfg, BackgroundMean, par.fcBackgroundMean, 32);
    cfg := SetDerived(cfg, BackgroundVariance, par.fcBackgroundVariance, 32);
    cfg := SetDerived(cfg, BackgroundPixelsError, par.fcBackgroundOutlierPixels, 16);
  }

  /** init_cmp_cfg_from_cmp_par: the assignments to named parameters fill the slots their
      owners have, and none destroys another one. */
  method InitCfg(ct: ChunkType, par: CmpPar) returns (cfg: Cfg)
    ensures cfg == InitialCfg(ct, par)
  {
    hide GetSpill, InitialCfg;
    cfg := Cfg(0, 0, 0, seq(6, i => Pair(0, 0)));
    cfg := cfg.(cmpMode := par.cmpMode, modelValue := par.modelValue, round := 0);
    assert cfg == Blank(par);
    match ct {
      case NcamImagette => cfg := InitNcamImagette(cfg, par);
      case SatImagetteChunk => cfg := InitSatImagette(cfg, par);
      case ShortCadence => cfg := InitShortCadence(cfg, par);
      case LongCadence => cfg := InitLongCadence(cfg, par);
      case OffsetBackground => cfg := InitOffsetBackground(cfg, par);
      case SmearingChunk => cfg := InitSmearing(cfg, par);
      case FChain => cfg := InitFChain(cfg, par);
      case UnknownChunk => BlankForUnknown(par);
    }
  }

  lemma BlankForUnknown(par: CmpPar)
    ensures Blank(par) == InitialCfg(UnknownChunk, par)
  {
  }

  /** Every parameter of a chunk type owns the slot it lives in: no two share one. */
  lemma ParameterOwnsSlot(par: CmpPar, ct: ChunkType, p: Param)
    requires par.For(ct, p).Some?
    ensures Owner(ct, Slot(p)) == Some(p)
  {
  }

  lemma EveryParameterIsConfigured(par: CmpPar, ct: ChunkType, p: Param)
    ensures Configured(InitialCfg(ct, par), par, ct, p)
  {
    hide GetSpill, Owner, CmpPar.For, Slot;
    if par.For(ct, p).Some? {
      ParameterOwnsSlot(par, ct, p);
    }
  }

  /** Derived thresholds fit the 24 bits the entity header has for them. */
  lemma InitialSpillsFit(ct: ChunkType, par: CmpPar, s: nat)
    requires s < 6
    ensures InitialCfg(ct, par).slots[s].spill <= 0xFF_FFFF
  {
    hide Owner, GetSpill, CmpPar.For;
    if Owner(ct, s).Some? && par.For(ct, Owner(ct, s).value).Some? {
      var (value, width) := par.For(ct, Owner(ct, s).value).value;
      WidthsArePositive(par, ct, Owner(ct, s).value);
      DerivedSpillIsValid(value, ZeroEscapeIsUsed(par.cmpMode), width);
    }
  }

  lemma WidthsArePositive(par: CmpPar, ct: ChunkType, p: Param)
    requires par.For(ct, p).Some?
    ensures par.For(ct, p).value.1 >= 1
  {
  }

  /** Every field of every data type of a chunk has a parameter of its own in the chunk's
      set of parameters, and that parameter's threshold is derived for the field's width. */
  lemma FieldsHaveParameters(subservice: nat, par: CmpPar, f: nat)
    requires !ChunkTypeOf(subservice).UnknownChunk? && f < |Layout(DataTypeOf(subservice))|
    ensures var field := Layout(DataTypeOf(subservice))[f];
            && par.For(ChunkTypeOf(subservice), field.param).Some?
            && par.For(ChunkTypeOf(subservice), field.param).value.1 == field.width
  {
  }

  /** Within a chunk type, different parameters have different slots. */
  lemma SlotsAreDistinct(par: CmpPar, ct: ChunkType, p: Param, q: Param)
    requires par.For(ct, p).Some? && par.For(ct, q).Some? && p != q
    ensures Slot(p) != Slot(q)
  {
  }

  /** A subservice has no chunk type exactly when it has no data type or a fast cadence one. */
  lemma ChunkTypesAreSupported(subservice: nat)
    ensures ChunkTypeOf(subservice).UnknownChunk?
            <==> DataTypeOf(subservice).Unknown? || IsFastCadence(DataTypeOf(subservice))
  {
  }

  // ----- the compression entity header, as a record of bounded fields

  const COLLECTION_HDR_SIZE := 12
  const CMP_COLLECTION_FIELD_SIZE := 2
  /** Of a collection in a chunk that is not raw: its length field and its header. */
  const FRAME_HDR_SIZE := CMP_COLLECTION_FIELD_SIZE + COLLECTION_HDR_SIZE
  const GENERIC_HEADER_SIZE := 32
  const NON_IMAGETTE_HEADER_SIZE := 64
  const CMP_ENTITY_MAX_SIZE := 0xFF_FFFF
  const CMP_ENTITY_MAX_ORIGINAL_SIZE := 0xFF_FFFF

  const MAX_TIMESTAMP := 0xFFFF_FFFF_FFFF

  datatype Header = Header(size: nat, originalSize: nat, rawBit: bool, cmpMode: nat, modelValue: nat, round: nat,
                           slots: seq<Pair>, clock: Clock)

  /** What the caller's clock returns when a compression starts and when it ends. */
  datatype Clock = Clock(start: nat, end: nat)
  {
    predicate Fit() {
      start <= MAX_TIMESTAMP && end <= MAX_TIMESTAMP
    }
  }

  function HeaderSize(cmpMode: nat): nat {
    if cmpMode == CMP_MODE_RAW then GENERIC_HEADER_SIZE else NON_IMAGETTE_HEADER_SIZE
  }

  /** What the setters of the header fields demand. */
  predicate HeaderFits(cfg: Cfg, chunkSize: nat, entSize: nat) {
    && entSize <= CMP_ENTITY_MAX_SIZE && chunkSize <= CMP_ENTITY_MAX_ORIGINAL_SIZE
    && cfg.cmpMode <= 0xFF && cfg.modelValue <= 0xFF && cfg.round <= 0xFFFF
    && (cfg.cmpMode != CMP_MODE_RAW ==>
          forall s :: 0 <= s < |cfg.slots| ==> cfg.slots[s].spill <= 0xFF_FFFF && cfg.slots[s].par <= 0xFFFF)
  }

  /** cmp_ent_build_chunk_header: all fields but the times are checked together. */
  function BuildHeader(cfg: Cfg, chunkSize: nat, entSize: nat, clock: Clock): (r: Result<Header>)
    requires cfg.WellFormed()
    ensures r.Ok? <==> HeaderFits(cfg, chunkSize, entSize) && clock.Fit()
    ensures r.Err? ==> r.error == if HeaderFits(cfg, chunkSize, entSize) then EntityTimestamp else EntityHeader
  {
    if !HeaderFits(cfg, chunkSize, entSize) then Err(EntityHeader)
    else if clock.start > MAX_TIMESTAMP then Err(EntityTimestamp)
    else if clock.end > MAX_TIMESTAMP then Err(EntityTimestamp)
    else
      Ok(Header(entSize, chunkSize, cfg.cmpMode == CMP_MODE_RAW, cfg.cmpMode, cfg.modelValue, cfg.round,
                if cfg.cmpMode == CMP_MODE_RAW then seq(6, i => Pair(0, 0)) else cfg.slots, clock))
  }

  /** Bytes of compressed data behind the header. */
  function DataSize(h: Header): nat {
    var headerSize := if h.rawBit then GENERIC_HEADER_SIZE else NON_IMAGETTE_HEADER_SIZE;
    if headerSize > h.size then 0 else h.size - headerSize
  }

  /** cmp_ent_read_header for a chunk entity: the configuration and the size of the compressed data. */
  function ReadHeader(h: Header): (r: Option<(Cfg, nat)>)
    ensures r.Some? ==>
              r.value.0 == Cfg(h.cmpMode, h.modelValue, h.round, r.value.0.slots) && !r.value.0.GenParIsInvalid()
    ensures r.Some? && h.cmpMode != CMP_MODE_RAW ==> r.value.0.slots == h.slots
    ensures r.Some? ==> r.value.1 == DataSize(h) && (h.cmpMode == CMP_MODE_RAW ==> h.originalSize == DataSize(h))
  {
    var dataSize := DataSize(h);
    var cfg := Cfg(h.cmpMode, h.modelValue, h.round, []);
    if h.rawBit != (h.cmpMode == CMP_MODE_RAW) then None
    else if cfg.GenParIsInvalid() then None
    else if dataSize < FRAME_HDR_SIZE && h.cmpMode != CMP_MODE_RAW then None
    else if dataSize < COLLECTION_HDR_SIZE && h.cmpMode == CMP_MODE_RAW then None
    else if h.originalSize < COLLECTION_HDR_SIZE then None
    else if h.cmpMode == CMP_MODE_RAW then if h.originalSize != dataSize then None else Some((cfg, dataSize))
    else Some((cfg.(slots := h.slots), dataSize))
  }

  /** What one half configured is what the other half reads, pair by pair. */
  lemma HeaderKeepsConfiguration(cfg: Cfg, chunkSize: nat, entSize: nat, clock: Clock)
    requires cfg.WellFormed() && cfg.cmpMode != CMP_MODE_RAW && !cfg.GenParIsInvalid()
    requires BuildHeader(cfg, chunkSize, entSize, clock).Ok?
    requires chunkSize >= COLLECTION_HDR_SIZE
    requires entSize >= NON_IMAGETTE_HEADER_SIZE + FRAME_HDR_SIZE
    ensures ReadHeader(BuildHeader(cfg, chunkSize, entSize, clock).value)
            == Some((cfg, entSize - NON_IMAGETTE_HEADER_SIZE))
  {
  }

  /** Through the header, every field of every collection of the chunk is decoded with exactly
      the caller's parameter and the threshold derived from it for the field's width. */
  lemma SlotsSurviveHeader(cfg: Cfg, par: CmpPar, subservice: nat, chunkSize: nat, entSize: nat, clock: Clock, f: nat)
    requires cfg == InitialCfg(ChunkTypeOf(subservice), par)
    requires cfg.cmpMode != CMP_MODE_RAW && !cfg.GenParIsInvalid()
    requires BuildHeader(cfg, chunkSize, entSize, clock).Ok?
    requires chunkSize >= COLLECTION_HDR_SIZE
    requires entSize >= NON_IMAGETTE_HEADER_SIZE + FRAME_HDR_SIZE
    requires !ChunkTypeOf(subservice).UnknownChunk? && f < |Layout(DataTypeOf(subservice))|
    ensures var dt := DataTypeOf(subservice);
            var read := ReadHeader(BuildHeader(cfg, chunkSize, entSize, clock).value);
            && read.Some? && read.value.0.WellFormed()
            && read.value.0.Loop(dt) == cfg.Loop(dt)
            && par.For(ChunkTypeOf(subservice), Layout(dt)[f].param).Some?
            && var su, (value, width) :=
                 read.value.0.Loop(dt).setups[f], par.For(ChunkTypeOf(subservice), Layout(dt)[f].param).value;
               su.par == value && su.spill == GetSpill(value, su.zeroEscape, width) && su.width == width
  {
    hide GetSpill, BuildHeader, ReadHeader, CmpPar.For, Layout, DataTypeOf, ChunkTypeOf, SlotPair;
    HeaderKeepsConfiguration(cfg, chunkSize, entSize, clock);
    FieldsHaveParameters(subservice, par, f);
    EveryParameterIsConfigured(par, ChunkTypeOf(subservice), Layout(DataTypeOf(subservice))[f].param);
  }

  /** A header of a chunk entity is read exactly if its mode is one of the five and agrees with the raw bit,
      model value and rounding are in range, and original and compressed size can be those of a chunk. */
  lemma HeaderIsReadIff(h: Header)
    ensures ReadHeader(h).Some?
            <==> && h.cmpMode <= 4 && (h.rawBit <==> h.cmpMode == 0) && h.round <= 3
                 && (h.cmpMode in {1, 3} ==> h.modelValue <= 16) && h.originalSize >= 12
                 && if h.rawBit then h.size == h.originalSize + 32 else h.size >= 64 + 2 + 12
  {
  }
}
