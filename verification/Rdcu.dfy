/** compress_like_rdcu and decompress_rdcu_data. */
module Rdcu {
  // Imagettes, with lossy rounding and without a header.

  import opened BitStrings
  import opened Results
  import opened Golomb
  import opened Spill
  import opened Values
  import opened Streams
  import opened Memory
  import opened BitWriter
  import opened DataTypes
  import opened Config
  import opened Chunks
  import opened Entities
  import opened Compressor
  import opened Decompressor

  datatype RdcuCfg = RdcuCfg(cmpMode: nat, modelValue: nat, round: nat, golombPar: nat, spill: nat,
                             ap1GolombPar: nat, ap1Spill: nat, ap2GolombPar: nat, ap2Spill: nat,
                             samples: nat, bufferLength: nat)

  datatype Info = Info(cmpMode: nat, modelValue: nat, round: nat, spill: nat, golombPar: nat, samples: nat,
                       cmpSize: nat, ap1CmpSize: nat, ap2CmpSize: nat, smallBufferErr: bool)

  /** The configuration of an imagette compression with the given parameter pair. */
  function ImagetteCfg(cmpMode: nat, modelValue: nat, round: nat, par: nat, spill: nat): (c: Cfg)
    ensures c.WellFormed()
  {
    Cfg(cmpMode, modelValue, round, [Pair(par, spill)] + seq(5, i => Pair(0, 0)))
  }

  /** cmp_cfg_icu_is_invalid_error_code for imagettes. */
  function ImagetteError(cfg: Cfg, hasModel: bool): (e: Option<Error>)
    requires cfg.WellFormed()
  {
    if cfg.GenParIsInvalid() then Some(ParGeneric)
    else if cfg.SpecificIsInvalid(Imagette) then Some(ParSpecific)
    else if ModelModeIsUsed(cfg.cmpMode) && !hasModel then Some(ParNoModel)
    else None
  }

  lemma ImagetteBits(cfg: Cfg, n: nat)
    requires cfg.WellFormed()
    ensures SampleBits(cfg.Loop(Imagette).setups) == 16 && Times(n, 16) == 16 * n
  {
    SampleBitsAre(cfg, Imagette);
    SampleSizeIsLayout(Imagette);
    TimesIsProduct(n, 16);
  }

  lemma ImagettesAreCodable(cfg: Cfg, input: Bits, model: Bits, n: nat)
    requires cfg.WellFormed() && |input| == 16 * n && (ModelModeIsUsed(cfg.cmpMode) ==> |model| == |input|)
    requires !cfg.GenParIsInvalid() && !cfg.SpecificIsInvalid(Imagette) && cfg.cmpMode != CMP_MODE_RAW
    ensures Codable(input, model, n, cfg.Loop(Imagette))
  {
    ChecksAreExact(cfg, Imagette);
    ImagetteBits(cfg, n);
  }

  /** The bits a configuration compresses the samples to. */
  function CompressedBits(cfg: Cfg, input: Bits, model: Bits, n: nat): Bits
    requires cfg.WellFormed() && |input| == 16 * n && (ModelModeIsUsed(cfg.cmpMode) ==> |model| == |input|)
    requires !cfg.GenParIsInvalid() && !cfg.SpecificIsInvalid(Imagette)
  {
    if cfg.cmpMode == CMP_MODE_RAW then input
    else
      ImagettesAreCodable(cfg, input, model, n);
      Stream(input, model, n, cfg.Loop(Imagette))
  }

  /** What is left in the destination. */
  predicate RdcuPut(noBuffer: bool, before: Bits, after: Bits, bits: Bits, raw: bool, size: nat, r: Result<nat>) {
    if noBuffer then r == Ok(|bits|) && after == before
    else if |bits| <= (if raw then 8 * size else SizeToBits(size)) then
      && r == Ok(|bits|)
      && Written(before, after, 0, bits + if raw then [] else Zeros(WordPad(|bits|)))
    else r == Err(SmallBuffer)
  }

  /** What is left in the buffer of the updated model. */
  predicate RdcuUpdate(before: Bits, after: Bits, cfg: Cfg, input: Bits, model: Bits, n: nat, ok: bool)
    requires cfg.WellFormed() && |input| == 16 * n && (ModelModeIsUsed(cfg.cmpMode) ==> |model| == |input|)
    requires !cfg.GenParIsInvalid() && !cfg.SpecificIsInvalid(Imagette)
  {
    if !ModelModeIsUsed(cfg.cmpMode) then after == before
    else
      ImagettesAreCodable(cfg, input, model, n);
      LoopUpdated(before, after, 0, input, model, n, cfg.Loop(Imagette), ok)
  }

  /** compress_data_internal for imagettes from the start of the destination. */
  method CompressImagettes(cfg: Cfg, input: Bits, n: nat, model: array?<bool>, updated: array?<bool>, dst: array?<bool>,
                           size: nat)
    returns (r: Result<nat>)
    requires cfg.WellFormed() && |input| == 16 * n
    requires model != null ==> model.Length >= |input|
    requires updated != null ==> updated.Length >= |input|
    requires ImagetteError(cfg, model != null).None?
    requires dst != null ==> dst != model && dst != updated && 8 * size <= dst.Length
    modifies dst, updated
    ensures RdcuPut(dst == null, old(Content(dst)), Content(dst),
                    CompressedBits(cfg, input, old(ModelSlice(model, 0, |input|)), n),
                    cfg.cmpMode == CMP_MODE_RAW, size, r)
    ensures updated != null ==>
              RdcuUpdate(old(updated[..]), updated[..], cfg, input, old(ModelSlice(model, 0, |input|)), n, r.Ok?)
  {
    hide Stream, StreamBits, Codable, Layout, SampleBits, Times, Cfg.SpecificIsInvalid, Written;
    ghost var m := ModelSlice(model, 0, |input|);
    if cfg.cmpMode == CMP_MODE_RAW {
      r := CompressRaw(input, dst, size, 0);
      assert input + [] == input;
      return;
    }
    ImagettesAreCodable(cfg, input, m, n);
    if n == 0 {
      NothingToDo(Content(dst), Content(updated), cfg, input, m);
      return Ok(0);
    }
    r := CompressStream(input, n, cfg.Loop(Imagette), model, updated, 0, dst, size, 0);
  }

  lemma NothingToDo(dst: Bits, up: Bits, cfg: Cfg, input: Bits, model: Bits)
    requires cfg.WellFormed() && Codable(input, model, 0, cfg.Loop(Imagette)) && input == []
    ensures Stream(input, model, 0, cfg.Loop(Imagette)) == []
    ensures Written(dst, dst, 0, [] + Zeros(WordPad(0)))
    ensures LoopUpdated(up, up, 0, input, model, 0, cfg.Loop(Imagette), true)
  {
    assert [] + Zeros(WordPad(0)) == [];
    NothingDecoded(dst);
    NothingDecoded(up);
  }

  const MAX_SAFE_SAMPLES := 0x3FF_FFF8

  /** The writer does not check its 32-bit lengths for overflow; up to this many samples, stream and
      padding cannot overflow, and no length is taken for an error code. */
  lemma NoLengthWraps(cfg: Cfg, input: Bits, model: Bits, n: nat)
    requires cfg.WellFormed() && |input| == 16 * n && (ModelModeIsUsed(cfg.cmpMode) ==> |model| == |input|)
    requires !cfg.GenParIsInvalid() && !cfg.SpecificIsInvalid(Imagette)
    requires n <= MAX_SAFE_SAMPLES
    ensures |CompressedBits(cfg, input, model, n)| + 32 < TWO_32 - 0x100
  {
    hide StreamBits, RecordsOf, SampleBits, Times, Cfg.SpecificIsInvalid;
    if cfg.cmpMode != CMP_MODE_RAW {
      ImagettesAreCodable(cfg, input, model, n);
      var loop := cfg.Loop(Imagette);
      var (recs, models) := Records(input, model, n, loop);
      StreamBitsBound(recs, models, loop, 0);
      TimesIsProduct(n, 64);
    }
  }

  /** The size another parameter pair would compress to; 0 when it is not used or not valid. */
  function AdaptiveBits(rcfg: RdcuCfg, par: nat, spill: nat, input: Bits, model: Bits, hasModel: bool): nat
    requires |input| == 16 * rcfg.samples && (hasModel ==> |model| == |input|)
  {
    var cfg := ImagetteCfg(rcfg.cmpMode, rcfg.modelValue, rcfg.round, par, spill);
    if par != 0 && ImagetteError(cfg, hasModel).None? then |CompressedBits(cfg, input, model, rcfg.samples)| else 0
  }

  method AdaptiveSize(rcfg: RdcuCfg, par: nat, spill: nat, input: Bits, model: array?<bool>) returns (size: nat)
    requires |input| == 16 * rcfg.samples && (model != null ==> model.Length >= |input|)
    ensures size == AdaptiveBits(rcfg, par, spill, input, ModelSlice(model, 0, |input|), model != null)
  {
    hide CompressedBits, ImagetteCfg;
    var cfg := ImagetteCfg(rcfg.cmpMode, rcfg.modelValue, rcfg.round, par, spill);
    size := 0;
    if par != 0 && ImagetteError(cfg, model != null).None? {
      var r := CompressImagettes(cfg, input, rcfg.samples, model, null, null, 2 * rcfg.bufferLength);
      size := r.value;
    }
  }

  function MainCfg(rcfg: RdcuCfg): (c: Cfg)
    ensures c.WellFormed()
  {
    ImagetteCfg(rcfg.cmpMode, rcfg.modelValue, rcfg.round, rcfg.golombPar, rcfg.spill)
  }

  /** An adaptive size is the size compress_like_rdcu reports, without a destination, when the adaptive
      pair is the main one; it is 0 if there is no such pair or that run fails. */
  lemma AdaptiveIsMain(rcfg: RdcuCfg, par: nat, spill: nat, input: Bits, model: Bits, hasModel: bool, buffer: Bits,
                       r: Result<nat>)
    requires |input| == 16 * rcfg.samples && (hasModel ==> |model| == |input|)
    requires var cfg := MainCfg(rcfg.(golombPar := par, spill := spill));
             if ImagetteError(cfg, hasModel).Some? then r == Err(ImagetteError(cfg, hasModel).value)
             else RdcuPut(true, buffer, buffer, CompressedBits(cfg, input, model, rcfg.samples),
                          rcfg.cmpMode == CMP_MODE_RAW, 2 * rcfg.bufferLength, r)
    ensures AdaptiveBits(rcfg, par, spill, input, model, hasModel) == if par != 0 && r.Ok? then r.value else 0
  {
    hide CompressedBits, Cfg.SpecificIsInvalid, Cfg.GenParIsInvalid;
  }

  /** compress_like_rdcu: the metadata tell the decoder all it needs. */
  method CompressLikeRdcu(rcfg: RdcuCfg, input: Bits, model: array?<bool>, updated: array?<bool>, dst: array?<bool>)
    returns (r: Result<nat>, info: Info)
    requires |input| == 16 * rcfg.samples
    requires model != null ==> model.Length >= |input|
    requires updated != null ==> updated.Length >= |input|
    requires dst != null ==> dst != model && dst != updated && 16 * rcfg.bufferLength <= dst.Length
    modifies dst, updated
    ensures var cfg := MainCfg(rcfg);
            if ImagetteError(cfg, model != null).Some? then
              && r == Err(ImagetteError(cfg, model != null).value)
              && Content(dst) == old(Content(dst)) && Content(updated) == old(Content(updated))
            else
              && RdcuPut(dst == null, old(Content(dst)), Content(dst),
                         CompressedBits(cfg, input, old(ModelSlice(model, 0, |input|)), rcfg.samples),
                         cfg.cmpMode == CMP_MODE_RAW, 2 * rcfg.bufferLength, r)
              && (updated != null ==>
                    RdcuUpdate(old(updated[..]), updated[..], cfg, input, old(ModelSlice(model, 0, |input|)),
                               rcfg.samples, r.Ok?))
    ensures r.Ok? ==> InfoDescribes(info, rcfg, r)
    ensures r.Err? ==> info.cmpSize == 0 && (info.smallBufferErr <==> r == Err(SmallBuffer))
    ensures var m := old(ModelSlice(model, 0, |input|));
            if r == Err(SmallBuffer) then info.ap1CmpSize == info.ap2CmpSize == 0
            else
              && info.ap1CmpSize == AdaptiveBits(rcfg, rcfg.ap1GolombPar, rcfg.ap1Spill, input, m, model != null)
              && info.ap2CmpSize == AdaptiveBits(rcfg, rcfg.ap2GolombPar, rcfg.ap2Spill, input, m, model != null)
  {
    hide CompressedBits, RdcuUpdate, ImagetteCfg, Low, Written, AdaptiveBits;
    var ap1 := AdaptiveSize(rcfg, rcfg.ap1GolombPar, rcfg.ap1Spill, input, model);
    var ap2 := AdaptiveSize(rcfg, rcfg.ap2GolombPar, rcfg.ap2Spill, input, model);
    RoundFits(rcfg);
    info := Info(rcfg.cmpMode, Low(rcfg.modelValue, 8), Low(rcfg.round, 8), rcfg.spill, rcfg.golombPar, rcfg.samples, 0,
                 ap1, ap2, false);
    var cfg := MainCfg(rcfg);
    var error := ImagetteError(cfg, model != null);
    if error.Some? {
      return Err(error.value), info;
    }
    r := CompressImagettes(cfg, input, rcfg.samples, model, updated, dst, 2 * rcfg.bufferLength);
    if r.Err? {
      info := info.(cmpSize := 0, ap1CmpSize := 0, ap2CmpSize := 0, smallBufferErr := r == Err(SmallBuffer));
    } else {
      info := info.(cmpSize := r.value);
    }
  }

  lemma RoundFits(rcfg: RdcuCfg)
    ensures !MainCfg(rcfg).GenParIsInvalid() ==> Low(rcfg.round, 8) == rcfg.round
  {
    if rcfg.round <= MAX_ICU_ROUND {
      Pow2Values();
      LowSmall(rcfg.round, 8);
    }
  }

  // ----- decoding

  function InfoCfg(info: Info): (c: Cfg)
    ensures c.WellFormed()
  {
    ImagetteCfg(info.cmpMode, info.modelValue, info.round, info.golombPar, info.spill)
  }

  /** The bits decompress_rdcu_data reads. */
  function NeededBits(info: Info): nat {
    if info.cmpMode == CMP_MODE_RAW then 16 * info.samples else (info.cmpSize + 7) / 8 * 8
  }

  /** What decompress_rdcu_data makes of a compressed imagette. In a model mode it reads one model
      even if there are no samples. */
  function DecodeRdcu(info: Info, compressed: Bits, model: Bits, hasModel: bool): Option<Data>
    requires |compressed| >= NeededBits(info)
    requires ModelModeIsUsed(info.cmpMode) && hasModel ==> |model| == 16 * AtLeastOne(info.samples)
  {
    var cfg := InfoCfg(info);
    if info.smallBufferErr || ImagetteError(cfg, hasModel).Some? then None
    else if info.cmpMode == CMP_MODE_RAW then Some(Data(compressed[..16 * info.samples], []))
    else
      InfoIsSound(info, hasModel);
      DecodePayload(compressed[..NeededBits(info)], model, info.samples, cfg.Loop(Imagette))
  }

  lemma InfoIsSound(info: Info, hasModel: bool)
    requires ImagetteError(InfoCfg(info), hasModel).None? && info.cmpMode != CMP_MODE_RAW
    ensures InfoCfg(info).Loop(Imagette).Valid() && SampleBits(InfoCfg(info).Loop(Imagette).setups) == 16
    ensures Times(info.samples, 16) == 16 * info.samples
    ensures Times(AtLeastOne(info.samples), 16) == 16 * AtLeastOne(info.samples)
    ensures NeededBits(info) % 8 == 0
  {
    hide Layout, IcuMaxSpill;
    ChecksAreExact(InfoCfg(info), Imagette);
    ImagetteBits(InfoCfg(info), info.samples);
    ImagetteBits(InfoCfg(info), AtLeastOne(info.samples));
  }

  /** Nothing is decoded that there is no room for. */
  predicate RoomForAll(info: Info, compressed: Bits, model: Bits, hasModel: bool)
    requires |compressed| >= NeededBits(info)
    requires ModelModeIsUsed(info.cmpMode) && hasModel ==> |model| == 16 * AtLeastOne(info.samples)
  {
    if ImagetteError(InfoCfg(info), hasModel).Some? || info.cmpMode == CMP_MODE_RAW then true
    else
      InfoIsSound(info, hasModel);
      NoneBeyond(compressed[..NeededBits(info)], model, info.samples, InfoCfg(info).Loop(Imagette))
  }

  /** decompress_rdcu_data. */
  method DecompressRdcu(info: Info, compressed: Bits, model: array?<bool>, updated: array?<bool>, dst: array<bool>)
    returns (r: Option<nat>)
    requires info.samples < TWO_32 && |compressed| >= NeededBits(info)
    requires model != null ==> model.Length >= 16 * AtLeastOne(info.samples)
    requires updated != null ==> updated.Length >= 16 * info.samples
    requires dst.Length >= 16 * info.samples && dst != model && dst != updated
    requires RoomForAll(info, compressed, ModelSlice(model, 0, 16 * AtLeastOne(info.samples)), model != null)
    modifies dst, updated
    ensures var spec := DecodeRdcu(info, compressed, old(ModelSlice(model, 0, 16 * AtLeastOne(info.samples))),
                                   model != null);
            && (r.Some? <==> spec.Some?)
            && (r.Some? ==>
                  && r.value == 2 * info.samples && Written(old(dst[..]), dst[..], 0, spec.value.data)
                  && (updated != null && ModelModeIsUsed(info.cmpMode) ==>
                        Written(old(updated[..]), updated[..], 0, spec.value.up)))
    ensures updated != null && !ModelModeIsUsed(info.cmpMode) ==> updated[..] == old(updated[..])
  {
    hide DecodePayload, Written, Spoiled, SampleBits, Times, Layout, IcuMaxSpill, ImagetteCfg, NoneBeyond, NeededBits;
    var cfg := InfoCfg(info);
    CfgModes(info);
    if info.smallBufferErr || ImagetteError(cfg, model != null).Some? {
      return None;
    }
    if info.cmpMode == CMP_MODE_RAW {
      RawNeeds(info);
      StoreBits(dst, 0, compressed[..16 * info.samples]);
      return Some(2 * info.samples);
    }
    InfoIsSound(info, model != null);
    var upModelBuf: array?<bool> := if ModelModeIsUsed(info.cmpMode) then updated else null;
    var err := DecompressPayload(compressed[..NeededBits(info)], info.samples, cfg.Loop(Imagette), model, upModelBuf,
                                 dst, 0);
    return if err then None else Some(2 * info.samples);
  }

  lemma RawNeeds(info: Info)
    requires info.cmpMode == CMP_MODE_RAW
    ensures NeededBits(info) == 16 * info.samples
  {
  }

  lemma CfgModes(info: Info)
    ensures InfoCfg(info).cmpMode == info.cmpMode
  {
  }

  // ----- the lossy round trip

  /** The data with every sample's low bits cleared: (x >> round) << round. */
  function RoundedData(data: Bits, n: nat, loop: LoopCfg): Bits
    requires loop.Valid() && |data| == Times(n, SampleBits(loop.setups))
  {
    RoundedAllFit(RecordsOf(data, n, loop.setups), loop.setups);
    BitsOfAll(RoundedRecords(RecordsOf(data, n, loop.setups), loop.setups), loop.setups)
  }

  /** The updated model the encoder computes from the exact data. */
  function EncoderModel(data: Bits, model: Bits, n: nat, loop: LoopCfg): Bits
    requires Codable(data, model, n, loop)
  {
    var (recs, models) := Records(data, model, n, loop);
    if loop.modelMode then BitsOfAll(UpRecords(recs, models, loop), loop.setups) else []
  }

  /** The decoder returns the rounded data and computes the encoder's updated model, although the
      encoder predicts from unrounded neighbours and updates from the exact data. */
  lemma LossyRoundTrip(data: Bits, model: Bits, n: nat, loop: LoopCfg, pad: Bits)
    requires Codable(data, model, n, loop) && n >= 1
    ensures DecodePayload(Stream(data, model, n, loop) + pad, model, n, loop)
            == Some(Data(RoundedData(data, n, loop), EncoderModel(data, model, n, loop)))
  {
    hide StreamBits, DecodeStream, RoundedRecords, RecordsOf, BitsOfAll, UpRecords, RecordFits, SampleBits, Times;
    var (recs, models) := Records(data, model, n, loop);
    StreamRoundTrip(recs, models, loop, 0, pad);
    assert RoundedRecords(recs, loop.setups)[..0] == [];
    RoundedAllFit(recs, loop.setups);
    if loop.modelMode {
      UpRecordsOfRounded(recs, models, loop);
    }
  }

  /** Whatever proper beginning of the compressed stream is decoded, an error is reported. */
  lemma TruncationIsRejected(data: Bits, model: Bits, n: nat, loop: LoopCfg, s: Bits, t: Bits)
    requires Codable(data, model, n, loop) && n >= 1 && t != [] && s + t == Stream(data, model, n, loop)
    ensures DecodePayload(s, model, n, loop) == None
  {
    hide StreamBits, DecodeStream, RoundedRecords, RecordsOf, RecordFits, SampleBits, Times;
    var (recs, models) := Records(data, model, n, loop);
    assert RoundedRecords(recs, loop.setups)[..0] == [];
    CutStream(s, t, recs, models, loop, 0);
  }

  /** Cutting the compressed data to k bytes that hold less than the stream is noticed. */
  lemma MissingBytesAreNoticed(data: Bits, model: Bits, n: nat, loop: LoopCfg, pad: Bits, k: nat)
    requires Codable(data, model, n, loop) && n >= 1 && 8 * k < |Stream(data, model, n, loop)|
    ensures DecodePayload((Stream(data, model, n, loop) + pad)[..8 * k], model, n, loop) == None
  {
    hide Stream, DecodePayload, Codable;
    var s := Stream(data, model, n, loop);
    assert (s + pad)[..8 * k] == s[..8 * k] && s == s[..8 * k] + s[8 * k..];
    TruncationIsRejected(data, model, n, loop, s[..8 * k], s[8 * k..]);
  }

  /** The metadata a successful compression of cfg describes itself with. */
  predicate InfoDescribes(info: Info, rcfg: RdcuCfg, r: Result<nat>) {
    && r.Ok? && info.cmpMode == rcfg.cmpMode && info.round == rcfg.round && info.spill == rcfg.spill
    && info.golombPar == rcfg.golombPar && info.samples == rcfg.samples
    && info.modelValue == Low(rcfg.modelValue, 8) && info.cmpSize == r.value && !info.smallBufferErr
  }

  /** Only in the model modes does the model value matter, and there it fits its field. */
  lemma InfoKeepsCfg(info: Info, rcfg: RdcuCfg, r: Result<nat>, hasModel: bool)
    requires InfoDescribes(info, rcfg, r) && ImagetteError(MainCfg(rcfg), hasModel).None?
    ensures ImagetteError(InfoCfg(info), hasModel).None?
    ensures InfoCfg(info).Loop(Imagette).setups == MainCfg(rcfg).Loop(Imagette).setups
    ensures ModelModeIsUsed(rcfg.cmpMode) ==> InfoCfg(info).Loop(Imagette) == MainCfg(rcfg).Loop(Imagette)
  {
    hide Low, Layout, IcuMaxSpill;
    SmallModelValue(rcfg);
    var a, b := InfoCfg(info), MainCfg(rcfg);
    assert a.slots == b.slots && a.cmpMode == b.cmpMode;
    assert forall i :: 0 <= i < |NeededPars(Imagette)| ==>
        a.ParsAreInvalid(NeededPars(Imagette)[i]) == b.ParsAreInvalid(NeededPars(Imagette)[i]);
  }

  lemma SmallModelValue(rcfg: RdcuCfg)
    ensures rcfg.modelValue <= MAX_MODEL_VALUE ==> Low(rcfg.modelValue, 8) == rcfg.modelValue
  {
    if rcfg.modelValue <= MAX_MODEL_VALUE {
      Pow2Values();
      LowSmall(rcfg.modelValue, 8);
    }
  }

  /** In the other modes the decoder ignores model value and model. */
  lemma DecodeIgnoresModelValue(payload: Bits, model: Bits, n: nat, a: LoopCfg, b: LoopCfg)
    requires a.Valid() && b.Valid() && n > 0 && a.setups == b.setups && a.modelMode == b.modelMode
    requires a.modelMode ==> a == b && |model| == Times(n, SampleBits(a.setups))
    ensures DecodePayload(payload, model, n, a) == DecodePayload(payload, model, n, b)
  {
    hide DecodeRecord, DecodeStream, RecordsOf, BitsOfAll, SampleBits, Times;
    if !a.modelMode {
      SameStream(payload, n - 1, a, b, []);
    }
  }

  lemma {:induction false} SameStream(s: Bits, last: nat, a: LoopCfg, b: LoopCfg, decoded: seq<Record>)
    requires a.Valid() && b.Valid() && a.setups == b.setups && !a.modelMode && !b.modelMode && |decoded| <= last
    requires forall i :: 0 <= i < |decoded| ==> |decoded[i]| == |a.setups|
    ensures DecodeStream(s, last, [], a, decoded) == DecodeStream(s, last, [], b, decoded)
    decreases last - |decoded|
  {
    hide DecodeRecord;
    var r := DecodeRecord(s, ModelOf(decoded, [], a, |decoded|), a.setups, []);
    assert ModelOf(decoded, [], a, |decoded|) == ModelOf(decoded, [], b, |decoded|);
    if r.DecodedRecord? && |decoded| < last {
      SameStream(r.rest, last, a, b, decoded + [r.rec]);
    }
  }

  /** What decompress_rdcu_data returns for what compress_like_rdcu left in the destination, however
      tight it is: in raw mode the data, otherwise the rounded data and the updated model of the encoder. */
  lemma RdcuRoundTrip(rcfg: RdcuCfg, input: Bits, model: Bits, hasModel: bool, before: Bits, after: Bits,
                      r: Result<nat>, info: Info)
    requires |input| == 16 * rcfg.samples && (rcfg.samples >= 1 || rcfg.cmpMode == CMP_MODE_RAW)
    requires hasModel ==> |model| == |input|
    requires ImagetteError(MainCfg(rcfg), hasModel).None? && InfoDescribes(info, rcfg, r)
    requires RdcuPut(false, before, after, CompressedBits(MainCfg(rcfg), input, model, rcfg.samples),
                     rcfg.cmpMode == CMP_MODE_RAW, 2 * rcfg.bufferLength, r)
    ensures |after| >= NeededBits(info)
    ensures rcfg.cmpMode == CMP_MODE_RAW ==> DecodeRdcu(info, after, model, hasModel) == Some(Data(input, []))
    ensures rcfg.cmpMode != CMP_MODE_RAW ==>
              && Codable(input, model, rcfg.samples, MainCfg(rcfg).Loop(Imagette))
              && DecodeRdcu(info, after, model, hasModel)
                 == Some(Data(RoundedData(input, rcfg.samples, MainCfg(rcfg).Loop(Imagette)),
                              EncoderModel(input, model, rcfg.samples, MainCfg(rcfg).Loop(Imagette))))
  {
    hide Stream, Layout, IcuMaxSpill, DecodePayload, Low, RoundedData, EncoderModel, Codable, Cfg.SpecificIsInvalid,
      Cfg.GenParIsInvalid;
    var cfg, n := MainCfg(rcfg), rcfg.samples;
    InfoKeepsCfg(info, rcfg, r, hasModel);
    if rcfg.cmpMode == CMP_MODE_RAW {
      assert after[..16 * n] == input;
    } else {
      ImagettesAreCodable(cfg, input, model, n);
      var loop, s := cfg.Loop(Imagette), Stream(input, model, n, cfg.Loop(Imagette));
      var bytes := (|s| + 7) / 8 * 8;
      BytesInWord(|s|);
      BytesOfStream(before, after, s, bytes);
      LossyRoundTrip(input, model, n, loop, Zeros(bytes - |s|));
      SameDecoding(after[..bytes], model, info, rcfg, r, hasModel);
    }
  }

  /** Compression and decompression one after the other succeed exactly in raw mode or if there is a
      sample: the stream of no samples is empty, and the loop, which looks for a first sample, rejects
      it. Only the first model is read then, if any. */
  lemma RoundTripNeedsASample(rcfg: RdcuCfg, input: Bits, model: Bits, hasModel: bool, before: Bits, after: Bits,
                              r: Result<nat>, info: Info)
    requires |input| == 16 * rcfg.samples
    requires if hasModel then |model| == 16 * AtLeastOne(rcfg.samples) else model == []
    requires ImagetteError(MainCfg(rcfg), hasModel).None? && InfoDescribes(info, rcfg, r)
    requires var m := if hasModel then model[..|input|] else [];
             RdcuPut(false, before, after, CompressedBits(MainCfg(rcfg), input, m, rcfg.samples),
                     rcfg.cmpMode == CMP_MODE_RAW, 2 * rcfg.bufferLength, r)
    ensures |after| >= NeededBits(info) && RoomForAll(info, after, model, hasModel)
    ensures DecodeRdcu(info, after, model, hasModel).Some? <==> rcfg.cmpMode == CMP_MODE_RAW || rcfg.samples >= 1
  {
    hide Stream, Layout, IcuMaxSpill, DecodePayload, Low, RoundedData, EncoderModel, Cfg.SpecificIsInvalid,
      Cfg.GenParIsInvalid, DecodeSamples, ModelRecords;
    var m := if hasModel then model[..|input|] else [];
    InfoKeepsCfg(info, rcfg, r, hasModel);
    if rcfg.samples >= 1 || rcfg.cmpMode == CMP_MODE_RAW {
      RdcuRoundTrip(rcfg, input, m, hasModel, before, after, r, info);
      assert hasModel && rcfg.samples >= 1 ==> m == model;
    } else {
      NothingIsRejected(rcfg, input, m, model, after, info, r, hasModel);
    }
  }

  lemma SameDecoding(payload: Bits, model: Bits, info: Info, rcfg: RdcuCfg, r: Result<nat>, hasModel: bool)
    requires ImagetteError(MainCfg(rcfg), hasModel).None? && InfoDescribes(info, rcfg, r)
    requires rcfg.cmpMode != CMP_MODE_RAW
    requires rcfg.samples >= 1 && (hasModel ==> |model| == 16 * rcfg.samples)
    ensures MainCfg(rcfg).Loop(Imagette).Valid() && InfoCfg(info).Loop(Imagette).Valid()
    ensures ModelModeIsUsed(rcfg.cmpMode) ==>
              && |model| == Times(rcfg.samples, SampleBits(MainCfg(rcfg).Loop(Imagette).setups))
              && |model| == Times(rcfg.samples, SampleBits(InfoCfg(info).Loop(Imagette).setups))
    ensures DecodePayload(payload, model, rcfg.samples, InfoCfg(info).Loop(Imagette))
            == DecodePayload(payload, model, rcfg.samples, MainCfg(rcfg).Loop(Imagette))
  {
    hide DecodePayload, Layout, Low, IcuMaxSpill, Cfg.SpecificIsInvalid, SampleBits, Times;
    InfoKeepsCfg(info, rcfg, r, hasModel);
    ChecksAreExact(MainCfg(rcfg), Imagette);
    ChecksAreExact(InfoCfg(info), Imagette);
    ImagetteBits(MainCfg(rcfg), rcfg.samples);
    ImagetteBits(InfoCfg(info), rcfg.samples);
    DecodeIgnoresModelValue(payload, model, rcfg.samples, InfoCfg(info).Loop(Imagette), MainCfg(rcfg).Loop(Imagette));
  }

  /** The bytes of the stream hold the stream and zeros. */
  lemma BytesOfStream(before: Bits, after: Bits, s: Bits, bytes: nat)
    requires Written(before, after, 0, s + Zeros(WordPad(|s|))) && bytes == (|s| + 7) / 8 * 8 && bytes <= |after|
    ensures bytes >= |s| && after[..bytes] == s + Zeros(bytes - |s|)
  {
    var pad := WordPad(|s|);
    BytesInWord(|s|);
    assert after[..|s| + pad] == s + Zeros(pad);
    assert after[..bytes] == (s + Zeros(pad))[..bytes];
  }

  lemma BytesInWord(n: nat)
    ensures n <= (n + 7) / 8 * 8 <= n + WordPad(n)
  {
    hide WordPad;
    PadOfWord(n / 32, n % 32);
  }

  lemma PadOfWord(words: nat, bits: nat)
    requires bits < 32
    ensures var n := 32 * words + bits; n <= (n + 7) / 8 * 8 <= n + WordPad(n)
  {
    WordPadOf(words, bits);
    hide WordPad;
    BytesOfWord(words, bits, if bits == 0 then 0 else 32 - bits);
  }

  lemma BytesOfWord(words: nat, bits: nat, pad: nat)
    requires bits < 32 && pad == if bits == 0 then 0 else 32 - bits
    ensures var n := 32 * words + bits; n <= (n + 7) / 8 * 8 <= n + pad
  {
    var n := 32 * words + bits;
    var k := (n + 7) / 8;
    assert 8 * k <= n + 7 < 8 * k + 8;
  }

  lemma WordPadOf(words: nat, bits: nat)
    requires bits < 32
    ensures WordPad(32 * words + bits) == if bits == 0 then 0 else 32 - bits
  {
    assert (32 * words + bits) % 32 == bits;
  }

  // ----- no samples at all

  lemma NothingToDecode(model: Record, setups: seq<Setup>)
    requires |setups| >= 1 && SetupsValid(setups) && |model| == |setups|
    ensures DecodeRecord([], model, setups, []) == CorruptRecord
  {
    var d := DecodeCw([], setups[0].par);
    assert d.NotEnoughBits?;
  }

  lemma NoFirstSample(model: Bits, loop: LoopCfg)
    requires loop.Valid() && (loop.modelMode ==> |model| == Times(1, SampleBits(loop.setups)))
    ensures DecodeSamples([], ModelRecords(model, 1, loop), 1, loop).CorruptStream?
    ensures DecodePayload([], model, 0, loop) == None
  {
    hide DecodeRecord, RecordsOf, SampleBits, Times;
    var models := ModelRecords(model, 1, loop);
    NothingToDecode(ModelOf([], models, loop, 0), loop.setups);
  }

  lemma NothingIsRejected(rcfg: RdcuCfg, input: Bits, m: Bits, model: Bits, after: Bits, info: Info, r: Result<nat>,
                          hasModel: bool)
    requires rcfg.samples == 0 && rcfg.cmpMode != CMP_MODE_RAW && input == [] && m == []
    requires (hasModel ==> |model| == 16) && ImagetteError(MainCfg(rcfg), hasModel).None?
    requires InfoDescribes(info, rcfg, r)
    requires r.value == |CompressedBits(MainCfg(rcfg), input, m, 0)|
    ensures NeededBits(info) == 0
    ensures RoomForAll(info, after, model, hasModel) && DecodeRdcu(info, after, model, hasModel).None?
  {
    hide Layout, IcuMaxSpill, Low, Cfg.SpecificIsInvalid, DecodePayload, DecodeSamples, ModelRecords;
    InfoKeepsCfg(info, rcfg, r, hasModel);
    InfoIsSound(info, hasModel);
    NoFirstSample(model, InfoCfg(info).Loop(Imagette));
    assert after[..0] == [];
  }

  // ----- many frames

  /** A frame and what became of it: the destination after compress_like_rdcu and the metadata. */
  datatype RdcuFrame = RdcuFrame(rcfg: RdcuCfg, input: Bits, stored: Bits, info: Info)

  predicate Compressible(f: RdcuFrame) {
    f.rcfg.samples >= 1 && |f.input| == 16 * f.rcfg.samples && ImagetteError(MainCfg(f.rcfg), true).None?
  }

  ghost predicate StoredFrame(f: RdcuFrame, model: Bits, before: Bits, size: nat)
    requires Compressible(f) && |model| == |f.input|
  {
    && RdcuPut(false, before, f.stored, CompressedBits(MainCfg(f.rcfg), f.input, model, f.rcfg.samples),
               f.rcfg.cmpMode == CMP_MODE_RAW, 2 * f.rcfg.bufferLength, Ok(size))
    && InfoDescribes(f.info, f.rcfg, Ok(size))
  }

  /** A successful compress_like_rdcu of a frame, with the model buffer updated in place from model
      to model' (see the contract of CompressLikeRdcu). Every frame may have its own configuration. */
  ghost predicate RdcuStep(f: RdcuFrame, model: Bits, model': Bits) {
    && Compressible(f) && |model| == |f.input|
    && (exists before: Bits, size: nat :: StoredFrame(f, model, before, size))
    && RdcuUpdate(model, model', MainCfg(f.rcfg), f.input, model, f.rcfg.samples, true)
  }

  /** The samples of a frame as the decoder returns them. */
  function Received(f: RdcuFrame): Bits
    requires Compressible(f)
  {
    if f.rcfg.cmpMode == CMP_MODE_RAW then f.input
    else
      ChecksAreExact(MainCfg(f.rcfg), Imagette);
      ImagetteBits(MainCfg(f.rcfg), f.rcfg.samples);
      RoundedData(f.input, f.rcfg.samples, MainCfg(f.rcfg).Loop(Imagette))
  }

  /** decompress_rdcu_data with the model buffer updated in place. */
  function DecoderStep(f: RdcuFrame, model: Bits): Option<(Bits, Bits)>
    requires |f.stored| >= NeededBits(f.info) && |model| == 16 * AtLeastOne(f.info.samples)
  {
    var d := DecodeRdcu(f.info, f.stored, model, true);
    if d.None? then None else Some((d.value.data, if ModelModeIsUsed(f.info.cmpMode) then d.value.up else model))
  }

  lemma StepInLockstep(f: RdcuFrame, model: Bits, model': Bits)
    requires RdcuStep(f, model, model')
    ensures |f.stored| >= NeededBits(f.info) && |model| == 16 * AtLeastOne(f.info.samples)
    ensures DecoderStep(f, model) == Some((Received(f), model'))
  {
    hide RdcuPut, CompressedBits, RoundedData, EncoderModel, DecodeRdcu, Cfg.SpecificIsInvalid, Cfg.GenParIsInvalid,
      RdcuUpdate;
    var before: Bits, size: nat :| StoredFrame(f, model, before, size);
    RdcuRoundTrip(f.rcfg, f.input, model, true, before, f.stored, Ok(size), f.info);
    UpdateIs(f.rcfg, f.input, model, model');
  }

  /** The encoder's updated model fills the buffer. */
  lemma UpdateIs(rcfg: RdcuCfg, input: Bits, model: Bits, model': Bits)
    requires rcfg.samples >= 1 && |input| == 16 * rcfg.samples == |model| && ImagetteError(MainCfg(rcfg), true).None?
    requires RdcuUpdate(model, model', MainCfg(rcfg), input, model, rcfg.samples, true)
    ensures if ModelModeIsUsed(rcfg.cmpMode) then
              && Codable(input, model, rcfg.samples, MainCfg(rcfg).Loop(Imagette))
              && model' == EncoderModel(input, model, rcfg.samples, MainCfg(rcfg).Loop(Imagette))
            else model' == model
  {
    hide Layout, IcuMaxSpill, Cfg.SpecificIsInvalid, RecordsOf, BitsOfAll, UpRecords, Times, SampleBits;
    if ModelModeIsUsed(rcfg.cmpMode) {
      ImagettesAreCodable(MainCfg(rcfg), input, model, rcfg.samples);
      var u := EncoderModel(input, model, rcfg.samples, MainCfg(rcfg).Loop(Imagette));
      assert model[..0] + u + model[|u|..] == u;
    }
  }

  ghost predicate RdcuRun(frames: seq<RdcuFrame>, models: seq<Bits>) {
    && |models| == |frames| + 1
    && (forall i :: 0 <= i < |frames| ==> Compressible(frames[i]))
    && (forall i :: 0 <= i < |frames| ==> RdcuStep(frames[i], models[i], models[i + 1]))
  }

  function DecoderRun(frames: seq<RdcuFrame>, i: nat, model: Bits): Option<(seq<Bits>, Bits)>
    requires i <= |frames|
    decreases |frames| - i
  {
    if i == |frames| then Some(([], model))
    else if |frames[i].stored| < NeededBits(frames[i].info)
            || |model| != 16 * AtLeastOne(frames[i].info.samples) then None
    else if DecoderStep(frames[i], model).None? then None
    else
      var (data, model') := DecoderStep(frames[i], model).value;
      var more := DecoderRun(frames, i + 1, model');
      if more.None? then None else Some(([data] + more.value.0, more.value.1))
  }

  function AllReceived(frames: seq<RdcuFrame>, i: nat): (r: seq<Bits>)
    requires i <= |frames| && forall k :: 0 <= k < |frames| ==> Compressible(frames[k])
    decreases |frames| - i
  {
    if i == |frames| then [] else [Received(frames[i])] + AllReceived(frames, i + 1)
  }

  /** Lossy compression does not drift: over any number of frames, each with its own mode, parameters
      and rounding, the models of both sides stay equal and every frame decodes to its rounded samples. */
  lemma {:induction false} LossyLockstep(frames: seq<RdcuFrame>, models: seq<Bits>, i: nat)
    requires RdcuRun(frames, models) && i <= |frames|
    ensures DecoderRun(frames, i, models[i]) == Some((AllReceived(frames, i), models[|frames|]))
    decreases |frames| - i
  {
    hide DecoderStep, Received, Compressible, RdcuStep, NeededBits;
    if i < |frames| {
      StepInLockstep(frames[i], models[i], models[i + 1]);
      LossyLockstep(frames, models, i + 1);
    }
  }
}
