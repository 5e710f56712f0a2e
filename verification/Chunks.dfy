/** The format of compressed chunks. */
module Chunks {
  import opened BitStrings
  import opened Results
  import opened Golomb
  import opened Values
  import opened Streams
  import opened Memory
  import opened DataTypes
  import opened Config
  import opened Parameters

  const HDR_BITS := 96
  const FIELD_BITS := 16

  // ----- collections

  /** cmp_col_get_data_length: of the collection that starts a string, in bytes. */
  function DataLength(b: Bits): (n: nat)
    requires |b| >= HDR_BITS
    ensures n <= 0xFFFF
  {
    Pow2Values();
    FromBits(b[80..96])
  }

  function Subservice(b: Bits): nat
    requires |b| >= HDR_BITS
  {
    FromBits(b[65..71])
  }

  function TypeOf(b: Bits): DataType
    requires |b| >= HDR_BITS
  {
    DataTypeOf(Subservice(b))
  }

  /** Header and data, in bits. */
  function ColBits(b: Bits): (n: nat)
    requires |b| >= HDR_BITS
    ensures n >= HDR_BITS
  {
    HDR_BITS + 8 * DataLength(b)
  }

  /** The checks cmp_collection makes of a collection with its configuration. */
  function ParError(b: Bits, cfg: Cfg, hasModel: bool): (e: Option<Error>)
    requires |b| >= HDR_BITS && cfg.WellFormed() && SampleSize(TypeOf(b)) > 0
    ensures e.None? ==> !cfg.GenParIsInvalid() && !cfg.SpecificIsInvalid(TypeOf(b))
    ensures e.None? ==> DataLength(b) % SampleSize(TypeOf(b)) == 0 && (ModelModeIsUsed(cfg.cmpMode) ==> hasModel)
  {
    if DataLength(b) % SampleSize(TypeOf(b)) != 0 then Some(ColSizeInconsistent)
    else if cfg.GenParIsInvalid() then Some(ParGeneric)
    else if cfg.SpecificIsInvalid(TypeOf(b)) then Some(ParSpecific)
    else if ModelModeIsUsed(cfg.cmpMode) && !hasModel then Some(ParNoModel)
    else None
  }

  /** What is wrong with the collection that starts b, in the order of the source's checks. */
  function ColError(b: Bits, ct: ChunkType, cfg: Cfg, hasModel: bool): (e: Option<Error>)
    requires |b| >= HDR_BITS && cfg.WellFormed() && !ct.UnknownChunk?
    ensures e.None? ==> ColBits(b) <= |b| && !TypeOf(b).Unknown? && !IsFastCadence(TypeOf(b)) && !cfg.GenParIsInvalid()
    ensures e.None? ==> !cfg.SpecificIsInvalid(TypeOf(b)) && (ModelModeIsUsed(cfg.cmpMode) ==> hasModel)
    ensures e.None? ==> SampleSize(TypeOf(b)) > 0 && DataLength(b) % SampleSize(TypeOf(b)) == 0
  {
    ChunkTypesAreSupported(Subservice(b));
    if ChunkTypeOf(Subservice(b)) != ct then Some(ChunkSubserviceInconsistent)
    else if ColBits(b) > |b| then Some(ChunkSizeInconsistent)
    else ParError(b, cfg, hasModel)
  }

  /** The first error met on the way through a chunk. */
  function ChunkError(b: Bits, ct: ChunkType, cfg: Cfg, hasModel: bool): Option<Error>
    requires cfg.WellFormed() && !ct.UnknownChunk?
    decreases |b|
  {
    if b == [] then None
    else if |b| < HDR_BITS then Some(ChunkSizeInconsistent)
    else if ColError(b, ct, cfg, hasModel).Some? then ColError(b, ct, cfg, hasModel)
    else ChunkError(b[ColBits(b)..], ct, cfg, hasModel)
  }

  // ----- one collection

  /** What is known of a collection whose data can be compressed. */
  predicate Codable(data: Bits, model: Bits, n: nat, loop: LoopCfg) {
    && loop.Valid()
    && |data| == Times(n, SampleBits(loop.setups))
    && (loop.modelMode ==> |model| == |data|)
  }

  function Records(data: Bits, model: Bits, n: nat, loop: LoopCfg): (r: (seq<Record>, seq<Record>))
    requires Codable(data, model, n, loop)
    ensures CanCode(r.0, r.1, loop) && |r.0| == n
  {
    (RecordsOf(data, n, loop.setups), if loop.modelMode then RecordsOf(model, n, loop.setups) else [])
  }

  /** The bits the loop puts into the stream for a collection. */
  function Stream(data: Bits, model: Bits, n: nat, loop: LoopCfg): Bits
    requires Codable(data, model, n, loop)
  {
    var (recs, models) := Records(data, model, n, loop);
    StreamBits(recs, models, loop, 0)
  }

  /** cmp_stream_size_to_bits: whole words only. */
  function SizeToBits(size: nat): (bits: nat)
    ensures bits % 32 == 0 && bits <= 8 * size
  {
    size / 4 * 32
  }

  /** Up to the next byte. */
  function BytePad(bits: nat): (p: nat)
    ensures p < 8 && (bits + p) % 8 == 0
  {
    (8 - bits % 8) % 8
  }

  /** The stream is kept when it ends, in whole words, before the raw data would. */
  predicate IsCoded(data: Bits, model: Bits, n: nat, loop: LoopCfg, start: nat)
    requires Codable(data, model, n, loop)
  {
    n > 0 && |data| >= 8 && 8 * start + |Stream(data, model, n, loop)| <= SizeToBits(start + |data| / 8 - 1)
  }

  /** What follows the header of a collection compressed to byte position start. */
  function Payload(data: Bits, model: Bits, n: nat, loop: LoopCfg, start: nat): (p: Bits)
    requires Codable(data, model, n, loop)
  {
    if IsCoded(data, model, n, loop, start) then
      var s := Stream(data, model, n, loop);
      s + Zeros(BytePad(|s|))
    else data
  }

  /** The updated model of a collection: a copy of the data if they are stored raw. */
  function UpdatedModel(data: Bits, model: Bits, n: nat, loop: LoopCfg, start: nat): (u: Bits)
    requires Codable(data, model, n, loop) && loop.modelMode
    ensures |u| == |data|
  {
    if IsCoded(data, model, n, loop, start) then
      var (recs, models) := Records(data, model, n, loop);
      BitsOfAll(UpRecords(recs, models, loop), loop.setups)
    else data
  }

  /** What a payload needs at byte position start of a buffer of capacity bytes: room for the raw data,
      or for its stream in whole words. */
  predicate PayloadFits(data: Bits, model: Bits, n: nat, loop: LoopCfg, start: nat, capacity: nat)
    requires Codable(data, model, n, loop)
  {
    || n == 0 || start + |data| / 8 <= capacity
    || 8 * start + |Stream(data, model, n, loop)| <= SizeToBits(capacity)
  }

  /** Payloads are shorter than the data unless they are the data. */
  lemma PayloadSize(data: Bits, model: Bits, n: nat, loop: LoopCfg, start: nat)
    requires Codable(data, model, n, loop) && |data| % 8 == 0
    ensures var p := Payload(data, model, n, loop, start);
            && |p| % 8 == 0
            && (IsCoded(data, model, n, loop, start) ==> |p| < |data|)
            && (!IsCoded(data, model, n, loop, start) ==> p == data)
  {
    hide Stream, Codable;
    if IsCoded(data, model, n, loop, start) {
      WordsBefore(start, |data| / 8, |Stream(data, model, n, loop)|);
    }
  }

  lemma WordsBefore(start: nat, len: nat, bits: nat)
    requires len >= 1 && 8 * start + bits <= SizeToBits(start + len - 1)
    ensures bits + BytePad(bits) <= 8 * (len - 1)
  {
    hide SizeToBits;
    PadToBytes(bits, len - 1);
  }

  lemma PadToBytes(bits: nat, bytes: nat)
    requires bits <= 8 * bytes
    ensures bits + BytePad(bits) <= 8 * bytes
  {
  }

  // ----- a whole chunk

  function ColData(b: Bits): Bits
    requires |b| >= HDR_BITS && ColBits(b) <= |b|
  {
    b[HDR_BITS..ColBits(b)]
  }

  function Samples(b: Bits): nat
    requires |b| >= HDR_BITS && SampleSize(TypeOf(b)) > 0
  {
    DataLength(b) / SampleSize(TypeOf(b))
  }

  /** A model has the size of the chunk, with the collections at the same places. */
  predicate ModelMatches(b: Bits, model: Option<Bits>) {
    model.Some? ==> |model.value| == |b|
  }

  function ModelData(b: Bits, model: Option<Bits>): (m: Bits)
    requires |b| >= HDR_BITS && ColBits(b) <= |b| && ModelMatches(b, model)
    ensures model.Some? ==> |m| == |ColData(b)|
  {
    if model.Some? then model.value[HDR_BITS..ColBits(b)] else []
  }

  function ModelAfter(b: Bits, model: Option<Bits>): (m: Option<Bits>)
    requires |b| >= HDR_BITS && ColBits(b) <= |b| && ModelMatches(b, model)
    ensures ModelMatches(b[ColBits(b)..], m) && m.Some? == model.Some?
  {
    if model.Some? then Some(model.value[ColBits(b)..]) else None
  }

  /** A collection that passes the checks has whole samples and valid setups. */
  lemma ColIsCodable(b: Bits, model: Option<Bits>, ct: ChunkType, cfg: Cfg)
    requires |b| >= HDR_BITS && cfg.WellFormed() && !ct.UnknownChunk? && ModelMatches(b, model)
    requires ColError(b, ct, cfg, model.Some?).None? && cfg.cmpMode != CMP_MODE_RAW
    ensures Codable(ColData(b), ModelData(b, model), Samples(b), cfg.Loop(TypeOf(b)))
    ensures |ColData(b)| == 8 * DataLength(b) == Times(Samples(b), SampleBits(cfg.Loop(TypeOf(b)).setups))
  {
    hide Layout, SampleBits, DataTypeOf, ChunkTypeOf, SampleSize;
    var dt, n := TypeOf(b), Samples(b);
    ChecksAreExact(cfg, dt);
    SampleBitsAre(cfg, dt);
    SampleSizeIsLayout(dt);
    TimesIsProduct(n, 8 * SampleSize(dt));
    WholeSamples(DataLength(b), SampleSize(dt), n);
  }

  lemma WholeSamples(len: nat, size: nat, n: nat)
    requires size > 0 && len % size == 0 && n == len / size
    ensures n * (8 * size) == 8 * len
  {
    assert n * size == len;
    assert n * (8 * size) == 8 * (n * size);
  }

  lemma SampleBitsAre(cfg: Cfg, dt: DataType)
    requires cfg.WellFormed()
    ensures SampleBits(cfg.Loop(dt).setups) == WidthSum(Layout(dt))
  {
    WidthsAdd(cfg.Loop(dt).setups, Layout(dt));
  }

  lemma {:induction false} WidthsAdd(setups: seq<Setup>, fields: seq<Field>)
    requires |setups| == |fields| && forall f :: 0 <= f < |fields| ==> setups[f].width == fields[f].width
    ensures SampleBits(setups) == WidthSum(fields)
  {
    if fields != [] {
      WidthsAdd(setups[1..], fields[1..]);
    }
  }

  /** The payload of the collection that starts b, compressed to byte position start. */
  function ColPayload(b: Bits, model: Option<Bits>, ct: ChunkType, cfg: Cfg, start: nat): (p: Bits)
    requires |b| >= HDR_BITS && cfg.WellFormed() && !ct.UnknownChunk? && ModelMatches(b, model)
    requires ColError(b, ct, cfg, model.Some?).None? && cfg.cmpMode != CMP_MODE_RAW
  {
    ColIsCodable(b, model, ct, cfg);
    Payload(ColData(b), ModelData(b, model), Samples(b), cfg.Loop(TypeOf(b)), start)
  }

  lemma ColPayloadSize(b: Bits, model: Option<Bits>, ct: ChunkType, cfg: Cfg, start: nat)
    requires |b| >= HDR_BITS && cfg.WellFormed() && !ct.UnknownChunk? && ModelMatches(b, model)
    requires ColError(b, ct, cfg, model.Some?).None? && cfg.cmpMode != CMP_MODE_RAW
    ensures var p := ColPayload(b, model, ct, cfg, start);
            |p| % 8 == 0 && |p| <= 8 * DataLength(b) && (|p| == 8 * DataLength(b) ==> p == ColData(b))
  {
    hide ColError, Payload, IsCoded, TypeOf, DataLength, Samples, ModelData, Codable;
    ColIsCodable(b, model, ct, cfg);
    PayloadSize(ColData(b), ModelData(b, model), Samples(b), cfg.Loop(TypeOf(b)), start);
  }

  /** Length field, collection header, payload. */
  function Frame(b: Bits, payload: Bits): (f: Bits)
    requires |b| >= HDR_BITS
    ensures |f| == FIELD_BITS + HDR_BITS + |payload|
  {
    ToBits(|payload| / 8, FIELD_BITS) + b[..HDR_BITS] + payload
  }

  /** What the collection that starts b becomes at byte position at. */
  function ColFrame(b: Bits, model: Option<Bits>, ct: ChunkType, cfg: Cfg, at: nat): (f: Bits)
    requires |b| >= HDR_BITS && cfg.WellFormed() && !ct.UnknownChunk? && ModelMatches(b, model)
    requires ColError(b, ct, cfg, model.Some?).None?
  {
    if cfg.cmpMode == CMP_MODE_RAW then b[..ColBits(b)]
    else Frame(b, ColPayload(b, model, ct, cfg, at + FRAME_HDR_SIZE))
  }

  /** A frame has whole bytes and is at most its length field larger than the collection. */
  lemma ColFrameSize(b: Bits, model: Option<Bits>, ct: ChunkType, cfg: Cfg, at: nat)
    requires |b| >= HDR_BITS && cfg.WellFormed() && !ct.UnknownChunk? && ModelMatches(b, model)
    requires ColError(b, ct, cfg, model.Some?).None?
    ensures var f := ColFrame(b, model, ct, cfg, at);
            && |f| % 8 == 0 && HDR_BITS <= |f| <= ColBits(b) + FIELD_BITS
            && (cfg.cmpMode != CMP_MODE_RAW ==> |f| >= HDR_BITS + FIELD_BITS)
  {
    hide ColError, ColPayload, TypeOf, DataLength, ModelMatches, Subservice, ToBits;
    if cfg.cmpMode != CMP_MODE_RAW {
      var start := at + FRAME_HDR_SIZE;
      ColPayloadSize(b, model, ct, cfg, start);
      assert ColFrame(b, model, ct, cfg, at) == Frame(b, ColPayload(b, model, ct, cfg, start));
    }
  }

  /** The collection that starts b can be put to byte position at of a buffer of capacity bytes. */
  predicate ColFits(b: Bits, model: Option<Bits>, ct: ChunkType, cfg: Cfg, at: nat, capacity: nat)
    requires |b| >= HDR_BITS && cfg.WellFormed() && !ct.UnknownChunk? && ModelMatches(b, model)
    requires ColError(b, ct, cfg, model.Some?).None?
  {
    if cfg.cmpMode == CMP_MODE_RAW then at + ColBits(b) / 8 <= capacity
    else
      ColIsCodable(b, model, ct, cfg);
      && at + FRAME_HDR_SIZE <= capacity
      && PayloadFits(ColData(b), ModelData(b, model), Samples(b), cfg.Loop(TypeOf(b)), at + FRAME_HDR_SIZE, capacity)
  }

  /** The updated model of the collection that starts b. */
  function ColUpdate(b: Bits, model: Option<Bits>, ct: ChunkType, cfg: Cfg, at: nat): (u: Bits)
    requires |b| >= HDR_BITS && cfg.WellFormed() && !ct.UnknownChunk? && ModelMatches(b, model)
    requires ColError(b, ct, cfg, model.Some?).None? && ModelModeIsUsed(cfg.cmpMode)
    ensures |u| == ColBits(b)
  {
    ColIsCodable(b, model, ct, cfg);
    b[..HDR_BITS] + UpdatedModel(ColData(b), ModelData(b, model), Samples(b), cfg.Loop(TypeOf(b)),
                                 at + FRAME_HDR_SIZE)
  }

  predicate Accepted(b: Bits, model: Option<Bits>, ct: ChunkType, cfg: Cfg) {
    && cfg.WellFormed() && !ct.UnknownChunk?
    && ModelMatches(b, model)
    && ChunkError(b, ct, cfg, model.Some?).None?
  }

  /** The compressed data of a chunk, from byte position at on. */
  function Frames(b: Bits, model: Option<Bits>, ct: ChunkType, cfg: Cfg, at: nat): (f: Bits)
    requires Accepted(b, model, ct, cfg)
    decreases |b|
  {
    if b == [] then []
    else
      var f := ColFrame(b, model, ct, cfg, at);
      f + Frames(b[ColBits(b)..], ModelAfter(b, model), ct, cfg, at + |f| / 8)
  }

  /** The updated model of a chunk. */
  function Updates(b: Bits, model: Option<Bits>, ct: ChunkType, cfg: Cfg, at: nat): (u: Bits)
    requires Accepted(b, model, ct, cfg) && ModelModeIsUsed(cfg.cmpMode)
    ensures |u| == |b|
    decreases |b|
  {
    if b == [] then []
    else
      ColUpdate(b, model, ct, cfg, at)
      + Updates(b[ColBits(b)..], ModelAfter(b, model), ct, cfg, at + |ColFrame(b, model, ct, cfg, at)| / 8)
  }

  /** The number of collections of a chunk. */
  function NumCols(b: Bits): nat
    decreases |b|
  {
    if |b| < HDR_BITS || ColBits(b) > |b| then 0 else 1 + NumCols(b[ColBits(b)..])
  }
}
