/** What both halves promise together. */
module ChunkTheorems {
  import opened BitStrings
  import opened Results
  import opened Golomb
  import opened Spill
  import opened Values
  import opened Streams
  import opened Memory
  import opened DataTypes
  import opened Config
  import opened Parameters
  import opened Chunks
  import opened Entities
  import opened Compressor
  import opened ChunkCompressor

  // ----- sizes

  /** A chunk is at most its length fields larger than before. */
  lemma {:induction false} FramesBound(b: Bits, model: Option<Bits>, ct: ChunkType, cfg: Cfg, at: nat)
    requires Accepted(b, model, ct, cfg) && |b| % 8 == 0
    ensures |Frames(b, model, ct, cfg, at)| % 8 == 0
    ensures |Frames(b, model, ct, cfg, at)| <= |b| + FIELD_BITS * NumCols(b)
    decreases |b|
  {
    hide ColFrame, ColBits, ColError, ChunkError, Frames, NumCols;
    if b == [] {
      NothingFramedAtAll(model, ct, cfg, at);
    } else {
      NotEmptyIsACollection(b, model, ct, cfg);
      var f := ColFrame(b, model, ct, cfg, at);
      ColFrameSize(b, model, ct, cfg, at);
      SizesStep(b, ct, cfg, model.Some?);
      FramesStep(b, model, ct, cfg, at, at + |f| / 8);
      FramesBound(b[ColBits(b)..], ModelAfter(b, model), ct, cfg, at + |f| / 8);
    }
  }

  lemma NothingFramedAtAll(model: Option<Bits>, ct: ChunkType, cfg: Cfg, at: nat)
    requires Accepted([], model, ct, cfg)
    ensures Frames([], model, ct, cfg, at) == [] && NumCols([]) == 0
  {
  }

  lemma NotEmptyIsACollection(b: Bits, model: Option<Bits>, ct: ChunkType, cfg: Cfg)
    requires Accepted(b, model, ct, cfg) && b != []
    ensures |b| >= HDR_BITS && ColError(b, ct, cfg, model.Some?).None? && ColBits(b) <= |b|
  {
    hide ColError;
  }

  /** COMPRESS_CHUNK_BOUND_UNSAFE. */
  function BoundFor(chunkSize: nat, numCol: nat): (bound: nat)
    ensures NON_IMAGETTE_HEADER_SIZE + numCol * CMP_COLLECTION_FIELD_SIZE + chunkSize <= bound
  {
    (NON_IMAGETTE_HEADER_SIZE + numCol * CMP_COLLECTION_FIELD_SIZE + chunkSize + 3) / 4 * 4
  }

  /** The collection sizes add up to the size of the chunk. */
  predicate SizesAddUp(b: Bits)
    decreases |b|
  {
    if |b| < HDR_BITS then b == [] else ColBits(b) <= |b| && SizesAddUp(b[ColBits(b)..])
  }

  const MAX_CHUNK_SIZE := CMP_ENTITY_MAX_ORIGINAL_SIZE - NON_IMAGETTE_HEADER_SIZE - CMP_COLLECTION_FIELD_SIZE

  /** compress_chunk_cmp_size_bound: like the source it may step past the end while it counts. */
  method ChunkSizeBound(chunk: Bits) returns (r: Result<nat>)
    requires |chunk| % 8 == 0
    ensures r.Ok? <==>
              && HDR_BITS <= |chunk| <= 8 * MAX_CHUNK_SIZE && SizesAddUp(chunk)
              && BoundFor(|chunk| / 8, NumCols(chunk)) <= CMP_ENTITY_MAX_SIZE
    ensures r.Ok? ==> r.value == BoundFor(|chunk| / 8, NumCols(chunk))
    ensures r.Err? ==> r.error == if |chunk| < HDR_BITS then ChunkSizeInconsistent
                                  else if |chunk| / 8 > MAX_CHUNK_SIZE || SizesAddUp(chunk) then ChunkTooLarge
                                  else ChunkSizeInconsistent
  {
    hide ColBits, BoundFor;
    if |chunk| < HDR_BITS {
      return Err(ChunkSizeInconsistent);
    }
    if |chunk| / 8 > MAX_CHUNK_SIZE {
      return Err(ChunkTooLarge);
    }
    var p, numCol := 0, 0;
    assert chunk[0..] == chunk;
    while p + HDR_BITS <= |chunk|
      invariant p <= |chunk| ==>
                  NumCols(chunk) == numCol + NumCols(chunk[p..]) && SizesAddUp(chunk) == SizesAddUp(chunk[p..])
      invariant p > |chunk| ==> !SizesAddUp(chunk)
      decreases |chunk| - p
    {
      ghost var rest := chunk[p..];
      if ColBits(rest) <= |rest| {
        RestOfRest(chunk, p, ColBits(rest));
      }
      p := p + ColBits(chunk[p..]);
      numCol := numCol + 1;
    }
    if p != |chunk| {
      return Err(ChunkSizeInconsistent);
    }
    assert chunk[p..] == [];
    var bound := BoundFor(|chunk| / 8, numCol);
    if bound > CMP_ENTITY_MAX_SIZE {
      return Err(ChunkTooLarge);
    }
    return Ok(bound);
  }

  /** With the capacity the bound recommends, compress_chunk never reports a small buffer and
      stays within the bound. */
  lemma BoundIsEnough(noBuffer: bool, before: Bits, after: Bits, capacity: nat, chunk: Bits, model: Option<Bits>,
                      ct: ChunkType, cfg: Cfg, clock: Clock, r: Result<nat>, h: Option<Header>)
    requires cfg.WellFormed() && !ct.UnknownChunk? && ModelMatches(chunk, model) && |chunk| % 8 == 0
    requires ChunkPut(noBuffer, before, after, capacity, chunk, model, ct, cfg, clock, r, h)
    requires capacity >= BoundFor(|chunk| / 8, NumCols(chunk))
    ensures r != Err(SmallBuffer)
    ensures r.Ok? ==> r.value <= BoundFor(|chunk| / 8, NumCols(chunk))
  {
    hide Frames, NumCols, ChunkError, Appended, HeaderFits, BoundFor;
    if r.Ok? {
      FramesBound(chunk, model, ct, cfg, HeaderSize(cfg.cmpMode));
    }
  }

  lemma {:induction false} FieldsAreBytes(setups: seq<Setup>)
    requires forall f :: 0 <= f < |setups| ==> setups[f].width >= 8
    ensures 64 * |setups| <= 8 * SampleBits(setups)
  {
    if setups != [] {
      FieldsAreBytes(setups[1..]);
    }
  }

  lemma {:induction false} TimesScaled(n: nat, k: nat, m: nat)
    ensures Times(n, k * m) == k * Times(n, m)
  {
    if n > 0 {
      TimesScaled(n - 1, k, m);
      assert k * (Times(n - 1, m) + m) == k * Times(n - 1, m) + k * m;
    }
  }

  /** The writer does not check its 32-bit stream lengths for overflow; for the collections of a
      chunk, wherever they end up, none can occur and no length is taken for an error code. */
  lemma StreamLengthsDoNotWrap(b: Bits, model: Option<Bits>, ct: ChunkType, cfg: Cfg, start: nat)
    requires Checked(b, model, ct, cfg) && start <= 0x140_0000
    requires Codable(ColData(b), ModelData(b, model), Samples(b), cfg.Loop(TypeOf(b)))
    ensures 8 * start + |Stream(ColData(b), ModelData(b, model), Samples(b), cfg.Loop(TypeOf(b)))| + 32 < 0x1000_0000
  {
    hide StreamBits, RecordsOf, SampleBits, Times, ColError;
    var n, loop := Samples(b), cfg.Loop(TypeOf(b));
    var (recs, models) := Records(ColData(b), ModelData(b, model), n, loop);
    StreamBitsBound(recs, models, loop, 0);
    WidthsAreBytes(cfg, TypeOf(b));
    FieldsAreBytes(loop.setups);
    TimesMonotone2(n, 64 * |loop.setups|, 8 * SampleBits(loop.setups));
    TimesScaled(n, 8, SampleBits(loop.setups));
  }

  lemma {:induction false} CollectionsHaveHeaders(b: Bits)
    ensures HDR_BITS * NumCols(b) <= |b|
    decreases |b|
  {
    hide DataLength;
    if |b| >= HDR_BITS && ColBits(b) <= |b| {
      CollectionsHaveHeaders(b[ColBits(b)..]);
    }
  }

  lemma PositionsAreSmall(chunk: Bits, cmpMode: nat)
    requires EarlyError(chunk).None?
    ensures WorstSize(chunk, cmpMode) <= 0x140_0000
  {
    CollectionsHaveHeaders(chunk);
  }

  /** Wherever the loop of compress_chunk stands, the next collection and its payload begin within the
      worst size, and its stream does not wrap. */
  lemma NoStreamWraps(chunk: Bits, model: Option<Bits>, ct: ChunkType, cfg: Cfg, p: nat, size: nat, done: Bits,
                      ups: Bits, col: Bits, colModel: Option<Bits>)
    requires EarlyError(chunk).None? && |chunk| % 8 == 0 && p % 8 == 0 && cfg.cmpMode != CMP_MODE_RAW && cfg.round == 0
    requires Progress(chunk, model, ct, cfg, HeaderSize(cfg.cmpMode), p, size, done, ups)
    requires col == chunk[p..] && |col| >= HDR_BITS && colModel == ModelFrom(model, p)
    requires ColError(col, ct, cfg, model.Some?).None?
    ensures size + FRAME_HDR_SIZE <= size + CMP_COLLECTION_FIELD_SIZE + ColBits(col) / 8
    ensures size + CMP_COLLECTION_FIELD_SIZE + ColBits(col) / 8 <= WorstSize(chunk, cfg.cmpMode) <= 0x140_0000
    ensures Codable(ColData(col), ModelData(col, colModel), Samples(col), cfg.Loop(TypeOf(col)))
    ensures var s := Stream(ColData(col), ModelData(col, colModel), Samples(col), cfg.Loop(TypeOf(col)));
            8 * (size + FRAME_HDR_SIZE) + |s| + 32 < 0x1000_0000
  {
    hide ColError, Frames, Updates, ChunkError, Stream, Codable, WorstSize, Accepted, NumCols;
    PositionsAreSmall(chunk, cfg.cmpMode);
    if WorstSize(chunk, cfg.cmpMode) < size + CMP_COLLECTION_FIELD_SIZE + ColBits(col) / 8 {
      TooSmallAt(chunk, model, ct, cfg, p, size, done, ups, col, WorstSize(chunk, cfg.cmpMode));
    }
    ColIsCodable(col, colModel, ct, cfg);
    StreamLengthsDoNotWrap(col, colModel, ct, cfg, size + FRAME_HDR_SIZE);
  }

  lemma WidthsAreBytes(cfg: Cfg, dt: DataType)
    requires cfg.WellFormed()
    ensures forall f :: 0 <= f < |cfg.Loop(dt).setups| ==> cfg.Loop(dt).setups[f].width >= 8
  {
  }

  // ----- the raw marker

  /** The length field of a frame equals the length of the original collection exactly when the
      collection was stored raw; otherwise it is smaller. It always fits its 16 bits. */
  lemma RawMarkerIsUnambiguous(b: Bits, model: Option<Bits>, ct: ChunkType, cfg: Cfg, at: nat, t: Bits)
    requires Checked(b, model, ct, cfg) && Codable(ColData(b), ModelData(b, model), Samples(b), cfg.Loop(TypeOf(b)))
    ensures var s := ColFrame(b, model, ct, cfg, at) + t;
            var coded := IsCoded(ColData(b), ModelData(b, model), Samples(b), cfg.Loop(TypeOf(b)), at + FRAME_HDR_SIZE);
            && LengthField(s) <= DataLength(b) <= 0xFFFF
            && DataLength(s[FIELD_BITS..]) == DataLength(b)
            && (LengthField(s) == DataLength(b) <==> !coded)
            && (!coded ==> s[FIELD_BITS..][..ColBits(b)] == b[..ColBits(b)])
  {
    hide Frame, FrameBits, DataLength, LengthField, TypeOf, ColError, IsCoded, Stream, Samples, Codable, Cfg.Loop,
      ModelData, Payload;
    var p := ColPayload(b, model, ct, cfg, at + FRAME_HDR_SIZE);
    FrameOf(b, model, ct, cfg, at, 0);
    ColPayloadSize(b, model, ct, cfg, at + FRAME_HDR_SIZE);
    PayloadSize(ColData(b), ModelData(b, model), Samples(b), cfg.Loop(TypeOf(b)), at + FRAME_HDR_SIZE);
    FrameParts(b, p, t);
    SameHeader(b, p + t);
    RawStartsLike(b, t);
  }

  lemma RawStartsLike(b: Bits, t: Bits)
    requires |b| >= HDR_BITS && ColBits(b) <= |b|
    ensures (b[..HDR_BITS] + (ColData(b) + t))[..ColBits(b)] == b[..ColBits(b)]
  {
    hide DataLength;
    assert (b[..HDR_BITS] + (ColData(b) + t))[..ColBits(b)] == b[..HDR_BITS] + ColData(b);
  }

  // ----- the round trip of an entity

  /** In raw mode the compressed data are the chunk. */
  lemma {:induction false} RawFrames(b: Bits, model: Option<Bits>, ct: ChunkType, cfg: Cfg, at: nat)
    requires Accepted(b, model, ct, cfg) && cfg.cmpMode == CMP_MODE_RAW
    ensures Frames(b, model, ct, cfg, at) == b
    decreases |b|
  {
    hide ColBits, ColError, ChunkError, Frames, NumCols;
    if b == [] {
      NothingFramedAtAll(model, ct, cfg, at);
    } else {
      NotEmptyIsACollection(b, model, ct, cfg);
      var f := ColFrame(b, model, ct, cfg, at);
      FramesStep(b, model, ct, cfg, at, at + |f| / 8);
      RawFrames(b[ColBits(b)..], ModelAfter(b, model), ct, cfg, at + |f| / 8);
      assert b == b[..ColBits(b)] + b[ColBits(b)..];
    }
  }

  lemma AcceptedIsSupported(chunk: Bits, model: Option<Bits>, ct: ChunkType, cfg: Cfg)
    requires Accepted(chunk, model, ct, cfg) && chunk != []
    ensures !cfg.GenParIsInvalid()
  {
    hide ColError;
  }

  /** The chunk and, in the model modes, the updated model. */
  function Expected(chunk: Bits, model: Option<Bits>, ct: ChunkType, cfg: Cfg): Data
    requires Accepted(chunk, model, ct, cfg)
  {
    Data(chunk, if ModelModeIsUsed(cfg.cmpMode) then Updates(chunk, model, ct, cfg, HeaderSize(cfg.cmpMode)) else [])
  }

  lemma HeaderDescribes(cfg: Cfg, chunkSize: nat, dataSize: nat, clock: Clock, h: Header)
    requires cfg.WellFormed() && BuildHeader(cfg, chunkSize, HeaderSize(cfg.cmpMode) + dataSize, clock) == Ok(h)
    ensures HeaderIsWellFormed(h) && h.originalSize == chunkSize && DataSize(h) == dataSize && h.cmpMode == cfg.cmpMode
    ensures chunkSize >= COLLECTION_HDR_SIZE && !cfg.GenParIsInvalid() ==>
              && (cfg.cmpMode != CMP_MODE_RAW && dataSize >= FRAME_HDR_SIZE ==>
                    ReadHeader(h) == Some((cfg, dataSize)))
              && (cfg.cmpMode == CMP_MODE_RAW && dataSize == chunkSize ==> ReadHeader(h).Some?)
  {
  }

  lemma SomeFrames(b: Bits, model: Option<Bits>, ct: ChunkType, cfg: Cfg, at: nat)
    requires Accepted(b, model, ct, cfg) && b != [] && cfg.cmpMode != CMP_MODE_RAW
    ensures |Frames(b, model, ct, cfg, at)| >= HDR_BITS + FIELD_BITS && NumCols(b) > 0
  {
    hide ColError, ColFrame, ColBits;
    NotEmptyIsACollection(b, model, ct, cfg);
    ColFrameSize(b, model, ct, cfg, at);
    FramesStep(b, model, ct, cfg, at, at + |ColFrame(b, model, ct, cfg, at)| / 8);
  }

  lemma DecodesTo(chunk: Bits, model: Option<Bits>, ct: ChunkType, cfg: Cfg, clock: Clock, h: Header, data: Bits)
    requires Accepted(chunk, model, ct, cfg) && |chunk| >= HDR_BITS && |chunk| % 8 == 0 && cfg.round == 0
    requires !cfg.GenParIsInvalid()
    requires data == Frames(chunk, model, ct, cfg, HeaderSize(cfg.cmpMode)) && |data| % 8 == 0
    requires BuildHeader(cfg, |chunk| / 8, HeaderSize(cfg.cmpMode) + |data| / 8, clock) == Ok(h)
    ensures HeaderIsWellFormed(h) && |data| == 8 * DataSize(h) && h.originalSize == |chunk| / 8
    ensures h.cmpMode == cfg.cmpMode
    ensures DecodeEntity(h, data, model) == Some(Expected(chunk, model, ct, cfg))
  {
    hide Frames, Updates, ChunkError, ReadHeader, BuildHeader, Cfg.GenParIsInvalid, DecodeFrames, FrameCount, NumCols;
    HeaderDescribes(cfg, |chunk| / 8, |data| / 8, clock, h);
    if cfg.cmpMode == CMP_MODE_RAW {
      RawFrames(chunk, model, ct, cfg, HeaderSize(cfg.cmpMode));
    } else {
      SomeFrames(chunk, model, ct, cfg, HeaderSize(cfg.cmpMode));
      ChunkRoundTrip(chunk, model, ct, cfg, HeaderSize(cfg.cmpMode));
    }
  }

  /** For every chunk, parameter set, model and destination: if compress_chunk succeeds, decoding
      the entity it built returns exactly the chunk and exactly the updated model it computed. */
  lemma EntityRoundTrip(before: Bits, after: Bits, capacity: nat, chunk: Bits, model: Option<Bits>, ct: ChunkType,
                        par: CmpPar, clock: Clock, r: Result<nat>, h: Option<Header>)
    requires EarlyError(chunk).None? && !ct.UnknownChunk? && ModelMatches(chunk, model) && |chunk| % 8 == 0
    requires ChunkPut(false, before, after, capacity, chunk, model, ct, InitialCfg(ct, par), clock, r, h) && r.Ok?
    ensures h.Some? && HeaderIsWellFormed(h.value) && h.value.originalSize == |chunk| / 8
    ensures h.value.cmpMode == par.cmpMode
    ensures Accepted(chunk, model, ct, InitialCfg(ct, par)) && HeaderSize(par.cmpMode) <= r.value
    ensures 8 * r.value <= |after|
    ensures 8 * DataSize(h.value) == 8 * r.value - 8 * HeaderSize(par.cmpMode)
    ensures DecodeEntity(h.value, after[8 * HeaderSize(par.cmpMode)..8 * r.value], model)
            == Some(Expected(chunk, model, ct, InitialCfg(ct, par)))
  {
    hide Frames, Updates, InitialCfg, ChunkError, BuildHeader, HeaderFits, DecodeEntity, Cfg.GenParIsInvalid,
      Subservice, ChunkPut, EarlyError, Expected;
    var cfg := InitialCfg(ct, par);
    var start := HeaderSize(cfg.cmpMode);
    CfgKeepsMode(ct, par);
    WhatWasPut(before, after, capacity, chunk, model, ct, cfg, clock, r, h);
    FramesBound(chunk, model, ct, cfg, start);
    var data := Frames(chunk, model, ct, cfg, start);
    LongEnough(chunk);
    InitialCfgIsLossless(ct, par);
    AcceptedIsSupported(chunk, model, ct, cfg);
    DecodesTo(chunk, model, ct, cfg, clock, h.value, data);
  }

  lemma LongEnough(chunk: Bits)
    requires EarlyError(chunk).None?
    ensures HDR_BITS <= |chunk| <= 8 * CMP_ENTITY_MAX_ORIGINAL_SIZE
  {
  }

  /** After a success the frames end where the entity does, and its header was built. */
  lemma WhatWasPut(before: Bits, after: Bits, capacity: nat, chunk: Bits, model: Option<Bits>, ct: ChunkType, cfg: Cfg,
                   clock: Clock, r: Result<nat>, h: Option<Header>)
    requires cfg.WellFormed() && !ct.UnknownChunk? && ModelMatches(chunk, model) && |chunk| % 8 == 0
    requires ChunkPut(false, before, after, capacity, chunk, model, ct, cfg, clock, r, h) && r.Ok?
    ensures Accepted(chunk, model, ct, cfg) && h.Some?
    ensures var start := HeaderSize(cfg.cmpMode);
            var data := Frames(chunk, model, ct, cfg, start);
            && |data| % 8 == 0 && 8 * r.value == 8 * start + |data| <= |after| && after[8 * start..8 * r.value] == data
            && BuildHeader(cfg, |chunk| / 8, r.value, clock) == Ok(h.value)
  {
    hide Frames, ChunkError, BuildHeader, HeaderFits, RunsOut, NumCols;
    FramesBound(chunk, model, ct, cfg, HeaderSize(cfg.cmpMode));
  }

  lemma InitialCfgIsLossless(ct: ChunkType, par: CmpPar)
    ensures InitialCfg(ct, par).round == 0
  {
  }
}
