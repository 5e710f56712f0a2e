/** How large a destination has to be. */
module Capacity {
  // The bound is tight, and a buffer of the compressed size in whole words is always enough.

  import opened BitStrings
  import opened Results
  import opened Streams
  import opened DataTypes
  import opened Config
  import opened Parameters
  import opened Chunks
  import opened Entities
  import opened Compressor
  import opened ChunkCompressor
  import opened ChunkTheorems
  import opened SizeQuery

  // ----- the raw fallback

  /** Data are stored raw only if their stream would not be a word shorter, and coded only if that
      saves a byte. */
  lemma FallbackIsTight(data: Bits, model: Bits, n: nat, loop: LoopCfg, start: nat)
    requires Codable(data, model, n, loop) && n > 0 && |data| % 8 == 0 && |data| >= 8
    ensures IsCoded(data, model, n, loop, start) ==> |Stream(data, model, n, loop)| <= |data| - 8
    ensures !IsCoded(data, model, n, loop, start) ==> |Stream(data, model, n, loop)| > |data| - 32
    ensures (start + |data| / 8) % 4 == 1 ==>
              (IsCoded(data, model, n, loop, start) <==> |Stream(data, model, n, loop)| <= |data| - 8)
  {
    hide Stream, Codable;
  }

  // ----- the bound

  /** The bound is the least multiple of 4 that covers the worst size of a mode that compresses. */
  lemma BoundIsLeast(chunk: Bits, cmpMode: nat)
    requires |chunk| % 8 == 0 && cmpMode != CMP_MODE_RAW
    ensures var bound := BoundFor(|chunk| / 8, NumCols(chunk));
            bound % 4 == 0 && bound - 4 < WorstSize(chunk, cmpMode) <= bound
  {
    hide NumCols;
  }

  lemma {:induction false} EmptiesAddUp(n: nat)
    ensures NumCols(Empties(n)) == n
  {
    hide EmptyFluxes, DataLength;
    if n > 0 {
      EmptiesBegin(n);
      EmptiesAddUp(n - 1);
    }
  }

  /** Empty collections are accepted with every valid configuration. */
  lemma {:induction false} EmptiesAreFine(n: nat, model: Option<Bits>, cfg: Cfg)
    requires cfg.WellFormed() && !cfg.GenParIsInvalid() && !cfg.SpecificIsInvalid(SFx)
    requires (ModelModeIsUsed(cfg.cmpMode) ==> model.Some?) && ModelMatches(Empties(n), model)
    ensures Accepted(Empties(n), model, ShortCadence, cfg)
  {
    hide Subservice, DataLength, Cfg.GenParIsInvalid, Cfg.SpecificIsInvalid;
    if n > 0 {
      EmptiesBegin(n);
      EmptiesAreFine(n - 1, if model.Some? then Some(model.value[HDR_BITS..]) else None, cfg);
    }
  }

  lemma EmptyFrame(n: nat, model: Option<Bits>, cfg: Cfg, at: nat)
    requires n > 0 && Accepted(Empties(n), model, ShortCadence, cfg) && cfg.cmpMode != CMP_MODE_RAW
    ensures ColError(Empties(n), ShortCadence, cfg, model.Some?).None? && ColBits(Empties(n)) == HDR_BITS
    ensures |ColFrame(Empties(n), model, ShortCadence, cfg, at)| == HDR_BITS + FIELD_BITS
  {
    EmptiesBegin(n);
    hide Empties, DataLength, TypeOf, ColPayload, ColError, Subservice;
    NotEmptyIsACollection(Empties(n), model, ShortCadence, cfg);
    ColPayloadSize(Empties(n), model, ShortCadence, cfg, at + FRAME_HDR_SIZE);
  }

  /** Every empty collection grows by its length field. */
  lemma {:induction false} EmptiesGrow(n: nat, model: Option<Bits>, cfg: Cfg, at: nat)
    requires Accepted(Empties(n), model, ShortCadence, cfg) && cfg.cmpMode != CMP_MODE_RAW
    ensures |Frames(Empties(n), model, ShortCadence, cfg, at)| == (HDR_BITS + FIELD_BITS) * n
    decreases n
  {
    hide Empties, ColFrame, ColBits, ColError, ChunkError, Frames;
    if n == 0 {
      NothingFramedAtAll(model, ShortCadence, cfg, at);
    } else {
      EmptyFrame(n, model, cfg, at);
      EmptiesBegin(n);
      var at' := at + |ColFrame(Empties(n), model, ShortCadence, cfg, at)| / 8;
      FramesStep(Empties(n), model, ShortCadence, cfg, at, at');
      EmptiesGrow(n - 1, ModelAfter(Empties(n), model), cfg, at');
    }
  }

  /** The bound is reached, up to its rounding, by every number of empty collections. */
  lemma BoundIsTight(n: nat, model: Option<Bits>, cfg: Cfg)
    requires cfg.WellFormed() && !cfg.GenParIsInvalid() && !cfg.SpecificIsInvalid(SFx) && cfg.cmpMode != CMP_MODE_RAW
    requires (ModelModeIsUsed(cfg.cmpMode) ==> model.Some?) && ModelMatches(Empties(n), model)
    ensures Accepted(Empties(n), model, ShortCadence, cfg) && NumCols(Empties(n)) == n
    ensures CompressedSize(Empties(n), model, ShortCadence, cfg) == WorstSize(Empties(n), cfg.cmpMode)
    ensures BoundFor(|Empties(n)| / 8, n) - 4 < CompressedSize(Empties(n), model, ShortCadence, cfg)
            <= BoundFor(|Empties(n)| / 8, n)
  {
    hide Empties, Frames, ChunkError, Cfg.GenParIsInvalid, Cfg.SpecificIsInvalid, NumCols, BoundFor;
    EmptiesAreFine(n, model, cfg);
    EmptiesAddUp(n);
    EmptiesGrow(n, model, cfg, HeaderSize(cfg.cmpMode));
    BytesOfCollections(HDR_BITS, n, |Empties(n)|);
    BytesOfCollections(HDR_BITS + FIELD_BITS, n,
                       |Frames(Empties(n), model, ShortCadence, cfg, HeaderSize(cfg.cmpMode))|);
    BoundIsLeast(Empties(n), cfg.cmpMode);
  }

  lemma BytesOfCollections(bits: nat, n: nat, all: nat)
    requires bits % 8 == 0 && all == bits * n
    ensures all % 8 == 0 && all / 8 == bits / 8 * n
  {
    assert all == 8 * (bits / 8 * n);
  }

  // ----- the compressed size as capacity

  function WholeWords(size: nat): (w: nat)
    ensures size <= w < size + 4 && w % 4 == 0
  {
    (size + 3) / 4 * 4
  }

  lemma WordsOfCapacity(end: nat, bits: nat, capacity: nat)
    requires bits <= 8 * end && WholeWords(end) <= capacity
    ensures bits <= SizeToBits(capacity)
  {
  }

  lemma BytesOfWords(bits: nat, start: nat, capacity: nat)
    requires 8 * start + bits <= SizeToBits(capacity)
    ensures start + (bits + BytePad(bits)) / 8 <= capacity
  {
  }

  /** A payload needs its own size, and no more than that in whole words. */
  lemma PayloadNeeds(data: Bits, model: Bits, n: nat, loop: LoopCfg, start: nat, capacity: nat)
    requires Codable(data, model, n, loop) && |data| % 8 == 0 && (n > 0 ==> |data| >= 8)
    ensures var end := start + |Payload(data, model, n, loop, start)| / 8;
            && (PayloadFits(data, model, n, loop, start, capacity) && start <= capacity ==> end <= capacity)
            && (WholeWords(end) <= capacity ==> PayloadFits(data, model, n, loop, start, capacity))
  {
    hide Codable, Payload, PayloadFits, IsCoded, Stream, BytePad, WholeWords;
    PayloadInBytes(data, model, n, loop, start, capacity);
    if n > 0 {
      RoomFor(|Stream(data, model, n, loop)|, |data| / 8, start, capacity, IsCoded(data, model, n, loop, start));
    }
  }

  lemma PayloadInBytes(data: Bits, model: Bits, n: nat, loop: LoopCfg, start: nat, capacity: nat)
    requires Codable(data, model, n, loop) && |data| % 8 == 0 && (n > 0 ==> |data| >= 8)
    ensures n == 0 ==>
              && |Payload(data, model, n, loop, start)| == 0 && PayloadFits(data, model, n, loop, start, capacity)
    ensures n > 0 ==>
              var s, coded := |Stream(data, model, n, loop)|, IsCoded(data, model, n, loop, start);
              && (coded <==> 8 * start + s <= SizeToBits(start + |data| / 8 - 1))
              && |Payload(data, model, n, loop, start)| / 8 == (if coded then (s + BytePad(s)) / 8 else |data| / 8)
              && (PayloadFits(data, model, n, loop, start, capacity) <==>
                    start + |data| / 8 <= capacity || 8 * start + s <= SizeToBits(capacity))
  {
    NoSamplesNoData(data, model, n, loop);
    hide Codable, Stream, SizeToBits, BytePad;
  }

  /** A stream of s bits that is coded if it ends a word before the size bytes of the data do. */
  lemma RoomFor(s: nat, size: nat, start: nat, capacity: nat, coded: bool)
    requires size >= 1 && (coded <==> 8 * start + s <= SizeToBits(start + size - 1))
    ensures var end := start + if coded then (s + BytePad(s)) / 8 else size;
            var fits := start + size <= capacity || 8 * start + s <= SizeToBits(capacity);
            (fits && start <= capacity ==> end <= capacity) && (WholeWords(end) <= capacity ==> fits)
  {
    hide SizeToBits, BytePad, WholeWords;
    if 8 * start + s <= SizeToBits(capacity) {
      BytesOfWords(s, start, capacity);
      if !coded && capacity < start + size {
        WordsMonotone(capacity, start + size - 1);
      }
    }
    if coded {
      var end := start + (s + BytePad(s)) / 8;
      if WholeWords(end) <= capacity {
        WordsOfCapacity(end, 8 * start + s, capacity);
      }
      WordsBefore(start, size, s);
    }
  }

  lemma NoSamplesNoData(data: Bits, model: Bits, n: nat, loop: LoopCfg)
    requires Codable(data, model, n, loop)
    ensures n == 0 ==> data == []
  {
  }

  lemma ColNeeds(b: Bits, model: Option<Bits>, ct: ChunkType, cfg: Cfg, at: nat, capacity: nat)
    requires |b| >= HDR_BITS && cfg.WellFormed() && !ct.UnknownChunk? && ModelMatches(b, model)
    requires ColError(b, ct, cfg, model.Some?).None?
    ensures var end := at + |ColFrame(b, model, ct, cfg, at)| / 8;
            && (ColFits(b, model, ct, cfg, at, capacity) ==> end <= capacity)
            && (WholeWords(end) <= capacity ==> ColFits(b, model, ct, cfg, at, capacity))
  {
    hide ColError, Codable, TypeOf, DataLength, WholeWords, Payload, PayloadFits, ColPayload, Samples, Cfg.Loop;
    if cfg.cmpMode != CMP_MODE_RAW {
      FrameNeeds(b, model, ct, cfg, at, capacity);
    }
  }

  lemma FrameNeeds(b: Bits, model: Option<Bits>, ct: ChunkType, cfg: Cfg, at: nat, capacity: nat)
    requires |b| >= HDR_BITS && cfg.WellFormed() && !ct.UnknownChunk? && ModelMatches(b, model)
    requires ColError(b, ct, cfg, model.Some?).None? && cfg.cmpMode != CMP_MODE_RAW
    ensures var end := at + |ColFrame(b, model, ct, cfg, at)| / 8;
            && (ColFits(b, model, ct, cfg, at, capacity) ==> end <= capacity)
            && (WholeWords(end) <= capacity ==> ColFits(b, model, ct, cfg, at, capacity))
  {
    hide ColError, Codable, TypeOf, DataLength, WholeWords, Payload, PayloadFits, ColPayload, Samples, Cfg.Loop,
      ColFrame, ColFits, Frame;
    PayloadReady(b, model, ct, cfg);
    ColPayloadSize(b, model, ct, cfg, at + FRAME_HDR_SIZE);
    FrameOf(b, model, ct, cfg, at, capacity);
    FrameBytes(b, ColPayload(b, model, ct, cfg, at + FRAME_HDR_SIZE));
    PayloadNeeds(ColData(b), ModelData(b, model), Samples(b), cfg.Loop(TypeOf(b)), at + FRAME_HDR_SIZE, capacity);
  }

  lemma {:induction false} FramesNeed(b: Bits, model: Option<Bits>, ct: ChunkType, cfg: Cfg, at: nat, capacity: nat)
    requires Accepted(b, model, ct, cfg) && at <= capacity
    ensures var end := at + |Frames(b, model, ct, cfg, at)| / 8;
            && (!RunsOut(b, model, ct, cfg, at, capacity) ==> end <= capacity)
            && (WholeWords(end) <= capacity ==> !RunsOut(b, model, ct, cfg, at, capacity))
    decreases |b|
  {
    hide ColFrame, ColBits, ColError, ChunkError, Frames, RunsOut, ColFits, WholeWords;
    if b == [] {
      NothingFramedAtAll(model, ct, cfg, at);
      RunsOutStep(b, model, ct, cfg, at, capacity);
    } else {
      NotEmptyIsACollection(b, model, ct, cfg);
      var f := ColFrame(b, model, ct, cfg, at);
      ColFrameSize(b, model, ct, cfg, at);
      FramesStep(b, model, ct, cfg, at, at + |f| / 8);
      RunsOutStep(b, model, ct, cfg, at, capacity);
      ColNeeds(b, model, ct, cfg, at, capacity);
      WordsGrow(at + |f| / 8, at + |Frames(b, model, ct, cfg, at)| / 8);
      if at + |f| / 8 <= capacity {
        FramesNeed(b[ColBits(b)..], ModelAfter(b, model), ct, cfg, at + |f| / 8, capacity);
      }
    }
  }

  lemma WordsGrow(a: nat, b: nat)
    requires a <= b
    ensures WholeWords(a) <= WholeWords(b)
  {
  }

  /** An accepted chunk is compressed into any buffer that holds its compressed size in whole words,
      and into none that does not hold the compressed size. */
  lemma CapacityNeeded(before: Bits, after: Bits, capacity: nat, chunk: Bits, model: Option<Bits>, ct: ChunkType,
                       cfg: Cfg, clock: Clock, r: Result<nat>, h: Option<Header>)
    requires Accepted(chunk, model, ct, cfg)
    requires ChunkPut(false, before, after, capacity, chunk, model, ct, cfg, clock, r, h)
    ensures capacity >= WholeWords(CompressedSize(chunk, model, ct, cfg)) ==> r != Err(SmallBuffer)
    ensures r != Err(SmallBuffer) ==> capacity >= CompressedSize(chunk, model, ct, cfg)
  {
    hide Frames, ChunkError, Appended, BuildHeader, RunsOut, WholeWords, NumCols;
    if capacity >= HeaderSize(cfg.cmpMode) {
      FramesNeed(chunk, model, ct, cfg, HeaderSize(cfg.cmpMode), capacity);
    }
  }

  /** A query tells how large the destination of the following run has to be, unless it updated the
      model in place in a model mode. */
  lemma QueryGivesCapacity(buffer: Bits, before: Bits, after: Bits, chunk: Bits, model: Option<Bits>, ct: ChunkType,
                           cfg: Cfg, clock: Clock, query: Result<nat>, run: Result<nat>, hq: Option<Header>,
                           hr: Option<Header>)
    requires cfg.WellFormed() && !ct.UnknownChunk? && ModelMatches(chunk, model) && |chunk| % 8 == 0 && query.Ok?
    requires ChunkPut(true, buffer, buffer, 0, chunk, model, ct, cfg, clock, query, hq)
    requires ChunkPut(false, before, after, WholeWords(query.value), chunk, model, ct, cfg, clock, run, hr)
    ensures run == if !HeaderFits(cfg, |chunk| / 8, query.value) then Err(EntityHeader)
                   else if !clock.Fit() then Err(EntityTimestamp)
                   else query
  {
    hide Frames, ChunkError, Appended, HeaderFits, RunsOut, WholeWords, NumCols;
    CapacityNeeded(before, after, WholeWords(query.value), chunk, model, ct, cfg, clock, run, hr);
  }
}
