/** The decoder undoes the encoder. */
module Entities {
  import opened BitStrings
  import opened Results
  import opened Golomb
  import opened Streams
  import opened Memory
  import opened DataTypes
  import opened Config
  import opened Parameters
  import opened Chunks

  /** get_cmp_collection_data_length: the length field that starts a frame, in bytes. */
  function LengthField(s: Bits): nat
    requires |s| >= FIELD_BITS
  {
    FromBits(s[..FIELD_BITS])
  }

  /** get_cmp_collection_size, in bits. */
  function FrameBits(s: Bits): (n: nat)
    requires |s| >= FIELD_BITS
    ensures n >= FIELD_BITS + HDR_BITS
  {
    FIELD_BITS + HDR_BITS + 8 * LengthField(s)
  }

  /** get_num_of_chunks: the number of frames, if the last one ends where the data end. */
  function FrameCount(s: Bits): Option<nat>
    decreases |s|
  {
    if |s| <= HDR_BITS then if s == [] then Some(0) else None
    else if FrameBits(s) > |s| then None
    else
      var more := FrameCount(s[FrameBits(s)..]);
      if more.None? then None else Some(more.value + 1)
  }

  /** The decoded data of a collection and the updated model, none without a model. */
  datatype Data = Data(data: Bits, up: Bits)

  function ModelRecords(model: Bits, n: nat, loop: LoopCfg): (m: seq<Record>)
    requires loop.modelMode ==> |model| == Times(n, SampleBits(loop.setups))
    ensures loop.modelMode ==> |m| == n && AllFit(m, loop.setups)
  {
    if loop.modelMode then RecordsOf(model, n, loop.setups) else []
  }

  function DecodeSamples(payload: Bits, models: seq<Record>, n: nat, loop: LoopCfg): (r: StreamResult)
    requires loop.Valid() && n > 0 && (loop.modelMode ==> |models| == n && AllFit(models, loop.setups))
    ensures r.DecodedStream? ==> |r.recs| == n && AllFit(r.recs, loop.setups)
  {
    DecodedStreamFits(payload, n - 1, models, loop, []);
    DecodeStream(payload, n - 1, models, loop, [])
  }

  /** The decoding loop on the payload of n samples. Without samples it still looks for one, so
      it cannot succeed. */
  function DecodePayload(payload: Bits, model: Bits, n: nat, loop: LoopCfg): (r: Option<Data>)
    requires loop.Valid()
    requires loop.modelMode ==> |model| == Times(AtLeastOne(n), SampleBits(loop.setups))
    ensures r.Some? ==> n > 0 && |r.value.data| == Times(n, SampleBits(loop.setups))
    ensures r.Some? && loop.modelMode ==> |r.value.up| == Times(n, SampleBits(loop.setups))
  {
    var models := ModelRecords(model, AtLeastOne(n), loop);
    var r := DecodeSamples(payload, models, AtLeastOne(n), loop);
    if r.CorruptStream? || n == 0 then None
    else Some(Data(BitsOfAll(r.recs, loop.setups),
                   if loop.modelMode then BitsOfAll(UpRecords(r.recs, models, loop), loop.setups) else []))
  }

  predicate Lossless(loop: LoopCfg) {
    forall f :: 0 <= f < |loop.setups| ==> loop.setups[f].round == 0
  }

  /** A coded payload, with its padding, decodes to the data, and both sides update the model alike. */
  lemma PayloadRoundTrip(data: Bits, model: Bits, n: nat, loop: LoopCfg, start: nat)
    requires Codable(data, model, n, loop) && Lossless(loop) && IsCoded(data, model, n, loop, start)
    ensures DecodePayload(Payload(data, model, n, loop, start), model, n, loop)
            == Some(Data(data, if loop.modelMode then UpdatedModel(data, model, n, loop, start) else []))
  {
    hide StreamBits, DecodeStream, RoundedRecords, RecordsOf, BitsOfAll, UpRecords, BytePad, RecordFits, SampleBits,
      Times;
    var (recs, models) := Records(data, model, n, loop);
    var pad := Zeros(BytePad(|StreamBits(recs, models, loop, 0)|));
    StreamRoundTrip(recs, models, loop, 0, pad);
    assert RoundedRecords(recs, loop.setups)[..0] == [];
    LosslessRecords(recs, loop.setups);
    BitsOfAllRecordsOf(data, n, loop.setups);
  }

  // ----- one frame

  datatype ColResult = BadCol | GoodCol(col: Bits, up: Bits)

  /** What is wrong with the frame whose collection header starts h, given the room left for it. */
  predicate FrameIsBad(h: Bits, size: nat, room: nat)
    requires |h| >= HDR_BITS
  {
    || size > DataLength(h)
    || SampleSize(TypeOf(h)) == 0
    || DataLength(h) % SampleSize(TypeOf(h)) != 0
    || ColBits(h) > room
  }

  /** parse_cmp_collection and decompressed_data_internal for the frame that starts s. */
  function DecodeCol(s: Bits, model: Option<Bits>, cfg: Cfg, room: nat): (r: ColResult)
    requires |s| >= FIELD_BITS + HDR_BITS && FrameBits(s) <= |s|
    requires cfg.WellFormed() && !cfg.GenParIsInvalid() && cfg.cmpMode != CMP_MODE_RAW
    requires model.Some? ==> |model.value| == room
    ensures r.GoodCol? ==> |r.col| <= room && |r.col| == ColBits(s[FIELD_BITS..])
  {
    var size, h := LengthField(s), s[FIELD_BITS..];
    var dt := TypeOf(h);
    if FrameIsBad(h, size, room) then BadCol
    else if size == DataLength(h) then
      GoodCol(h[..ColBits(h)], if ModelModeIsUsed(cfg.cmpMode) then h[..ColBits(h)] else [])
    else if cfg.SpecificIsInvalid(dt) || (ModelModeIsUsed(cfg.cmpMode) && model.None?) || IsFastCadence(dt) then BadCol
    else
      DecodableFrame(h, cfg, size);
      var d := DecodePayload(h[HDR_BITS..HDR_BITS + 8 * size],
                             if model.Some? then model.value[HDR_BITS..ColBits(h)] else [],
                             Samples(h), cfg.Loop(dt));
      if d.None? then BadCol
      else GoodCol(h[..HDR_BITS] + d.value.data,
                   if ModelModeIsUsed(cfg.cmpMode) then h[..HDR_BITS] + d.value.up else [])
  }

  lemma DecodableFrame(h: Bits, cfg: Cfg, size: nat)
    requires |h| >= HDR_BITS && size < DataLength(h) && !FrameIsBad(h, size, ColBits(h))
    requires cfg.WellFormed() && !cfg.GenParIsInvalid() && !cfg.SpecificIsInvalid(TypeOf(h))
    requires cfg.cmpMode != CMP_MODE_RAW
    ensures 0 < Samples(h) <= 0xFFFF && cfg.Loop(TypeOf(h)).Valid()
    ensures 8 * DataLength(h) == Times(Samples(h), SampleBits(cfg.Loop(TypeOf(h)).setups))
  {
    hide Layout, SampleBits, DataTypeOf, WidthSum, DataLength;
    var dt, n := TypeOf(h), Samples(h);
    ChecksAreExact(cfg, dt);
    SampleBitsAre(cfg, dt);
    SampleSizeIsLayout(dt);
    TimesIsProduct(n, 8 * SampleSize(dt));
    WholeSamples(DataLength(h), SampleSize(dt), n);
  }

  /** The parts of a frame are found again. */
  lemma FrameParts(b: Bits, p: Bits, t: Bits)
    requires |b| >= HDR_BITS && |p| % 8 == 0 && |p| <= 8 * 0xFFFF
    ensures var s := Frame(b, p) + t;
            var h := s[FIELD_BITS..];
            && LengthField(s) == |p| / 8 && FrameBits(s) == |Frame(b, p)| <= |s|
            && s[FrameBits(s)..] == t
            && h == b[..HDR_BITS] + (p + t)
  {
    hide ToBits, FromBits;
    var s, field := Frame(b, p) + t, ToBits(|p| / 8, FIELD_BITS);
    assert s == field + (b[..HDR_BITS] + (p + t));
    assert s[..FIELD_BITS] == field;
    Pow2Values();
    FromToBits(|p| / 8, FIELD_BITS);
  }

  /** A collection header says the same wherever it stands. */
  lemma SameHeader(b: Bits, rest: Bits)
    requires |b| >= HDR_BITS
    ensures var h := b[..HDR_BITS] + rest;
            && DataLength(h) == DataLength(b) && TypeOf(h) == TypeOf(b) && ColBits(h) == ColBits(b)
            && h[..HDR_BITS] == b[..HDR_BITS]
  {
    hide FromBits, DataTypeOf;
    var h := b[..HDR_BITS] + rest;
    assert h[80..96] == b[80..96] && h[65..71] == b[65..71];
  }

  /** Preconditions shared by the lemmas about one collection. */
  predicate Checked(b: Bits, model: Option<Bits>, ct: ChunkType, cfg: Cfg) {
    && |b| >= HDR_BITS && cfg.WellFormed() && !ct.UnknownChunk? && ModelMatches(b, model)
    && ColError(b, ct, cfg, model.Some?).None? && cfg.cmpMode != CMP_MODE_RAW && cfg.round == 0
  }

  function UpdateOf(b: Bits, model: Option<Bits>, ct: ChunkType, cfg: Cfg, at: nat): Bits
    requires Checked(b, model, ct, cfg)
  {
    if ModelModeIsUsed(cfg.cmpMode) then ColUpdate(b, model, ct, cfg, at) else []
  }

  /** The decoder gives back the collection that starts b and computes the encoder's updated model. */
  lemma ColRoundTrip(b: Bits, model: Option<Bits>, ct: ChunkType, cfg: Cfg, at: nat, t: Bits)
    requires Checked(b, model, ct, cfg)
    ensures var s := ColFrame(b, model, ct, cfg, at) + t;
            && |s| > HDR_BITS && FrameBits(s) == |ColFrame(b, model, ct, cfg, at)| <= |s| && s[FrameBits(s)..] == t
            && DecodeCol(s, model, cfg, |b|) == GoodCol(b[..ColBits(b)], UpdateOf(b, model, ct, cfg, at))
  {
    hide Frame, LengthField, FrameBits, ColPayload, UpdateOf, DataLength, DecodeCol;
    var start := at + FRAME_HDR_SIZE;
    var p := ColPayload(b, model, ct, cfg, start);
    ColPayloadSize(b, model, ct, cfg, start);
    FrameParts(b, p, t);
    SameHeader(b, p + t);
    if |p| == 8 * DataLength(b) {
      RawColRoundTrip(b, model, ct, cfg, at, t, Frame(b, p) + t);
    } else {
      CodedColRoundTrip(b, model, ct, cfg, at, t, Frame(b, p) + t);
    }
  }

  lemma RawColRoundTrip(b: Bits, model: Option<Bits>, ct: ChunkType, cfg: Cfg, at: nat, t: Bits, s: Bits)
    requires Checked(b, model, ct, cfg)
    requires |s| >= FIELD_BITS + HDR_BITS && FrameBits(s) <= |s|
    requires var start := at + FRAME_HDR_SIZE;
             var p := ColPayload(b, model, ct, cfg, start);
             && |p| == 8 * DataLength(b) && LengthField(s) == DataLength(b)
             && s[FIELD_BITS..] == b[..HDR_BITS] + (p + t)
    requires var h := s[FIELD_BITS..];
             DataLength(h) == DataLength(b) && TypeOf(h) == TypeOf(b) && h[..HDR_BITS] == b[..HDR_BITS]
    ensures DecodeCol(s, model, cfg, |b|) == GoodCol(b[..ColBits(b)], UpdateOf(b, model, ct, cfg, at))
  {
    hide LengthField, DataLength, TypeOf, SampleSize, Stream, SampleBits, Times, Codable, Cfg.Loop, Samples, ModelData,
      Cfg.GenParIsInvalid, Cfg.SpecificIsInvalid, IsCoded;
    var start := at + FRAME_HDR_SIZE;
    ColIsCodable(b, model, ct, cfg);
    PayloadSize(ColData(b), ModelData(b, model), Samples(b), cfg.Loop(TypeOf(b)), start);
    assert s[FIELD_BITS..][..ColBits(b)] == b[..HDR_BITS] + ColData(b) == b[..ColBits(b)];
  }

  lemma NoRounding(cfg: Cfg, dt: DataType)
    requires cfg.WellFormed() && cfg.round == 0
    ensures Lossless(cfg.Loop(dt))
  {
  }

  lemma CodedColRoundTrip(b: Bits, model: Option<Bits>, ct: ChunkType, cfg: Cfg, at: nat, t: Bits, s: Bits)
    requires Checked(b, model, ct, cfg)
    requires |s| >= FIELD_BITS + HDR_BITS && FrameBits(s) <= |s|
    requires var start := at + FRAME_HDR_SIZE;
             var p := ColPayload(b, model, ct, cfg, start);
             && |p| % 8 == 0 && |p| < 8 * DataLength(b) && LengthField(s) == |p| / 8
             && s[FIELD_BITS..] == b[..HDR_BITS] + (p + t)
    requires var h := s[FIELD_BITS..];
             DataLength(h) == DataLength(b) && TypeOf(h) == TypeOf(b) && h[..HDR_BITS] == b[..HDR_BITS]
    ensures DecodeCol(s, model, cfg, |b|) == GoodCol(b[..ColBits(b)], UpdateOf(b, model, ct, cfg, at))
  {
    hide LengthField, DataLength, TypeOf, SampleSize, Stream, SampleBits, Times, DecodePayload, ColError,
      Cfg.GenParIsInvalid, Cfg.SpecificIsInvalid, Codable, IsCoded, Lossless, AtLeastOne, IsFastCadence, Payload,
      UpdatedModel;
    var start := at + FRAME_HDR_SIZE;
    var p, h := ColPayload(b, model, ct, cfg, start), s[FIELD_BITS..];
    var data, m, n, loop := ColData(b), ModelData(b, model), Samples(b), cfg.Loop(TypeOf(b));
    ColIsCodable(b, model, ct, cfg);
    PayloadSize(data, m, n, loop, start);
    NoRounding(cfg, TypeOf(b));
    PayloadRoundTrip(data, m, n, loop, start);
    assert h[HDR_BITS..HDR_BITS + |p|] == p;
    assert b[..HDR_BITS] + data == b[..ColBits(b)];
  }

  // ----- a whole chunk

  /** decompress_cmp_entiy's loop over the frames, with room bits of output left. */
  function DecodeFrames(s: Bits, model: Option<Bits>, cfg: Cfg, room: nat): (r: Option<Data>)
    requires FrameCount(s).Some?
    requires cfg.WellFormed() && !cfg.GenParIsInvalid() && cfg.cmpMode != CMP_MODE_RAW
    requires model.Some? ==> |model.value| == room
    ensures r.Some? ==> |r.value.data| <= room
    decreases |s|
  {
    if s == [] then Some(Data([], []))
    else
      var c := DecodeCol(s, model, cfg, room);
      if c.BadCol? then None
      else
        var next := if model.Some? then Some(model.value[|c.col|..]) else None;
        var more := DecodeFrames(s[FrameBits(s)..], next, cfg, room - |c.col|);
        if more.None? then None else Some(Data(c.col + more.value.data, c.up + more.value.up))
  }

  predicate Sound(b: Bits, model: Option<Bits>, ct: ChunkType, cfg: Cfg) {
    && Accepted(b, model, ct, cfg)
    && cfg.cmpMode != CMP_MODE_RAW && !cfg.GenParIsInvalid() && cfg.round == 0
  }

  function ChunkUpdates(b: Bits, model: Option<Bits>, ct: ChunkType, cfg: Cfg, at: nat): Bits
    requires Sound(b, model, ct, cfg)
  {
    if ModelModeIsUsed(cfg.cmpMode) then Updates(b, model, ct, cfg, at) else []
  }

  /** For every accepted chunk, walking the compressed data finds exactly its collections and
      decoding returns exactly the chunk, with the updated model the encoder computed. */
  lemma {:induction false} ChunkRoundTrip(b: Bits, model: Option<Bits>, ct: ChunkType, cfg: Cfg, at: nat)
    requires Sound(b, model, ct, cfg)
    ensures FrameCount(Frames(b, model, ct, cfg, at)) == Some(NumCols(b))
    ensures DecodeFrames(Frames(b, model, ct, cfg, at), model, cfg, |b|)
            == Some(Data(b, ChunkUpdates(b, model, ct, cfg, at)))
    decreases |b|
  {
    hide ColFrame, ColUpdate, ColBits, DecodeCol, FrameBits, ColError, Cfg.GenParIsInvalid, ModelMatches, ChunkUpdates,
      UpdateOf, Frames, FrameCount, DecodeFrames, NumCols;
    if b == [] {
      EmptyRoundTrip(model, ct, cfg, at);
    } else {
      var f := ColFrame(b, model, ct, cfg, at);
      var rest, model' := b[ColBits(b)..], ModelAfter(b, model);
      var t := Frames(rest, model', ct, cfg, at + |f| / 8);
      ChunkRoundTrip(rest, model', ct, cfg, at + |f| / 8);
      ColRoundTrip(b, model, ct, cfg, at, t);
      ChunkStep(b, model, ct, cfg, at, f, rest, model', t);
    }
  }

  lemma EmptyRoundTrip(model: Option<Bits>, ct: ChunkType, cfg: Cfg, at: nat)
    requires Sound([], model, ct, cfg)
    ensures FrameCount(Frames([], model, ct, cfg, at)) == Some(NumCols([]))
    ensures DecodeFrames(Frames([], model, ct, cfg, at), model, cfg, 0)
            == Some(Data([], ChunkUpdates([], model, ct, cfg, at)))
  {
  }

  lemma FrameCountStep(s: Bits, t: Bits)
    requires |s| > HDR_BITS && FrameBits(s) <= |s| && s[FrameBits(s)..] == t
    requires FrameCount(t).Some?
    ensures FrameCount(s) == Some(FrameCount(t).value + 1)
  {
  }

  lemma DecodeFramesStep(s: Bits, model: Option<Bits>, cfg: Cfg, room: nat, c: ColResult, t: Bits, next: Option<Bits>,
                         more: Data)
    requires |s| > HDR_BITS && FrameBits(s) <= |s| && s[FrameBits(s)..] == t && FrameCount(s).Some?
    requires FrameCount(t).Some?
    requires cfg.WellFormed() && !cfg.GenParIsInvalid() && cfg.cmpMode != CMP_MODE_RAW
    requires model.Some? ==> |model.value| == room
    requires c == DecodeCol(s, model, cfg, room) && c.GoodCol?
    requires next == if model.Some? then Some(model.value[|c.col|..]) else None
    requires DecodeFrames(t, next, cfg, room - |c.col|) == Some(more)
    ensures DecodeFrames(s, model, cfg, room) == Some(Data(c.col + more.data, c.up + more.up))
  {
    hide DecodeCol, FrameBits, FrameCount;
  }

  lemma ChunkUpdatesStep(b: Bits, model: Option<Bits>, ct: ChunkType, cfg: Cfg, at: nat, at': nat)
    requires Sound(b, model, ct, cfg) && b != [] && at' == at + |ColFrame(b, model, ct, cfg, at)| / 8
    requires Sound(b[ColBits(b)..], ModelAfter(b, model), ct, cfg)
    ensures ChunkUpdates(b, model, ct, cfg, at)
            == UpdateOf(b, model, ct, cfg, at) + ChunkUpdates(b[ColBits(b)..], ModelAfter(b, model), ct, cfg, at')
  {
    hide ColFrame, ColUpdate, ColBits, ColError, Cfg.GenParIsInvalid, ModelAfter, ModelMatches, Cfg.SpecificIsInvalid;
  }

  lemma FramesStep(b: Bits, model: Option<Bits>, ct: ChunkType, cfg: Cfg, at: nat, at': nat)
    requires Accepted(b, model, ct, cfg) && b != [] && at' == at + |ColFrame(b, model, ct, cfg, at)| / 8
    ensures Accepted(b[ColBits(b)..], ModelAfter(b, model), ct, cfg)
    ensures Frames(b, model, ct, cfg, at)
            == ColFrame(b, model, ct, cfg, at) + Frames(b[ColBits(b)..], ModelAfter(b, model), ct, cfg, at')
    ensures NumCols(b) == NumCols(b[ColBits(b)..]) + 1
  {
    hide ColFrame, ColBits, ColError, ModelMatches, ModelAfter, DataLength, TypeOf, SampleSize, Cfg.SpecificIsInvalid;
  }

  lemma ChunkStep(b: Bits, model: Option<Bits>, ct: ChunkType, cfg: Cfg, at: nat, f: Bits, rest: Bits,
                  model': Option<Bits>, t: Bits)
    requires Sound(b, model, ct, cfg) && |b| >= HDR_BITS && ColError(b, ct, cfg, model.Some?).None?
    requires f == ColFrame(b, model, ct, cfg, at) && rest == b[ColBits(b)..] && model' == ModelAfter(b, model)
    requires Sound(rest, model', ct, cfg) && t == Frames(rest, model', ct, cfg, at + |f| / 8)
    requires FrameCount(t) == Some(NumCols(rest))
    requires DecodeFrames(t, model', cfg, |rest|) == Some(Data(rest, ChunkUpdates(rest, model', ct, cfg, at + |f| / 8)))
    requires |f + t| > HDR_BITS && FrameBits(f + t) == |f| <= |f + t| && (f + t)[FrameBits(f + t)..] == t
    requires DecodeCol(f + t, model, cfg, |b|) == GoodCol(b[..ColBits(b)], UpdateOf(b, model, ct, cfg, at))
    ensures Frames(b, model, ct, cfg, at) == f + t
    ensures FrameCount(f + t) == Some(NumCols(b))
    ensures DecodeFrames(f + t, model, cfg, |b|) == Some(Data(b, ChunkUpdates(b, model, ct, cfg, at)))
  {
    hide ColFrame, ColBits, DecodeCol, FrameBits, ColError, DecodeFrames, FrameCount, Frames, ChunkUpdates, UpdateOf,
      NumCols, Cfg.GenParIsInvalid, Cfg.SpecificIsInvalid, ChunkError;
    FramesStep(b, model, ct, cfg, at, at + |f| / 8);
    FrameCountStep(f + t, t);
    ChunkUpdatesStep(b, model, ct, cfg, at, at + |f| / 8);
    DecodeFramesStep(f + t, model, cfg, |b|, GoodCol(b[..ColBits(b)], UpdateOf(b, model, ct, cfg, at)), t, model',
                     Data(rest, ChunkUpdates(rest, model', ct, cfg, at + |f| / 8)));
    assert b == b[..ColBits(b)] + rest;
  }

  // ----- a compression entity

  predicate HeaderIsWellFormed(h: Header) {
    |h.slots| == 6
  }

  /** What decompress_cmp_entiy makes of a chunk entity. */
  function DecodeEntity(h: Header, data: Bits, model: Option<Bits>): (r: Option<Data>)
    requires HeaderIsWellFormed(h) && |data| == 8 * DataSize(h)
    requires model.Some? ==> |model.value| == 8 * h.originalSize
    ensures r.Some? ==> |r.value.data| <= 8 * h.originalSize
  {
    if h.originalSize == 0 then Some(Data([], []))
    else
      var read := ReadHeader(h);
      if read.None? then None
      else if h.cmpMode == CMP_MODE_RAW then Some(Data(data, []))
      else if FrameCount(data).None? || FrameCount(data).value == 0 then None
      else DecodeFrames(data, model, read.value.0, 8 * h.originalSize)
  }
}
