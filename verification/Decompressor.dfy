/** decompress_cmp_entiy: the frames of an entity back into a chunk, and the updated model of
    every collection into its place, which may be the model's own. */
module Decompressor {
  import opened BitStrings
  import opened Results
  import opened Golomb
  import opened Streams
  import opened Memory
  import opened BitReader
  import opened BitWriter
  import opened Decoder
  import opened DataTypes
  import opened Config
  import opened Parameters
  import opened Chunks
  import opened Entities
  import opened Compressor
  import opened ChunkCompressor

  // ----- one collection

  /** What decoding a payload does to the buffers: data and updated model stand at bit position at. */
  predicate PayloadDecoded(d: Option<Data>, err: bool, dst: Bits, dst': Bits, noUpdate: bool, up: Bits, up': Bits,
                           at: nat, size: nat) {
    if d.None? then
      && err && Spoiled(dst, dst', at, at + size)
      && (if noUpdate then up' == up else Spoiled(up, up', at, at + size))
    else
      && !err && Written(dst, dst', at, d.value.data)
      && (if noUpdate then up' == up else Written(up, up', at, d.value.up))
  }

  /** There is room for the samples that are decoded. */
  predicate NoneBeyond(payload: Bits, model: Bits, n: nat, loop: LoopCfg)
    requires loop.Valid()
    requires loop.modelMode ==> |model| == Times(AtLeastOne(n), SampleBits(loop.setups))
  {
    n == 0 ==> DecodeSamples(payload, ModelRecords(model, 1, loop), 1, loop).CorruptStream?
  }

  lemma DecodedPayload(spec: StreamResult, err: bool, dst: Bits, dst': Bits, noUpdate: bool, up: Bits, up': Bits,
                       at: nat, n: nat, payload: Bits, model: Bits, loop: LoopCfg)
    requires loop.Valid() && (loop.modelMode || noUpdate)
    requires loop.modelMode ==> |model| == Times(AtLeastOne(n), SampleBits(loop.setups))
    requires spec == DecodeSamples(payload, ModelRecords(model, AtLeastOne(n), loop), AtLeastOne(n), loop)
    requires NoneBeyond(payload, model, n, loop)
    requires Decompressed(spec, err, dst, dst', noUpdate, up, up', at, n, ModelRecords(model, AtLeastOne(n), loop),
                          loop)
    ensures PayloadDecoded(DecodePayload(payload, model, n, loop), err, dst, dst', noUpdate, up, up', at,
                           Times(n, SampleBits(loop.setups)))
  {
    hide Written, Spoiled, DecodeSamples, ModelRecords, BitsOfAll, UpRecords, SampleBits, Times;
    if !err && !noUpdate {
      var models := ModelRecords(model, n, loop);
      assert models[..|spec.recs|] == models;
    }
  }

  /** The non-raw part of decompressed_data_internal. */
  method DecompressPayload(payload: Bits, n: nat, loop: LoopCfg, model: array?<bool>, updated: array?<bool>,
                           dst: array<bool>, at: nat)
    returns (err: bool)
    requires |payload| % 8 == 0 && n < TWO_32 && loop.Valid()
    requires loop.modelMode ==> model != null
    requires model != null ==> at + Times(AtLeastOne(n), SampleBits(loop.setups)) <= model.Length
    requires updated != null ==> loop.modelMode && at + Times(n, SampleBits(loop.setups)) <= updated.Length
    requires at + Times(n, SampleBits(loop.setups)) <= dst.Length && dst != model && dst != updated
    requires NoneBeyond(payload, ModelSlice(model, at, Times(AtLeastOne(n), SampleBits(loop.setups))), n, loop)
    modifies dst, updated
    ensures var m := old(ModelSlice(model, at, Times(AtLeastOne(n), SampleBits(loop.setups))));
            PayloadDecoded(DecodePayload(payload, m, n, loop), err, old(dst[..]), dst[..], updated == null,
                           old(Content(updated)), Content(updated), at, Times(n, SampleBits(loop.setups)))
  {
    hide Decompressed, SampleBits, Times, RecordsOf, PayloadDecoded, DecodePayload, BitDecoder.Valid, BitDecoder.Ready,
      BitDecoder.Rest, BitDecoder.Loaded, BitDecoder.Over, DecodeStream;
    ghost var before, upBefore := dst[..], Content(updated);
    ghost var m := ModelSlice(model, at, Times(AtLeastOne(n), SampleBits(loop.setups)));
    ghost var models := ModelRecords(m, AtLeastOne(n), loop);
    var dec := new BitDecoder(payload);
    err := DecompressLoop(dec, model, updated, dst, at, n, loop, models);
    DecodedPayload(DecodeSamples(payload, models, AtLeastOne(n), loop), err, before, dst[..], updated == null, upBefore,
                   Content(updated), at, n, payload, m, loop);
  }

  /** The outcome of one frame: the collection and its updated model stand at bit position at. */
  predicate CollectionDecoded(c: ColResult, err: bool, dst: Bits, dst': Bits, noUpdate: bool, up: Bits, up': Bits,
                              at: nat) {
    && (err <==> c.BadCol?)
    && (!err ==> Written(dst, dst', at, c.col))
    && (if noUpdate then up' == up else !err ==> Written(up, up', at, c.up))
  }

  lemma BadFrames(s: Bits, model: Option<Bits>, cfg: Cfg, room: nat)
    requires |s| >= FIELD_BITS + HDR_BITS && FrameBits(s) <= |s|
    requires cfg.WellFormed() && !cfg.GenParIsInvalid() && cfg.cmpMode != CMP_MODE_RAW
    requires model.Some? ==> |model.value| == room
    ensures var h := s[FIELD_BITS..];
            && (FrameIsBad(h, LengthField(s), room) ==> DecodeCol(s, model, cfg, room).BadCol?)
            && (&& LengthField(s) != DataLength(h)
                && (|| cfg.SpecificIsInvalid(TypeOf(h)) || (ModelModeIsUsed(cfg.cmpMode) && model.None?)
                    || IsFastCadence(TypeOf(h))) ==>
                  DecodeCol(s, model, cfg, room).BadCol?)
  {
    hide FrameIsBad, DataLength, TypeOf, LengthField, DecodePayload, Cfg.SpecificIsInvalid, SampleSize, Cfg.Loop,
      Samples;
  }

  lemma FrameFits(h: Bits, size: nat, room: nat)
    requires |h| >= HDR_BITS && !FrameIsBad(h, size, room)
    ensures size <= DataLength(h) && ColBits(h) <= room && !FrameIsBad(h, size, ColBits(h)) && SampleSize(TypeOf(h)) > 0
  {
    hide DataLength, TypeOf, SampleSize;
  }

  lemma RawDecoded(s: Bits, model: Option<Bits>, cfg: Cfg, room: nat, dst: Bits, dst': Bits, noUpdate: bool, up: Bits,
                   up': Bits, at: nat)
    requires |s| >= FIELD_BITS + HDR_BITS && FrameBits(s) <= |s|
    requires cfg.WellFormed() && !cfg.GenParIsInvalid() && cfg.cmpMode != CMP_MODE_RAW
    requires model.Some? ==> |model.value| == room
    requires var h := s[FIELD_BITS..];
             && !FrameIsBad(h, LengthField(s), room) && LengthField(s) == DataLength(h) && ColBits(h) <= |h|
             && Written(dst, dst', at, h[..ColBits(h)])
             && (if noUpdate then up' == up else Written(up, up', at, h[..ColBits(h)]) && ModelModeIsUsed(cfg.cmpMode))
    ensures CollectionDecoded(DecodeCol(s, model, cfg, room), false, dst, dst', noUpdate, up, up', at)
  {
    hide FrameIsBad, DataLength, TypeOf, LengthField, DecodePayload, Cfg.SpecificIsInvalid, SampleSize, Cfg.Loop,
      Samples, Written;
  }

  /** Header and decoded payload together are the decoded collection. */
  lemma CodedDecoded(s: Bits, model: Option<Bits>, cfg: Cfg, room: nat, err: bool, a: Bits, b: Bits, c: Bits,
                     noUpdate: bool, up: Bits, up': Bits, up'': Bits, at: nat)
    requires |s| >= FIELD_BITS + HDR_BITS && FrameBits(s) <= |s|
    requires cfg.WellFormed() && !cfg.GenParIsInvalid() && cfg.cmpMode != CMP_MODE_RAW
    requires model.Some? ==> |model.value| == room
    requires !noUpdate ==> ModelModeIsUsed(cfg.cmpMode)
    requires var h := s[FIELD_BITS..];
             && !FrameIsBad(h, LengthField(s), room) && LengthField(s) != DataLength(h)
             && !cfg.SpecificIsInvalid(TypeOf(h)) && (ModelModeIsUsed(cfg.cmpMode) ==> model.Some?)
             && !IsFastCadence(TypeOf(h))
    requires var h := s[FIELD_BITS..];
             && ColBits(h) <= room && HDR_BITS + 8 * LengthField(s) <= |h|
             && SampleSize(TypeOf(h)) > 0 && Samples(h) > 0 && cfg.Loop(TypeOf(h)).Valid()
             && 8 * DataLength(h) == Times(Samples(h), SampleBits(cfg.Loop(TypeOf(h)).setups))
    requires var h := s[FIELD_BITS..];
             && Written(a, b, at, h[..HDR_BITS])
             && (if noUpdate then up' == up else Written(up, up', at, h[..HDR_BITS]))
             && PayloadDecoded(DecodePayload(h[HDR_BITS..HDR_BITS + 8 * LengthField(s)],
                                             if model.Some? then model.value[HDR_BITS..ColBits(h)] else [],
                                             Samples(h), cfg.Loop(TypeOf(h))),
                               err, b, c, noUpdate, up', up'', at + HDR_BITS, 8 * DataLength(h))
    ensures CollectionDecoded(DecodeCol(s, model, cfg, room), err, a, c, noUpdate, up, up'', at)
  {
    hide FrameIsBad, DataLength, TypeOf, LengthField, Cfg.SpecificIsInvalid, SampleSize, Samples, Written, Spoiled,
      SampleBits, Times, DecodePayload;
    var h := s[FIELD_BITS..];
    var d := DecodePayload(h[HDR_BITS..HDR_BITS + 8 * LengthField(s)],
                           if model.Some? then model.value[HDR_BITS..ColBits(h)] else [],
                           Samples(h), cfg.Loop(TypeOf(h)));
    if d.Some? {
      WrittenTwice(a, b, c, at, h[..HDR_BITS], d.value.data);
      if !noUpdate {
        WrittenTwice(up, up', up'', at, h[..HDR_BITS], d.value.up);
      }
    }
  }

  /** parse_cmp_collection's checks and decompressed_data_internal for the frame that starts s. */
  method DecompressCollection(s: Bits, model: array?<bool>, updated: array?<bool>, dst: array<bool>, at: nat, cfg: Cfg,
                              room: nat)
    returns (err: bool)
    requires |s| >= FIELD_BITS + HDR_BITS && FrameBits(s) <= |s|
    requires cfg.WellFormed() && !cfg.GenParIsInvalid() && cfg.cmpMode != CMP_MODE_RAW
    requires model != null ==> model.Length == at + room
    requires updated != null ==> updated.Length == at + room
    requires at + room <= dst.Length && dst != model && dst != updated
    modifies dst, updated
    ensures var wanted := updated != null && ModelModeIsUsed(cfg.cmpMode);
            CollectionDecoded(DecodeCol(s, old(ModelBits(model, at, room)), cfg, room), err, old(dst[..]), dst[..],
                              !wanted, old(Content(updated)), Content(updated), at)
  {
    hide FrameIsBad, DataLength, TypeOf, LengthField, Written, Spoiled, DecodePayload, PayloadDecoded,
      Cfg.SpecificIsInvalid, SampleBits, Times, SampleSize, Samples, DecodeCol;
    ghost var before, modelBefore := dst[..], Content(model);
    ghost var m := ModelBits(model, at, room);
    ghost var spec := DecodeCol(s, m, cfg, room);
    var size, h := LengthField(s), s[FIELD_BITS..];
    var upModelBuf: array?<bool> := if ModelModeIsUsed(cfg.cmpMode) then updated else null;
    ghost var upStart := Content(upModelBuf);
    err := true;
    BadFrames(s, m, cfg, room);
    if FrameIsBad(h, size, room) {
      return;
    }
    FrameFits(h, size, room);
    if size == DataLength(h) {
      if upModelBuf != null {
        StoreBits(upModelBuf, at, h[..ColBits(h)]);
      }
      StoreBits(dst, at, h[..ColBits(h)]);
      RawDecoded(s, m, cfg, room, before, dst[..], upModelBuf == null, upStart, Content(upModelBuf), at);
      return false;
    }
    if cfg.SpecificIsInvalid(TypeOf(h)) || (ModelModeIsUsed(cfg.cmpMode) && model == null) {
      return;
    }
    CopyHeader(h, dst, at, upModelBuf, at);
    if IsFastCadence(TypeOf(h)) {
      return;
    }
    DecodableFrame(h, cfg, size);
    assert ColBits(h) == HDR_BITS + Times(Samples(h), SampleBits(cfg.Loop(TypeOf(h)).setups));
    ghost var framed, upFramed := dst[..], Content(upModelBuf);
    if model != null {
      BehindHeader(modelBefore, model[..], at, h[..HDR_BITS], room, ColBits(h));
      assert m.value == modelBefore[at..at + room];
      assert ModelSlice(model, at + HDR_BITS, Times(Samples(h), SampleBits(cfg.Loop(TypeOf(h)).setups)))
          == m.value[HDR_BITS..ColBits(h)];
    }
    err := DecompressPayload(h[HDR_BITS..HDR_BITS + 8 * size], Samples(h), cfg.Loop(TypeOf(h)), model, upModelBuf, dst,
                             at + HDR_BITS);
    CodedDecoded(s, m, cfg, room, err, before, framed, dst[..], upModelBuf == null, upStart, upFramed,
                 Content(upModelBuf), at);
  }

  // ----- an entity

  /** get_num_of_chunks. */
  method CountFrames(data: Bits) returns (count: Option<nat>)
    ensures count == FrameCount(data)
  {
    hide FrameBits;
    var p, n := 0, 0;
    assert data[0..] == data;
    while p + HDR_BITS < |data|
      invariant p <= |data| ==>
                  FrameCount(data) == match FrameCount(data[p..]) case None => None case Some(k) => Some(n + k)
      invariant p > |data| ==> FrameCount(data).None?
      decreases |data| - p
    {
      ghost var rest := data[p..];
      if p + FrameBits(rest) <= |data| {
        RestOfRest(data, p, FrameBits(rest));
      }
      p := p + FrameBits(data[p..]);
      n := n + 1;
    }
    if p != |data| {
      return None;
    }
    assert data[p..] == [];
    return Some(n);
  }

  /** The frames from number n on, and where the collection of frame n belongs in the chunk. */
  function FrameAt(s: Bits, n: nat): (r: (Bits, nat))
    requires FrameCount(s).Some? && n <= FrameCount(s).value
    ensures FrameCount(r.0) == Some(FrameCount(s).value - n)
    decreases n
  {
    if n == 0 then (s, 0)
    else
      var (rest, pos) := FrameAt(s, n - 1);
      (rest[FrameBits(rest)..], pos + ColBits(rest[FIELD_BITS..]))
  }

  /** parse_cmp_collection's way to frame n. */
  method FindFrame(data: Bits, n: nat) returns (s: Bits, decmpPos: nat)
    requires FrameCount(data).Some? && n < FrameCount(data).value
    ensures (s, decmpPos) == FrameAt(data, n)
    ensures FrameCount(s).Some? && FrameCount(s).value > 0
  {
    hide FrameBits, ColBits;
    s, decmpPos := data, 0;
    var i := 0;
    while i < n
      invariant i <= n && (s, decmpPos) == FrameAt(data, i)
    {
      assert FrameCount(s).Some? && FrameCount(s).value > 0;
      decmpPos := decmpPos + ColBits(s[FIELD_BITS..]);
      s := s[FrameBits(s)..];
      i := i + 1;
    }
  }

  /** The state of decompress_cmp_entiy's loop before frame i: done and ups are what it decoded so far. */
  ghost predicate Decoding(data: Bits, model: Option<Bits>, cfg: Cfg, room: nat, i: nat, done: Bits, ups: Bits) {
    && FrameCount(data).Some? && i <= FrameCount(data).value
    && cfg.WellFormed() && !cfg.GenParIsInvalid() && cfg.cmpMode != CMP_MODE_RAW
    && (model.Some? ==> |model.value| == room) && |done| <= room
    && FrameAt(data, i).1 == |done|
    && (if ModelModeIsUsed(cfg.cmpMode) then |ups| == |done| else ups == [])
    && DecodeFrames(data, model, cfg, room)
       == match DecodeFrames(FrameAt(data, i).0, ModelFrom(model, |done|), cfg, room - |done|)
          case None => None
          case Some(more) => Some(Data(done + more.data, ups + more.up))
  }

  lemma DecodingStarts(data: Bits, model: Option<Bits>, cfg: Cfg, room: nat)
    requires FrameCount(data).Some?
    requires cfg.WellFormed() && !cfg.GenParIsInvalid() && cfg.cmpMode != CMP_MODE_RAW
    requires model.Some? ==> |model.value| == room
    ensures Decoding(data, model, cfg, room, 0, [], [])
  {
    hide DecodeFrames, FrameCount;
    if model.Some? {
      assert model.value[0..] == model.value;
    }
    var r := DecodeFrames(data, model, cfg, room);
    if r.Some? {
      assert [] + r.value.data == r.value.data && [] + r.value.up == r.value.up;
    }
  }

  lemma DecodingFails(data: Bits, model: Option<Bits>, cfg: Cfg, room: nat, i: nat, done: Bits, ups: Bits, s: Bits,
                      c: ColResult)
    requires Decoding(data, model, cfg, room, i, done, ups) && i < FrameCount(data).value
    requires s == FrameAt(data, i).0 && |s| >= FIELD_BITS + HDR_BITS && FrameBits(s) <= |s|
    requires c == DecodeCol(s, ModelFrom(model, |done|), cfg, room - |done|) && c.BadCol?
    ensures DecodeFrames(data, model, cfg, room).None?
  {
    hide DecodeCol, FrameBits, FrameAt;
  }

  lemma DecodeFramesUnfold(s: Bits, model: Option<Bits>, cfg: Cfg, room: nat, c: ColResult)
    requires FrameCount(s).Some? && |s| >= FIELD_BITS + HDR_BITS && FrameBits(s) <= |s|
    requires FrameCount(s[FrameBits(s)..]).Some?
    requires cfg.WellFormed() && !cfg.GenParIsInvalid() && cfg.cmpMode != CMP_MODE_RAW
    requires model.Some? ==> |model.value| == room
    requires c == DecodeCol(s, model, cfg, room) && c.GoodCol?
    ensures DecodeFrames(s, model, cfg, room)
            == match DecodeFrames(s[FrameBits(s)..], ModelFrom(model, |c.col|), cfg, room - |c.col|)
               case None => None
               case Some(more) => Some(Data(c.col + more.data, c.up + more.up))
  {
    hide DecodeCol, FrameBits, FrameCount;
  }

  lemma NextFrame(s: Bits)
    requires FrameCount(s).Some?
    ensures FrameCount(s).value == 0 ==> s == []
    ensures FrameCount(s).value > 0 ==>
              && |s| >= FIELD_BITS + HDR_BITS && FrameBits(s) <= |s|
              && FrameCount(s[FrameBits(s)..]) == Some(FrameCount(s).value - 1)
  {
  }

  lemma NoFramesLeft(model: Option<Bits>, cfg: Cfg, room: nat)
    requires cfg.WellFormed() && !cfg.GenParIsInvalid() && cfg.cmpMode != CMP_MODE_RAW
    requires model.Some? ==> |model.value| == room
    ensures FrameCount([]).Some? && DecodeFrames([], model, cfg, room) == Some(Data([], []))
  {
  }

  lemma Associative(a: Bits, b: Bits, c: Bits)
    ensures a + (b + c) == a + b + c
  {
  }

  lemma ModelFromFrom(model: Option<Bits>, p: nat, n: nat)
    requires model.Some? ==> p + n <= |model.value|
    ensures ModelFrom(ModelFrom(model, p), n) == ModelFrom(model, p + n)
  {
  }

  lemma DecodingStep(data: Bits, model: Option<Bits>, cfg: Cfg, room: nat, i: nat, done: Bits, ups: Bits, s: Bits,
                     c: ColResult)
    requires Decoding(data, model, cfg, room, i, done, ups) && i < FrameCount(data).value
    requires s == FrameAt(data, i).0 && |s| >= FIELD_BITS + HDR_BITS && FrameBits(s) <= |s|
    requires c == DecodeCol(s, ModelFrom(model, |done|), cfg, room - |done|) && c.GoodCol?
    ensures Decoding(data, model, cfg, room, i + 1, done + c.col, ups + c.up)
  {
    hide DecodeCol, FrameBits, FrameCount, DecodeFrames, ColBits, ModelFrom;
    var m := ModelFrom(model, |done|);
    NextFrame(s);
    FrameAfter(data, i);
    DecodeFramesUnfold(s, m, cfg, room - |done|, c);
    ModelFromFrom(model, |done|, |c.col|);
    var r := DecodeFrames(s[FrameBits(s)..], ModelFrom(m, |c.col|), cfg, room - |done| - |c.col|);
    if r.Some? {
      Associative(done, c.col, r.value.data);
      Associative(ups, c.up, r.value.up);
    }
    UpdatesAreWhole(s, m, cfg, room - |done|, c);
  }

  lemma FrameAfter(data: Bits, i: nat)
    requires FrameCount(data).Some? && i < FrameCount(data).value
    ensures var s := FrameAt(data, i).0;
            && |s| >= FIELD_BITS + HDR_BITS && FrameBits(s) <= |s|
            && FrameAt(data, i + 1) == (s[FrameBits(s)..], FrameAt(data, i).1 + ColBits(s[FIELD_BITS..]))
  {
    hide FrameBits, ColBits, FrameCount;
    NextFrame(FrameAt(data, i).0);
  }

  lemma UpdatesAreWhole(s: Bits, model: Option<Bits>, cfg: Cfg, room: nat, c: ColResult)
    requires |s| >= FIELD_BITS + HDR_BITS && FrameBits(s) <= |s|
    requires cfg.WellFormed() && !cfg.GenParIsInvalid() && cfg.cmpMode != CMP_MODE_RAW
    requires model.Some? ==> |model.value| == room
    requires c == DecodeCol(s, model, cfg, room) && c.GoodCol?
    ensures if ModelModeIsUsed(cfg.cmpMode) then |c.up| == |c.col| else c.up == []
  {
    hide DataLength, TypeOf, LengthField, Cfg.SpecificIsInvalid, DecodePayload, SampleBits;
  }

  lemma DecodingEnds(data: Bits, model: Option<Bits>, cfg: Cfg, room: nat, done: Bits, ups: Bits)
    requires FrameCount(data).Some? && Decoding(data, model, cfg, room, FrameCount(data).value, done, ups)
    ensures DecodeFrames(data, model, cfg, room) == Some(Data(done, ups))
  {
    hide FrameAt, FrameCount, DecodeFrames, ModelFrom;
    NextFrame(FrameAt(data, FrameCount(data).value).0);
    NoFramesLeft(ModelFrom(model, |done|), cfg, room - |done|);
    assert done + [] == done && ups + [] == ups;
  }

  /** What stands in the buffers when done has been decoded. */
  ghost predicate StoredUpTo(dst: Bits, dst': Bits, noUpdate: bool, up: Bits, up': Bits, done: Bits, ups: Bits) {
    Written(dst, dst', 0, done) && (if noUpdate then up' == up else Written(up, up', 0, ups))
  }

  lemma StoredNext(a: Bits, b: Bits, c: Bits, noUpdate: bool, up: Bits, up': Bits, up'': Bits, done: Bits, ups: Bits,
                   r: ColResult)
    requires StoredUpTo(a, b, noUpdate, up, up', done, ups) && r.GoodCol? && (!noUpdate ==> |ups| == |done|)
    requires CollectionDecoded(r, false, b, c, noUpdate, up', up'', |done|)
    ensures StoredUpTo(a, c, noUpdate, up, up'', done + r.col, ups + r.up)
  {
    hide Written;
    WrittenTwice(a, b, c, 0, done, r.col);
    if !noUpdate {
      WrittenTwice(up, up', up'', 0, ups, r.up);
    }
  }

  /** Nothing of the model behind the decoded collection was touched. */
  lemma StoredBehind(m: Option<Bits>, model: Option<Bits>, model': Option<Bits>, c: ColResult, dst: Bits, dst': Bits,
                     noUpdate: bool, up: Bits, up': Bits, at: nat)
    requires Untouched(model, m, at) && c.GoodCol? && (!noUpdate ==> |c.up| == |c.col|)
    requires CollectionDecoded(c, false, dst, dst', noUpdate, up, up', at)
    requires model' == model || (!noUpdate && model.Some? && model'.Some? && model.value == up && model'.value == up')
    requires model.Some? ==> at + |c.col| <= |model.value|
    ensures Untouched(model', m, at + |c.col|)
  {
    hide Written, Untouched;
    ModelAhead(m, model, model', at, c.up, at + |c.col|);
  }

  /** The loop over the frames: frame i is searched from the start, decoded, and goes to its place. */
  method DecompressFrames(data: Bits, count: nat, model: array?<bool>, updated: array?<bool>, dst: array<bool>,
                          cfg: Cfg, room: nat)
    returns (ok: bool)
    requires FrameCount(data) == Some(count)
    requires cfg.WellFormed() && !cfg.GenParIsInvalid() && cfg.cmpMode != CMP_MODE_RAW
    requires model != null ==> model.Length == room
    requires updated != null ==> updated.Length == room
    requires dst.Length == room && dst != model && dst != updated
    modifies dst, updated
    ensures var spec := DecodeFrames(data, old(WholeModel(model)), cfg, room);
            && (ok <==> spec.Some?)
            && (ok ==> Written(old(dst[..]), dst[..], 0, spec.value.data))
            && (ok && updated != null && ModelModeIsUsed(cfg.cmpMode) ==>
                  Written(old(updated[..]), updated[..], 0, spec.value.up))
    ensures updated != null && !ModelModeIsUsed(cfg.cmpMode) ==> updated[..] == old(updated[..])
  {
    hide DecodeFrames, FrameCount, FrameAt, DecodeCol, FrameBits, Written, Cfg.GenParIsInvalid, ModelFrom,
      ModelModeIsUsed, CollectionDecoded, LoopAt;
    ghost var noUpdate := !(updated != null && ModelModeIsUsed(cfg.cmpMode));
    ghost var m, before, upBefore := WholeModel(model), dst[..], Content(updated);
    ghost var done: Bits, ups: Bits := [], [];
    LoopStarts(data, m, cfg, room, before, noUpdate, upBefore);
    var i := 0;
    while i < count
      invariant i <= count
      invariant LoopAt(data, m, cfg, room, i, done, ups, before, dst[..], noUpdate, upBefore, Content(updated),
                       WholeModel(model))
    {
      ghost var dst0, up0, model0 := dst[..], Content(updated), WholeModel(model);
      var s, decmpPos := FindFrame(data, i);
      LoopFacts(data, m, cfg, room, i, done, ups, before, dst0, noUpdate, upBefore, up0, model0);
      NextFrame(s);
      ModelHere(model, m, decmpPos, room - decmpPos);
      ghost var c := DecodeCol(s, ModelFrom(m, |done|), cfg, room - |done|);
      var err := DecompressCollection(s, model, updated, dst, decmpPos, cfg, room - decmpPos);
      OutcomeIs(c, err, dst0, dst[..], noUpdate, up0, Content(updated), decmpPos);
      if err {
        LoopFails(data, m, cfg, room, i, done, ups, s, c, before, dst0, noUpdate, upBefore, up0, model0);
        return false;
      }
      FrameDone(data, m, cfg, room, i, done, ups, s, c, before, dst0, dst[..], noUpdate, upBefore, up0,
                Content(updated), model0, WholeModel(model));
      done, ups := done + c.col, ups + c.up;
      i := i + 1;
    }
    LoopEnds(data, m, cfg, room, done, ups, before, dst[..], noUpdate, upBefore, Content(updated), WholeModel(model));
    return true;
  }

  /** The state of the loop over the frames before frame i: what was decoded stands in the buffers, and
      the model behind it is as it was. */
  ghost predicate LoopAt(data: Bits, m: Option<Bits>, cfg: Cfg, room: nat, i: nat, done: Bits, ups: Bits, dst: Bits,
                         dst': Bits, noUpdate: bool, up: Bits, up': Bits, model: Option<Bits>)
  {
    && Decoding(data, m, cfg, room, i, done, ups)
    && StoredUpTo(dst, dst', noUpdate, up, up', done, ups)
    && Untouched(model, m, |done|)
  }

  lemma LoopStarts(data: Bits, m: Option<Bits>, cfg: Cfg, room: nat, dst: Bits, noUpdate: bool, up: Bits)
    requires FrameCount(data).Some?
    requires cfg.WellFormed() && !cfg.GenParIsInvalid() && cfg.cmpMode != CMP_MODE_RAW
    requires m.Some? ==> |m.value| == room
    ensures LoopAt(data, m, cfg, room, 0, [], [], dst, dst, noUpdate, up, up, m)
  {
    hide DecodeFrames, FrameCount, FrameAt, Decoding, Written;
    DecodingStarts(data, m, cfg, room);
    NothingDecoded(dst);
    NothingDecoded(up);
  }

  lemma LoopFacts(data: Bits, m: Option<Bits>, cfg: Cfg, room: nat, i: nat, done: Bits, ups: Bits, dst: Bits,
                  dst': Bits, noUpdate: bool, up: Bits, up': Bits, model: Option<Bits>)
    requires LoopAt(data, m, cfg, room, i, done, ups, dst, dst', noUpdate, up, up', model)
    ensures cfg.WellFormed() && !cfg.GenParIsInvalid() && cfg.cmpMode != CMP_MODE_RAW && |done| <= room
    ensures FrameCount(data).Some? && i <= FrameCount(data).value && FrameAt(data, i).1 == |done|
    ensures ModelModeIsUsed(cfg.cmpMode) ==> |ups| == |done|
    ensures Untouched(model, m, |done|) && (model.Some? ==> |model.value| == room)
    ensures m.Some? ==> |m.value| == room
  {
    hide FrameCount, FrameAt, DecodeFrames, StoredUpTo;
  }

  lemma LoopFails(data: Bits, m: Option<Bits>, cfg: Cfg, room: nat, i: nat, done: Bits, ups: Bits, s: Bits,
                  c: ColResult, dst: Bits, dst': Bits, noUpdate: bool, up: Bits, up': Bits, model: Option<Bits>)
    requires LoopAt(data, m, cfg, room, i, done, ups, dst, dst', noUpdate, up, up', model)
    requires FrameCount(data).Some? && i < FrameCount(data).value && |done| <= room
    requires s == FrameAt(data, i).0 && |s| >= FIELD_BITS + HDR_BITS && FrameBits(s) <= |s|
    requires cfg.WellFormed() && !cfg.GenParIsInvalid() && cfg.cmpMode != CMP_MODE_RAW
    requires m.Some? ==> |m.value| == room
    requires c == DecodeCol(s, ModelFrom(m, |done|), cfg, room - |done|) && c.BadCol?
    ensures DecodeFrames(data, m, cfg, room).None? && (noUpdate ==> up' == up)
  {
    hide FrameCount, FrameAt, FrameBits, DecodeFrames, DecodeCol, Decoding, Untouched, ModelFrom;
    DecodingFails(data, m, cfg, room, i, done, ups, s, c);
  }

  lemma LoopEnds(data: Bits, m: Option<Bits>, cfg: Cfg, room: nat, done: Bits, ups: Bits, dst: Bits, dst': Bits,
                 noUpdate: bool, up: Bits, up': Bits, model: Option<Bits>)
    requires FrameCount(data).Some?
    requires cfg.WellFormed() && !cfg.GenParIsInvalid() && cfg.cmpMode != CMP_MODE_RAW
    requires m.Some? ==> |m.value| == room
    requires LoopAt(data, m, cfg, room, FrameCount(data).value, done, ups, dst, dst', noUpdate, up, up', model)
    ensures DecodeFrames(data, m, cfg, room) == Some(Data(done, ups))
    ensures Written(dst, dst', 0, done) && (if noUpdate then up' == up else Written(up, up', 0, ups))
  {
    hide FrameCount, FrameAt, DecodeFrames, Decoding, Untouched, Written;
    DecodingEnds(data, m, cfg, room, done, ups);
  }

  /** What a decoded frame adds to the state of the loop. */
  lemma FrameDone(data: Bits, m: Option<Bits>, cfg: Cfg, room: nat, i: nat, done: Bits, ups: Bits, s: Bits,
                  c: ColResult, a: Bits, b: Bits, b': Bits, noUpdate: bool, up: Bits, up': Bits, up'': Bits,
                  model: Option<Bits>, model': Option<Bits>)
    requires LoopAt(data, m, cfg, room, i, done, ups, a, b, noUpdate, up, up', model)
    requires FrameCount(data).Some? && i < FrameCount(data).value && |done| <= room
    requires s == FrameAt(data, i).0 && |s| >= FIELD_BITS + HDR_BITS && FrameBits(s) <= |s|
    requires cfg.WellFormed() && !cfg.GenParIsInvalid() && cfg.cmpMode != CMP_MODE_RAW
    requires m.Some? ==> |m.value| == room
    requires c == DecodeCol(s, ModelFrom(m, |done|), cfg, room - |done|) && c.GoodCol?
    requires CollectionDecoded(c, false, b, b', noUpdate, up', up'', |done|)
    requires !noUpdate ==> ModelModeIsUsed(cfg.cmpMode)
    requires model' == model || (!noUpdate && model.Some? && model'.Some? && model.value == up' && model'.value == up'')
    ensures LoopAt(data, m, cfg, room, i + 1, done + c.col, ups + c.up, a, b', noUpdate, up, up'', model')
  {
    hide DecodeCol, FrameBits, FrameCount, FrameAt, DecodeFrames, Decoding, CollectionDecoded, StoredUpTo, Untouched,
      ModelFrom, ModelModeIsUsed, Cfg.GenParIsInvalid;
    LoopFacts(data, m, cfg, room, i, done, ups, a, b, noUpdate, up, up', model);
    DecodingStep(data, m, cfg, room, i, done, ups, s, c);
    UpdatesAreWhole(s, ModelFrom(m, |done|), cfg, room - |done|, c);
    StoredNext(a, b, b', noUpdate, up, up', up'', done, ups, c);
    StoredBehind(m, model, model', c, b, b', noUpdate, up', up'', |done|);
  }

  lemma OutcomeIs(c: ColResult, err: bool, dst: Bits, dst': Bits, noUpdate: bool, up: Bits, up': Bits, at: nat)
    requires CollectionDecoded(c, err, dst, dst', noUpdate, up, up', at)
    ensures (err <==> c.BadCol?) && (noUpdate ==> up' == up)
  {
  }

  /** decompress_cmp_entiy for a chunk entity: succeeds exactly when its format is sound, and then
      the chunk stands at the start of dst and the updated model at the start of its buffer. */
  method DecompressEntity(h: Header, data: Bits, model: array?<bool>, updated: array?<bool>, dst: array<bool>)
    returns (r: Option<nat>)
    requires HeaderIsWellFormed(h) && |data| == 8 * DataSize(h)
    requires model != null ==> model.Length == 8 * h.originalSize
    requires updated != null ==> updated.Length == 8 * h.originalSize
    requires dst.Length == 8 * h.originalSize && dst != model && dst != updated
    modifies dst, updated
    ensures var spec := DecodeEntity(h, data, old(WholeModel(model)));
            && (r.Some? <==> spec.Some?)
            && (r.Some? ==>
                  && r.value == h.originalSize && Written(old(dst[..]), dst[..], 0, spec.value.data)
                  && (updated != null && h.originalSize > 0 && ModelModeIsUsed(h.cmpMode) ==>
                        Written(old(updated[..]), updated[..], 0, spec.value.up)))
    ensures updated != null && !ModelModeIsUsed(h.cmpMode) ==> updated[..] == old(updated[..])
  {
    hide ReadHeader, DecodeFrames, FrameCount, Written, Cfg.GenParIsInvalid;
    if h.originalSize == 0 {
      NothingDecoded(dst[..]);
      return Some(0);
    }
    var read := ReadHeader(h);
    if read.None? {
      return None;
    }
    if h.cmpMode == CMP_MODE_RAW {
      StoreBits(dst, 0, data);
      return Some(read.value.1);
    }
    var count := CountFrames(data);
    if count.None? || count.value == 0 {
      return None;
    }
    var ok := DecompressFrames(data, count.value, model, updated, dst, read.value.0, 8 * h.originalSize);
    return if ok then Some(h.originalSize) else None;
  }

  lemma NothingDecoded(a: Bits)
    ensures Written(a, a, 0, [])
  {
    assert a == a[..0] + [] + a[0..];
  }
}
