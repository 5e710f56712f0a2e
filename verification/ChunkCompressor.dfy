/** compress_chunk: one collection after the other, then the entity header. A small buffer is
    reported exactly when some collection that is met does not fit. */
module ChunkCompressor {
  import opened BitStrings
  import opened Results
  import opened BitWriter
  import opened Config
  import opened Parameters
  import opened Chunks
  import opened Entities
  import opened Compressor

  /** The part of a model that belongs to the collections from bit position p on. */
  function ModelFrom(model: Option<Bits>, p: nat): (m: Option<Bits>)
    requires model.Some? ==> p <= |model.value|
    ensures (m.Some? <==> model.Some?) && (m.Some? ==> |m.value| == |model.value| - p)
  {
    if model.Some? then Some(model.value[p..]) else None
  }

  /** The state of compress_chunk's loop at bit position p of the chunk: done is what the
      collections so far became, ups their updated model. */
  ghost predicate Progress(chunk: Bits, model: Option<Bits>, ct: ChunkType, cfg: Cfg, start: nat, p: nat, size: nat,
                           done: Bits, ups: Bits) {
    && cfg.WellFormed() && !ct.UnknownChunk? && ModelMatches(chunk, model)
    && p <= |chunk| && start <= size && |done| == 8 * (size - start) && (ModelModeIsUsed(cfg.cmpMode) ==> |ups| == p)
    && ChunkError(chunk, ct, cfg, model.Some?) == ChunkError(chunk[p..], ct, cfg, model.Some?)
    && size - start + 2 * NumCols(chunk[p..]) + (|chunk| - p) / 8 <= 2 * NumCols(chunk) + |chunk| / 8
    && (Accepted(chunk, model, ct, cfg) ==>
          && Accepted(chunk[p..], ModelFrom(model, p), ct, cfg)
          && Frames(chunk, model, ct, cfg, start) == done + Frames(chunk[p..], ModelFrom(model, p), ct, cfg, size)
          && (ModelModeIsUsed(cfg.cmpMode) ==>
                Updates(chunk, model, ct, cfg, start) == ups + Updates(chunk[p..], ModelFrom(model, p), ct, cfg, size)))
  }

  lemma ProgressStart(chunk: Bits, model: Option<Bits>, ct: ChunkType, cfg: Cfg, start: nat)
    requires cfg.WellFormed() && !ct.UnknownChunk? && ModelMatches(chunk, model)
    ensures Progress(chunk, model, ct, cfg, start, 0, start, [], [])
  {
    hide ChunkError, Frames, Updates, NumCols;
    assert chunk[0..] == chunk;
    if model.Some? {
      assert model.value[0..] == model.value;
    }
  }

  lemma ProgressEnd(chunk: Bits, model: Option<Bits>, ct: ChunkType, cfg: Cfg, start: nat, size: nat, done: Bits,
                    ups: Bits)
    requires Progress(chunk, model, ct, cfg, start, |chunk|, size, done, ups)
    ensures Accepted(chunk, model, ct, cfg)
    ensures done == Frames(chunk, model, ct, cfg, start)
    ensures ModelModeIsUsed(cfg.cmpMode) ==> ups == Updates(chunk, model, ct, cfg, start)
  {
    assert chunk[|chunk|..] == [];
  }

  function UpdateFrom(col: Bits, model: Option<Bits>, ct: ChunkType, cfg: Cfg, at: nat): (u: Bits)
    requires |col| >= HDR_BITS && cfg.WellFormed() && !ct.UnknownChunk? && ModelMatches(col, model)
    requires ColError(col, ct, cfg, model.Some?).None?
    ensures ModelModeIsUsed(cfg.cmpMode) ==> |u| == ColBits(col)
  {
    if ModelModeIsUsed(cfg.cmpMode) then ColUpdate(col, model, ct, cfg, at) else []
  }

  lemma RestOfRest(b: Bits, p: nat, n: nat)
    requires p + n <= |b|
    ensures b[p..][n..] == b[p + n..]
  {
  }

  lemma AfterIsFrom(col: Bits, model: Option<Bits>, chunk: Bits, p: nat, whole: Option<Bits>)
    requires p <= |chunk| && ModelMatches(chunk, whole) && col == chunk[p..] && model == ModelFrom(whole, p)
    requires |col| >= HDR_BITS && ColBits(col) <= |col| && ModelMatches(col, model)
    ensures ModelAfter(col, model) == ModelFrom(whole, p + ColBits(col))
    ensures col[ColBits(col)..] == chunk[p + ColBits(col)..]
  {
    hide ColBits;
    RestOfRest(chunk, p, ColBits(col));
    if whole.Some? {
      RestOfRest(whole.value, p, ColBits(col));
    }
  }

  lemma SizesStep(col: Bits, ct: ChunkType, cfg: Cfg, hasModel: bool)
    requires |col| >= HDR_BITS && cfg.WellFormed() && !ct.UnknownChunk? && ColError(col, ct, cfg, hasModel).None?
    ensures ChunkError(col, ct, cfg, hasModel) == ChunkError(col[ColBits(col)..], ct, cfg, hasModel)
    ensures NumCols(col) == 1 + NumCols(col[ColBits(col)..])
    ensures ColBits(col) % 8 == 0
  {
    hide ColError;
  }

  lemma UpdatesStep(b: Bits, model: Option<Bits>, ct: ChunkType, cfg: Cfg, at: nat, at': nat)
    requires Accepted(b, model, ct, cfg) && b != [] && at' == at + |ColFrame(b, model, ct, cfg, at)| / 8
    requires Accepted(b[ColBits(b)..], ModelAfter(b, model), ct, cfg) && ModelModeIsUsed(cfg.cmpMode)
    ensures Updates(b, model, ct, cfg, at)
            == ColUpdate(b, model, ct, cfg, at) + Updates(b[ColBits(b)..], ModelAfter(b, model), ct, cfg, at')
  {
    hide ColFrame, ColUpdate, ColBits, ColError, ModelAfter, ModelMatches, ChunkError, TypeOf, DataLength,
      ModelModeIsUsed;
  }

  /** One collection further. */
  lemma ProgressStep(chunk: Bits, model: Option<Bits>, ct: ChunkType, cfg: Cfg, start: nat, p: nat, size: nat,
                     done: Bits, ups: Bits, col: Bits, m: Option<Bits>, f: Bits)
    requires Progress(chunk, model, ct, cfg, start, p, size, done, ups) && |chunk| % 8 == 0 && p % 8 == 0
    requires col == chunk[p..] && m == ModelFrom(model, p) && |col| >= HDR_BITS && ModelMatches(col, m)
    requires ColError(col, ct, cfg, m.Some?).None? && f == ColFrame(col, m, ct, cfg, size)
    ensures Progress(chunk, model, ct, cfg, start, p + ColBits(col), size + |f| / 8, done + f,
                     ups + UpdateFrom(col, m, ct, cfg, size))
  {
    hide ColFrame, ColUpdate, ColBits, ColError, Frames, Updates, NumCols, ChunkError;
    ColFrameSize(col, m, ct, cfg, size);
    SizesStep(col, ct, cfg, m.Some?);
    AfterIsFrom(col, m, chunk, p, model);
    if Accepted(chunk, model, ct, cfg) {
      FramesStep(col, m, ct, cfg, size, size + |f| / 8);
      var rest := Frames(col[ColBits(col)..], ModelAfter(col, m), ct, cfg, size + |f| / 8);
      assert done + (f + rest) == done + f + rest;
      if ModelModeIsUsed(cfg.cmpMode) {
        UpdatesStep(col, m, ct, cfg, size, size + |f| / 8);
        var u := ColUpdate(col, m, ct, cfg, size);
        var more := Updates(col[ColBits(col)..], ModelAfter(col, m), ct, cfg, size + |f| / 8);
        assert ups + (u + more) == ups + u + more;
      }
    }
  }

  lemma AppendedTwice(a: Bits, b: Bits, c: Bits, at: nat, x: Bits, y: Bits, limit: nat)
    requires Appended(a, b, at, x, limit) && Appended(b, c, at + |x|, y, limit)
    ensures Appended(a, c, at, x + y, limit)
  {
    var q := at + |x|;
    assert c[..at] == c[..q][..at] == b[..q][..at] == a[..at];
    assert c[at..q] == c[..q][at..] == b[..q][at..] == b[at..q] == x;
    assert c[at..q + |y|] == c[at..q] + c[q..q + |y|];
  }

  // ----- room

  /** Some collection that is met before any error does not fit a buffer of capacity bytes. */
  predicate RunsOut(b: Bits, model: Option<Bits>, ct: ChunkType, cfg: Cfg, at: nat, capacity: nat)
    requires cfg.WellFormed() && !ct.UnknownChunk? && ModelMatches(b, model)
    decreases |b|
  {
    if |b| < HDR_BITS || ColError(b, ct, cfg, model.Some?).Some? then false
    else
      || !ColFits(b, model, ct, cfg, at, capacity)
      || RunsOut(b[ColBits(b)..], ModelAfter(b, model), ct, cfg, at + |ColFrame(b, model, ct, cfg, at)| / 8, capacity)
  }

  /** Whether the buffer runs out is decided by the collections from bit position p on. */
  ghost predicate RoomAt(chunk: Bits, model: Option<Bits>, ct: ChunkType, cfg: Cfg, start: nat, p: nat, size: nat,
                         capacity: nat)
  {
    && cfg.WellFormed() && !ct.UnknownChunk? && ModelMatches(chunk, model) && p <= |chunk|
    && RunsOut(chunk, model, ct, cfg, start, capacity)
       == RunsOut(chunk[p..], ModelFrom(model, p), ct, cfg, size, capacity)
  }

  lemma RoomStart(chunk: Bits, model: Option<Bits>, ct: ChunkType, cfg: Cfg, start: nat, capacity: nat)
    requires cfg.WellFormed() && !ct.UnknownChunk? && ModelMatches(chunk, model)
    ensures RoomAt(chunk, model, ct, cfg, start, 0, start, capacity)
  {
    hide RunsOut;
    assert chunk[0..] == chunk;
    if model.Some? {
      assert model.value[0..] == model.value;
    }
  }

  lemma RunsOutStep(b: Bits, model: Option<Bits>, ct: ChunkType, cfg: Cfg, at: nat, capacity: nat)
    requires cfg.WellFormed() && !ct.UnknownChunk? && ModelMatches(b, model)
    ensures |b| < HDR_BITS || ColError(b, ct, cfg, model.Some?).Some? ==> !RunsOut(b, model, ct, cfg, at, capacity)
    ensures |b| >= HDR_BITS && ColError(b, ct, cfg, model.Some?).None? ==>
              RunsOut(b, model, ct, cfg, at, capacity)
              == (!ColFits(b, model, ct, cfg, at, capacity)
                  || RunsOut(b[ColBits(b)..], ModelAfter(b, model), ct, cfg,
                             at + |ColFrame(b, model, ct, cfg, at)| / 8, capacity))
  {
    hide ColError, ColFits, ColFrame, ColBits, TypeOf, DataLength, Cfg.GenParIsInvalid, Cfg.SpecificIsInvalid,
      ModelModeIsUsed;
  }

  /** What the next collection says about the room. */
  lemma RoomStep(chunk: Bits, model: Option<Bits>, ct: ChunkType, cfg: Cfg, start: nat, p: nat, size: nat,
                 capacity: nat, col: Bits, m: Option<Bits>)
    requires RoomAt(chunk, model, ct, cfg, start, p, size, capacity)
    requires col == chunk[p..] && m == ModelFrom(model, p) && ModelMatches(col, m)
    ensures |col| < HDR_BITS || ColError(col, ct, cfg, m.Some?).Some? ==>
              !RunsOut(chunk, model, ct, cfg, start, capacity)
    ensures |col| >= HDR_BITS && ColError(col, ct, cfg, m.Some?).None? ==>
              if ColFits(col, m, ct, cfg, size, capacity) then
                RoomAt(chunk, model, ct, cfg, start, p + ColBits(col),
                       size + |ColFrame(col, m, ct, cfg, size)| / 8, capacity)
              else RunsOut(chunk, model, ct, cfg, start, capacity)
  {
    hide ColError, ColFits, ColFrame, ColBits, RunsOut, ModelAfter, ModelFrom;
    RunsOutStep(col, m, ct, cfg, size, capacity);
    if |col| >= HDR_BITS && ColError(col, ct, cfg, m.Some?).None? {
      AfterIsFrom(col, m, chunk, p, model);
    }
  }

  /** What is wrong with a chunk as a whole. */
  function EarlyError(chunk: Bits): Option<Error> {
    if |chunk| < HDR_BITS then Some(ChunkSizeInconsistent)
    else if |chunk| > 8 * CMP_ENTITY_MAX_ORIGINAL_SIZE then Some(ChunkTooLarge)
    else if ChunkTypeOf(Subservice(chunk)).UnknownChunk? then Some(ColSubserviceUnsupported)
    else None
  }

  /** The most bytes a compressed chunk can have. */
  function WorstSize(chunk: Bits, cmpMode: nat): nat {
    HeaderSize(cmpMode) + CMP_COLLECTION_FIELD_SIZE * NumCols(chunk) + |chunk| / 8
  }

  /** The size of the compressed chunk, header included. */
  function CompressedSize(chunk: Bits, model: Option<Bits>, ct: ChunkType, cfg: Cfg): nat
    requires Accepted(chunk, model, ct, cfg)
  {
    HeaderSize(cfg.cmpMode) + |Frames(chunk, model, ct, cfg, HeaderSize(cfg.cmpMode))| / 8
  }

  /** The outcome of compress_chunk for a chunk without an early error, against the format. */
  ghost predicate ChunkPut(noBuffer: bool, before: Bits, after: Bits, capacity: nat, chunk: Bits, model: Option<Bits>,
                           ct: ChunkType,
                     cfg: Cfg, clock: Clock, r: Result<nat>, h: Option<Header>)
    requires cfg.WellFormed() && !ct.UnknownChunk? && ModelMatches(chunk, model)
  {
    && (r.Err? && !noBuffer ==> Spoiled(before, after, 8 * HeaderSize(cfg.cmpMode), 8 * capacity))
    && (r == Err(SmallBuffer) <==>
          && !noBuffer
          && (|| capacity < HeaderSize(cfg.cmpMode)
              || RunsOut(chunk, model, ct, cfg, HeaderSize(cfg.cmpMode), capacity)))
    && (if r == Err(SmallBuffer) then !noBuffer && capacity < WorstSize(chunk, cfg.cmpMode)
    else if ChunkError(chunk, ct, cfg, model.Some?).Some? then r == Err(ChunkError(chunk, ct, cfg, model.Some?).value)
    else
      var start := HeaderSize(cfg.cmpMode);
      var size := CompressedSize(chunk, model, ct, cfg);
      if noBuffer then r == Ok(size) && after == before
      else
        && Appended(before, after, 8 * start, Frames(chunk, model, ct, cfg, start), 8 * capacity)
        && (match BuildHeader(cfg, |chunk| / 8, size, clock)
            case Ok(header) => r == Ok(size) && h == Some(header)
            case Err(e) => r == Err(e)))
  }

  /** The updated model of the chunk; it is complete even when only the header could not be built. */
  predicate ChunkUpdate(before: Bits, after: Bits, chunk: Bits, model: Option<Bits>, ct: ChunkType, cfg: Cfg,
                        r: Result<nat>)
    requires cfg.WellFormed() && !ct.UnknownChunk? && ModelMatches(chunk, model)
  {
    if !ModelModeIsUsed(cfg.cmpMode) then after == before
    else if r.Ok? || r == Err(EntityHeader) || r == Err(EntityTimestamp) then
      Accepted(chunk, model, ct, cfg)
      && Written(before, after, 0, Updates(chunk, model, ct, cfg, HeaderSize(cfg.cmpMode)))
    else Spoiled(before, after, 0, |chunk|)
  }

  /** What the buffers hold at bit position p of the chunk. */
  ghost predicate BuffersAt(noDst: bool, dst: Bits, dst': Bits, start: nat, done: Bits, capacity: nat,
                            noUpdate: bool, up: Bits, up': Bits, ups: Bits, cfg: Cfg)
  {
    && (if noDst then dst' == dst else Appended(dst, dst', 8 * start, done, 8 * capacity))
    && (noUpdate || if ModelModeIsUsed(cfg.cmpMode) then Written(up, up', 0, ups) else up' == up)
  }

  lemma NothingYet(noDst: bool, dst: Bits, start: nat, capacity: nat, noUpdate: bool, up: Bits, cfg: Cfg)
    requires !noDst ==> start <= capacity && 8 * capacity <= |dst|
    ensures BuffersAt(noDst, dst, dst, start, [], capacity, noUpdate, up, up, [], cfg)
  {
    assert up == up[..0] + [] + up[0..];
  }

  /** A collection that was put takes the buffers further. */
  lemma BuffersStep(noDst: bool, a: Bits, b: Bits, c: Bits, start: nat, done: Bits, capacity: nat, noUpdate: bool,
                    up: Bits, up': Bits, up'': Bits, ups: Bits, p: nat, size: nat,
                    col: Bits, model: Option<Bits>, ct: ChunkType, cfg: Cfg, f: Bits, r: Result<nat>)
    requires |col| >= HDR_BITS && cfg.WellFormed() && !ct.UnknownChunk? && ModelMatches(col, model)
    requires ColError(col, ct, cfg, model.Some?).None? && f == ColFrame(col, model, ct, cfg, size)
    requires start <= size && |done| == 8 * (size - start) && (ModelModeIsUsed(cfg.cmpMode) ==> |ups| == p)
    requires BuffersAt(noDst, a, b, start, done, capacity, noUpdate, up, up', ups, cfg)
    requires r.Ok? && CollectionPut(noDst, b, c, size, capacity, f, ColBits(col),
                                    ColFits(col, model, ct, cfg, size, capacity), r)
    requires !noUpdate ==> CollectionUpdate(up', up'', p, col, model, ct, cfg, size, true)
    ensures BuffersAt(noDst, a, c, start, done + f, capacity, noUpdate, up, up'',
                      ups + UpdateFrom(col, model, ct, cfg, size), cfg)
  {
    hide ColError, ColFrame, ColUpdate, Written, Appended, ColBits, ColFits;
    if !noDst {
      AppendedTwice(a, b, c, 8 * start, done, f, 8 * capacity);
    }
    if !noUpdate && ModelModeIsUsed(cfg.cmpMode) {
      WrittenTwice(up, up', up'', 0, ups, ColUpdate(col, model, ct, cfg, size));
    }
  }

  /** A collection that was not put spoils no more than the rest of the usable parts. */
  lemma BuffersSpoiled(noDst: bool, a: Bits, b: Bits, c: Bits, start: nat, done: Bits, capacity: nat, noUpdate: bool,
                       up: Bits, up': Bits, up'': Bits, ups: Bits, p: nat, size: nat, limit: nat, colBits: nat,
                       cfg: Cfg)
    requires start <= size && |done| == 8 * (size - start) && (ModelModeIsUsed(cfg.cmpMode) ==> |ups| == p)
    requires BuffersAt(noDst, a, b, start, done, capacity, noUpdate, up, up', ups, cfg)
    requires noDst || c == b || Spoiled(b, c, 8 * size, 8 * capacity)
    requires noUpdate || up'' == up' || (ModelModeIsUsed(cfg.cmpMode) && Spoiled(up', up'', p, p + colBits))
    requires p + colBits <= limit
    ensures !noDst ==> Spoiled(a, c, 8 * start, 8 * capacity)
    ensures !noUpdate ==> if ModelModeIsUsed(cfg.cmpMode) then Spoiled(up, up'', 0, limit) else up'' == up
  {
    if !noDst {
      AppendedSpoils(a, b, c, 8 * start, done, 8 * size, 8 * capacity);
    }
  }

  lemma AppendedSpoils(a: Bits, b: Bits, c: Bits, start: nat, done: Bits, from: nat, limit: nat)
    requires Appended(a, b, start, done, limit) && start <= from && (c == b || Spoiled(b, c, from, limit))
    ensures Spoiled(a, c, start, limit)
  {
    forall i | 0 <= i < |a| && (i < start || limit <= i) ensures c[i] == a[i] {
      if i < start {
        assert b[..start][i] == a[..start][i];
      } else {
        assert b[limit..][i - limit] == a[limit..][i - limit];
      }
    }
  }

  /** What a failure leaves behind: only the usable parts of the buffers may have changed. */
  ghost predicate OnlyUsed(noDst: bool, dst: Bits, dst': Bits, start: nat, capacity: nat, noUpdate: bool, up: Bits,
                           up': Bits, size: nat, cfg: Cfg)
  {
    && (!noDst ==> Spoiled(dst, dst', 8 * start, 8 * capacity))
    && (!noUpdate ==> if ModelModeIsUsed(cfg.cmpMode) then Spoiled(up, up', 0, size) else up' == up)
  }

  lemma ErrorAt(chunk: Bits, model: Option<Bits>, ct: ChunkType, cfg: Cfg, start: nat, p: nat, size: nat, done: Bits,
                ups: Bits, col: Bits)
    requires Progress(chunk, model, ct, cfg, start, p, size, done, ups) && col == chunk[p..] && |col| >= HDR_BITS
    requires ColError(col, ct, cfg, model.Some?).Some?
    ensures ChunkError(chunk, ct, cfg, model.Some?) == ColError(col, ct, cfg, model.Some?)
  {
    hide ColError, ColFrame, Frames, Updates, NumCols;
  }

  lemma TooSmallAt(chunk: Bits, model: Option<Bits>, ct: ChunkType, cfg: Cfg, p: nat, size: nat, done: Bits, ups: Bits,
                   col: Bits, capacity: nat)
    requires Progress(chunk, model, ct, cfg, HeaderSize(cfg.cmpMode), p, size, done, ups) && col == chunk[p..]
    requires |col| >= HDR_BITS
    requires ColError(col, ct, cfg, model.Some?).None? && |chunk| % 8 == 0 && p % 8 == 0
    requires capacity < size + CMP_COLLECTION_FIELD_SIZE + ColBits(col) / 8
    ensures capacity < WorstSize(chunk, cfg.cmpMode)
  {
    hide ColError, ColFrame, Frames, Updates, ChunkError;
    SizesStep(col, ct, cfg, model.Some?);
  }

  lemma TrailingBits(chunk: Bits, model: Option<Bits>, ct: ChunkType, cfg: Cfg, start: nat, p: nat, size: nat,
                     done: Bits, ups: Bits)
    requires Progress(chunk, model, ct, cfg, start, p, size, done, ups) && 0 < |chunk| - p < HDR_BITS
    ensures ChunkError(chunk, ct, cfg, model.Some?) == Some(ChunkSizeInconsistent)
  {
    hide ColFrame, Frames, Updates, NumCols;
  }

  function WholeModel(model: array?<bool>): (m: Option<Bits>)
    reads model
    ensures m.Some? <==> model != null
    ensures m.Some? ==> m.value == Content(model)
  {
    if model == null then None else Some(model[..])
  }

  /** The model from bit position p on has not been touched, even if it is updated in place. */
  predicate Untouched(model: Option<Bits>, before: Option<Bits>, p: nat) {
    && (model.Some? <==> before.Some?)
    && (model.Some? ==> |model.value| == |before.value| && p <= |model.value| && model.value[p..] == before.value[p..])
  }

  lemma ModelHere(model: array?<bool>, before: Option<Bits>, p: nat, n: nat)
    requires Untouched(WholeModel(model), before, p) && (model != null ==> model.Length == p + n)
    ensures ModelFrom(before, p) == ModelBits(model, p, n)
  {
    if model != null {
      assert model[p..p + n] == model[..][p..];
    }
  }

  lemma ModelAhead(start: Option<Bits>, before: Option<Bits>, after: Option<Bits>, p: nat, u: Bits, q: nat)
    requires Untouched(before, start, p) && p <= q && (before.Some? ==> q <= |before.value|)
    requires after == before
             || (before.Some? && after.Some? && Written(before.value, after.value, p, u) && p + |u| <= q)
    ensures Untouched(after, start, q)
  {
    if before.Some? {
      assert after.value[q..] == before.value[q..] == before.value[p..][q - p..] == start.value[p..][q - p..]
             == start.value[q..];
    }
  }

  lemma UpdateIsLocal(up: Bits, up': Bits, p: nat, col: Bits, model: Option<Bits>, ct: ChunkType, cfg: Cfg, size: nat)
    requires |col| >= HDR_BITS && cfg.WellFormed() && !ct.UnknownChunk? && ModelMatches(col, model)
    requires ColError(col, ct, cfg, model.Some?).None? && CollectionUpdate(up, up', p, col, model, ct, cfg, size, true)
    ensures || up' == up
            || (Written(up, up', p, UpdateFrom(col, model, ct, cfg, size))
                && |UpdateFrom(col, model, ct, cfg, size)| == ColBits(col))
  {
    hide ColError, ColUpdate, Written;
  }

  lemma ProgressSizes(chunk: Bits, model: Option<Bits>, ct: ChunkType, cfg: Cfg, start: nat, p: nat, size: nat,
                      done: Bits, ups: Bits)
    requires Progress(chunk, model, ct, cfg, start, p, size, done, ups)
    ensures start <= size && |done| == 8 * (size - start) && (ModelModeIsUsed(cfg.cmpMode) ==> |ups| == p)
  {
    hide ChunkError, Frames, Updates, NumCols, Accepted;
  }

  lemma ColAligned(col: Bits)
    requires |col| >= HDR_BITS
    ensures ColBits(col) % 8 == 0
  {
  }

  /** One collection of the loop, and what its outcome says about the chunk. */
  method NextCollection(chunk: Bits, model: array?<bool>, updated: array?<bool>, dst: array?<bool>, dstCapacity: nat,
                        ct: ChunkType, cfg: Cfg, p: nat, size: nat, ghost m: Option<Bits>, ghost before: Bits,
                        ghost upBefore: Bits, ghost done: Bits, ghost ups: Bits)
    returns (r: Result<nat>)
    requires |chunk| % 8 == 0 && p % 8 == 0 && cfg.WellFormed() && !ct.UnknownChunk? && ModelMatches(chunk, m)
    requires model != null ==> model.Length == |chunk|
    requires updated != null ==> updated.Length == |chunk|
    requires dst != null ==>
               dst != model && dst != updated && 8 * dstCapacity <= dst.Length && HeaderSize(cfg.cmpMode) <= dstCapacity
    requires p + HDR_BITS <= |chunk| && ChunkTypeOf(Subservice(chunk[p..])) == ct && ColBits(chunk[p..]) <= |chunk| - p
    requires CompressingAt(chunk, m, ct, cfg, HeaderSize(cfg.cmpMode), p, size, done, ups, dst == null, before,
                           Content(dst), dstCapacity, updated == null, upBefore, Content(updated), WholeModel(model))
    modifies dst, updated
    ensures r.Ok? ==>
              var col, mc := chunk[p..], ModelFrom(m, p);
              && ColError(col, ct, cfg, mc.Some?).None?
              && CompressingAt(chunk, m, ct, cfg, HeaderSize(cfg.cmpMode), p + ColBits(col), r.value,
                               done + ColFrame(col, mc, ct, cfg, size), ups + UpdateFrom(col, mc, ct, cfg, size),
                               dst == null, before, Content(dst), dstCapacity, updated == null, upBefore,
                               Content(updated), WholeModel(model))
    ensures r.Err? ==>
              && (r.error == SmallBuffer <==>
                    dst != null && RunsOut(chunk, m, ct, cfg, HeaderSize(cfg.cmpMode), dstCapacity))
              && (|| ChunkError(chunk, ct, cfg, m.Some?) == Some(r.error)
                  || (r.error == SmallBuffer && dst != null && dstCapacity < WorstSize(chunk, cfg.cmpMode)))
              && OnlyUsed(dst == null, before, Content(dst), HeaderSize(cfg.cmpMode), dstCapacity, updated == null,
                          upBefore, Content(updated), |chunk|, cfg)
  {
    hide Subservice, DataLength, ColError, Written, Spoiled, Appended, ColFrame, UpdateFrom, ColBits, WorstSize,
      CollectionUpdate, OnlyUsed, ChunkError, CompressingAt, ColFits, RunsOut, CollectionPut, Progress;
    var start := HeaderSize(cfg.cmpMode);
    var col := chunk[p..];
    ghost var mc, dst0, up0, model0 := ModelFrom(m, p), Content(dst), Content(updated), WholeModel(model);
    CompressingFacts(chunk, m, ct, cfg, start, p, size, done, ups, dst == null, before, dst0, dstCapacity,
                     updated == null, upBefore, up0, model0);
    ModelHere(model, m, p, |col|);
    r := CmpCollection(col, model, updated, p, dst, dstCapacity, ct, cfg, size);
    if r.Err? {
      CollectionFailed(dst == null, before, dst0, Content(dst), start, done, dstCapacity, updated == null, upBefore,
                       up0, Content(updated), ups, p, size, chunk, m, ct, cfg, col, mc, model0, r);
    } else {
      CollectionDone(chunk, m, ct, cfg, start, p, size, done, ups, dst == null, before, dst0, Content(dst),
                     dstCapacity, updated == null, upBefore, up0, Content(updated), model0, WholeModel(model), col, mc,
                     r);
    }
  }

  /** The loop of compress_chunk. */
  method CompressCollections(chunk: Bits, model: array?<bool>, updated: array?<bool>, dst: array?<bool>,
                             dstCapacity: nat, ct: ChunkType, cfg: Cfg)
    returns (r: Result<nat>, ghost done: Bits, ghost ups: Bits)
    requires |chunk| % 8 == 0 && cfg.WellFormed() && !ct.UnknownChunk?
    requires model != null ==> model.Length == |chunk|
    requires updated != null ==> updated.Length == |chunk|
    requires dst != null ==>
               dst != model && dst != updated && 8 * dstCapacity <= dst.Length && HeaderSize(cfg.cmpMode) <= dstCapacity
    modifies dst, updated
    ensures r.Ok? ==>
              && Progress(chunk, old(WholeModel(model)), ct, cfg, HeaderSize(cfg.cmpMode), |chunk|, r.value, done, ups)
              && BuffersAt(dst == null, old(Content(dst)), Content(dst), HeaderSize(cfg.cmpMode), done, dstCapacity,
                           updated == null, old(Content(updated)), Content(updated), ups, cfg)
              && (dst != null ==>
                    !RunsOut(chunk, old(WholeModel(model)), ct, cfg, HeaderSize(cfg.cmpMode), dstCapacity))
    ensures r.Err? ==>
              && (r.error == SmallBuffer <==>
                    && dst != null
                    && RunsOut(chunk, old(WholeModel(model)), ct, cfg, HeaderSize(cfg.cmpMode), dstCapacity))
              && (|| ChunkError(chunk, ct, cfg, model != null) == Some(r.error)
                  || (r.error == SmallBuffer && dst != null && dstCapacity < WorstSize(chunk, cfg.cmpMode)))
              && OnlyUsed(dst == null, old(Content(dst)), Content(dst), HeaderSize(cfg.cmpMode), dstCapacity,
                          updated == null, old(Content(updated)), Content(updated), |chunk|, cfg)
  {
    hide Subservice, DataLength, ParError, Written, Spoiled, Appended, ColFrame, UpdateFrom, ColBits, WorstSize,
      CollectionUpdate, OnlyUsed, ChunkError, CompressingAt, ColFits, RunsOut, CollectionPut, Progress, BuffersAt;
    ghost var m := WholeModel(model);
    ghost var before, upBefore := Content(dst), Content(updated);
    var start := HeaderSize(cfg.cmpMode);
    var p, size := 0, start;
    done, ups := [], [];
    CompressingStarts(chunk, m, ct, cfg, start, dst == null, before, dstCapacity, updated == null, upBefore);
    while p + HDR_BITS <= |chunk|
      invariant p <= |chunk| && p % 8 == 0
      invariant CompressingAt(chunk, m, ct, cfg, start, p, size, done, ups, dst == null, before, Content(dst),
                              dstCapacity, updated == null, upBefore, Content(updated), WholeModel(model))
      decreases |chunk| - p
    {
      var col := chunk[p..];
      if ChunkTypeOf(Subservice(col)) != ct {
        CompressingFails(chunk, m, ct, cfg, start, p, size, done, ups, dst == null, before, Content(dst), dstCapacity,
                         updated == null, upBefore, Content(updated), WholeModel(model), col);
        return Err(ChunkSubserviceInconsistent), done, ups;
      }
      if ColBits(col) > |col| {
        assert ColError(chunk[p..], ct, cfg, m.Some?) == Some(ChunkSizeInconsistent);
        break;
      }
      ColAligned(col);
      r := NextCollection(chunk, model, updated, dst, dstCapacity, ct, cfg, p, size, m, before, upBefore, done, ups);
      if r.Err? {
        return;
      }
      ghost var mc := ModelFrom(m, p);
      done, ups := done + ColFrame(col, mc, ct, cfg, size), ups + UpdateFrom(col, mc, ct, cfg, size);
      size := r.value;
      p := p + ColBits(col);
    }
    if p != |chunk| {
      CompressingFails(chunk, m, ct, cfg, start, p, size, done, ups, dst == null, before, Content(dst), dstCapacity,
                       updated == null, upBefore, Content(updated), WholeModel(model), chunk[p..]);
      return Err(ChunkSizeInconsistent), done, ups;
    }
    CompressingEnds(chunk, m, ct, cfg, start, size, done, ups, dst == null, before, Content(dst), dstCapacity,
                    updated == null, upBefore, Content(updated), WholeModel(model));
    r := Ok(size);
  }

  /** The state of the loop at bit position p of the chunk: the collections before p stand in the
      destination, their models are updated, and the model behind p is as it was. */
  ghost predicate CompressingAt(chunk: Bits, model: Option<Bits>, ct: ChunkType, cfg: Cfg, start: nat, p: nat,
                                size: nat, done: Bits, ups: Bits, noDst: bool, dst: Bits, dst': Bits, capacity: nat,
                                noUpdate: bool, up: Bits, up': Bits, model': Option<Bits>)
  {
    && Progress(chunk, model, ct, cfg, start, p, size, done, ups)
    && BuffersAt(noDst, dst, dst', start, done, capacity, noUpdate, up, up', ups, cfg)
    && Untouched(model', model, p)
    && (noDst || RoomAt(chunk, model, ct, cfg, start, p, size, capacity))
  }

  lemma CompressingStarts(chunk: Bits, model: Option<Bits>, ct: ChunkType, cfg: Cfg, start: nat, noDst: bool, dst: Bits,
                          capacity: nat, noUpdate: bool, up: Bits)
    requires cfg.WellFormed() && !ct.UnknownChunk? && ModelMatches(chunk, model)
    requires !noDst ==> start <= capacity && 8 * capacity <= |dst|
    ensures CompressingAt(chunk, model, ct, cfg, start, 0, start, [], [], noDst, dst, dst, capacity, noUpdate, up, up,
                          model)
  {
    hide Progress, BuffersAt, RoomAt;
    ProgressStart(chunk, model, ct, cfg, start);
    NothingYet(noDst, dst, start, capacity, noUpdate, up, cfg);
    RoomStart(chunk, model, ct, cfg, start, capacity);
  }

  lemma CompressingFacts(chunk: Bits, model: Option<Bits>, ct: ChunkType, cfg: Cfg, start: nat, p: nat, size: nat,
                         done: Bits, ups: Bits, noDst: bool, dst: Bits, dst': Bits, capacity: nat, noUpdate: bool,
                         up: Bits, up': Bits, model': Option<Bits>)
    requires CompressingAt(chunk, model, ct, cfg, start, p, size, done, ups, noDst, dst, dst', capacity, noUpdate, up,
                           up', model')
    ensures Progress(chunk, model, ct, cfg, start, p, size, done, ups) && Untouched(model', model, p)
    ensures cfg.WellFormed() && !ct.UnknownChunk? && ModelMatches(chunk, model) && p <= |chunk|
    ensures start <= size && |done| == 8 * (size - start) && (ModelModeIsUsed(cfg.cmpMode) ==> |ups| == p)
  {
    hide ChunkError, Frames, Updates, NumCols, Accepted, RoomAt, BuffersAt;
  }

  /** What is wrong with the next collection, or with the bits left, is wrong with the chunk. */
  lemma CompressingFails(chunk: Bits, model: Option<Bits>, ct: ChunkType, cfg: Cfg, start: nat, p: nat, size: nat,
                         done: Bits, ups: Bits, noDst: bool, dst: Bits, dst': Bits, capacity: nat, noUpdate: bool,
                         up: Bits, up': Bits, model': Option<Bits>, col: Bits)
    requires CompressingAt(chunk, model, ct, cfg, start, p, size, done, ups, noDst, dst, dst', capacity, noUpdate, up,
                           up', model')
    requires cfg.WellFormed() && !ct.UnknownChunk? && ModelMatches(chunk, model) && p <= |chunk| && col == chunk[p..]
    requires if |col| < HDR_BITS then col != [] else ColError(col, ct, cfg, model.Some?).Some?
    ensures ChunkError(chunk, ct, cfg, model.Some?)
            == if |col| < HDR_BITS then Some(ChunkSizeInconsistent) else ColError(col, ct, cfg, model.Some?)
    ensures !noDst ==> !RunsOut(chunk, model, ct, cfg, start, capacity)
    ensures OnlyUsed(noDst, dst, dst', start, capacity, noUpdate, up, up', |chunk|, cfg)
  {
    hide Progress, BuffersAt, RoomAt, OnlyUsed, ColError, ChunkError, RunsOut;
    CompressingFacts(chunk, model, ct, cfg, start, p, size, done, ups, noDst, dst, dst', capacity, noUpdate, up, up',
                     model');
    if |col| < HDR_BITS {
      TrailingBits(chunk, model, ct, cfg, start, p, size, done, ups);
    } else {
      ErrorAt(chunk, model, ct, cfg, start, p, size, done, ups, col);
    }
    if !noDst {
      RoomStep(chunk, model, ct, cfg, start, p, size, capacity, col, ModelFrom(model, p));
    }
    Unspoiled(noDst, dst, dst', start, done, capacity, noUpdate, up, up', ups, p, size, chunk, model, ct, cfg);
  }

  /** What a compressed collection adds to the state of the loop. */
  lemma CollectionDone(chunk: Bits, model: Option<Bits>, ct: ChunkType, cfg: Cfg, start: nat, p: nat, size: nat,
                       done: Bits, ups: Bits, noDst: bool, a: Bits, b: Bits, c: Bits, capacity: nat, noUpdate: bool,
                       up: Bits, up': Bits, up'': Bits, model': Option<Bits>, model'': Option<Bits>,
                       col: Bits, m: Option<Bits>, r: Result<nat>)
    requires CompressingAt(chunk, model, ct, cfg, start, p, size, done, ups, noDst, a, b, capacity, noUpdate, up, up',
                           model')
    requires cfg.WellFormed() && !ct.UnknownChunk? && ModelMatches(chunk, model) && |chunk| % 8 == 0 && p % 8 == 0
    requires p <= |chunk| && col == chunk[p..] && m == ModelFrom(model, p) && |col| >= HDR_BITS && r.Ok?
    requires ModelMatches(col, m) && ColError(col, ct, cfg, m.Some?).None?
    requires CollectionPut(noDst, b, c, size, capacity, ColFrame(col, m, ct, cfg, size), ColBits(col),
                           ColFits(col, m, ct, cfg, size, capacity), r)
    requires !noUpdate ==> CollectionUpdate(up', up'', p, col, m, ct, cfg, size, true)
    requires model'' == model'
             || (!noUpdate && model'.Some? && model''.Some? && model'.value == up' && model''.value == up'')
    ensures CompressingAt(chunk, model, ct, cfg, start, p + ColBits(col), r.value,
                          done + ColFrame(col, m, ct, cfg, size), ups + UpdateFrom(col, m, ct, cfg, size),
                          noDst, a, c, capacity, noUpdate, up, up'', model'')
  {
    hide Progress, BuffersAt, RoomAt, ColError, ColFrame, ColFits, UpdateFrom, CollectionUpdate;
    CompressingFacts(chunk, model, ct, cfg, start, p, size, done, ups, noDst, a, b, capacity, noUpdate, up, up',
                     model');
    var f := ColFrame(col, m, ct, cfg, size);
    ProgressStep(chunk, model, ct, cfg, start, p, size, done, ups, col, m, f);
    BuffersStep(noDst, a, b, c, start, done, capacity, noUpdate, up, up', up'', ups, p, size, col, m, ct, cfg, f, r);
    if !noDst {
      RoomStep(chunk, model, ct, cfg, start, p, size, capacity, col, m);
    }
    if !noUpdate {
      UpdateIsLocal(up', up'', p, col, m, ct, cfg, size);
    }
    ModelAhead(model, model', model'', p, UpdateFrom(col, m, ct, cfg, size), p + ColBits(col));
  }

  lemma CompressingEnds(chunk: Bits, model: Option<Bits>, ct: ChunkType, cfg: Cfg, start: nat, size: nat, done: Bits,
                        ups: Bits, noDst: bool, dst: Bits, dst': Bits, capacity: nat, noUpdate: bool, up: Bits,
                        up': Bits, model': Option<Bits>)
    requires CompressingAt(chunk, model, ct, cfg, start, |chunk|, size, done, ups, noDst, dst, dst', capacity, noUpdate,
                           up, up', model')
    ensures Progress(chunk, model, ct, cfg, start, |chunk|, size, done, ups)
    ensures BuffersAt(noDst, dst, dst', start, done, capacity, noUpdate, up, up', ups, cfg)
    ensures cfg.WellFormed() && !ct.UnknownChunk? && ModelMatches(chunk, model)
    ensures !noDst ==> !RunsOut(chunk, model, ct, cfg, start, capacity)
  {
    hide BuffersAt, RunsOut, ChunkError, Frames, Updates, NumCols, Accepted, Untouched;
    assert chunk[|chunk|..] == [];
    if !noDst {
      RoomStep(chunk, model, ct, cfg, start, |chunk|, size, capacity, [], ModelFrom(model, |chunk|));
    }
  }

  lemma Unspoiled(noDst: bool, a: Bits, b: Bits, start: nat, done: Bits, capacity: nat, noUpdate: bool, up: Bits,
                  up': Bits, ups: Bits, p: nat, size: nat, chunk: Bits, model: Option<Bits>, ct: ChunkType, cfg: Cfg)
    requires Progress(chunk, model, ct, cfg, start, p, size, done, ups)
    requires BuffersAt(noDst, a, b, start, done, capacity, noUpdate, up, up', ups, cfg)
    ensures OnlyUsed(noDst, a, b, start, capacity, noUpdate, up, up', |chunk|, cfg)
  {
    hide ChunkError, Frames, Updates, NumCols, BuffersAt, Spoiled, Accepted;
    BuffersSpoiled(noDst, a, b, b, start, done, capacity, noUpdate, up, up', up', ups, p, size, |chunk|, 0, cfg);
  }

  lemma CollectionFailed(noDst: bool, a: Bits, b: Bits, c: Bits, start: nat, done: Bits, capacity: nat, noUpdate: bool,
                         up: Bits, up': Bits, up'': Bits, ups: Bits, p: nat, size: nat, chunk: Bits,
                         model: Option<Bits>, ct: ChunkType, cfg: Cfg, col: Bits, mc: Option<Bits>,
                         model': Option<Bits>, r: Result<nat>)
    requires start == HeaderSize(cfg.cmpMode) && |chunk| % 8 == 0 && p % 8 == 0 && r.Err?
    requires CompressingAt(chunk, model, ct, cfg, start, p, size, done, ups, noDst, a, b, capacity, noUpdate, up, up',
                           model')
    requires cfg.WellFormed() && !ct.UnknownChunk? && ModelMatches(chunk, model) && p <= |chunk|
    requires col == chunk[p..] && mc == ModelFrom(model, p) && |col| >= HDR_BITS && ColBits(col) <= |col|
    requires ColError(col, ct, cfg, mc.Some?).Some? ==>
               r == Err(ColError(col, ct, cfg, mc.Some?).value) && c == b && up'' == up'
    requires ColError(col, ct, cfg, mc.Some?).None? ==>
               && CollectionPut(noDst, b, c, size, capacity, ColFrame(col, mc, ct, cfg, size), ColBits(col),
                                ColFits(col, mc, ct, cfg, size, capacity), r)
               && (!noUpdate ==> CollectionUpdate(up', up'', p, col, mc, ct, cfg, size, false))
    ensures OnlyUsed(noDst, a, c, start, capacity, noUpdate, up, up'', |chunk|, cfg)
    ensures || ChunkError(chunk, ct, cfg, model.Some?) == Some(r.error)
            || (r.error == SmallBuffer && !noDst && capacity < WorstSize(chunk, cfg.cmpMode))
    ensures r.error == SmallBuffer <==> !noDst && RunsOut(chunk, model, ct, cfg, start, capacity)
  {
    hide ChunkError, BuffersAt, Spoiled, ColError, ColBits, ColFrame, ColUpdate, WorstSize, Progress, RoomAt, RunsOut,
      ColFits;
    CompressingFacts(chunk, model, ct, cfg, start, p, size, done, ups, noDst, a, b, capacity, noUpdate, up, up',
                     model');
    if !noDst {
      RoomStep(chunk, model, ct, cfg, start, p, size, capacity, col, mc);
    }
    if ColError(col, ct, cfg, mc.Some?).Some? {
      ErrorAt(chunk, model, ct, cfg, start, p, size, done, ups, col);
      OnlyFormatErrors(chunk, ct, cfg, model.Some?);
      BuffersSpoiled(noDst, a, b, c, start, done, capacity, noUpdate, up, up', up'', ups, p, size, |chunk|, 0, cfg);
    } else {
      TooSmallAt(chunk, model, ct, cfg, p, size, done, ups, col, capacity);
      BuffersSpoiled(noDst, a, b, c, start, done, capacity, noUpdate, up, up', up'', ups, p, size, |chunk|,
                     ColBits(col), cfg);
    }
  }

  /** compress_chunk. The first HeaderSize bytes of dst are the header's; it is returned as a record. */
  method CompressChunk(chunk: Bits, model: array?<bool>, updated: array?<bool>, dst: array?<bool>, dstCapacity: nat,
                       par: CmpPar, clock: Clock)
    returns (r: Result<nat>, header: Option<Header>)
    requires |chunk| % 8 == 0
    requires model != null ==> model.Length == |chunk|
    requires updated != null ==> updated.Length == |chunk|
    requires dst != null ==> dst != model && dst != updated && 8 * dstCapacity <= dst.Length
    modifies dst, updated
    ensures EarlyError(chunk).Some? ==>
              && r == Err(EarlyError(chunk).value)
              && Content(dst) == old(Content(dst)) && Content(updated) == old(Content(updated))
    ensures EarlyError(chunk).None? ==>
              var m, ct := old(WholeModel(model)), ChunkTypeOf(Subservice(chunk));
              && ChunkPut(dst == null, old(Content(dst)), Content(dst), dstCapacity, chunk, m, ct, InitialCfg(ct, par),
                          clock, r, header)
              && (updated != null ==>
                    ChunkUpdate(old(updated[..]), updated[..], chunk, m, ct, InitialCfg(ct, par), r))
    ensures header.Some? <==> r.Ok? && dst != null
  {
    hide Subservice, DataLength, InitialCfg, Progress, Written, Spoiled, Appended, BuffersAt, OnlyUsed, ChunkPut,
      ChunkUpdate;
    header := None;
    if |chunk| < HDR_BITS {
      return Err(ChunkSizeInconsistent), None;
    }
    if |chunk| > 8 * CMP_ENTITY_MAX_ORIGINAL_SIZE {
      return Err(ChunkTooLarge), None;
    }
    var ct := ChunkTypeOf(Subservice(chunk));
    var cfg := InitCfg(ct, par);
    if ct.UnknownChunk? {
      return Err(ColSubserviceUnsupported), None;
    }
    ghost var m, before, upBefore := WholeModel(model), Content(dst), Content(updated);
    CfgKeepsMode(ct, par);
    if dst != null && dstCapacity < HeaderSize(cfg.cmpMode) {
      NoRoomForHeader(before, upBefore, dstCapacity, chunk, m, ct, cfg, clock);
      return Err(SmallBuffer), None;
    }
    ghost var done, ups;
    r, done, ups := CompressCollections(chunk, model, updated, dst, dstCapacity, ct, cfg);
    if r.Err? {
      ChunkFailed(dst == null, before, Content(dst), dstCapacity, updated == null, upBefore, Content(updated), chunk, m,
                  ct, cfg, clock, r);
      return;
    }
    var size := r.value;
    if dst != null {
      var built := BuildHeader(cfg, |chunk| / 8, size, clock);
      if built.Err? {
        r := Err(built.error);
      } else {
        header := Some(built.value);
      }
    }
    ChunkDone(dst == null, before, Content(dst), dstCapacity, updated == null, upBefore, Content(updated), chunk, m, ct,
              cfg, clock, size, done, ups, r, header);
  }

  lemma CfgKeepsMode(ct: ChunkType, par: CmpPar)
    ensures InitialCfg(ct, par).cmpMode == par.cmpMode
  {
  }

  lemma NoRoomForHeader(dst: Bits, up: Bits, capacity: nat, chunk: Bits, model: Option<Bits>, ct: ChunkType, cfg: Cfg,
                        clock: Clock)
    requires cfg.WellFormed() && !ct.UnknownChunk? && ModelMatches(chunk, model) && capacity < HeaderSize(cfg.cmpMode)
    ensures ChunkPut(false, dst, dst, capacity, chunk, model, ct, cfg, clock, Err(SmallBuffer), None)
    ensures ChunkUpdate(up, up, chunk, model, ct, cfg, Err(SmallBuffer))
  {
  }

  lemma ChunkFailed(noDst: bool, dst: Bits, dst': Bits, capacity: nat, noUpdate: bool, up: Bits, up': Bits, chunk: Bits,
                    model: Option<Bits>, ct: ChunkType, cfg: Cfg, clock: Clock, r: Result<nat>)
    requires cfg.WellFormed() && !ct.UnknownChunk? && ModelMatches(chunk, model) && r.Err?
    requires || ChunkError(chunk, ct, cfg, model.Some?) == Some(r.error)
             || (r.error == SmallBuffer && !noDst && capacity < WorstSize(chunk, cfg.cmpMode))
    requires noDst || capacity >= HeaderSize(cfg.cmpMode)
    requires r.error == SmallBuffer <==> !noDst && RunsOut(chunk, model, ct, cfg, HeaderSize(cfg.cmpMode), capacity)
    requires OnlyUsed(noDst, dst, dst', HeaderSize(cfg.cmpMode), capacity, noUpdate, up, up', |chunk|, cfg)
    ensures ChunkPut(noDst, dst, dst', capacity, chunk, model, ct, cfg, clock, r, None)
    ensures !noUpdate ==> ChunkUpdate(up, up', chunk, model, ct, cfg, r)
  {
    hide Spoiled, WorstSize, ChunkError, RunsOut;
    OnlyFormatErrors(chunk, ct, cfg, model.Some?);
  }

  /** The checks of a chunk never report a small buffer or a bad header. */
  lemma {:induction false} OnlyFormatErrors(b: Bits, ct: ChunkType, cfg: Cfg, hasModel: bool)
    requires cfg.WellFormed() && !ct.UnknownChunk?
    ensures ChunkError(b, ct, cfg, hasModel) !in {Some(SmallBuffer), Some(EntityHeader), Some(EntityTimestamp)}
    decreases |b|
  {
    hide DataLength, Subservice, TypeOf;
    if |b| >= HDR_BITS && ColError(b, ct, cfg, hasModel).None? {
      OnlyFormatErrors(b[ColBits(b)..], ct, cfg, hasModel);
    }
  }

  lemma ChunkDone(noDst: bool, dst: Bits, dst': Bits, capacity: nat, noUpdate: bool, up: Bits, up': Bits, chunk: Bits,
                  model: Option<Bits>, ct: ChunkType, cfg: Cfg, clock: Clock, size: nat, done: Bits, ups: Bits,
                  r: Result<nat>, h: Option<Header>)
    requires Progress(chunk, model, ct, cfg, HeaderSize(cfg.cmpMode), |chunk|, size, done, ups)
    requires BuffersAt(noDst, dst, dst', HeaderSize(cfg.cmpMode), done, capacity, noUpdate, up, up', ups, cfg)
    requires cfg.WellFormed() && !ct.UnknownChunk? && ModelMatches(chunk, model)
    requires !noDst ==>
               && capacity >= HeaderSize(cfg.cmpMode)
               && !RunsOut(chunk, model, ct, cfg, HeaderSize(cfg.cmpMode), capacity)
    requires if noDst then r == Ok(size)
             else if BuildHeader(cfg, |chunk| / 8, size, clock).Err? then r
                     == Err(BuildHeader(cfg, |chunk| / 8, size, clock).error)
             else r == Ok(size) && h == Some(BuildHeader(cfg, |chunk| / 8, size, clock).value)
    ensures ChunkPut(noDst, dst, dst', capacity, chunk, model, ct, cfg, clock, r, h)
    ensures !noUpdate ==> ChunkUpdate(up, up', chunk, model, ct, cfg, r)
  {
    hide Progress, Written, Spoiled, Appended, ChunkError, Frames, Updates, BuildHeader, HeaderFits, RunsOut;
    ProgressSizes(chunk, model, ct, cfg, HeaderSize(cfg.cmpMode), |chunk|, size, done, ups);
    ProgressEnd(chunk, model, ct, cfg, HeaderSize(cfg.cmpMode), size, done, ups);
    if !noDst && r.Err? {
      AppendedSpoils(dst, dst', dst', 8 * HeaderSize(cfg.cmpMode), done, 8 * HeaderSize(cfg.cmpMode), 8 * capacity);
    }
  }
}
