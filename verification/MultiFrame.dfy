/** Many frames, with the model updated in place. */
module MultiFrame {
  import opened BitStrings
  import opened Results
  import opened Config
  import opened Parameters
  import opened Chunks
  import opened Entities
  import opened ChunkCompressor
  import opened ChunkTheorems
  import opened EntityMemory

  /** A successful compress_chunk of a frame into the bytes e: the model buffer, updated in place,
      goes from model to model' (see the contract of CompressChunkInMemory). */
  ghost predicate EncoderStep(chunk: Bits, par: CmpPar, model: Bits, model': Bits, e: Bits) {
    && EarlyError(chunk).None? && |chunk| % 8 == 0 && |model| == |chunk|
    && var ct := ChunkTypeOf(Subservice(chunk));
       exists before: Bits, body: Bits, capacity: nat, clock: Clock, version: nat, size: nat, h: Header ::
         && version < TWO_32 && HeaderIsWellFormed(h) && |HeaderBits(h, version)| <= 8 * size <= |body|
         && ChunkPut(false, before, body, capacity, chunk, Some(model), ct, InitialCfg(ct, par), clock, Ok(size),
                     Some(h))
         && e == EntityBits(h, version, body, size)
         && ChunkUpdate(model, model', chunk, Some(model), ct, InitialCfg(ct, par), Ok(size))
  }

  predicate EntityMatches(e: Bits, model: Bits) {
    IsEntity(e) && |model| == 8 * HeaderIn(e).originalSize
  }

  /** What decompress_cmp_entiy does with its own model buffer, also updated in place: the
      decoded chunk and the model buffer afterwards (see the contract of DecompressMemory). */
  function DecoderStep(e: Bits, model: Bits): Option<(Bits, Bits)>
    requires EntityMatches(e, model)
  {
    var d := DecodeMemory(e, Some(model));
    if d.None? then None
    else Some((d.value.data,
               if ModelModeIsUsed(HeaderIn(e).cmpMode) then d.value.up + Rest(model, |d.value.up|) else model))
  }

  function Rest(b: Bits, n: nat): Bits {
    if n <= |b| then b[n..] else []
  }

  /** One frame: the decoder returns the chunk, and the two models stay equal. */
  lemma StepInLockstep(chunk: Bits, par: CmpPar, model: Bits, model': Bits, e: Bits)
    requires EncoderStep(chunk, par, model, model', e)
    ensures EntityMatches(e, model) && DecoderStep(e, model) == Some((chunk, model')) && |model'| == |model|
  {
    hide EarlyError, Subservice, InitialCfg, ChunkPut, ChunkUpdate, DecodeMemory, IsEntity, HeaderIn, HeaderBits;
    EarlyIsKnown(chunk);
    var ct := ChunkTypeOf(Subservice(chunk));
    var before: Bits, body: Bits, capacity: nat, clock: Clock, version: nat, size: nat, h: Header :|
      && version < TWO_32 && HeaderIsWellFormed(h) && |HeaderBits(h, version)| <= 8 * size <= |body|
      && ChunkPut(false, before, body, capacity, chunk, Some(model), ct, InitialCfg(ct, par), clock, Ok(size), Some(h))
      && e == EntityBits(h, version, body, size)
      && ChunkUpdate(model, model', chunk, Some(model), ct, InitialCfg(ct, par), Ok(size));
    MemoryRoundTrip(before, body, capacity, chunk, Some(model), ct, par, clock, version, Ok(size), Some(h));
    EntityRoundTrip(before, body, capacity, chunk, Some(model), ct, par, clock, Ok(size), Some(h));
    ModelsAgree(chunk, model, model', ct, InitialCfg(ct, par), Ok(size));
    CfgKeepsMode(ct, par);
  }

  lemma EarlyIsKnown(chunk: Bits)
    requires EarlyError(chunk).None?
    ensures |chunk| >= HDR_BITS && !ChunkTypeOf(Subservice(chunk)).UnknownChunk?
  {
  }

  lemma ModelsAgree(chunk: Bits, model: Bits, model': Bits, ct: ChunkType, cfg: Cfg, r: Result<nat>)
    requires Accepted(chunk, Some(model), ct, cfg) && |model| == |chunk| && r.Ok?
    requires ChunkUpdate(model, model', chunk, Some(model), ct, cfg, r)
    ensures |model'| == |model|
    ensures var up := Expected(chunk, Some(model), ct, cfg).up;
            model' == if ModelModeIsUsed(cfg.cmpMode) then up + Rest(model, |up|) else model
  {
    hide Updates;
  }

  /** What the encoder sends: one entity per frame. */
  datatype Frame = Frame(chunk: Bits, par: CmpPar, entity: Bits)

  /** A run of the encoder: models[i] is its model buffer before frame i. */
  ghost predicate EncoderRun(frames: seq<Frame>, models: seq<Bits>) {
    && |models| == |frames| + 1
    && forall i :: 0 <= i < |frames| ==>
      EncoderStep(frames[i].chunk, frames[i].par, models[i], models[i + 1], frames[i].entity)
  }

  /** A run of the decoder over the entities from number i on: the decoded chunks and its last model. */
  function DecoderRun(frames: seq<Frame>, i: nat, model: Bits): Option<(seq<Bits>, Bits)>
    requires i <= |frames|
    decreases |frames| - i
  {
    if i == |frames| then Some(([], model))
    else if !EntityMatches(frames[i].entity, model) || DecoderStep(frames[i].entity, model).None? then None
    else
      var (chunk, model') := DecoderStep(frames[i].entity, model).value;
      var more := DecoderRun(frames, i + 1, model');
      if more.None? then None else Some(([chunk] + more.value.0, more.value.1))
  }

  function ChunksOf(frames: seq<Frame>): (c: seq<Bits>)
    ensures |c| == |frames|
  {
    seq(|frames|, i requires 0 <= i < |frames| => frames[i].chunk)
  }

  /** Both sides stay in lockstep over any number of frames, whatever modes and parameters the
      frames use and whichever collections fell back to raw: started with the same model, the
      decoder returns every chunk and ends with the encoder's model. */
  lemma {:induction false} Lockstep(frames: seq<Frame>, models: seq<Bits>, i: nat)
    requires EncoderRun(frames, models) && i <= |frames|
    ensures DecoderRun(frames, i, models[i]) == Some((ChunksOf(frames)[i..], models[|frames|]))
    decreases |frames| - i
  {
    hide EncoderStep, DecoderStep;
    if i == |frames| {
      assert ChunksOf(frames)[i..] == [];
    } else {
      StepInLockstep(frames[i].chunk, frames[i].par, models[i], models[i + 1], frames[i].entity);
      Lockstep(frames, models, i + 1);
      assert ChunksOf(frames)[i..] == [frames[i].chunk] + ChunksOf(frames)[i + 1..];
    }
  }
}
