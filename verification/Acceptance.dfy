/** Which chunks and which metadata are accepted. */
module Acceptance {
  import opened BitStrings
  import opened Results
  import opened Golomb
  import opened Spill
  import opened Values
  import opened Streams
  import opened Memory
  import opened DataTypes
  import opened Config
  import opened Parameters
  import opened Chunks
  import opened Entities
  import opened ChunkCompressor
  import opened Rdcu

  /** A collection of whole samples that belongs to a chunk type and can be compressed as configured. */
  predicate IsCollection(c: Bits, ct: ChunkType, cfg: Cfg, hasModel: bool)
    requires cfg.WellFormed()
  {
    && |c| >= HDR_BITS && |c| == HDR_BITS + 8 * DataLength(c)
    && !ct.UnknownChunk? && ChunkTypeOf(Subservice(c)) == ct
    && !TypeOf(c).Unknown? && DataLength(c) % SampleSize(TypeOf(c)) == 0
    && cfg.cmpMode <= 4 && cfg.round <= 3 && (cfg.cmpMode in {1, 3} ==> cfg.modelValue <= 16 && hasModel)
    && (cfg.cmpMode != 0 ==> cfg.Loop(TypeOf(c)).Valid())
  }

  function Joined(cols: seq<Bits>): (b: Bits) {
    if cols == [] then [] else cols[0] + Joined(cols[1..])
  }

  /** The collections make up the chunk. */
  predicate MadeOf(b: Bits, cols: seq<Bits>, ct: ChunkType, cfg: Cfg, hasModel: bool)
    requires cfg.WellFormed()
  {
    Joined(cols) == b && forall i :: 0 <= i < |cols| ==> IsCollection(cols[i], ct, cfg, hasModel)
  }

  /** One collection, alone or in front of others. */
  lemma InFront(c: Bits, rest: Bits, ct: ChunkType, cfg: Cfg, hasModel: bool)
    requires cfg.WellFormed() && !ct.UnknownChunk?
    ensures IsCollection(c, ct, cfg, hasModel) ==>
              && ColError(c + rest, ct, cfg, hasModel).None? && ColBits(c + rest) == |c|
    ensures |c| >= HDR_BITS && ColBits(c + rest) == |c| && ColError(c + rest, ct, cfg, hasModel).None? ==>
              IsCollection(c, ct, cfg, hasModel)
  {
    if |c| >= HDR_BITS {
      assert (c + rest)[65..71] == c[65..71] && (c + rest)[80..96] == c[80..96];
      assert Subservice(c + rest) == Subservice(c) && DataLength(c + rest) == DataLength(c);
      hide Subservice, DataLength, Cfg.SpecificIsInvalid, Cfg.Loop, DataTypeOf, SampleSize, ChunkTypeOf;
      if cfg.cmpMode == CMP_MODE_RAW {
        NothingToCheck(cfg, TypeOf(c));
      } else if !TypeOf(c).Unknown? && ModeIsSupported(cfg.cmpMode) {
        ChecksAreExact(cfg, TypeOf(c));
      }
    }
  }

  lemma NothingToCheck(cfg: Cfg, dt: DataType)
    requires cfg.WellFormed() && cfg.cmpMode == CMP_MODE_RAW
    ensures !cfg.SpecificIsInvalid(dt)
  {
  }

  /** A string is accepted as a chunk exactly if it is such collections, one after the other. */
  lemma AcceptedIff(b: Bits, model: Option<Bits>, ct: ChunkType, cfg: Cfg)
    requires cfg.WellFormed() && !ct.UnknownChunk? && ModelMatches(b, model)
    ensures Accepted(b, model, ct, cfg)
            <==> exists cols: seq<Bits> :: MadeOf(b, cols, ct, cfg, model.Some?)
  {
    hide IsCollection, ChunkError;
    if Accepted(b, model, ct, cfg) {
      var cols := CollectionsOf(b, ct, cfg, model.Some?);
    }
    if cols: seq<Bits> :| MadeOf(b, cols, ct, cfg, model.Some?) {
      JoinedIsAccepted(cols, ct, cfg, model.Some?);
    }
  }

  lemma {:induction false} CollectionsOf(b: Bits, ct: ChunkType, cfg: Cfg, hasModel: bool) returns (cols: seq<Bits>)
    requires cfg.WellFormed() && !ct.UnknownChunk? && ChunkError(b, ct, cfg, hasModel).None?
    ensures MadeOf(b, cols, ct, cfg, hasModel)
    ensures |cols| == NumCols(b)
    decreases |b|
  {
    hide IsCollection, ColError, ColBits, ChunkError, Joined;
    NextOf(b, ct, cfg, hasModel);
    if b == [] {
      Nothing(ct, cfg, hasModel);
      return [];
    }
    SizesStep(b, ct, cfg, hasModel);
    var c, rest := b[..ColBits(b)], b[ColBits(b)..];
    assert c + rest == b;
    InFront(c, rest, ct, cfg, hasModel);
    var more := CollectionsOf(rest, ct, cfg, hasModel);
    cols := [c] + more;
    OneMore(c, more, ct, cfg, hasModel);
  }

  lemma NextOf(b: Bits, ct: ChunkType, cfg: Cfg, hasModel: bool)
    requires cfg.WellFormed() && !ct.UnknownChunk? && ChunkError(b, ct, cfg, hasModel).None?
    ensures b == [] ==> NumCols(b) == 0
    ensures b != [] ==>
              |b| >= HDR_BITS && ColError(b, ct, cfg, hasModel).None? && HDR_BITS <= ColBits(b) <= |b|
  {
    hide DataLength, TypeOf, Subservice, Cfg.SpecificIsInvalid, Cfg.GenParIsInvalid;
  }

  lemma Nothing(ct: ChunkType, cfg: Cfg, hasModel: bool)
    requires cfg.WellFormed()
    ensures MadeOf([], [], ct, cfg, hasModel)
  {
  }

  lemma OneMore(c: Bits, more: seq<Bits>, ct: ChunkType, cfg: Cfg, hasModel: bool)
    requires cfg.WellFormed() && IsCollection(c, ct, cfg, hasModel)
    requires forall i :: 0 <= i < |more| ==> IsCollection(more[i], ct, cfg, hasModel)
    ensures MadeOf(c + Joined(more), [c] + more, ct, cfg, hasModel)
  {
    hide IsCollection;
    assert ([c] + more)[1..] == more;
  }

  lemma {:induction false} JoinedIsAccepted(cols: seq<Bits>, ct: ChunkType, cfg: Cfg, hasModel: bool)
    requires cfg.WellFormed() && !ct.UnknownChunk?
    requires forall i :: 0 <= i < |cols| ==> IsCollection(cols[i], ct, cfg, hasModel)
    ensures ChunkError(Joined(cols), ct, cfg, hasModel).None?
  {
    if cols != [] {
      var c, rest := cols[0], Joined(cols[1..]);
      assert |c| >= HDR_BITS;
      JoinedIsAccepted(cols[1..], ct, cfg, hasModel);
      InFront(c, rest, ct, cfg, hasModel);
      hide IsCollection, ColError, ColBits;
      assert (c + rest)[|c|..] == rest;
    }
  }

  /** A chunk is looked at if it has a collection header, is not too large, and starts with a collection
      of a chunk type. */
  lemma LookedAtIff(chunk: Bits)
    ensures EarlyError(chunk).None?
            <==> 96 <= |chunk| <= 8 * 0xFF_FFFF
                 && Subservice(chunk) in {1, 2, 3, 4, 5, 6, 7, 9, 10, 11, 12, 13, 14, 15, 16, 25}
  {
    hide Subservice;
  }

  /** The configuration the metadata of the RDCU stand for. */
  function RdcuLoop(info: Info): LoopCfg {
    LoopCfg([Setup(info.golombPar, info.spill, info.round, 16, info.cmpMode in {1, 2})], info.cmpMode in {1, 3},
            info.modelValue)
  }

  lemma RdcuLoopIs(info: Info)
    ensures InfoCfg(info).Loop(Imagette) == RdcuLoop(info)
    ensures SampleBits(RdcuLoop(info).setups) == 16
  {
    ImagetteBits(InfoCfg(info), 1);
  }

  lemma RdcuErrors(info: Info, hasModel: bool)
    ensures ImagetteError(InfoCfg(info), hasModel).None?
            <==> && info.cmpMode <= 4 && info.round <= 3
                 && (info.cmpMode in {1, 3} ==> info.modelValue <= 16 && hasModel)
                 && (info.cmpMode != 0 ==>
                       1 <= info.golombPar <= 0xFFFF && 2 <= info.spill <= IcuMaxSpill(info.golombPar))
  {
    hide IcuMaxSpill, Cfg.SpecificIsInvalid, Cfg.Loop;
    if 1 <= info.cmpMode <= 4 && info.round <= 3 {
      ChecksAreExact(InfoCfg(info), Imagette);
      RdcuLoopIs(info);
    } else if info.cmpMode == 0 {
      NothingToCheck(InfoCfg(info), Imagette);
    }
  }

  /** Metadata and stream of the RDCU are accepted if there was no error, mode, rounding, model value and
      parameters are in range, a model is there if needed, and the stream holds the samples. */
  lemma RdcuAcceptsIff(info: Info, compressed: Bits, model: Bits, hasModel: bool)
    requires |compressed| >= NeededBits(info)
    requires ModelModeIsUsed(info.cmpMode) && hasModel ==> |model| == 16 * AtLeastOne(info.samples)
    ensures DecodeRdcu(info, compressed, model, hasModel).Some?
            <==> && !info.smallBufferErr && info.cmpMode <= 4 && info.round <= 3
                 && (info.cmpMode in {1, 3} ==> info.modelValue <= 16 && hasModel)
                 && (info.cmpMode != 0 ==>
                       && 1 <= info.golombPar <= 0xFFFF && 2 <= info.spill <= IcuMaxSpill(info.golombPar)
                       && var loop := RdcuLoop(info);
                          && loop.Valid()
                          && (loop.modelMode ==> |model| == Times(AtLeastOne(info.samples), SampleBits(loop.setups)))
                          && DecodePayload(compressed[..NeededBits(info)], model, info.samples, loop).Some?)
  {
    hide IcuMaxSpill, DecodePayload, Times, SampleBits, Cfg.Loop, InfoCfg, ImagetteError;
    RdcuLoopIs(info);
    RdcuErrors(info, hasModel);
    if ImagetteError(InfoCfg(info), hasModel).None? && info.cmpMode != 0 {
      InfoIsSound(info, hasModel);
      TimesIsProduct(AtLeastOne(info.samples), 16);
    }
  }
}
