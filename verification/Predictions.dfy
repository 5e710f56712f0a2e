/** What samples are predicted from. */
module Predictions {
  // The model in the model modes, the sample before in the differencing modes, nothing for the first one.

  import opened BitStrings
  import opened Golomb
  import opened Spill
  import opened Values
  import opened Streams
  import opened Memory
  import opened Chunks

  // ----- one value

  /** A difference to a prediction, modulo 2^width, as an unsigned number. */
  function Folded(value: nat, prediction: nat, width: nat): (u: nat)
    requires 1 <= width <= 32 && value < Pow2(width) && prediction < Pow2(width)
    ensures u < Pow2(width)
  {
    var d := if value >= prediction then value - prediction else value - prediction + Pow2(width);
    Pow2Word(width);
    UnfoldFold(d, Pow2(width));
    Fold(d, Pow2(width))
  }

  /** A value costs the escape bits of its folded difference to the prediction. */
  lemma ValueIsFoldedDifference(data: nat, model: nat, su: Setup)
    requires su.Valid() && Fits(data, su) && Fits(model, su)
    ensures var u := Folded(RoundFwd(data, su.round), RoundFwd(model, su.round), su.width);
            ValueBits(data, model, su) == if su.zeroEscape then ZeroEscapeBits(u, su) else MultiEscapeBits(u, su)
  {
    hide Low, Pow2, RoundFwd, U32, ZeroEscapeBits, MultiEscapeBits, IcuMaxSpill;
    LowOfDifference(RoundFwd(data, su.round), RoundFwd(model, su.round), su.width);
    MapToPosIsFold(U32(RoundFwd(data, su.round) - RoundFwd(model, su.round)), su.width);
  }

  /** A sample equal to its prediction takes the shortest code of every field. */
  lemma ExactPredictionIsShort(data: nat, su: Setup)
    requires su.Valid() && Fits(data, su)
    ensures |ValueBits(data, data, su)| == |Code(if su.zeroEscape then 1 else 0, su.par)|
  {
    hide Low, Pow2, RoundFwd, U32, IcuMaxSpill, Code;
    ValueIsFoldedDifference(data, data, su);
  }

  // ----- the differencing modes

  /** The samples before: none before the first. */
  function Neighbours(recs: seq<Record>, n: nat): (m: seq<Record>)
    ensures |m| == |recs|
  {
    if recs == [] then [] else [ZeroRecord(n)] + recs[..|recs| - 1]
  }

  /** The configuration of the model mode that differs in nothing else. */
  function WithModel(cfg: LoopCfg, modelValue: nat): LoopCfg {
    cfg.(modelMode := true, modelValue := modelValue)
  }

  lemma ZerosFit(setups: seq<Setup>)
    ensures RecordFits(ZeroRecord(|setups|), setups)
  {
  }

  lemma NeighboursCode(recs: seq<Record>, cfg: LoopCfg, modelValue: nat)
    requires CanCode(recs, [], cfg) && !cfg.modelMode && modelValue <= MAX_MODEL_VALUE
    ensures CanCode(recs, Neighbours(recs, |cfg.setups|), WithModel(cfg, modelValue))
  {
    hide RecordFits;
    ZerosFit(cfg.setups);
  }

  lemma SamePrediction(recs: seq<Record>, cfg: LoopCfg, modelValue: nat, i: nat)
    requires !cfg.modelMode && i < |recs|
    ensures ModelOf(recs, Neighbours(recs, |cfg.setups|), WithModel(cfg, modelValue), i) == ModelOf(recs, [], cfg, i)
  {
  }

  lemma NoneLeft(recs: seq<Record>, models: seq<Record>, cfg: LoopCfg)
    requires CanCode(recs, models, cfg)
    ensures StreamBits(recs, models, cfg, |recs|) == []
  {
  }

  /** Differencing is model compression with every sample's neighbour for its model. */
  lemma DifferencesAreModelled(recs: seq<Record>, cfg: LoopCfg, modelValue: nat)
    requires CanCode(recs, [], cfg) && !cfg.modelMode && modelValue <= MAX_MODEL_VALUE
    ensures CanCode(recs, Neighbours(recs, |cfg.setups|), WithModel(cfg, modelValue))
    ensures StreamBits(recs, [], cfg, 0)
            == StreamBits(recs, Neighbours(recs, |cfg.setups|), WithModel(cfg, modelValue), 0)
  {
    hide CanCode, StreamBits, Neighbours, ModelOf;
    NeighboursCode(recs, cfg, modelValue);
    forall i | 0 <= i < |recs|
      ensures ModelOf(recs, [], cfg, i) == ModelOf(recs, Neighbours(recs, |cfg.setups|), WithModel(cfg, modelValue), i)
    {
      SamePrediction(recs, cfg, modelValue, i);
    }
    AlikePredicted(recs, [], cfg, Neighbours(recs, |cfg.setups|), WithModel(cfg, modelValue), 0);
  }

  lemma {:induction false} AlikePredicted(recs: seq<Record>, models: seq<Record>, cfg: LoopCfg, models': seq<Record>,
                                          cfg': LoopCfg, i: nat)
    requires CanCode(recs, models, cfg) && CanCode(recs, models', cfg') && cfg'.setups == cfg.setups && i <= |recs|
    requires forall k :: 0 <= k < |recs| ==> ModelOf(recs, models', cfg', k) == ModelOf(recs, models, cfg, k)
    ensures StreamBits(recs, models, cfg, i) == StreamBits(recs, models', cfg', i)
    decreases |recs| - i
  {
    hide RecordBits, CanCode, StreamBits, ModelOf;
    if i < |recs| {
      StreamBitsFirst(recs, models, cfg, i);
      StreamBitsFirst(recs, models', cfg', i);
      AlikePredicted(recs, models, cfg, models', cfg', i + 1);
    } else {
      NoneLeft(recs, models, cfg);
      NoneLeft(recs, models', cfg');
    }
  }

  /** A sample costs what its fields cost against the model's sample, or against the sample before. */
  lemma SampleBitsAgainst(recs: seq<Record>, models: seq<Record>, cfg: LoopCfg, i: nat)
    requires CanCode(recs, models, cfg) && i < |recs|
    ensures cfg.modelMode ==>
              && RecordFits(models[i], cfg.setups)
              && StreamBits(recs, models, cfg, i)
                 == RecordBits(recs[i], models[i], cfg.setups, 0) + StreamBits(recs, models, cfg, i + 1)
    ensures !cfg.modelMode && i > 0 ==>
              && RecordFits(recs[i - 1], cfg.setups)
              && StreamBits(recs, models, cfg, i)
                 == RecordBits(recs[i], recs[i - 1], cfg.setups, 0) + StreamBits(recs, models, cfg, i + 1)
    ensures !cfg.modelMode && i == 0 ==>
              StreamBits(recs, models, cfg, 0)
              == RecordBits(recs[0], ZeroRecord(|cfg.setups|), cfg.setups, 0) + StreamBits(recs, models, cfg, 1)
  {
    ModelFits(recs, models, cfg, i);
    hide RecordBits, RecordFits;
  }

  /** The fields of a sample stand one after the other, each against the same field of the prediction. */
  lemma {:induction false} FieldsAgainst(rec: Record, model: Record, setups: seq<Setup>, f: nat)
    requires |rec| == |model| == |setups| && SetupsValid(setups) && f < |setups|
    ensures RecordBits(rec, model, setups, f)
            == ValueBits(rec[f], model[f], setups[f]) + RecordBits(rec, model, setups, f + 1)
    ensures RecordBits(rec, model, setups, |setups|) == []
  {
    hide ValueBits;
  }

  // ----- the decoder

  predicate Decodable(last: nat, models: seq<Record>, cfg: LoopCfg) {
    && cfg.Valid()
    && (cfg.modelMode ==> |models| > last && forall i :: 0 <= i < |models| ==> |models[i]| == |cfg.setups|)
  }

  /** Samples decoded once are not changed. */
  lemma {:induction false} DecodedStay(s: Bits, last: nat, models: seq<Record>, cfg: LoopCfg, decoded: seq<Record>)
    requires Decodable(last, models, cfg) && |decoded| <= last
    requires forall i :: 0 <= i < |decoded| ==> |decoded[i]| == |cfg.setups|
    ensures var r := DecodeStream(s, last, models, cfg, decoded);
            r.DecodedStream? ==> r.recs[..|decoded|] == decoded
    decreases last - |decoded|
  {
    hide DecodeRecord;
    var r := DecodeRecord(s, ModelOf(decoded, models, cfg, |decoded|), cfg.setups, []);
    if r.DecodedRecord? && |decoded| < last {
      DecodedStay(r.rest, last, models, cfg, decoded + [r.rec]);
    }
  }

  lemma NeighboursDecode(recs: seq<Record>, cfg: LoopCfg, modelValue: nat)
    requires cfg.Valid() && !cfg.modelMode && modelValue <= MAX_MODEL_VALUE && recs != []
    requires forall i :: 0 <= i < |recs| ==> |recs[i]| == |cfg.setups|
    ensures Decodable(|recs| - 1, Neighbours(recs, |cfg.setups|), WithModel(cfg, modelValue))
  {
  }

  lemma SameDecoderPrediction(recs: seq<Record>, cfg: LoopCfg, modelValue: nat, decoded: seq<Record>)
    requires !cfg.modelMode && |decoded| < |recs| && decoded == recs[..|decoded|]
    ensures ModelOf(decoded, Neighbours(recs, |cfg.setups|), WithModel(cfg, modelValue), |decoded|)
            == ModelOf(decoded, [], cfg, |decoded|)
  {
  }

  /** Once a decoded sample is another one, the outcome is. */
  lemma OtherSample(s: Bits, last: nat, models: seq<Record>, cfg: LoopCfg, decoded: seq<Record>, recs: seq<Record>,
                    rest: Bits)
    requires Decodable(last, models, cfg) && 0 < |decoded| <= last && |recs| == last + 1
    requires forall i :: 0 <= i < |decoded| ==> |decoded[i]| == |cfg.setups|
    requires decoded[|decoded| - 1] != recs[|decoded| - 1]
    ensures DecodeStream(s, last, models, cfg, decoded) != DecodedStream(recs, rest)
  {
    DecodedStay(s, last, models, cfg, decoded);
    assert recs[..|decoded|][|decoded| - 1] != decoded[|decoded| - 1];
  }

  /** A differencing stream decodes to samples exactly when it decodes to them with their neighbours
      for models. */
  lemma DifferencesDecodeModelled(s: Bits, cfg: LoopCfg, modelValue: nat, recs: seq<Record>, rest: Bits)
    requires cfg.Valid() && !cfg.modelMode && modelValue <= MAX_MODEL_VALUE && recs != []
    requires forall i :: 0 <= i < |recs| ==> |recs[i]| == |cfg.setups|
    ensures Decodable(|recs| - 1, Neighbours(recs, |cfg.setups|), WithModel(cfg, modelValue))
    ensures DecodeStream(s, |recs| - 1, [], cfg, []) == DecodedStream(recs, rest)
            <==> DecodeStream(s, |recs| - 1, Neighbours(recs, |cfg.setups|), WithModel(cfg, modelValue), [])
                 == DecodedStream(recs, rest)
  {
    hide DecodeStream, Neighbours, ModelOf;
    NeighboursDecode(recs, cfg, modelValue);
    forall k | 0 <= k < |recs|
      ensures ModelOf(recs[..k], Neighbours(recs, |cfg.setups|), WithModel(cfg, modelValue), k)
              == ModelOf(recs[..k], [], cfg, k)
    {
      SameDecoderPrediction(recs, cfg, modelValue, recs[..k]);
    }
    AlikeDecoded(s, [], cfg, Neighbours(recs, |cfg.setups|), WithModel(cfg, modelValue), recs, rest, 0);
  }

  lemma PredictionLength(decoded: seq<Record>, models: seq<Record>, cfg: LoopCfg, last: nat)
    requires Decodable(last, models, cfg) && |decoded| <= last
    requires forall i :: 0 <= i < |decoded| ==> |decoded[i]| == |cfg.setups|
    ensures |ModelOf(decoded, models, cfg, |decoded|)| == |cfg.setups|
  {
  }

  /** What it takes for sample k and the ones behind it to be decoded as expected. */
  lemma ExpectedStep(s: Bits, models: seq<Record>, cfg: LoopCfg, recs: seq<Record>, rest: Bits, k: nat, r: RecordResult)
    requires k < |recs| && Decodable(|recs| - 1, models, cfg)
    requires forall i :: 0 <= i < |recs| ==> |recs[i]| == |cfg.setups|
    requires |ModelOf(recs[..k], models, cfg, k)| == |cfg.setups|
    requires r == DecodeRecord(s, ModelOf(recs[..k], models, cfg, k), cfg.setups, [])
    ensures DecodeStream(s, |recs| - 1, models, cfg, recs[..k]) == DecodedStream(recs, rest)
            <==> && r.DecodedRecord? && r.rec == recs[k]
                 && if k == |recs| - 1 then r.rest == rest
                    else DecodeStream(r.rest, |recs| - 1, models, cfg, recs[..k + 1]) == DecodedStream(recs, rest)
  {
    hide DecodeRecord, ModelOf, DecodeStream;
    var last, decoded := |recs| - 1, recs[..k];
    if r.CorruptRecord? {
      DecodeStreamStops(s, last, models, cfg, decoded);
    } else {
      DecodeStreamStep(s, last, models, cfg, decoded, r.rec, r.rest);
      if r.rec == recs[k] {
        assert decoded + [r.rec] == recs[..k + 1];
        assert recs[..|recs|] == recs;
      } else if k < last {
        OtherSample(r.rest, last, models, cfg, decoded + [r.rec], recs, rest);
      } else {
        assert (decoded + [r.rec])[k] != recs[k];
      }
    }
  }

  lemma {:induction false} AlikeDecoded(s: Bits, models: seq<Record>, cfg: LoopCfg, models': seq<Record>, cfg': LoopCfg,
                                        recs: seq<Record>, rest: Bits, k: nat)
    requires k < |recs| && Decodable(|recs| - 1, models, cfg) && Decodable(|recs| - 1, models', cfg')
    requires cfg'.setups == cfg.setups && forall i :: 0 <= i < |recs| ==> |recs[i]| == |cfg.setups|
    requires forall i :: 0 <= i < |recs| ==> ModelOf(recs[..i], models', cfg', i) == ModelOf(recs[..i], models, cfg, i)
    ensures DecodeStream(s, |recs| - 1, models, cfg, recs[..k]) == DecodedStream(recs, rest)
            <==> DecodeStream(s, |recs| - 1, models', cfg', recs[..k]) == DecodedStream(recs, rest)
    decreases |recs| - k
  {
    PredictionLength(recs[..k], models, cfg, |recs| - 1);
    hide DecodeRecord, ModelOf, DecodeStream, LoopCfg.Valid;
    var r := DecodeRecord(s, ModelOf(recs[..k], models, cfg, k), cfg.setups, []);
    ExpectedStep(s, models, cfg, recs, rest, k, r);
    ExpectedStep(s, models', cfg', recs, rest, k, r);
    if r.DecodedRecord? && k < |recs| - 1 {
      AlikeDecoded(r.rest, models, cfg, models', cfg', recs, rest, k + 1);
    }
  }

  // ----- the updated model

  /** Every field of an updated sample is the weighted average of model and rounded data. */
  lemma UpdatedSampleIsAverage(recs: seq<Record>, models: seq<Record>, cfg: LoopCfg, i: nat, f: nat)
    requires CanCode(recs, models, cfg) && cfg.modelMode && i < |recs| && f < |cfg.setups|
    ensures UpRecords(recs, models, cfg)[i][f]
            == Average(models[i][f], Rounded(recs[i][f], cfg.setups[f].round), cfg.modelValue)
  {
    hide UpModel, Average, Rounded, Pow2, IcuMaxSpill;
    assert RecordFits(recs[i], cfg.setups) && RecordFits(models[i], cfg.setups);
    UpModelIsAverage(recs[i][f], models[i][f], cfg.modelValue, cfg.setups[f].round, cfg.setups[f].width);
  }

  /** The updated model of a collection's data: averages where they were coded, the data where they were
      stored raw. */
  lemma UpdatedModelIs(data: Bits, model: Bits, n: nat, loop: LoopCfg, start: nat, i: nat, f: nat)
    requires Codable(data, model, n, loop) && loop.modelMode && i < n && f < |loop.setups|
    ensures if IsCoded(data, model, n, loop, start) then
              RecordsOf(UpdatedModel(data, model, n, loop, start), n, loop.setups)[i][f]
              == Average(RecordsOf(model, n, loop.setups)[i][f],
                         Rounded(RecordsOf(data, n, loop.setups)[i][f], loop.setups[f].round), loop.modelValue)
            else UpdatedModel(data, model, n, loop, start) == data
  {
    hide UpRecords, Average, Rounded, StreamBits, RecordsOf, BitsOfAll, SampleBits, Times, RecordFits;
    var (recs, models) := Records(data, model, n, loop);
    UpdatedSampleIsAverage(recs, models, loop, i, f);
    RecordsOfBitsOfAll(UpRecords(recs, models, loop), loop.setups);
  }
}
