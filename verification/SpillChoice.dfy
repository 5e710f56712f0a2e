/** The best thresholds for whole streams. */
module SpillChoice {
  import opened BitStrings
  import opened Golomb
  import opened Spill
  import opened Values
  import opened Streams

  /** A value is coded normally exactly when its code word is not longer than the escape symbol
      with the raw bits, unless the legal maximum forbids it. */
  lemma NormalWhenNotLonger(x: nat, par: nat, width: nat)
    requires ParIsValid(par) && width >= 1
    ensures x + 1 < BestZeroSpill(par, width)
            <==> |Code(x + 1, par)| <= |Code(0, par)| + width && x + 1 < IcuMaxSpill(par)
  {
    CodeOfFirstGroup(0, par);
    CodeLengthBound(x + 1, par, ILog2(par) + 1 + width);
  }

  /** The setup with the derived threshold in place of another one. */
  function Best(su: Setup): (b: Setup)
    requires su.Valid()
    ensures b.Valid() && b == su.(spill := b.spill)
  {
    DerivedSpillIsValid(su.par, true, su.width);
    su.(spill := BestZeroSpill(su.par, su.width))
  }

  lemma ZeroEscapeBitsCost(mapped: nat, su: Setup)
    requires su.Valid() && su.zeroEscape
    ensures |EscapeBits(mapped, su)| == ZeroEscapeCost(mapped, su.par, su.spill, su.width)
  {
    hide Code, ToBits;
  }

  lemma ValueIsShortest(data: nat, model: nat, su: Setup)
    requires su.Valid() && su.zeroEscape
    ensures |ValueBits(data, model, Best(su))| <= |ValueBits(data, model, su)|
  {
    hide EscapeBits, MapToPos, U32, RoundFwd, ZeroEscapeCost;
    var mapped := MapToPos(U32(RoundFwd(data, su.round) - RoundFwd(model, su.round)), su.width);
    ZeroEscapeBitsCost(mapped, su);
    ZeroEscapeBitsCost(mapped, Best(su));
    BestZeroSpillIsOptimal(mapped, su.par, su.spill, su.width);
  }

  function BestSetups(setups: seq<Setup>): (b: seq<Setup>)
    requires SetupsValid(setups)
    ensures |b| == |setups| && SetupsValid(b)
  {
    seq(|setups|, f requires 0 <= f < |setups| => Best(setups[f]))
  }

  lemma {:induction false} RecordIsShortest(rec: Record, model: Record, setups: seq<Setup>, f: nat)
    requires |rec| == |model| == |setups| && SetupsValid(setups) && f <= |setups|
    requires forall i :: 0 <= i < |setups| ==> setups[i].zeroEscape
    ensures |RecordBits(rec, model, BestSetups(setups), f)| <= |RecordBits(rec, model, setups, f)|
    decreases |setups| - f
  {
    hide ValueBits, Best, IcuMaxSpill;
    if f < |setups| {
      ValueIsShortest(rec[f], model[f], setups[f]);
      RecordIsShortest(rec, model, setups, f + 1);
    }
  }

  function BestCfg(cfg: LoopCfg): (b: LoopCfg)
    requires cfg.Valid()
    ensures b.Valid() && |b.setups| == |cfg.setups| && b.modelMode == cfg.modelMode
  {
    cfg.(setups := BestSetups(cfg.setups))
  }

  lemma BestCodes(recs: seq<Record>, models: seq<Record>, cfg: LoopCfg)
    requires CanCode(recs, models, cfg)
    ensures CanCode(recs, models, BestCfg(cfg))
    ensures forall i :: 0 <= i < |recs| ==> ModelOf(recs, models, BestCfg(cfg), i) == ModelOf(recs, models, cfg, i)
  {
  }

  /** For fixed Golomb parameters no legal thresholds make the stream of any data shorter than
      the derived ones do. */
  lemma {:induction false} StreamIsShortest(recs: seq<Record>, models: seq<Record>, cfg: LoopCfg, i: nat)
    requires CanCode(recs, models, cfg) && CanCode(recs, models, BestCfg(cfg)) && i <= |recs|
    requires forall f :: 0 <= f < |cfg.setups| ==> cfg.setups[f].zeroEscape
    ensures |StreamBits(recs, models, BestCfg(cfg), i)| <= |StreamBits(recs, models, cfg, i)|
    decreases |recs| - i
  {
    hide RecordBits, ModelOf, StreamBits, AllFit, BestSetups;
    if i == |recs| {
      NoMoreBits(recs, models, cfg);
      NoMoreBits(recs, models, BestCfg(cfg));
    } else {
      BestCodes(recs, models, cfg);
      StreamBitsFirst(recs, models, cfg, i);
      StreamBitsFirst(recs, models, BestCfg(cfg), i);
      RecordIsShortest(recs[i], ModelOf(recs, models, cfg, i), cfg.setups, 0);
      StreamIsShortest(recs, models, cfg, i + 1);
    }
  }

  lemma NoMoreBits(recs: seq<Record>, models: seq<Record>, cfg: LoopCfg)
    requires CanCode(recs, models, cfg)
    ensures StreamBits(recs, models, cfg, |recs|) == []
  {
  }
}
