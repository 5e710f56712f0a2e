/** The thresholds of compress_chunk. */
module ChunkThresholds {
  // In the zero escape modes no legal ones make a stream shorter; in the multi escape modes they are the largest.

  import opened BitStrings
  import opened Results
  import opened Golomb
  import opened Spill
  import opened SpillChoice
  import opened Values
  import opened Streams
  import opened Memory
  import opened DataTypes
  import opened Config
  import opened Parameters
  import opened Chunks

  /** What the loops use for a field of a collection. */
  lemma InitialSetup(subservice: nat, par: CmpPar, f: nat)
    requires !ChunkTypeOf(subservice).UnknownChunk? && f < |Layout(DataTypeOf(subservice))|
    ensures var ct, field := ChunkTypeOf(subservice), Layout(DataTypeOf(subservice))[f];
            var zero := ZeroEscapeIsUsed(par.cmpMode);
            && par.For(ct, field.param).Some?
            && var value := par.For(ct, field.param).value.0;
               InitialCfg(ct, par).Loop(DataTypeOf(subservice)).setups[f]
               == Setup(value, GetSpill(value, zero, field.width), 0, field.width, zero)
  {
    hide GetSpill, CmpPar.For, Layout, DataTypeOf, ChunkTypeOf, SlotPair;
    FieldsHaveParameters(subservice, par, f);
    EveryParameterIsConfigured(par, ChunkTypeOf(subservice), Layout(DataTypeOf(subservice))[f].param);
  }

  /** In the zero escape modes every field of every chunk has the best threshold. */
  lemma ZeroThresholdsAreBest(subservice: nat, par: CmpPar)
    requires !ChunkTypeOf(subservice).UnknownChunk? && par.cmpMode in {CMP_MODE_MODEL_ZERO, CMP_MODE_DIFF_ZERO}
    requires InitialCfg(ChunkTypeOf(subservice), par).Loop(DataTypeOf(subservice)).Valid()
    ensures var loop := InitialCfg(ChunkTypeOf(subservice), par).Loop(DataTypeOf(subservice));
            BestCfg(loop) == loop && forall f :: 0 <= f < |loop.setups| ==> loop.setups[f].zeroEscape
  {
    hide InitialCfg, Layout, DataTypeOf, ChunkTypeOf, BestZeroSpill, IcuMaxSpill, CmpPar.For;
    var loop := InitialCfg(ChunkTypeOf(subservice), par).Loop(DataTypeOf(subservice));
    forall f | 0 <= f < |loop.setups| ensures loop.setups[f].zeroEscape && Best(loop.setups[f]) == loop.setups[f] {
      InitialSetup(subservice, par, f);
    }
    assert BestSetups(loop.setups) == loop.setups;
  }

  /** In the multi escape modes every threshold is the largest legal one. */
  lemma MultiThresholdsAreLargest(subservice: nat, par: CmpPar, f: nat)
    requires !ChunkTypeOf(subservice).UnknownChunk? && par.cmpMode in {CMP_MODE_MODEL_MULTI, CMP_MODE_DIFF_MULTI}
    requires f < |Layout(DataTypeOf(subservice))|
    requires InitialCfg(ChunkTypeOf(subservice), par).Loop(DataTypeOf(subservice)).Valid()
    ensures var su := InitialCfg(ChunkTypeOf(subservice), par).Loop(DataTypeOf(subservice)).setups[f];
            && !su.zeroEscape && ParsAreValid(su.par, su.spill)
            && forall spill: nat :: ParsAreValid(su.par, spill) ==> spill <= su.spill
  {
    hide InitialCfg, Layout, DataTypeOf, ChunkTypeOf, BestZeroSpill, IcuMaxSpill, CmpPar.For;
    InitialSetup(subservice, par, f);
  }

  /** Configurations that differ in thresholds only. */
  predicate OtherThresholds(a: LoopCfg, b: LoopCfg) {
    && |a.setups| == |b.setups| && a == b.(setups := a.setups)
    && forall f :: 0 <= f < |a.setups| ==> a.setups[f] == b.setups[f].(spill := a.setups[f].spill)
  }

  lemma SameBest(a: LoopCfg, b: LoopCfg)
    requires a.Valid() && b.Valid() && OtherThresholds(a, b)
    ensures BestCfg(a) == BestCfg(b)
  {
    hide BestZeroSpill, IcuMaxSpill, ParsAreValid;
    assert BestSetups(a.setups) == BestSetups(b.setups);
  }

  lemma {:induction false} RecordAlike(b: Bits, a: seq<Setup>, c: seq<Setup>)
    requires |a| == |c| && forall f :: 0 <= f < |a| ==> a[f].width == c[f].width
    ensures SampleBits(a) == SampleBits(c)
    ensures |b| == SampleBits(a) ==> RecordOf(b, a) == RecordOf(b, c)
    decreases |a|
  {
    if a != [] {
      RecordAlike(if a[0].width <= |b| then b[a[0].width..] else [], a[1..], c[1..]);
    }
  }

  lemma {:induction false} RecordsAlike(b: Bits, n: nat, a: seq<Setup>, c: seq<Setup>)
    requires |a| == |c| && forall f :: 0 <= f < |a| ==> a[f].width == c[f].width
    requires |b| == Times(n, SampleBits(a)) && SampleBits(c) == SampleBits(a)
    ensures RecordsOf(b, n, a) == RecordsOf(b, n, c)
    decreases n
  {
    hide RecordOf, SampleBits;
    if n > 0 {
      var cut := Times(n - 1, SampleBits(a));
      RecordsAlike(b[..cut], n - 1, a, c);
      RecordAlike(b[cut..], a, c);
    }
  }

  /** Thresholds do not matter to how samples are read. */
  lemma CodableAlike(data: Bits, model: Bits, n: nat, loop: LoopCfg, other: LoopCfg)
    requires Codable(data, model, n, loop) && other.Valid() && OtherThresholds(other, loop)
    ensures Codable(data, model, n, other) && Records(data, model, n, other) == Records(data, model, n, loop)
  {
    hide RecordsOf, SampleBits, Times;
    RecordAlike([], other.setups, loop.setups);
    RecordsAlike(data, n, loop.setups, other.setups);
    if loop.modelMode {
      RecordsAlike(model, n, loop.setups, other.setups);
    }
  }

  /** No legal thresholds make the stream compress_chunk puts for a collection shorter. */
  lemma ChunkStreamIsShortest(b: Bits, model: Option<Bits>, par: CmpPar, other: LoopCfg)
    requires |b| >= HDR_BITS && !ChunkTypeOf(Subservice(b)).UnknownChunk? && ModelMatches(b, model)
    requires ColError(b, ChunkTypeOf(Subservice(b)), InitialCfg(ChunkTypeOf(Subservice(b)), par), model.Some?).None?
    requires par.cmpMode in {CMP_MODE_MODEL_ZERO, CMP_MODE_DIFF_ZERO}
    requires other.Valid() && OtherThresholds(other, InitialCfg(ChunkTypeOf(Subservice(b)), par).Loop(TypeOf(b)))
    ensures var loop := InitialCfg(ChunkTypeOf(Subservice(b)), par).Loop(TypeOf(b));
            && Codable(ColData(b), ModelData(b, model), Samples(b), loop)
            && Codable(ColData(b), ModelData(b, model), Samples(b), other)
            && |Stream(ColData(b), ModelData(b, model), Samples(b), loop)|
               <= |Stream(ColData(b), ModelData(b, model), Samples(b), other)|
  {
    var cfg := InitialCfg(ChunkTypeOf(Subservice(b)), par);
    var loop := cfg.Loop(TypeOf(b));
    assert cfg.cmpMode == par.cmpMode;
    hide InitialCfg, ColError, OtherThresholds, CanCode, StreamBits, Records, BestSetups, Cfg.Loop, SampleBits, Times;
    ColIsCodable(b, model, ChunkTypeOf(Subservice(b)), cfg);
    CodableAlike(ColData(b), ModelData(b, model), Samples(b), loop, other);
    ZeroThresholdsAreBest(Subservice(b), par);
    SameBest(other, loop);
    ShortestOfOthers(ColData(b), ModelData(b, model), Samples(b), loop, other);
  }

  lemma ShortestOfOthers(data: Bits, model: Bits, n: nat, loop: LoopCfg, other: LoopCfg)
    requires Codable(data, model, n, loop) && Codable(data, model, n, other) && OtherThresholds(other, loop)
    requires Records(data, model, n, other) == Records(data, model, n, loop)
    requires BestCfg(other) == loop && forall f :: 0 <= f < |loop.setups| ==> loop.setups[f].zeroEscape
    ensures |Stream(data, model, n, loop)| <= |Stream(data, model, n, other)|
  {
    hide CanCode, StreamBits, Records, BestCfg, Codable;
    var (recs, models) := Records(data, model, n, other);
    StreamIsShortest(recs, models, other, 0);
  }
}
