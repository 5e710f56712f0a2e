/** Configurations and their checks. */
module Config {
  import opened Spill
  import opened Values
  import opened Streams
  import opened DataTypes

  // ----- compression modes

  const CMP_MODE_RAW := 0
  const CMP_MODE_MODEL_ZERO := 1
  const CMP_MODE_DIFF_ZERO := 2
  const CMP_MODE_MODEL_MULTI := 3
  const CMP_MODE_DIFF_MULTI := 4

  predicate ModeIsSupported(mode: nat) {
    mode <= CMP_MODE_DIFF_MULTI
  }

  predicate ModelModeIsUsed(mode: nat) {
    mode == CMP_MODE_MODEL_ZERO || mode == CMP_MODE_MODEL_MULTI
  }

  predicate ZeroEscapeIsUsed(mode: nat) {
    mode == CMP_MODE_MODEL_ZERO || mode == CMP_MODE_DIFF_ZERO
  }

  // ----- the configuration structure

  /** A compression parameter and its spillover threshold. */
  datatype Pair = Pair(par: nat, spill: nat)

  datatype Cfg = Cfg(cmpMode: nat, modelValue: nat, round: nat, slots: seq<Pair>)
  {
    predicate WellFormed() {
      |slots| == 6
    }

    function Get(p: Param): Pair
      requires WellFormed()
    {
      slots[Slot(p)]
    }

    function Set(p: Param, par: nat, spill: nat): (c: Cfg)
      requires WellFormed()
      ensures c.WellFormed() && c.Get(p) == Pair(par, spill)
    {
      this.(slots := slots[Slot(p) := Pair(par, spill)])
    }

    /** What the loops read of it for a collection of the given type. */
    function Loop(dt: DataType): (l: LoopCfg)
      requires WellFormed()
      ensures |l.setups| == |Layout(dt)|
    {
      LoopCfg(seq(|Layout(dt)|, f requires 0 <= f < |Layout(dt)| =>
                var p := Get(Layout(dt)[f].param);
                Setup(p.par, p.spill, round, Layout(dt)[f].width, ZeroEscapeIsUsed(cmpMode))),
              ModelModeIsUsed(cmpMode), modelValue)
    }

    // ----- validity

    /** cmp_cfg_gen_par_is_invalid. */
    predicate GenParIsInvalid() {
      || !ModeIsSupported(cmpMode)
      || (ModelModeIsUsed(cmpMode) && modelValue > MAX_MODEL_VALUE)
      || round > MAX_ICU_ROUND
    }

    /** cmp_pars_are_invalid. */
    predicate ParsAreInvalid(p: Param)
      requires WellFormed()
    {
      if cmpMode == CMP_MODE_RAW then false
      else if ModeIsSupported(cmpMode) then !ParsAreValid(Get(p).par, Get(p).spill)
      else true
    }

    /** The check of the type-specific parameters, type by type as the source makes it. */
    predicate SpecificIsInvalid(dt: DataType)
      requires WellFormed()
    {
      exists i :: 0 <= i < |NeededPars(dt)| && ParsAreInvalid(NeededPars(dt)[i])
    }
  }

  /** The parameters whose validity is checked for a data type. */
  function NeededPars(dt: DataType): seq<Param> {
    match dt
    case Unknown => []
    case Imagette | SatImagette | FCamImagette => [ImagettePar]
    case ImagetteAdaptive | SatImagetteAdaptive | FCamImagetteAdaptive => [ImagettePar]
    case Offset | FCamOffset => [OffsetMean, OffsetVariance]
    case Background | FCamBackground => [BackgroundMean, BackgroundVariance, BackgroundPixelsError]
    case Smearing => [SmearingMean, SmearingVariance, SmearingPixelsError]
    case SFx => [Fx, ExpFlags]
    case SFxEfx => [Fx, ExpFlags, Efx]
    case SFxNcob => [Fx, ExpFlags, Ncob]
    case SFxEfxNcobEcob => [Fx, ExpFlags, Ncob, Efx, Ecob]
    case LFx => [Fx, ExpFlags, FxCobVariance]
    case LFxEfx => [Fx, ExpFlags, Efx, FxCobVariance]
    case LFxNcob => [Fx, ExpFlags, Ncob, FxCobVariance]
    case LFxEfxNcobEcob => [Fx, ExpFlags, Ncob, Efx, Ecob, FxCobVariance]
    case FFx => [Fx]
    case FFxEfx => [Fx, Efx]
    case FFxNcob => [Fx, Ncob]
    case FFxEfxNcobEcob => [Fx, Ncob, Efx, Ecob]
  }

  /** The parameters checked are exactly those the fields of a sample use. */
  lemma NeededParsAreUsed(dt: DataType)
    ensures forall p: Param :: p in NeededPars(dt) <==> exists f :: 0 <= f < |Layout(dt)| && Layout(dt)[f].param == p
  {
    hide NeededPars, Layout;
    forall p: Param ensures p in NeededPars(dt) <==> exists f :: 0 <= f < |Layout(dt)| && Layout(dt)[f].param == p {
      if p in NeededPars(dt) {
        NeededIsUsed(dt, p);
      }
      forall f | 0 <= f < |Layout(dt)| && Layout(dt)[f].param == p ensures p in NeededPars(dt) {
        UsedIsNeeded(dt, f);
      }
    }
  }

  lemma UsedIsNeeded(dt: DataType, f: nat)
    requires f < |Layout(dt)|
    ensures Layout(dt)[f].param in NeededPars(dt)
  {
  }

  predicate IsLong(dt: DataType) {
    dt.LFx? || dt.LFxEfx? || dt.LFxNcob? || dt.LFxEfxNcobEcob?
  }

  lemma LongNeededIsUsed(dt: DataType, p: Param)
    requires p in NeededPars(dt) && IsLong(dt)
    ensures exists f :: 0 <= f < |Layout(dt)| && Layout(dt)[f].param == p
  {
    var l := Layout(dt);
    var f := if l[0].param == p then 0 else if l[1].param == p then 1 else if l[2].param == p then 2
             else if l[3].param == p then 3
             else if l[4].param == p then 4 else if l[5].param == p then 5 else 9;
    assert l[f].param == p;
  }

  lemma NeededIsUsed(dt: DataType, p: Param)
    requires p in NeededPars(dt)
    ensures exists f :: 0 <= f < |Layout(dt)| && Layout(dt)[f].param == p
  {
    if IsLong(dt) {
      LongNeededIsUsed(dt, p);
      return;
    }
    var l := Layout(dt);
    var f := if l[0].param == p then 0 else if l[1].param == p then 1 else if l[2].param == p then 2
             else if l[3].param == p then 3 else if l[4].param == p then 4 else 5;
    assert l[f].param == p;
  }

  lemma FieldOf(dt: DataType, p: Param) returns (f: nat)
    requires p in NeededPars(dt)
    ensures f < |Layout(dt)| && Layout(dt)[f].param == p
  {
    hide NeededPars, Layout;
    NeededIsUsed(dt, p);
    f :| f < |Layout(dt)| && Layout(dt)[f].param == p;
  }

  lemma IndexOf(params: seq<Param>, p: Param) returns (i: nat)
    requires p in params
    ensures i < |params| && params[i] == p
  {
    i :| i < |params| && params[i] == p;
  }

  /** In a non-raw mode the checks pass exactly when the loops have a valid configuration. */
  lemma ChecksAreExact(cfg: Cfg, dt: DataType)
    requires cfg.WellFormed() && !dt.Unknown? && cfg.cmpMode != CMP_MODE_RAW && ModeIsSupported(cfg.cmpMode)
    ensures !cfg.GenParIsInvalid() && !cfg.SpecificIsInvalid(dt) <==> cfg.Loop(dt).Valid() && cfg.round <= MAX_ICU_ROUND
  {
    hide IcuMaxSpill, ParsAreValid, NeededPars;
    NeededParsAreUsed(dt);
    var l, loop, needed := Layout(dt), cfg.Loop(dt), NeededPars(dt);
    forall f | 0 <= f < |l|
      ensures loop.setups[f].Valid() <==> cfg.round <= MAX_ICU_ROUND && !cfg.ParsAreInvalid(l[f].param)
      ensures l[f].param in needed
    {
    }
    if !cfg.SpecificIsInvalid(dt) {
      forall f | 0 <= f < |l| ensures !cfg.ParsAreInvalid(l[f].param) {
        var i := IndexOf(needed, l[f].param);
      }
    } else {
      var i :| 0 <= i < |needed| && cfg.ParsAreInvalid(needed[i]);
      assert needed[i] in needed;
      var f := FieldOf(dt, needed[i]);
      assert !loop.setups[f].Valid();
    }
  }

  /** What the numbers of the modes mean: 1 and 3 predict from the model, 2 and 4 from the sample before;
      1 and 2 use the zero escape mechanism, 3 and 4 the multi escape mechanism. */
  lemma ModesMean(cfg: Cfg, dt: DataType, f: nat, mapped: nat)
    requires cfg.WellFormed() && f < |Layout(dt)| && cfg.Loop(dt).Valid()
    ensures cfg.cmpMode in {1, 3} ==> cfg.Loop(dt).modelMode
    ensures cfg.cmpMode in {2, 4} ==> !cfg.Loop(dt).modelMode
    ensures cfg.cmpMode in {1, 2} ==> EscapeBits(mapped, cfg.Loop(dt).setups[f])
                                      == ZeroEscapeBits(mapped, cfg.Loop(dt).setups[f])
    ensures cfg.cmpMode in {3, 4} ==> EscapeBits(mapped, cfg.Loop(dt).setups[f])
                                      == MultiEscapeBits(mapped, cfg.Loop(dt).setups[f])
    ensures ModeIsSupported(cfg.cmpMode) <==> cfg.cmpMode <= 4
  {
    hide ZeroEscapeBits, MultiEscapeBits, IcuMaxSpill;
  }
}
