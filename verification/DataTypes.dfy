/** The data types and their samples. */
module DataTypes {
  // How samples are laid out, the parameter of every field, and where it sits in the configuration.


  datatype DataType =
    | Unknown
    | Imagette | SatImagette | FCamImagette
    | ImagetteAdaptive | SatImagetteAdaptive | FCamImagetteAdaptive
    | Offset | FCamOffset | Background | FCamBackground | Smearing
    | SFx | SFxEfx | SFxNcob | SFxEfxNcobEcob
    | LFx | LFxEfx | LFxNcob | LFxEfxNcobEcob
    | FFx | FFxEfx | FFxNcob | FFxEfxNcobEcob

  /** The fast cadence types: they have a size and checks, but neither half has a loop for them. */
  predicate IsFastCadence(dt: DataType) {
    dt.FFx? || dt.FFxEfx? || dt.FFxNcob? || dt.FFxEfxNcobEcob?
  }

  /** convert_subservice_to_cmp_data_type. */
  function DataTypeOf(subservice: nat): DataType {
    match subservice
    case 1 => FCamImagette
    case 2 => FCamOffset
    case 3 => Imagette
    case 4 => SatImagette
    case 5 => Offset
    case 6 => Background
    case 7 => Smearing
    case 9 => SFx
    case 10 => SFxEfx
    case 11 => SFxNcob
    case 12 => SFxEfxNcobEcob
    case 13 => LFx
    case 14 => LFxEfx
    case 15 => LFxNcob
    case 16 => LFxEfxNcobEcob
    case 17 => FFx
    case 18 => FFxEfx
    case 19 => FFxNcob
    case 20 => FFxEfxNcobEcob
    case 25 => FCamBackground
    case _ => Unknown
  }

  /** size_of_a_sample, in bytes; 0 for unknown types. */
  function SampleSize(dt: DataType): nat {
    match dt
    case Unknown => 0
    case Imagette | SatImagette | FCamImagette => 2
    case ImagetteAdaptive | SatImagetteAdaptive | FCamImagetteAdaptive => 2
    case Offset | FCamOffset => 8
    case Background | FCamBackground | Smearing => 10
    case SFx => 5
    case SFxEfx => 9
    case SFxNcob => 13
    case SFxEfxNcobEcob => 25
    case LFx => 11
    case LFxEfx => 15
    case LFxNcob => 27
    case LFxEfxNcobEcob => 39
    case FFx => 4
    case FFxEfx => 8
    case FFxNcob => 12
    case FFxEfxNcobEcob => 24
  }

  /** The named parameters of a configuration. */
  datatype Param =
    | ImagettePar
    | ExpFlags | Fx | Ncob | Efx | Ecob | FxCobVariance
    | OffsetMean | OffsetVariance
    | BackgroundMean | BackgroundVariance | BackgroundPixelsError
    | SmearingMean | SmearingVariance | SmearingPixelsError

  /** The named parameters share six slots: the unions of the configuration structure. */
  function Slot(p: Param): (s: nat)
    ensures s < 6
  {
    match p
    case ImagettePar | ExpFlags => 0
    case Fx | OffsetMean => 1
    case Ncob | OffsetVariance => 2
    case Efx | BackgroundMean | SmearingMean => 3
    case Ecob | BackgroundVariance | SmearingVariance => 4
    case FxCobVariance | BackgroundPixelsError | SmearingPixelsError => 5
  }

  /** A member of a sample: its size in bits and the parameter it is compressed with. */
  datatype Field = Field(width: nat, param: Param)

  /** The members of a sample in the order in which both halves visit them. */
  function Layout(dt: DataType): (fields: seq<Field>)
    ensures forall f :: 0 <= f < |fields| ==> 1 <= fields[f].width <= 32
    ensures dt.Unknown? <==> fields == []
  {
    match dt
    case Unknown => []
    case Imagette | SatImagette | FCamImagette => [Field(16, ImagettePar)]
    case ImagetteAdaptive | SatImagetteAdaptive | FCamImagetteAdaptive => [Field(16, ImagettePar)]
    case Offset | FCamOffset => [Field(32, OffsetMean), Field(32, OffsetVariance)]
    case Background | FCamBackground =>
      [Field(32, BackgroundMean), Field(32, BackgroundVariance), Field(16, BackgroundPixelsError)]
    case Smearing => [Field(32, SmearingMean), Field(32, SmearingVariance), Field(16, SmearingPixelsError)]
    case SFx => [Field(8, ExpFlags), Field(32, Fx)]
    case SFxEfx => [Field(8, ExpFlags), Field(32, Fx), Field(32, Efx)]
    case SFxNcob => [Field(8, ExpFlags), Field(32, Fx), Field(32, Ncob), Field(32, Ncob)]
    case SFxEfxNcobEcob =>
      [Field(8, ExpFlags), Field(32, Fx), Field(32, Ncob), Field(32, Ncob), Field(32, Efx), Field(32, Ecob),
       Field(32, Ecob)]
    case LFx => [Field(24, ExpFlags), Field(32, Fx), Field(32, FxCobVariance)]
    case LFxEfx => [Field(24, ExpFlags), Field(32, Fx), Field(32, Efx), Field(32, FxCobVariance)]
    case LFxNcob =>
      [Field(24, ExpFlags), Field(32, Fx), Field(32, Ncob), Field(32, Ncob),
       Field(32, FxCobVariance), Field(32, FxCobVariance), Field(32, FxCobVariance)]
    case LFxEfxNcobEcob =>
      [Field(24, ExpFlags), Field(32, Fx), Field(32, Ncob), Field(32, Ncob), Field(32, Efx), Field(32, Ecob),
       Field(32, Ecob), Field(32, FxCobVariance), Field(32, FxCobVariance), Field(32, FxCobVariance)]
    case FFx => [Field(32, Fx)]
    case FFxEfx => [Field(32, Fx), Field(32, Efx)]
    case FFxNcob => [Field(32, Fx), Field(32, Ncob), Field(32, Ncob)]
    case FFxEfxNcobEcob =>
      [Field(32, Fx), Field(32, Ncob), Field(32, Ncob), Field(32, Efx), Field(32, Ecob), Field(32, Ecob)]
  }

  /** Bits of a sample. */
  function WidthSum(fields: seq<Field>): nat {
    if fields == [] then 0 else fields[0].width + WidthSum(fields[1..])
  }

  lemma {:induction false} WordFields(fields: seq<Field>)
    requires forall f :: 0 <= f < |fields| ==> fields[f].width == 32
    ensures WidthSum(fields) == 32 * |fields|
  {
    if fields != [] {
      WordFields(fields[1..]);
    }
  }

  lemma LastField(fields: seq<Field>)
    requires |fields| == 3
    ensures WidthSum(fields) == fields[0].width + fields[1].width + fields[2].width
  {
    assert WidthSum(fields[2..]) == fields[2].width + WidthSum(fields[2..][1..]);
    assert fields[1..][1..] == fields[2..];
  }

  /** The size of a sample is the size of its fields: both tables agree. */
  lemma SampleSizeIsLayout(dt: DataType)
    ensures 8 * SampleSize(dt) == WidthSum(Layout(dt))
  {
    var fields := Layout(dt);
    if dt.Background? || dt.FCamBackground? || dt.Smearing? {
      LastField(fields);
    } else if !dt.Unknown? {
      WordFields(fields[1..]);
    }
  }

  function Repeated(field: Field, n: nat): (fields: seq<Field>) {
    seq(n, i => field)
  }

  /** The members of a flux sample: exposure flags, flux, its centroid, the extended flux and its
      centroid, and the variances of fluxes and centroids. */
  function FluxMembers(flagBits: nat, centroid: bool, extended: bool, variances: nat): seq<Field> {
    (if flagBits > 0 then [Field(flagBits, ExpFlags)] else []) + [Field(32, Fx)]
    + Repeated(Field(32, Ncob), if centroid then 2 else 0) + Repeated(Field(32, Efx), if extended then 1 else 0)
    + Repeated(Field(32, Ecob), if centroid && extended then 2 else 0) + Repeated(Field(32, FxCobVariance), variances)
  }

  /** Fluxes come in three cadences with four products each. */
  lemma FluxSubservices(subservice: nat)
    requires 9 <= subservice <= 20
    ensures var product := (subservice - 9) % 4;
            var centroid, extended := product >= 2, product % 2 == 1;
            Layout(DataTypeOf(subservice))
            == if subservice <= 12 then FluxMembers(8, centroid, extended, 0)
               else if subservice <= 16 then FluxMembers(24, centroid, extended, if centroid then 3 else 1)
               else FluxMembers(0, centroid, extended, 0)
  {
  }

  function Params(fields: seq<Field>): (p: seq<Param>)
    ensures |p| == |fields|
  {
    seq(|fields|, f requires 0 <= f < |fields| => fields[f].param)
  }

  /** The other subservices: imagettes, offsets, backgrounds and smearing. */
  lemma OtherSubservices(subservice: nat)
    requires subservice < 9 || subservice > 20
    ensures var dt := DataTypeOf(subservice);
            && (SampleSize(dt) == 2 <==> subservice in {1, 3, 4})
            && (SampleSize(dt) == 8 <==> subservice in {2, 5})
            && (SampleSize(dt) == 10 <==> subservice in {6, 7, 25})
            && (dt.Unknown? <==> subservice !in {1, 2, 3, 4, 5, 6, 7, 25})
            && (subservice in {1, 3, 4} ==> Params(Layout(dt)) == [ImagettePar])
            && (subservice in {2, 5} ==> Params(Layout(dt)) == [OffsetMean, OffsetVariance])
            && (subservice in {6, 25} ==>
                  Params(Layout(dt)) == [BackgroundMean, BackgroundVariance, BackgroundPixelsError])
            && (subservice == 7 ==> Params(Layout(dt)) == [SmearingMean, SmearingVariance, SmearingPixelsError])
  {
  }

  /** Whichever data type a chunk type has parameters for, the front-end camera's have their own. */
  lemma FrontEndCamera(subservice: nat)
    ensures subservice in {1, 2, 25} <==>
              DataTypeOf(subservice).FCamImagette? || DataTypeOf(subservice).FCamOffset?
              || DataTypeOf(subservice).FCamBackground?
    ensures DataTypeOf(subservice).SatImagette? <==> subservice == 4
  {
  }
}
