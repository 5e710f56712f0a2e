/** Where things stand in collections and entities. */
module Formats {
  // Said by position and not by the functions that read or write them.

  import opened BitStrings
  import opened Golomb
  import opened Spill
  import opened Values
  import opened Memory
  import opened BitRuns
  import opened Config
  import opened Parameters
  import opened Chunks
  import opened Entities
  import opened EntityMemory
  import Encoder

  // ----- the header of a collection

  /** Timestamp, configuration, packet type, subservice, CCD, sequence number, length of the data. */
  const COLLECTION_WIDTHS: seq<nat> := [48, 16, 1, 6, 2, 7, 16]

  /** The getters return subservice and length of a header made of its fields, whatever follows it. */
  lemma CollectionHeaderIs(values: seq<nat>, data: Bits)
    requires |values| == 7 && forall k :: 0 <= k < 7 ==> values[k] < Pow2(COLLECTION_WIDTHS[k])
    ensures var b := FieldBits(values, COLLECTION_WIDTHS) + data;
            |b| == HDR_BITS + |data| && Subservice(b) == values[3] && DataLength(b) == values[6]
  {
    hide FieldBits, ToBits, FromBits, Pow2;
    var offsets: seq<nat> := [0, 48, 64, 65, 71, 73, 80, 96];
    var header := FieldBits(values, COLLECTION_WIDTHS);
    SumIs(COLLECTION_WIDTHS, offsets);
    FieldFrom(values, COLLECTION_WIDTHS, offsets, 3);
    FieldFrom(values, COLLECTION_WIDTHS, offsets, 6);
    SliceInFront(header, data, 65, 71);
    SliceInFront(header, data, 80, 96);
    FromToBits(values[3], 6);
    FromToBits(values[6], 16);
  }

  // ----- the samples of a collection

  /** Bits of a sample in front of field f. */
  function BitsBefore(setups: seq<Setup>, f: nat): nat
    requires f <= |setups|
  {
    if f == 0 then 0 else BitsBefore(setups, f - 1) + setups[f - 1].width
  }

  lemma {:induction false} BitsBeforeRest(setups: seq<Setup>, f: nat)
    requires 0 < f <= |setups|
    ensures BitsBefore(setups, f) == setups[0].width + BitsBefore(setups[1..], f - 1)
  {
    if f > 1 {
      BitsBeforeRest(setups, f - 1);
    }
  }

  /** Field f of a sample. */
  lemma {:induction false} FieldInSample(b: Bits, setups: seq<Setup>, f: nat)
    requires |b| == SampleBits(setups) && f < |setups|
    ensures BitsBefore(setups, f) + setups[f].width <= |b|
    ensures RecordOf(b, setups)[f] == FromBits(b[BitsBefore(setups, f)..BitsBefore(setups, f) + setups[f].width])
    decreases |setups|
  {
    hide FromBits;
    if f > 0 {
      var w := setups[0].width;
      FieldInSample(b[w..], setups[1..], f - 1);
      BitsBeforeRest(setups, f);
      var at := BitsBefore(setups[1..], f - 1);
      SliceBehind(b[..w], b[w..], at, at + setups[f].width);
      assert b[..w] + b[w..] == b;
    }
  }

  /** Field f of a sample that stands at from. */
  lemma FieldFromThere(b: Bits, from: nat, to: nat, setups: seq<Setup>, f: nat)
    requires from + SampleBits(setups) == to <= |b| && f < |setups|
    ensures from + BitsBefore(setups, f) + setups[f].width <= |b|
    ensures RecordOf(b[from..to], setups)[f]
            == FromBits(b[from + BitsBefore(setups, f)..from + BitsBefore(setups, f) + setups[f].width])
  {
    hide FromBits, RecordOf, SampleBits, BitsBefore;
    FieldInSample(b[from..to], setups, f);
    Encoder.SliceOfSlice(b, from, to - from, BitsBefore(setups, f), BitsBefore(setups, f) + setups[f].width);
  }

  /** Field f of sample i of an array of samples. */
  lemma FieldInMemory(b: Bits, n: nat, setups: seq<Setup>, i: nat, f: nat)
    requires |b| == Times(n, SampleBits(setups)) && i < n && f < |setups|
    ensures var at := Times(i, SampleBits(setups)) + BitsBefore(setups, f);
            && at + setups[f].width <= |b|
            && RecordsOf(b, n, setups)[i][f] == FromBits(b[at..at + setups[f].width])
  {
    hide FromBits, RecordsOf, RecordOf, SampleBits, Times, BitsBefore;
    RecordAtOffset(b, n, setups, i);
    FieldFromThere(b, Times(i, SampleBits(setups)), Times(i + 1, SampleBits(setups)), setups, f);
  }

  // ----- the parameters in the header of an entity

  /** The caller's parameters for a chunk that begins with the subservice, in the order of the header. */
  function InHeader(subservice: nat, p: CmpPar): (pars: seq<nat>)
    ensures |pars| == 6
  {
    if subservice == 3 then [p.ncImagette, 0, 0, 0, 0, 0]
    else if subservice == 4 then [p.saturatedImagette, 0, 0, 0, 0, 0]
    else if subservice in {5, 6} then
      [0, p.ncOffsetMean, p.ncOffsetVariance, p.ncBackgroundMean, p.ncBackgroundVariance, p.ncBackgroundOutlierPixels]
    else if subservice == 7 then [0, 0, 0, p.smearingMean, p.smearingVarianceMean, p.smearingOutlierPixels]
    else if 9 <= subservice <= 12 then [p.sExpFlags, p.sFx, p.sNcob, p.sEfx, p.sEcob, 0]
    else if 13 <= subservice <= 16 then [p.lExpFlags, p.lFx, p.lNcob, p.lEfx, p.lEcob, p.lFxCobVariance]
    else if subservice in {1, 2, 25} then
      [p.fcImagette, p.fcOffsetMean, p.fcOffsetVariance, p.fcBackgroundMean, p.fcBackgroundVariance,
       p.fcBackgroundOutlierPixels]
    else [0, 0, 0, 0, 0, 0]
  }

  lemma SlotHolds(subservice: nat, par: CmpPar, k: nat)
    requires k < 6
    ensures InitialCfg(ChunkTypeOf(subservice), par).slots[k].par == InHeader(subservice, par)[k]
  {
    hide GetSpill;
  }

  /** The caller's parameters stand in the header of an entity compress_chunk built, each in its place. */
  lemma ParametersInHeader(subservice: nat, par: CmpPar, chunkSize: nat, entSize: nat, clock: Clock, version: nat,
                           k: nat)
    requires par.cmpMode != CMP_MODE_RAW && version < TWO_32 && k < 6
    requires BuildHeader(InitialCfg(ChunkTypeOf(subservice), par), chunkSize, entSize, clock).Ok?
    ensures var h := BuildHeader(InitialCfg(ChunkTypeOf(subservice), par), chunkSize, entSize, clock).value;
            && HeaderIsWellFormed(h)
            && Holds(HeaderBits(h, version), 280 + 40 * k, 296 + 40 * k, InHeader(subservice, par)[k])
  {
    hide ChunkTypeOf, InHeader, HeaderBits, Holds, SlotPair;
    var cfg := InitialCfg(ChunkTypeOf(subservice), par);
    BuiltIsBounded(cfg, chunkSize, entSize, clock, version);
    EntityLayout(BuildHeader(cfg, chunkSize, entSize, clock).value, version);
    SlotHolds(subservice, par, k);
  }
}
