/** Samples through the codec. */
module Streams {
  // A collection is a list of samples, a sample a list of fields: the per-type loops of the source are one loop.

  import opened BitStrings
  import opened Golomb
  import opened Values

  /** The fields of one sample. */
  type Record = seq<nat>

  /** The part of the configuration the loops read. */
  datatype LoopCfg = LoopCfg(setups: seq<Setup>, modelMode: bool, modelValue: nat)
  {
    predicate Valid() {
      && |setups| >= 1
      && (forall f :: 0 <= f < |setups| ==> setups[f].Valid())
      && (modelMode ==> modelValue <= MAX_MODEL_VALUE)
    }
  }

  /** A record as it is held in memory: every field fits its storage. */
  predicate RecordFits(rec: Record, setups: seq<Setup>) {
    && |rec| == |setups|
    && forall f :: 0 <= f < |rec| ==> rec[f] < Pow2(setups[f].width)
  }

  predicate AllFit(recs: seq<Record>, setups: seq<Setup>) {
    forall i :: 0 <= i < |recs| ==> RecordFits(recs[i], setups)
  }

  predicate SetupsValid(setups: seq<Setup>) {
    forall f :: 0 <= f < |setups| ==> setups[f].Valid()
  }

  function ZeroRecord(n: nat): (r: Record)
    ensures |r| == n
  {
    seq(n, i => 0)
  }

  function RoundedRecord(rec: Record, setups: seq<Setup>): (r: Record)
    requires |rec| == |setups|
    ensures |r| == |rec|
  {
    seq(|rec|, f requires 0 <= f < |rec| => Rounded(rec[f], setups[f].round))
  }

  function RoundedRecords(recs: seq<Record>, setups: seq<Setup>): (r: seq<Record>)
    requires AllFit(recs, setups)
    ensures |r| == |recs|
  {
    seq(|recs|, i requires 0 <= i < |recs| => RoundedRecord(recs[i], setups))
  }

  // ----- encoding

  /** The bits of fields f, f + 1, ... of a record. */
  function RecordBits(rec: Record, model: Record, setups: seq<Setup>, f: nat): (b: Bits)
    requires |rec| == |model| == |setups| && SetupsValid(setups) && f <= |setups|
    decreases |setups| - f
  {
    if f == |setups| then []
    else ValueBits(rec[f], model[f], setups[f]) + RecordBits(rec, model, setups, f + 1)
  }

  /** The model of record i: the model buffer's, or the neighbour's in the differencing modes. */
  function ModelOf(recs: seq<Record>, models: seq<Record>, cfg: LoopCfg, i: nat): Record
    requires cfg.modelMode ==> i < |models|
    requires !cfg.modelMode ==> i <= |recs|
  {
    if cfg.modelMode then models[i] else if i == 0 then ZeroRecord(|cfg.setups|) else recs[i - 1]
  }

  predicate CanCode(recs: seq<Record>, models: seq<Record>, cfg: LoopCfg) {
    && cfg.Valid()
    && AllFit(recs, cfg.setups)
    && (cfg.modelMode ==> |models| == |recs| && AllFit(models, cfg.setups))
  }

  lemma ModelFits(recs: seq<Record>, models: seq<Record>, cfg: LoopCfg, i: nat)
    requires CanCode(recs, models, cfg) && i < |recs|
    ensures RecordFits(ModelOf(recs, models, cfg, i), cfg.setups)
  {
  }

  /** The bits of records i, i + 1, ... of a collection. */
  function StreamBits(recs: seq<Record>, models: seq<Record>, cfg: LoopCfg, i: nat): (b: Bits)
    requires CanCode(recs, models, cfg) && i <= |recs|
    decreases |recs| - i
  {
    if i == |recs| then []
    else
      ModelFits(recs, models, cfg, i);
      RecordBits(recs[i], ModelOf(recs, models, cfg, i), cfg.setups, 0) + StreamBits(recs, models, cfg, i + 1)
  }

  // ----- decoding

  datatype RecordResult = CorruptRecord | DecodedRecord(rec: Record, rest: Bits)

  /** decoded: the fields already read. A field is stored in its own width. */
  function DecodeRecord(s: Bits, model: Record, setups: seq<Setup>, decoded: Record): (r: RecordResult)
    requires |model| == |setups| && SetupsValid(setups) && |decoded| <= |setups|
    ensures r.DecodedRecord? ==> |r.rec| == |setups|
    decreases |setups| - |decoded|
  {
    var f := |decoded|;
    if f == |setups| then DecodedRecord(decoded, s)
    else
      var v := DecodeValue(s, model[f], setups[f]);
      if v.Corrupt? then CorruptRecord
      else DecodeRecord(v.rest, model, setups, decoded + [Low(v.value, setups[f].width)])
  }

  /** A loop that tests its exit at the end looks at one sample even if there is none. */
  function AtLeastOne(n: nat): (m: nat)
    ensures m >= 1 && (n >= 1 ==> m == n)
  {
    if n == 0 then 1 else n
  }

  datatype StreamResult = CorruptStream | DecodedStream(recs: seq<Record>, rest: Bits)

  /** The decoding loop: like the source it leaves after record number last, tested at the end. */
  function DecodeStream(s: Bits, last: nat, models: seq<Record>, cfg: LoopCfg, decoded: seq<Record>): (r: StreamResult)
    requires cfg.Valid() && |decoded| <= last
    requires cfg.modelMode ==> |models| > last && forall i :: 0 <= i < |models| ==> |models[i]| == |cfg.setups|
    requires forall i :: 0 <= i < |decoded| ==> |decoded[i]| == |cfg.setups|
    ensures r.DecodedStream? ==> |r.recs| == last + 1
    decreases last - |decoded|
  {
    var r := DecodeRecord(s, ModelOf(decoded, models, cfg, |decoded|), cfg.setups, []);
    if r.CorruptRecord? then CorruptStream
    else if |decoded| >= last then DecodedStream(decoded + [r.rec], r.rest)
    else DecodeStream(r.rest, last, models, cfg, decoded + [r.rec])
  }

  /** Decoded fields fit the fields they are stored in. */
  lemma {:induction false} DecodedRecordFits(s: Bits, model: Record, setups: seq<Setup>, decoded: Record)
    requires |model| == |setups| && SetupsValid(setups) && |decoded| <= |setups|
    requires forall f :: 0 <= f < |decoded| ==> decoded[f] < Pow2(setups[f].width)
    ensures var r := DecodeRecord(s, model, setups, decoded); r.DecodedRecord? ==> RecordFits(r.rec, setups)
    decreases |setups| - |decoded|
  {
    hide DecodeValue, Low, Pow2;
    var f := |decoded|;
    if f < |setups| {
      var v := DecodeValue(s, model[f], setups[f]);
      if v.Decoded? {
        DecodedRecordFits(v.rest, model, setups, decoded + [Low(v.value, setups[f].width)]);
      }
    }
  }

  lemma {:induction false} DecodedStreamFits(s: Bits, last: nat, models: seq<Record>, cfg: LoopCfg,
                                             decoded: seq<Record>)
    requires cfg.Valid() && |decoded| <= last && AllFit(decoded, cfg.setups)
    requires cfg.modelMode ==> |models| > last && forall i :: 0 <= i < |models| ==> |models[i]| == |cfg.setups|
    ensures var r := DecodeStream(s, last, models, cfg, decoded); r.DecodedStream? ==> AllFit(r.recs, cfg.setups)
    decreases last - |decoded|
  {
    hide DecodeRecord, Pow2;
    var model := ModelOf(decoded, models, cfg, |decoded|);
    DecodedRecordFits(s, model, cfg.setups, []);
    var r := DecodeRecord(s, model, cfg.setups, []);
    if r.DecodedRecord? && |decoded| < last {
      DecodedStreamFits(r.rest, last, models, cfg, decoded + [r.rec]);
    }
  }

  // ----- round trip of a record, of a stream

  lemma RoundedFits(v: nat, su: Setup)
    requires su.Valid() && v < Pow2(su.width)
    ensures Fits(v, su) && v < TWO_32
    ensures Rounded(v, su.round) <= v && Low(Rounded(v, su.round), su.width) == Rounded(v, su.round)
    ensures RoundFwd(Rounded(v, su.round), su.round) == RoundFwd(v, su.round)
  {
    hide Low, Rounded, Pow2, RoundFwd;
    Pow2Word(su.width);
    RoundedAgain(v, su.round);
    LowSmall(Rounded(v, su.round), su.width);
    DownNotLarger(v, su.round);
    assert RoundFwd(v, su.round) == Down(v, su.round) by { RoundFwdIsDown(v, su.round); }
  }

  lemma RoundFwdIsDown(v: nat, round: nat)
    ensures RoundFwd(v, round) == Down(v, round)
  {
  }

  lemma {:induction false} DownNotLarger(x: nat, n: nat)
    ensures Down(x, n) <= x
  {
    if n > 0 {
      DownNotLarger(x / 2, n - 1);
    }
  }

  /** Two models that round alike lead to the same decoded values. */
  predicate RoundAlike(a: Record, b: Record, setups: seq<Setup>) {
    && |a| == |b| == |setups|
    && forall f :: 0 <= f < |a| ==> RoundFwd(a[f], setups[f].round) == RoundFwd(b[f], setups[f].round)
  }

  lemma DecodeRecordStep(s: Bits, model: Record, setups: seq<Setup>, decoded: Record, v: nat, rest: Bits)
    requires |model| == |setups| && SetupsValid(setups) && |decoded| < |setups|
    requires DecodeValue(s, model[|decoded|], setups[|decoded|]) == Decoded(v, rest)
    requires Low(v, setups[|decoded|].width) == v
    ensures DecodeRecord(s, model, setups, decoded) == DecodeRecord(rest, model, setups, decoded + [v])
  {
    hide DecodeValue, Low;
  }

  lemma {:induction false} RecordRoundTrip(rec: Record, model: Record, model': Record, setups: seq<Setup>, f: nat,
                                           t: Bits)
    requires SetupsValid(setups) && RecordFits(rec, setups) && RecordFits(model, setups) && f <= |setups|
    requires RoundAlike(model', model, setups)
    ensures DecodeRecord(RecordBits(rec, model, setups, f) + t, model', setups, RoundedRecord(rec, setups)[..f])
            == DecodedRecord(RoundedRecord(rec, setups), t)
    decreases |setups| - f
  {
    hide ValueBits, DecodeValue, Rounded, RoundFwd, Low, Pow2;
    var r := RoundedRecord(rec, setups);
    var s := RecordBits(rec, model, setups, f) + t;
    if f == |setups| {
      assert r[..f] == r && s == t;
    } else {
      var s' := RecordBits(rec, model, setups, f + 1) + t;
      RecordBitsStep(rec, model, setups, f, t);
      RoundedFits(rec[f], setups[f]);
      RoundedFits(model[f], setups[f]);
      ValueRoundTrip(rec[f], model[f], model'[f], setups[f], s');
      assert r[..f] + [r[f]] == r[..f + 1];
      hide *;
      DecodeRecordStep(s, model', setups, r[..f], r[f], s');
      RecordRoundTrip(rec, model, model', setups, f + 1, t);
    }
  }

  lemma RecordBitsStep(rec: Record, model: Record, setups: seq<Setup>, f: nat, t: Bits)
    requires |rec| == |model| == |setups| && SetupsValid(setups) && f < |setups|
    ensures RecordBits(rec, model, setups, f) + t
            == ValueBits(rec[f], model[f], setups[f]) + (RecordBits(rec, model, setups, f + 1) + t)
  {
    hide ValueBits;
  }

  lemma ModelsRoundAlike(recs: seq<Record>, models: seq<Record>, cfg: LoopCfg, i: nat)
    requires CanCode(recs, models, cfg) && i < |recs|
    ensures RoundAlike(ModelOf(RoundedRecords(recs, cfg.setups)[..i], models, cfg, i),
                       ModelOf(recs, models, cfg, i), cfg.setups)
  {
    if !cfg.modelMode && i > 0 {
      forall f | 0 <= f < |cfg.setups|
        ensures RoundFwd(Rounded(recs[i - 1][f], cfg.setups[f].round), cfg.setups[f].round)
                == RoundFwd(recs[i - 1][f], cfg.setups[f].round)
      {
        RoundedFits(recs[i - 1][f], cfg.setups[f]);
      }
    }
  }

  lemma StreamBitsStep(recs: seq<Record>, models: seq<Record>, cfg: LoopCfg, i: nat, t: Bits)
    requires CanCode(recs, models, cfg) && i < |recs|
    ensures RecordFits(ModelOf(recs, models, cfg, i), cfg.setups) && |ModelOf(recs, models, cfg, i)| == |cfg.setups|
    ensures StreamBits(recs, models, cfg, i) + t
            == RecordBits(recs[i], ModelOf(recs, models, cfg, i), cfg.setups, 0)
                 + (StreamBits(recs, models, cfg, i + 1) + t)
  {
    ModelFits(recs, models, cfg, i);
    hide RecordBits, ModelOf;
  }

  /** The stream of a collection decodes to its rounded records, whatever follows it. */
  lemma {:induction false} StreamRoundTrip(recs: seq<Record>, models: seq<Record>, cfg: LoopCfg, i: nat, t: Bits)
    requires CanCode(recs, models, cfg) && i < |recs|
    ensures DecodeStream(StreamBits(recs, models, cfg, i) + t, |recs| - 1, models, cfg,
                         RoundedRecords(recs, cfg.setups)[..i])
            == DecodedStream(RoundedRecords(recs, cfg.setups), t)
    decreases |recs| - i
  {
    hide StreamBits, RecordBits, DecodeStream, DecodeRecord, RoundedRecords, RecordFits;
    var r := RoundedRecords(recs, cfg.setups);
    var s' := StreamBits(recs, models, cfg, i + 1) + t;
    RecordLengths(recs, models, cfg);
    StreamBitsStep(recs, models, cfg, i, t);
    StreamEnds(recs, models, cfg, i, t);
    RecordAt(recs, models, cfg, i, s');
    DecodeStreamStep(StreamBits(recs, models, cfg, i) + t, |recs| - 1, models, cfg, r[..i], r[i], s');
    if i + 1 < |recs| {
      StreamRoundTrip(recs, models, cfg, i + 1, t);
    }
  }

  lemma StreamEnds(recs: seq<Record>, models: seq<Record>, cfg: LoopCfg, i: nat, t: Bits)
    requires CanCode(recs, models, cfg) && i < |recs|
    ensures var r := RoundedRecords(recs, cfg.setups);
            && r[..i] + [r[i]] == r[..i + 1]
            && (i + 1 == |recs| ==> StreamBits(recs, models, cfg, i + 1) + t == t && r[..i + 1] == r)
  {
  }

  lemma RecordLengths(recs: seq<Record>, models: seq<Record>, cfg: LoopCfg)
    requires CanCode(recs, models, cfg)
    ensures cfg.modelMode ==> forall i :: 0 <= i < |models| ==> |models[i]| == |cfg.setups|
    ensures forall i :: 0 <= i < |recs| ==> |RoundedRecords(recs, cfg.setups)[i]| == |cfg.setups|
  {
  }

  lemma DecodeStreamStep(s: Bits, last: nat, models: seq<Record>, cfg: LoopCfg, decoded: seq<Record>,
                         rec: Record, rest: Bits)
    requires cfg.Valid() && |decoded| <= last && |rec| == |cfg.setups|
    requires cfg.modelMode ==> |models| > last && forall i :: 0 <= i < |models| ==> |models[i]| == |cfg.setups|
    requires forall i :: 0 <= i < |decoded| ==> |decoded[i]| == |cfg.setups|
    requires DecodeRecord(s, ModelOf(decoded, models, cfg, |decoded|), cfg.setups, []) == DecodedRecord(rec, rest)
    ensures DecodeStream(s, last, models, cfg, decoded)
            == if |decoded| >= last then DecodedStream(decoded + [rec], rest)
               else DecodeStream(rest, last, models, cfg, decoded + [rec])
  {
    hide DecodeRecord;
  }

  /** Record i decodes against the records the decoder has so far. */
  lemma RecordAt(recs: seq<Record>, models: seq<Record>, cfg: LoopCfg, i: nat, t: Bits)
    requires CanCode(recs, models, cfg) && i < |recs| && |ModelOf(recs, models, cfg, i)| == |cfg.setups|
    ensures var r := RoundedRecords(recs, cfg.setups);
            DecodeRecord(RecordBits(recs[i], ModelOf(recs, models, cfg, i), cfg.setups, 0) + t,
                         ModelOf(r[..i], models, cfg, i), cfg.setups, [])
            == DecodedRecord(r[i], t)
  {
    hide RecordBits, DecodeRecord, Rounded, RoundFwd;
    var r := RoundedRecords(recs, cfg.setups);
    ModelFits(recs, models, cfg, i);
    ModelsRoundAlike(recs, models, cfg, i);
    RecordRoundTrip(recs[i], ModelOf(recs, models, cfg, i), ModelOf(r[..i], models, cfg, i), cfg.setups, 0, t);
    assert RoundedRecord(recs[i], cfg.setups)[..0] == [];
  }

  // ----- a stream cut short is rejected

  lemma {:induction false} CutRecord(s: Bits, t: Bits, rec: Record, model: Record, model': Record, setups: seq<Setup>,
                                     f: nat)
    requires SetupsValid(setups) && RecordFits(rec, setups) && RecordFits(model, setups) && f <= |setups|
    requires RoundAlike(model', model, setups)
    requires t != [] && s + t == RecordBits(rec, model, setups, f)
    ensures DecodeRecord(s, model', setups, RoundedRecord(rec, setups)[..f]) == CorruptRecord
    decreases |setups| - f
  {
    hide ValueBits, DecodeValue, Rounded, RoundFwd, Low, Pow2;
    var r := RoundedRecord(rec, setups);
    var b := ValueBits(rec[f], model[f], setups[f]);
    SplitAlike(s, t, b, RecordBits(rec, model, setups, f + 1));
    if |s| < |b| {
      CutValue(s, t[..|b| - |s|], rec[f], model[f], model'[f], setups[f]);
    } else {
      var s' := s[|b|..];
      RoundedFits(rec[f], setups[f]);
      RoundedFits(model[f], setups[f]);
      ValueRoundTrip(rec[f], model[f], model'[f], setups[f], s');
      assert r[..f] + [r[f]] == r[..f + 1];
      DecodeRecordStep(s, model', setups, r[..f], r[f], s');
      CutRecord(s', t, rec, model, model', setups, f + 1);
    }
  }

  lemma CutRecordAt(s: Bits, t: Bits, recs: seq<Record>, models: seq<Record>, cfg: LoopCfg, i: nat)
    requires CanCode(recs, models, cfg) && i < |recs| && |ModelOf(recs, models, cfg, i)| == |cfg.setups|
    requires t != [] && s + t == RecordBits(recs[i], ModelOf(recs, models, cfg, i), cfg.setups, 0)
    ensures DecodeRecord(s, ModelOf(RoundedRecords(recs, cfg.setups)[..i], models, cfg, i), cfg.setups, [])
            == CorruptRecord
  {
    hide RecordBits, DecodeRecord, Rounded, RoundFwd;
    ModelFits(recs, models, cfg, i);
    ModelsRoundAlike(recs, models, cfg, i);
    assert RoundedRecord(recs[i], cfg.setups)[..0] == [];
    CutRecord(s, t, recs[i], ModelOf(recs, models, cfg, i),
              ModelOf(RoundedRecords(recs, cfg.setups)[..i], models, cfg, i), cfg.setups, 0);
  }

  lemma DecodeStreamStops(s: Bits, last: nat, models: seq<Record>, cfg: LoopCfg, decoded: seq<Record>)
    requires cfg.Valid() && |decoded| <= last
    requires cfg.modelMode ==> |models| > last && forall i :: 0 <= i < |models| ==> |models[i]| == |cfg.setups|
    requires forall i :: 0 <= i < |decoded| ==> |decoded[i]| == |cfg.setups|
    requires DecodeRecord(s, ModelOf(decoded, models, cfg, |decoded|), cfg.setups, []) == CorruptRecord
    ensures DecodeStream(s, last, models, cfg, decoded) == CorruptStream
  {
    hide DecodeRecord;
  }

  lemma StreamBitsFirst(recs: seq<Record>, models: seq<Record>, cfg: LoopCfg, i: nat)
    requires CanCode(recs, models, cfg) && i < |recs|
    ensures |ModelOf(recs, models, cfg, i)| == |cfg.setups| == |recs[i]|
    ensures StreamBits(recs, models, cfg, i)
            == RecordBits(recs[i], ModelOf(recs, models, cfg, i), cfg.setups, 0) + StreamBits(recs, models, cfg, i + 1)
    ensures i + 1 == |recs| ==> StreamBits(recs, models, cfg, i + 1) == []
  {
    ModelFits(recs, models, cfg, i);
    hide RecordBits, ModelOf;
  }

  /** Whatever proper beginning of the stream the decoder is given, it reports an error:
      no code word and no escaped value can look complete when its tail is missing. */
  lemma {:induction false} CutStream(s: Bits, t: Bits, recs: seq<Record>, models: seq<Record>, cfg: LoopCfg, i: nat)
    requires CanCode(recs, models, cfg) && i < |recs|
    requires t != [] && s + t == StreamBits(recs, models, cfg, i)
    ensures DecodeStream(s, |recs| - 1, models, cfg, RoundedRecords(recs, cfg.setups)[..i]) == CorruptStream
    decreases |recs| - i
  {
    hide StreamBits, RecordBits, DecodeStream, DecodeRecord, RoundedRecords, RecordFits, ModelOf;
    var r := RoundedRecords(recs, cfg.setups);
    RecordLengths(recs, models, cfg);
    StreamBitsFirst(recs, models, cfg, i);
    StreamEnds(recs, models, cfg, i, []);
    var b := RecordBits(recs[i], ModelOf(recs, models, cfg, i), cfg.setups, 0);
    var rest := StreamBits(recs, models, cfg, i + 1);
    SplitAlike(s, t, b, rest);
    if |s| < |b| {
      CutRecordAt(s, t[..|b| - |s|], recs, models, cfg, i);
      DecodeStreamStops(s, |recs| - 1, models, cfg, r[..i]);
    } else {
      var s' := s[|b|..];
      RecordAt(recs, models, cfg, i, s');
      DecodeStreamStep(s, |recs| - 1, models, cfg, r[..i], r[i], s');
      CutStream(s', t, recs, models, cfg, i + 1);
    }
  }

  // ----- sizes

  lemma {:induction false} RecordBitsBound(rec: Record, model: Record, setups: seq<Setup>, f: nat)
    requires |rec| == |model| == |setups| && SetupsValid(setups) && f <= |setups|
    ensures |RecordBits(rec, model, setups, f)| <= 64 * (|setups| - f)
    decreases |setups| - f
  {
    hide ValueBits;
    if f < |setups| {
      ValueBitsBound(rec[f], model[f], setups[f]);
      RecordBitsBound(rec, model, setups, f + 1);
    }
  }

  /** A stream has at most 64 bits per field, so its length stays far below the
      error codes and never wraps for collections of at most 64 KiB. */
  lemma {:induction false} StreamBitsBound(recs: seq<Record>, models: seq<Record>, cfg: LoopCfg, i: nat)
    requires CanCode(recs, models, cfg) && i <= |recs|
    ensures |StreamBits(recs, models, cfg, i)| <= Times(|recs| - i, 64 * |cfg.setups|)
    decreases |recs| - i
  {
    hide RecordBits, RecordFits, ModelOf;
    if i < |recs| {
      StreamBitsBound(recs, models, cfg, i + 1);
      StreamBoundStep(recs, models, cfg, i, |recs| - i - 1);
    }
  }

  lemma StreamBoundStep(recs: seq<Record>, models: seq<Record>, cfg: LoopCfg, i: nat, k: nat)
    requires CanCode(recs, models, cfg) && i < |recs|
    requires |StreamBits(recs, models, cfg, i + 1)| <= Times(k, 64 * |cfg.setups|)
    ensures |StreamBits(recs, models, cfg, i)| <= Times(k + 1, 64 * |cfg.setups|)
  {
    hide RecordBits, ModelOf, AllFit, StreamBits;
    StreamBitsFirst(recs, models, cfg, i);
    RecordBitsBound(recs[i], ModelOf(recs, models, cfg, i), cfg.setups, 0);
  }

  // ----- the updated model

  function UpRecord(rec: Record, model: Record, cfg: LoopCfg): (u: Record)
    requires |rec| == |model| == |cfg.setups| && cfg.modelValue <= MAX_MODEL_VALUE
    ensures RecordFits(u, cfg.setups)
  {
    seq(|rec|, f requires 0 <= f < |rec| =>
      UpModel(rec[f], model[f], cfg.modelValue, cfg.setups[f].round, cfg.setups[f].width))
  }

  function UpRecords(recs: seq<Record>, models: seq<Record>, cfg: LoopCfg): (u: seq<Record>)
    requires CanCode(recs, models, cfg) && cfg.modelMode
    ensures |u| == |recs| && AllFit(u, cfg.setups)
  {
    seq(|recs|, i requires 0 <= i < |recs| => UpRecord(recs[i], models[i], cfg))
  }

  lemma RoundedAllFit(recs: seq<Record>, setups: seq<Setup>)
    requires SetupsValid(setups) && AllFit(recs, setups)
    ensures AllFit(RoundedRecords(recs, setups), setups)
    ensures forall i :: 0 <= i < |recs| ==> RecordFits(RoundedRecord(recs[i], setups), setups)
  {
    hide Rounded, Pow2, RoundFwd, Low;
    forall i, f | 0 <= i < |recs| && 0 <= f < |setups|
      ensures Rounded(recs[i][f], setups[f].round) < Pow2(setups[f].width)
    {
      RoundedFits(recs[i][f], setups[f]);
    }
  }

  lemma UpRecordOfRounded(rec: Record, model: Record, cfg: LoopCfg)
    requires cfg.Valid() && RecordFits(rec, cfg.setups) && RecordFits(model, cfg.setups) && cfg.modelMode
    ensures UpRecord(RoundedRecord(rec, cfg.setups), model, cfg) == UpRecord(rec, model, cfg)
  {
    hide Rounded, Pow2, RoundFwd, Low, UpModel;
    forall f | 0 <= f < |rec|
      ensures UpModel(Rounded(rec[f], cfg.setups[f].round), model[f], cfg.modelValue, cfg.setups[f].round,
                      cfg.setups[f].width)
              == UpModel(rec[f], model[f], cfg.modelValue, cfg.setups[f].round, cfg.setups[f].width)
    {
      RoundedFits(rec[f], cfg.setups[f]);
      UpModelOfRounded(rec[f], model[f], cfg.modelValue, cfg.setups[f].round, cfg.setups[f].width);
    }
  }

  /** Both sides compute the same updated model, although only one of them has the exact data. */
  lemma UpRecordsOfRounded(recs: seq<Record>, models: seq<Record>, cfg: LoopCfg)
    requires CanCode(recs, models, cfg) && cfg.modelMode
    ensures CanCode(RoundedRecords(recs, cfg.setups), models, cfg)
    ensures UpRecords(RoundedRecords(recs, cfg.setups), models, cfg) == UpRecords(recs, models, cfg)
  {
    RoundedAllFit(recs, cfg.setups);
    hide UpRecord, RoundedRecord, RecordFits;
    forall i | 0 <= i < |recs|
      ensures UpRecord(RoundedRecord(recs[i], cfg.setups), models[i], cfg) == UpRecord(recs[i], models[i], cfg)
    {
      UpRecordOfRounded(recs[i], models[i], cfg);
    }
  }

  /** Without lossy rounding nothing is lost. */
  lemma LosslessRecords(recs: seq<Record>, setups: seq<Setup>)
    requires SetupsValid(setups) && AllFit(recs, setups)
    requires forall f :: 0 <= f < |setups| ==> setups[f].round == 0
    ensures RoundedRecords(recs, setups) == recs
  {
    forall i, f | 0 <= i < |recs| && 0 <= f < |setups|
      ensures Rounded(recs[i][f], setups[f].round) == recs[i][f]
    {
      RoundedFits(recs[i][f], setups[f]);
      RoundedAgain(recs[i][f], 0);
    }
    forall i | 0 <= i < |recs| ensures RoundedRecord(recs[i], setups) == recs[i] {
    }
  }
}
