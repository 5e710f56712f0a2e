/** Decoding is canonical. */
module Canonical {
  // What the decoder accepts for a value, a sample or a collection is what the encoder puts for it.

  import opened BitStrings
  import opened Golomb
  import opened Spill
  import opened Values
  import opened Streams
  import opened Memory
  import opened Chunks
  import opened Entities

  // ----- escape mechanisms

  lemma {:induction false} ToBitsOfLow(v: nat, n: nat)
    ensures ToBits(v, n) == ToBits(Low(v, n), n)
  {
    if n > 0 {
      ToBitsOfLow(v / 2, n - 1);
      assert (2 * Low(v / 2, n - 1) + v % 2) / 2 == Low(v / 2, n - 1);
    }
  }

  lemma CodeInFront(s: Bits, m: nat)
    requires 0 < m < TWO_32 && DecodeCw(s, m).Value?
    ensures var d := DecodeCw(s, m); s == Code(d.value, m) + s[d.used..]
  {
    hide Code, DecodeCw;
    DecodeIsPrefixCode(s, [], m);
    var d := DecodeCw(s, m);
    assert s == s[..d.used] + s[d.used..];
  }

  /** The raw field of a zero escape is the value read from it, plus one. */
  lemma SmallWord(x: nat)
    requires x < TWO_32
    ensures U32(x) == x
  {
  }

  lemma RawFieldIs(field: Bits, width: nat)
    requires 1 <= width <= 32 && |field| == width
    ensures field == ToBits(U32(RawFieldSub1(FromBits(field), width) + 1), width)
  {
    var x := FromBits(field);
    ToFromBits(field);
    Pow2Word(width);
    hide Low, ToBits, FromBits, Pow2, U32;
    if x > 0 {
      SmallWord(x - 1);
      SmallWord(x);
      LowSmall(x - 1, width);
    } else {
      MinusOneWraps(width);
      RawFieldWraps(width, U32(Pow2(width)));
      ToBitsOfLow(U32(Pow2(width)), width);
    }
  }

  lemma SplitTwice(s: Bits, a: nat, b: nat)
    requires a + b <= |s|
    ensures s[a..] == s[a..a + b] + s[a + b..]
  {
  }

  lemma ZeroEscapeIsCanonical(s: Bits, su: Setup)
    requires su.Valid() && ZeroEscapeDecode(s, su).Decoded?
    ensures var r := ZeroEscapeDecode(s, su); s == ZeroEscapeBits(r.value, su) + r.rest
  {
    hide DecodeCw, Code, ToBits, FromBits, U32, RawFieldSub1, Pow2, IcuMaxSpill;
    CodeInFront(s, su.par);
    var d := DecodeCw(s, su.par);
    if d.value == 0 {
      RawFieldIs(s[d.used..d.used + su.width], su.width);
      RawInFront(s, su, d.used);
    }
  }

  lemma RawInFront(s: Bits, su: Setup, used: nat)
    requires su.Valid() && used + su.width <= |s| && s == Code(0, su.par) + s[used..]
    requires var field := s[used..used + su.width];
             field == ToBits(U32(RawFieldSub1(FromBits(field), su.width) + 1), su.width)
    ensures var value := RawFieldSub1(FromBits(s[used..used + su.width]), su.width);
            value >= su.spill - 1 ==> s == ZeroEscapeBits(value, su) + s[used + su.width..]
  {
    hide Code, ToBits, FromBits, U32, RawFieldSub1, Pow2, IcuMaxSpill;
    SplitTwice(s, used, su.width);
    var c, field, rest := Code(0, su.par), s[used..used + su.width], s[used + su.width..];
    assert c + (field + rest) == c + field + rest;
  }

  /** The escape symbol of an excess is told by its length, which the check of its two highest bits fixes. */
  lemma OffsetOfExcess(x: nat, len: nat)
    requires len >= 2 && len % 2 == 0 && x < Pow2(len) && (len > 2 ==> Down(x, len - 2) != 0)
    ensures 2 * (EscapeSymOffset(x) + 1) == len
  {
    if x == 0 {
      DownSmall(0, len - 2);
    } else {
      var l := ILog2(x);
      if l >= len {
        Pow2Monotone(len, l);
      }
      if len > 2 {
        DownSmall(x, len - 2);
        if l < len - 2 {
          Pow2Monotone(l + 1, len - 2);
        }
      }
    }
  }

  lemma MultiEscapeIsCanonical(s: Bits, su: Setup)
    requires su.Valid() && MultiEscapeDecode(s, su).Decoded?
    ensures var r := MultiEscapeDecode(s, su); s == MultiEscapeBits(r.value, su) + r.rest
  {
    hide DecodeCw, Code, ToBits, FromBits, EscapeSymOffset, Low, Down, EvenWidth, Pow2;
    CodeInFront(s, su.par);
    var d := DecodeCw(s, su.par);
    if d.value >= su.spill {
      var len := 2 * (d.value - su.spill + 1);
      var field := s[d.used..d.used + len];
      ToFromBits(field);
      OffsetOfExcess(FromBits(field), len);
      ExcessDoesNotWrap(FromBits(field), len, su);
      SplitTwice(s, d.used, len);
    }
  }

  /** An excess that passes the check is the value less the threshold, also where 32-bit sums wrap. */
  lemma ExcessDoesNotWrap(x: nat, len: nat, su: Setup)
    requires su.Valid() && 2 <= len <= EvenWidth(su.width) && x < Pow2(len) && !ExcessIsCorrupt(x, len, su)
    ensures U32(x + su.spill) == x + su.spill
  {
    Pow2Monotone(len, 32);
    Pow2Word(32);
    SpillIsSmall(su);
    LowIsSmaller(U32(x + su.spill), su.width);
  }

  lemma {:induction false} LowIsSmaller(x: nat, n: nat)
    ensures Low(x, n) <= x
  {
    if n > 0 {
      LowIsSmaller(x / 2, n - 1);
    }
  }

  /** Whatever an escape mechanism decodes, it consumed the bits the encoder puts for it. */
  lemma EscapeIsCanonical(s: Bits, su: Setup)
    requires su.Valid() && EscapeDecode(s, su).Decoded?
    ensures var r := EscapeDecode(s, su); s == EscapeBits(r.value, su) + r.rest
  {
    hide ZeroEscapeDecode, MultiEscapeDecode, ZeroEscapeBits, MultiEscapeBits;
    if su.zeroEscape {
      ZeroEscapeIsCanonical(s, su);
    } else {
      MultiEscapeIsCanonical(s, su);
    }
  }

  // ----- values

  /** The value that folds to u against a prediction. */
  function Unfolded(u: nat, prediction: nat, width: nat): (v: nat)
    requires 1 <= width <= 32 && u < Pow2(width) && prediction < Pow2(width)
    ensures v < Pow2(width)
  {
    var k := (u + 1) / 2;
    if u % 2 == 0 then if prediction + k < Pow2(width) then prediction + k else prediction + k - Pow2(width)
    else if prediction >= k then prediction - k else prediction - k + Pow2(width)
  }

  lemma UnfoldedIs(u: nat, prediction: nat, width: nat)
    requires 1 <= width <= 32 && u < Pow2(width) && prediction < Pow2(width)
    ensures Low(U32(ReMapToPos(u) + prediction), width) == Unfolded(u, prediction, width)
  {
    hide Low, Pow2;
    Pow2Word(width);
    var v := Unfolded(u, prediction, width);
    LowOfAdded(v, width);
    LowOfBelowWord(v, width);
    SumIs(u, prediction, Pow2(width), v);
  }

  lemma SumIs(u: nat, prediction: nat, p: nat, v: nat)
    requires u < p && prediction < p && (p == TWO_32 || 2 * p <= TWO_32)
    requires var k := (u + 1) / 2;
             v == if u % 2 == 0 then if prediction + k < p then prediction + k else prediction + k - p
                  else if prediction >= k then prediction - k else prediction - k + p
    ensures U32(ReMapToPos(u) + prediction) in {v, v + p, v + (TWO_32 - p)}
  {
    var k := (u + 1) / 2;
    if u % 2 == 1 {
      assert U32(-k) == TWO_32 - k;
    } else {
      assert u / 2 == k;
    }
  }

  lemma FoldsBack(u: nat, prediction: nat, width: nat)
    requires 1 <= width <= 32 && u < Pow2(width) && prediction < Pow2(width)
    ensures MapToPos(U32(Unfolded(u, prediction, width) - prediction), width) == u
  {
    hide MapToPos, Low, Pow2, U32;
    var v := Unfolded(u, prediction, width);
    LowOfDifference(v, prediction, width);
    MapToPosIsFold(U32(v - prediction), width);
    Pow2Halves(width);
  }

  lemma Pow2Halves(n: nat)
    requires n >= 1
    ensures Pow2(n) % 2 == 0
  {
  }

  /** The thresholds with which the decoder accepts no mapped value the encoder never has. */
  predicate InRange(su: Setup) {
    su.spill <= Pow2(su.width) + if su.zeroEscape then 1 else 0
  }

  /** Fields have even widths. */
  predicate Even(su: Setup) {
    su.width % 2 == 0
  }

  lemma MappedIsSmall(s: Bits, su: Setup)
    requires su.Valid() && InRange(su) && Even(su) && EscapeDecode(s, su).Decoded?
    ensures EscapeDecode(s, su).value < Pow2(su.width)
  {
    hide DecodeCw, FromBits, Low, U32, Pow2, Down, EvenWidth, IcuMaxSpill, RawFieldSub1, ExcessIsCorrupt;
    var d := DecodeCw(s, su.par);
    if !su.zeroEscape && d.value >= su.spill {
      var len := 2 * (d.value - su.spill + 1);
      EvenWidthIs(su.width);
      ExcessInRange(FromBits(s[d.used..d.used + len]), len, su);
    }
  }

  lemma EvenWidthIs(width: nat)
    requires width % 2 == 0
    ensures EvenWidth(width) == width
  {
  }

  lemma ExcessInRange(x: nat, len: nat, su: Setup)
    requires su.Valid() && !su.zeroEscape && InRange(su) && Even(su)
    requires 2 <= len <= su.width && x < Pow2(len) && !ExcessIsCorrupt(x, len, su)
    ensures U32(x + su.spill) < Pow2(su.width)
  {
    hide Low, Pow2, Down, IcuMaxSpill;
    Pow2Monotone(len, su.width);
    Pow2Word(su.width);
    SpillIsSmall(su);
    if x + su.spill >= Pow2(su.width) && su.width < 32 {
      LowOfAdded(x + su.spill - Pow2(su.width), su.width);
    } else {
      LowIsSmaller(U32(x + su.spill), su.width);
    }
  }

  /** Without rounding, what is decoded as a value is what the encoder puts for it. */
  lemma ValueIsCanonical(s: Bits, model: nat, su: Setup)
    requires su.Valid() && su.round == 0 && InRange(su) && Even(su) && model < Pow2(su.width)
    requires DecodeValue(s, model, su).Decoded?
    ensures var r := DecodeValue(s, model, su);
            r.value < Pow2(su.width) && s == ValueBits(r.value, model, su) + r.rest
  {
    hide EscapeDecode, EscapeBits, Low, U32, Pow2, MapToPos, ReMapToPos, IcuMaxSpill, InRange;
    var d := EscapeDecode(s, su);
    MappedIsSmall(s, su);
    UnfoldedIs(d.value, model, su.width);
    FoldsBack(d.value, model, su.width);
    EscapeIsCanonical(s, su);
    NotRounded(model);
    NotRounded(Unfolded(d.value, model, su.width));
    Pow2Word(su.width);
  }

  lemma NotRounded(v: nat)
    ensures RoundFwd(v, 0) == v && (v < TWO_32 ==> RoundInv(v, 0) == v)
  {
  }

  /** Whatever is decoded as a value is what the encoder puts for it. */
  ghost predicate ValuesAreCanonical(su: Setup)
    requires su.Valid()
  {
    forall s: Bits, model: nat :: model < Pow2(su.width) && DecodeValue(s, model, su).Decoded? ==>
      s == ValueBits(DecodeValue(s, model, su).value, model, su) + DecodeValue(s, model, su).rest
  }

  /** That is so exactly when the threshold is not beyond the values of the field. */
  lemma CanonicalIff(su: Setup)
    requires su.Valid() && su.round == 0 && Even(su)
    ensures ValuesAreCanonical(su) <==> InRange(su)
  {
    hide DecodeValue, ValueBits, Pow2, IcuMaxSpill;
    if InRange(su) {
      forall s: Bits, model: nat | model < Pow2(su.width) && DecodeValue(s, model, su).Decoded?
        ensures s == ValueBits(DecodeValue(s, model, su).value, model, su) + DecodeValue(s, model, su).rest
      {
        ValueIsCanonical(s, model, su);
      }
    } else {
      OutOfRange(su);
    }
  }

  lemma OutOfRange(su: Setup)
    requires su.Valid() && !InRange(su)
    ensures var s := Code(Pow2(su.width) + (if su.zeroEscape then 1 else 0), su.par);
            && 0 < Pow2(su.width) && DecodeValue(s, 0, su).Decoded?
            && s != ValueBits(DecodeValue(s, 0, su).value, 0, su) + DecodeValue(s, 0, su).rest
  {
    hide DecodeValue, ValueBits, EscapeDecode, Code, IcuMaxSpill;
    NormalDecodes(Pow2(su.width), su);
    var s := Code(Pow2(su.width) + (if su.zeroEscape then 1 else 0), su.par);
    NotReencoded(s, 0, su);
  }

  /** Such a threshold: the one derived for the parameter 64 and a field of 8 bits, in either mechanism. */
  lemma DerivedBeyondField(zeroEscape: bool)
    ensures var su := Setup(64, GetSpill(64, zeroEscape, 8), 0, 8, zeroEscape); su.Valid() && !InRange(su)
  {
    DerivedSpillIsValid(64, zeroEscape, 8);
    Pow2Values();
    PowerOfTwoCode(0, 6);
    TimesIsProduct(8, 64);
    LongestAllowed();
  }

  lemma LongestAllowed()
    ensures IcuMaxSpill(64) >= 576
  {
    ILog2OfPow2(6);
    assert Pow2(6) == 64;
    assert ILog2(64) == 6;
    TimesIsProduct(25, 64);
  }

  lemma SetupWidth(su: Setup)
    requires su.Valid()
    ensures 1 <= su.width <= 32
  {
    hide IcuMaxSpill;
  }

  /** A mapped value beyond the field is never put. */
  lemma NotReencoded(s: Bits, model: nat, su: Setup)
    requires su.Valid() && EscapeDecode(s, su).Decoded? && EscapeDecode(s, su).value >= Pow2(su.width)
    ensures var r := DecodeValue(s, model, su);
            r.Decoded? && s != ValueBits(r.value, model, su) + r.rest
  {
    hide EscapeDecode, EscapeBits, MapToPos, U32, RoundFwd, Pow2, Fold, Low, ReMapToPos, RoundInv, Setup.Valid;
    var r := DecodeValue(s, model, su);
    var difference := U32(RoundFwd(r.value, su.round) - RoundFwd(model, su.round));
    SetupWidth(su);
    MapToPosIsFold(difference, su.width);
    EscapeRoundTrip(MapToPos(difference, su.width), su, r.rest);
  }

  /** A mapped value below the threshold is decoded, also if no difference maps to it. */
  lemma NormalDecodes(mapped: nat, su: Setup)
    requires su.Valid() && mapped + (if su.zeroEscape then 1 else 0) < su.spill
    ensures EscapeDecode(Code(mapped + (if su.zeroEscape then 1 else 0), su.par), su) == Decoded(mapped, [])
  {
    var v := mapped + if su.zeroEscape then 1 else 0;
    var s := Code(v, su.par);
    assert s + [] == s;
    DecodeInvertsCode(v, su.par, []);
    hide DecodeCw, Code, IcuMaxSpill;
    assert s[|s|..] == [];
  }

  // ----- samples and collections

  /** The fields of a collection are decoded without rounding and without values of no use. */
  predicate Exact(setups: seq<Setup>) {
    forall f :: 0 <= f < |setups| ==> setups[f].round == 0 && InRange(setups[f]) && Even(setups[f])
  }

  lemma {:induction false} RecordIsCanonical(s: Bits, model: Record, setups: seq<Setup>, decoded: Record)
    requires SetupsValid(setups) && Exact(setups) && RecordFits(model, setups) && |decoded| <= |setups|
    requires DecodeRecord(s, model, setups, decoded).DecodedRecord?
    ensures var r := DecodeRecord(s, model, setups, decoded);
            r.rec[..|decoded|] == decoded && s == RecordBits(r.rec, model, setups, |decoded|) + r.rest
    decreases |setups| - |decoded|
  {
    hide DecodeValue, ValueBits, Low, Pow2, InRange, Even, Setup.Valid;
    var f := |decoded|;
    if f < |setups| {
      var v := DecodeValue(s, model[f], setups[f]);
      ValueIsCanonical(s, model[f], setups[f]);
      LowSmall(v.value, setups[f].width);
      RecordIsCanonical(v.rest, model, setups, decoded + [v.value]);
      FieldInFront(s, model, setups, decoded, v.value, v.rest);
    }
  }

  lemma FieldInFront(s: Bits, model: Record, setups: seq<Setup>, decoded: Record, v: nat, rest: Bits)
    requires |model| == |setups| && SetupsValid(setups) && |decoded| < |setups|
    requires DecodeRecord(s, model, setups, decoded) == DecodeRecord(rest, model, setups, decoded + [v])
    requires s == ValueBits(v, model[|decoded|], setups[|decoded|]) + rest
    requires var r := DecodeRecord(rest, model, setups, decoded + [v]);
             && r.DecodedRecord? && r.rec[..|decoded| + 1] == decoded + [v]
             && rest == RecordBits(r.rec, model, setups, |decoded| + 1) + r.rest
    ensures var r := DecodeRecord(s, model, setups, decoded);
            r.rec[..|decoded|] == decoded && s == RecordBits(r.rec, model, setups, |decoded|) + r.rest
  {
    hide DecodeRecord, ValueBits;
    var r, f := DecodeRecord(rest, model, setups, decoded + [v]), |decoded|;
    assert r.rec[..f] == r.rec[..f + 1][..f] && r.rec[f] == r.rec[..f + 1][f] == v;
    RecordBitsStep(r.rec, model, setups, f, r.rest);
  }

  /** Without rounding, a stream the decoder accepts is the encoder's stream of the samples it returns. */
  lemma {:induction false} StreamIsCanonical(s: Bits, last: nat, models: seq<Record>, cfg: LoopCfg,
                                             decoded: seq<Record>)
    requires cfg.Valid() && Exact(cfg.setups) && |decoded| <= last && AllFit(decoded, cfg.setups)
    requires cfg.modelMode ==> |models| == last + 1 && AllFit(models, cfg.setups)
    requires DecodeStream(s, last, models, cfg, decoded).DecodedStream?
    ensures var r := DecodeStream(s, last, models, cfg, decoded);
            && r.recs[..|decoded|] == decoded && CanCode(r.recs, models, cfg)
            && s == StreamBits(r.recs, models, cfg, |decoded|) + r.rest
    decreases last - |decoded|
  {
    hide DecodeStream, StreamBits, CanCode, DecodeRecord, RecordBits, ModelOf, RecordFits, Exact, Setup.Valid;
    var k := |decoded|;
    LengthsFit(decoded, cfg.setups);
    LengthsFit(models, cfg.setups);
    PredictionFits(last, models, cfg, decoded);
    var model := ModelOf(decoded, models, cfg, k);
    var r := DecodeRecord(s, model, cfg.setups, []);
    if r.CorruptRecord? {
      DecodeStreamStops(s, last, models, cfg, decoded);
    } else {
      RecordIsCanonical(s, model, cfg.setups, []);
      DecodedRecordFits(s, model, cfg.setups, []);
      LengthsFit([r.rec], cfg.setups);
      DecodeStreamStep(s, last, models, cfg, decoded, r.rec, r.rest);
      if k < last {
        StreamIsCanonical(r.rest, last, models, cfg, decoded + [r.rec]);
      }
      SampleInFront(s, last, models, cfg, decoded, r.rec, r.rest);
    }
  }

  lemma PredictionFits(last: nat, models: seq<Record>, cfg: LoopCfg, decoded: seq<Record>)
    requires |decoded| <= last && AllFit(decoded, cfg.setups)
    requires cfg.modelMode ==> |models| == last + 1 && AllFit(models, cfg.setups)
    ensures RecordFits(ModelOf(decoded, models, cfg, |decoded|), cfg.setups)
  {
  }

  lemma SampleInFront(s: Bits, last: nat, models: seq<Record>, cfg: LoopCfg, decoded: seq<Record>, rec: Record,
                      rest: Bits)
    requires cfg.Valid() && |decoded| <= last && AllFit(decoded, cfg.setups) && RecordFits(rec, cfg.setups)
    requires cfg.modelMode ==> |models| == last + 1 && AllFit(models, cfg.setups)
    requires var model := ModelOf(decoded, models, cfg, |decoded|);
             && RecordFits(model, cfg.setups)
             && DecodeRecord(s, model, cfg.setups, []) == DecodedRecord(rec, rest)
             && s == RecordBits(rec, model, cfg.setups, 0) + rest
    requires |decoded| < last ==>
               var r := DecodeStream(rest, last, models, cfg, decoded + [rec]);
               && r.DecodedStream? && r.recs[..|decoded| + 1] == decoded + [rec] && CanCode(r.recs, models, cfg)
               && rest == StreamBits(r.recs, models, cfg, |decoded| + 1) + r.rest
    ensures var r := DecodeStream(s, last, models, cfg, decoded);
            && r.DecodedStream? && r.recs[..|decoded|] == decoded && CanCode(r.recs, models, cfg)
            && s == StreamBits(r.recs, models, cfg, |decoded|) + r.rest
  {
    hide DecodeRecord, RecordBits, RecordFits, Setup.Valid, DecodeStream;
    LengthsFit(decoded, cfg.setups);
    LengthsFit(models, cfg.setups);
    LengthsFit([rec], cfg.setups);
    var k, r := |decoded|, DecodeStream(s, last, models, cfg, decoded);
    DecodeStreamStep(s, last, models, cfg, decoded, rec, rest);
    assert r.recs[..k + 1] == decoded + [rec];
    assert r.recs[..k] == r.recs[..k + 1][..k] && r.recs[k] == r.recs[..k + 1][k];
    StreamBitsStep(r.recs, models, cfg, k, r.rest);
    SamePredictionOf(r.recs, models, cfg, k);
    if k == last {
      NothingBehind(r.recs, models, cfg);
    }
  }

  lemma LengthsFit(recs: seq<Record>, setups: seq<Setup>)
    ensures AllFit(recs, setups) ==> forall i :: 0 <= i < |recs| ==> |recs[i]| == |setups|
  {
  }

  lemma SamePredictionOf(recs: seq<Record>, models: seq<Record>, cfg: LoopCfg, k: nat)
    requires k < |recs| && (cfg.modelMode ==> k < |models|)
    ensures ModelOf(recs[..k], models, cfg, k) == ModelOf(recs, models, cfg, k)
  {
  }

  lemma NothingBehind(recs: seq<Record>, models: seq<Record>, cfg: LoopCfg)
    requires CanCode(recs, models, cfg)
    ensures StreamBits(recs, models, cfg, |recs|) == []
  {
  }

  /** What a coded payload decodes to is coded by the encoder as that payload, up to its padding. */
  lemma PayloadIsCanonical(payload: Bits, model: Bits, n: nat, loop: LoopCfg)
    requires loop.Valid() && Exact(loop.setups)
    requires loop.modelMode ==> |model| == Times(AtLeastOne(n), SampleBits(loop.setups))
    requires DecodePayload(payload, model, n, loop).Some?
    ensures var data := DecodePayload(payload, model, n, loop).value.data;
            && Codable(data, model, n, loop) && |Stream(data, model, n, loop)| <= |payload|
            && payload[..|Stream(data, model, n, loop)|] == Stream(data, model, n, loop)
  {
    hide StreamBits, DecodeStream, BitsOfAll, UpRecords, RecordsOf, SampleBits, Times, RecordFits, Exact;
    var models := ModelRecords(model, n, loop);
    var r := DecodeSamples(payload, models, n, loop);
    StreamIsCanonical(payload, n - 1, models, loop, []);
    RecordsOfBitsOfAll(r.recs, loop.setups);
  }
}
