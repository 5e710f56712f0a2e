/** The decoder's loops, bottom up: a code word in the register, an escaped value, a sample, a
    collection. Each succeeds exactly when its specification decodes what is left of the stream. */
module Decoder {
  import opened BitStrings
  import opened Golomb
  import opened Spill
  import opened Values
  import opened Streams
  import opened Memory
  import opened BitReader
  import opened BitWriter
  import opened Encoder

  /** No decoded code word, not even a meaningless one, exceeds this. */
  const CW_LIMIT := 0x80_0000

  /** What reading a code word from the register does: with too few bits loaded, the
      number of consumed bits passes the register's size. */
  predicate CodeWordRead(d: Decoded, before: nat, after: nat, value: nat) {
    match d
    case NotEnoughBits => after > REG_BITS
    case Value(v, used) => value == v && after == before + used
  }

  method UnaryDecoder(dec: BitDecoder) returns (value: nat)
    requires dec.Valid()
    modifies dec`consumed
    ensures dec.consumed > old(dec.consumed) && value <= REG_BITS
    ensures !old(dec.Over()) ==> CodeWordRead(UnaryDecode(old(dec.Loaded())), old(dec.consumed), dec.consumed, value)
  {
    hide LeadingOnes;
    value := dec.PeekLeadingOnes();
    dec.ConsumeBits(value + 1);
  }

  lemma SmallProduct(q: nat, m: nat)
    requires q <= 64 && m <= 0xFFFF
    ensures q * m <= 64 * 0xFFFF && Times(q, m) == q * m
  {
    TimesIsProduct(q, m);
    MulMonotone(q, 64, m);
  }

  lemma SmallShift(q: nat, k: nat)
    requires q <= 64 && k <= 15
    ensures Up(q, k) <= 64 * 0x8000 && Pow2(k) <= 0x8000
  {
    Pow2Monotone(k, 15);
    assert Pow2(15) == 0x8000;
    UpIsTimes(q, k);
    SmallProduct(q, Pow2(k));
    MulMonotone(Pow2(k), 0x8000, q);
  }

  method RiceDecoder(dec: BitDecoder, log2M: nat) returns (value: nat)
    requires dec.Valid() && 1 <= log2M <= 15
    modifies dec`consumed
    ensures dec.consumed > old(dec.consumed) && value < CW_LIMIT
    ensures !old(dec.Over()) ==>
              CodeWordRead(RiceDecode(old(dec.Loaded()), log2M), old(dec.consumed), dec.consumed, value)
  {
    hide UnaryDecode, FromBits, Up, U32, Pow2;
    var q := UnaryDecoder(dec);
    ghost var between := dec.consumed;
    var r := dec.ReadBits(log2M);
    SmallShift(q, log2M);
    value := U32(Shl32(q, log2M) + r);
    SmallIsKept(Up(q, log2M));
    SmallIsKept(Up(q, log2M) + r);
    if !old(dec.Over()) && !dec.Over() {
      assert old(dec.Loaded())[between - old(dec.consumed)..][..log2M]
          == old(dec.Loaded())[between - old(dec.consumed)..between - old(dec.consumed) + log2M];
    }
  }

  lemma SmallIsKept(x: nat)
    requires x < TWO_32
    ensures U32(x) == x
  {
  }

  /** The look at log2 m + 1 bits, of which the last may lie beyond the loaded ones. */
  lemma RemainderSeen(rest: Bits, m: nat, r2: nat)
    requires 1 < m <= 0xFFFF && |rest| < REG_BITS
    requires rest != [] ==> r2 == FromBits((rest + Zeros(ILog2(m) + 1))[..ILog2(m) + 1])
    ensures 1 <= ILog2(m) <= 15
    ensures var k := ILog2(m);
            && (|rest| < k ==> RemainderDecode(rest, m) == NotEnoughBits)
            && (|rest| >= k ==> r2 / 2 == FromBits(rest[..k]))
            && (|rest| >= k + 1 ==> r2 == FromBits(rest[..k + 1]))
  {
    hide FromBits;
    var k := ILog2(m);
    ParLog(m);
    assert Pow2(1) == 2;
    if |rest| >= k {
      var seen := (rest + Zeros(k + 1))[..k + 1];
      assert seen[..|seen| - 1] == rest[..k];
      HalfOf(seen);
      if |rest| >= k + 1 {
        assert seen == rest[..k + 1];
      }
    }
  }

  lemma HalfOf(b: Bits)
    requires b != []
    ensures FromBits(b) / 2 == FromBits(b[..|b| - 1])
  {
  }

  method GolombDecoder(dec: BitDecoder, m: nat) returns (value: nat)
    requires dec.Valid() && 1 < m <= 0xFFFF
    modifies dec`consumed
    ensures dec.consumed > old(dec.consumed) && value < CW_LIMIT
    ensures !old(dec.Over()) ==>
              CodeWordRead(GolombDecode(old(dec.Loaded()), m), old(dec.consumed), dec.consumed, value)
  {
    hide UnaryDecode, FromBits, Up, U32, Pow2, ILog2, Times, Cutoff, Zeros;
    ghost var loaded := if dec.Over() then [] else dec.Loaded();
    var log2M := ILog2(m);
    ParLog(m);
    var q := UnaryDecoder(dec);
    ghost var rest := if dec.Over() then [] else dec.Loaded();
    var r2 := dec.PeekBits(log2M + 1);
    RemainderSeen(rest, m, r2);
    var r1 := r2 / 2;
    var cutoff := Cutoff(m);
    var r;
    if r1 < cutoff {
      dec.ConsumeBits(log2M);
      r := r1;
    } else {
      dec.ConsumeBits(log2M + 1);
      r := r2 - cutoff;
    }
    SmallProduct(q, m);
    SmallPeek(r2, log2M + 1);
    value := U32(q * m + r);
    SmallIsKept(q * m + r);
    SmallIsKept(r);
  }

  lemma SmallPeek(x: nat, n: nat)
    requires x < Pow2(n) && n <= 16
    ensures x < 0x1_0000
  {
    Pow2Monotone(n, 16);
    Pow2Values();
  }

  /** The decoder select_decoder chooses. */
  method CodeWordDecoder(dec: BitDecoder, m: nat) returns (value: nat)
    requires dec.Valid() && ParIsValid(m)
    modifies dec`consumed
    ensures dec.consumed > old(dec.consumed) && value < CW_LIMIT
    ensures !old(dec.Over()) ==> CodeWordRead(DecodeCw(old(dec.Loaded()), m), old(dec.consumed), dec.consumed, value)
  {
    hide UnaryDecode, RiceDecode, GolombDecode, ILog2, IsAPowOf2;
    if m == 1 {
      value := UnaryDecoder(dec);
    } else if IsAPowOf2(m) {
      ParLog(m);
      LogOfPowerOfTwo(m);
      value := RiceDecoder(dec, ILog2(m));
    } else {
      value := GolombDecoder(dec, m);
    }
  }

  lemma LogOfPowerOfTwo(m: nat)
    requires 1 < m
    ensures ILog2(m) >= 1
  {
  }

  // ----- the register against the whole rest of the stream

  /** loaded holds enough of the rest of the stream. */
  predicate LoadedOf(loaded: Bits, rest: Bits) {
    && |loaded| <= |rest| && loaded == rest[..|loaded|]
    && (|loaded| >= MAX_READ || loaded == rest)
  }

  /** A code word found in the register is the one the stream holds; a code word longer
      than the register is none that the encoder can have written. */
  lemma CodeWordInRegister(loaded: Bits, rest: Bits, su: Setup)
    requires su.Valid() && LoadedOf(loaded, rest)
    ensures DecodeCw(loaded, su.par).Value? ==> DecodeCw(rest, su.par) == DecodeCw(loaded, su.par)
    ensures var d := DecodeCw(rest, su.par);
            DecodeCw(loaded, su.par).NotEnoughBits? ==> d.NotEnoughBits? || d.value > su.spill + 15
  {
    hide DecodeCw, Code, ILog2, SpillFormula, IcuMaxSpill;
    var tail := rest[|loaded|..];
    assert rest == loaded + tail;
    DecodeIsPrefixCode(loaded, tail, su.par);
    var d := DecodeCw(rest, su.par);
    if DecodeCw(loaded, su.par).NotEnoughBits? && d.Value? {
      DecodeIsPrefixCode(rest, [], su.par);
      LongCodeWord(d.value, su);
    }
  }

  lemma LongCodeWord(v: nat, su: Setup)
    requires su.Valid() && |Code(v, su.par)| > 32
    ensures v > su.spill + 15
  {
    if v <= su.spill + 15 {
      CodableFits(v, su.par, su.spill);
    }
  }

  lemma NotInRegister(loaded: Bits, rest: Bits, su: Setup)
    requires su.Valid() && LoadedOf(loaded, rest) && DecodeCw(loaded, su.par).NotEnoughBits?
    ensures EscapeDecode(rest, su).Corrupt?
  {
    hide DecodeCw, Low, U32, FromBits, Pow2;
    CodeWordInRegister(loaded, rest, su);
  }

  /** The outcome of one decoding step against what the stream holds. */
  predicate Agrees(spec: DecodeResult, err: bool, value: nat, over: bool, rest: Bits) {
    if spec.Corrupt? then err else !err && !over && spec == Decoded(value, rest)
  }

  lemma ZeroEscapeCases(rest: Bits, su: Setup, d: Decoded)
    requires su.Valid() && su.zeroEscape && d == DecodeCw(rest, su.par) && d.Value?
    ensures d.value != 0 ==>
              EscapeDecode(rest, su) == if d.value >= su.spill then Corrupt else Decoded(d.value - 1, rest[d.used..])
    ensures d.value == 0 ==>
              var more := rest[d.used..];
              EscapeDecode(rest, su)
              == if |more| < su.width then Corrupt
                 else var value := RawFieldSub1(FromBits(more[..su.width]), su.width);
                      if value < su.spill - 1 then Corrupt else Decoded(value, more[su.width..])
  {
    hide DecodeCw, FromBits, RawFieldSub1, IcuMaxSpill, Pow2;
    if d.value == 0 {
      SliceOfRest(rest, d.used, su.width);
    }
  }

  /** The call of the selected decoder, against the rest of the stream. */
  method NextCodeWord(dec: BitDecoder, su: Setup) returns (value: nat)
    requires su.Valid() && dec.Valid() && !dec.Over() && dec.Ready()
    modifies dec`consumed
    ensures dec.Valid() && value < CW_LIMIT
    ensures dec.Over() ==> EscapeDecode(old(dec.Rest()), su).Corrupt?
    ensures var d := DecodeCw(old(dec.Rest()), su.par);
            !dec.Over() ==> d.Value? && d.value == value && dec.Rest() == old(dec.Rest())[d.used..]
  {
    hide DecodeCw, IcuMaxSpill, EscapeDecode;
    ghost var loaded, rest := dec.Loaded(), dec.Rest();
    dec.LoadedIsPrefix();
    CodeWordInRegister(loaded, rest, su);
    value := CodeWordDecoder(dec, su.par);
    if dec.Over() {
      NotInRegister(loaded, rest, su);
    }
  }

  method DecodeZero(dec: BitDecoder, su: Setup) returns (err: bool, value: nat)
    requires su.Valid() && su.zeroEscape && dec.Valid() && !dec.Over() && dec.Ready()
    modifies dec`container, dec`consumed, dec`cursor
    ensures dec.Valid() && value < TWO_32
    ensures Agrees(EscapeDecode(old(dec.Rest()), su), err, value, dec.Over(), if dec.Over() then [] else dec.Rest())
    ensures !err ==> dec.Ready()
  {
    hide DecodeCw, FromBits, Pow2, IcuMaxSpill, RawFieldSub1, EscapeDecode;
    ghost var d := DecodeCw(dec.Rest(), su.par);
    if d.Value? {
      ZeroEscapeCases(dec.Rest(), su, d);
    }
    SpillIsSmall(su);
    value := NextCodeWord(dec, su);
    if value != 0 {
      if value >= su.spill {
        return true, 0;
      }
      value := value - 1;
    } else {
      var _ := dec.Refill();
      value := dec.ReadBits32Sub1(su.width);
      FieldBelowWord(value, su.width);
      if value < su.spill - 1 {
        var _ := dec.Refill();
        return true, 0;
      }
    }
    var status := dec.Refill();
    err := status == Overflow;
  }

  lemma FieldBelowWord(value: nat, width: nat)
    requires width <= 32 && value < Pow2(width)
    ensures value < TWO_32
  {
    Pow2Word(width);
  }

  lemma MultiEscapeCases(rest: Bits, su: Setup, d: Decoded)
    requires su.Valid() && !su.zeroEscape && d == DecodeCw(rest, su.par) && d.Value?
    ensures d.value < su.spill ==> EscapeDecode(rest, su) == Decoded(d.value, rest[d.used..])
    ensures d.value >= su.spill ==>
              var len, more := 2 * (d.value - su.spill + 1), rest[d.used..];
              EscapeDecode(rest, su)
              == if len > EvenWidth(su.width) || |more| < len
                 || ExcessIsCorrupt(FromBits(more[..len]), len, su) then Corrupt
                 else Decoded(U32(FromBits(more[..len]) + su.spill), more[len..])
  {
    hide DecodeCw, FromBits, ExcessIsCorrupt, IcuMaxSpill, Pow2;
    if d.value >= su.spill {
      SliceOfRest(rest, d.used, 2 * (d.value - su.spill + 1));
    }
  }

  /** Reads the unencoded excess over the threshold and checks it. */
  method ReadExcess(dec: BitDecoder, len: nat, su: Setup) returns (corrupt: bool, value: nat)
    requires su.Valid() && dec.Valid() && 2 <= len <= 32
    modifies dec`container, dec`consumed, dec`cursor
    ensures dec.Valid() && value < TWO_32 && (old(dec.Over()) ==> dec.Over())
    ensures !old(dec.Over()) ==> (dec.Over() <==> len > |old(dec.Rest())|)
    ensures !dec.Over() ==>
              && len <= |old(dec.Rest())|
              && corrupt == ExcessIsCorrupt(FromBits(old(dec.Rest())[..len]), len, su)
              && (!corrupt ==> value == U32(FromBits(old(dec.Rest())[..len]) + su.spill))
              && dec.Rest() == old(dec.Rest())[len..]
  {
    hide FromBits, Pow2, IcuMaxSpill, Low, U32, Down;
    var _ := dec.Refill();
    value := dec.ReadBits(len);
    if Down(value, len - 2) == 0 {
      if len > 2 {
        var _ := dec.Refill();
        return true, 0;
      }
    }
    value := U32(value + su.spill);
    corrupt := Low(value, su.width) < su.spill;
    if corrupt {
      var _ := dec.Refill();
    }
  }

  method DecodeMulti(dec: BitDecoder, su: Setup) returns (err: bool, value: nat)
    requires su.Valid() && !su.zeroEscape && dec.Valid() && !dec.Over() && dec.Ready()
    modifies dec`container, dec`consumed, dec`cursor
    ensures dec.Valid() && value < TWO_32
    ensures Agrees(EscapeDecode(old(dec.Rest()), su), err, value, dec.Over(), if dec.Over() then [] else dec.Rest())
    ensures !err ==> dec.Ready()
  {
    hide DecodeCw, FromBits, Pow2, IcuMaxSpill, EscapeDecode, Low, U32, Down, ExcessIsCorrupt, EvenWidth,
      BitDecoder.Valid, BitDecoder.Ready, BitDecoder.Rest, BitDecoder.Loaded, BitDecoder.Over;
    ghost var rest := dec.Rest();
    ghost var d := DecodeCw(rest, su.par);
    if d.Value? {
      MultiEscapeCases(rest, su, d);
    }
    SpillIsSmall(su);
    value := NextCodeWord(dec, su);
    if value >= su.spill {
      var unencodedLen := 2 * (value - su.spill + 1);
      if unencodedLen > EvenWidth(su.width) {
        return true, 0;
      }
      err, value := ReadExcess(dec, unencodedLen, su);
      if err {
        return;
      }
    }
    var status := dec.Refill();
    err := status == Overflow;
  }

  /** decode_value: the value behind the code word, with the model added back. */
  method DecodeValueFrom(dec: BitDecoder, model: nat, su: Setup) returns (err: bool, value: nat)
    requires su.Valid() && dec.Valid() && !dec.Over() && dec.Ready()
    modifies dec`container, dec`consumed, dec`cursor
    ensures dec.Valid()
    ensures Agrees(DecodeValue(old(dec.Rest()), model, su), err, value, dec.Over(),
                   if dec.Over() then [] else dec.Rest())
    ensures !err ==> dec.Ready()
  {
    hide EscapeDecode, Low, U32, ReMapToPos, RoundFwd, RoundInv, Pow2;
    var mapped;
    if su.zeroEscape {
      err, mapped := DecodeZero(dec, su);
    } else {
      err, mapped := DecodeMulti(dec, su);
    }
    value := ReMapToPos(mapped);
    value := U32(value + RoundFwd(model, su.round));
    value := Low(value, su.width);
    value := RoundInv(value, su.round);
  }

  // ----- samples

  predicate RecordAgrees(spec: RecordResult, err: bool, rec: Record, over: bool, rest: Bits) {
    if spec.CorruptRecord? then err else !err && !over && spec == DecodedRecord(rec, rest)
  }

  lemma DecodeRecordField(s: Bits, model: Record, setups: seq<Setup>, decoded: Record, v: DecodeResult)
    requires |model| == |setups| && SetupsValid(setups) && |decoded| < |setups|
    requires v == DecodeValue(s, model[|decoded|], setups[|decoded|])
    ensures DecodeRecord(s, model, setups, decoded)
            == if v.Corrupt? then CorruptRecord
               else DecodeRecord(v.rest, model, setups, decoded + [Low(v.value, setups[|decoded|].width)])
  {
    hide DecodeValue, Low;
  }

  /** The fields of one sample, each stored in its own width. */
  method DecodeSample(dec: BitDecoder, model: Record, setups: seq<Setup>) returns (err: bool, rec: Record)
    requires |model| == |setups| && SetupsValid(setups) && dec.Valid() && !dec.Over() && dec.Ready()
    modifies dec`container, dec`consumed, dec`cursor
    ensures dec.Valid()
    ensures RecordAgrees(DecodeRecord(old(dec.Rest()), model, setups, []), err, rec, dec.Over(),
                         if dec.Over() then [] else dec.Rest())
    ensures !err ==> dec.Ready() && RecordFits(rec, setups) && |rec| == |setups|
  {
    hide DecodeRecord, DecodeValue, Low, Pow2, IcuMaxSpill, BitDecoder.Valid, BitDecoder.Ready, BitDecoder.Rest,
      BitDecoder.Loaded, BitDecoder.Over;
    ghost var spec := DecodeRecord(dec.Rest(), model, setups, []);
    rec := [];
    err := false;
    while |rec| < |setups|
      invariant |rec| <= |setups| && dec.Valid() && !dec.Over() && dec.Ready()
      invariant spec == DecodeRecord(dec.Rest(), model, setups, rec)
      invariant forall f :: 0 <= f < |rec| ==> rec[f] < Pow2(setups[f].width)
    {
      var f, value := |rec|, 0;
      DecodeRecordField(dec.Rest(), model, setups, rec, DecodeValue(dec.Rest(), model[f], setups[f]));
      err, value := DecodeValueFrom(dec, model[f], setups[f]);
      if err {
        return;
      }
      rec := rec + [Low(value, setups[f].width)];
    }
    DecodeRecordEnd(dec.Rest(), model, setups, rec);
  }

  lemma DecodeRecordEnd(s: Bits, model: Record, setups: seq<Setup>, decoded: Record)
    requires |model| == |setups| == |decoded| && SetupsValid(setups)
    ensures DecodeRecord(s, model, setups, decoded) == DecodedRecord(decoded, s)
  {
  }

  /** Storing one more sample. */
  lemma OneMoreSample(a: Bits, b: Bits, c: Bits, at: nat, recs: seq<Record>, rec: Record, setups: seq<Setup>)
    requires AllFit(recs, setups) && RecordFits(rec, setups)
    requires Written(a, b, at, BitsOfAll(recs, setups))
    requires Written(b, c, at + Times(|recs|, SampleBits(setups)), BitsOf(rec, setups))
    ensures AllFit(recs + [rec], setups) && Written(a, c, at, BitsOfAll(recs + [rec], setups))
  {
    hide BitsOf, BitsOfAll, Written, SampleBits, Times;
    var all := recs + [rec];
    assert all[..|recs|] == recs && all[..|recs| + 1] == all;
    WriteSample(a, b, c, at, all, |recs|, setups);
  }

  /** A sample just stored can be read back: it is the next model in the differencing modes. */
  lemma ReadBack(b: Bits, c: Bits, at: nat, n: nat, i: nat, rec: Record, setups: seq<Setup>)
    requires Holds(|b|, at, n, setups) && i < n && RecordFits(rec, setups)
    requires Written(b, c, at + Times(i, SampleBits(setups)), BitsOf(rec, setups))
    ensures Holds(|c|, at, n, setups) && SampleAt(c, at, n, i, setups) == rec
  {
    hide RecordOf, SampleBits, Times, BitsOf;
    SampleIn(n, i, setups);
    var pos := at + Times(i, SampleBits(setups));
    assert c[pos..pos + SampleBits(setups)] == BitsOf(rec, setups);
    RecordOfBitsOf(rec, setups);
  }

  /** What the decoding loop leaves in a buffer it stores one record per sample to. */
  predicate Stored(before: Bits, after: Bits, at: nat, n: nat, recs: seq<Record>, setups: seq<Setup>, ok: bool) {
    if ok then AllFit(recs, setups) && |recs| == n && Written(before, after, at, BitsOfAll(recs, setups))
    else Spoiled(before, after, at, at + Times(n, SampleBits(setups)))
  }

  lemma StoredSoFar(before: Bits, after: Bits, at: nat, n: nat, recs: seq<Record>, setups: seq<Setup>)
    requires AllFit(recs, setups) && |recs| <= n && Written(before, after, at, BitsOfAll(recs, setups))
    ensures Stored(before, after, at, n, recs, setups, false)
  {
    hide BitsOfAll, SampleBits, Written, Spoiled;
    TimesMonotone(|recs|, n, SampleBits(setups));
    WrittenSpoils(before, after, at, BitsOfAll(recs, setups), at + Times(n, SampleBits(setups)));
  }

  // ----- collections

  lemma DecodeStreamSample(s: Bits, last: nat, models: seq<Record>, cfg: LoopCfg, decoded: seq<Record>, r: RecordResult)
    requires cfg.Valid() && |decoded| <= last
    requires cfg.modelMode ==> |models| > last && forall i :: 0 <= i < |models| ==> |models[i]| == |cfg.setups|
    requires forall i :: 0 <= i < |decoded| ==> |decoded[i]| == |cfg.setups|
    requires r == DecodeRecord(s, ModelOf(decoded, models, cfg, |decoded|), cfg.setups, [])
    ensures DecodeStream(s, last, models, cfg, decoded)
            == if r.CorruptRecord? then CorruptStream
               else if |decoded| >= last then DecodedStream(decoded + [r.rec], r.rest)
               else DecodeStream(r.rest, last, models, cfg, decoded + [r.rec])
  {
    hide DecodeRecord;
  }

  /** The models of n samples, as the decoding loop finds them. */
  predicate ModelsOf(models: seq<Record>, model: array?<bool>, at: nat, n: nat, cfg: LoopCfg)
    reads model
  {
    cfg.modelMode ==>
      && model != null && Holds(model.Length, at, n, cfg.setups)
      && models == SamplesAt(model[..], at, n, cfg.setups)
  }

  lemma SamplesHaveFields(recs: seq<Record>, setups: seq<Setup>)
    requires AllFit(recs, setups)
    ensures forall i :: 0 <= i < |recs| ==> |recs[i]| == |setups|
  {
  }

  /** The updated models of the samples decoded so far. */
  function UpTo(decoded: seq<Record>, models: seq<Record>, cfg: LoopCfg): (u: seq<Record>)
    requires cfg.Valid() && cfg.modelMode && AllFit(decoded, cfg.setups) && AllFit(models, cfg.setups)
    requires |decoded| <= |models|
    ensures |u| == |decoded| && AllFit(u, cfg.setups)
  {
    UpRecords(decoded, models[..|decoded|], cfg)
  }

  lemma UpToNext(decoded: seq<Record>, rec: Record, models: seq<Record>, cfg: LoopCfg)
    requires cfg.Valid() && cfg.modelMode && AllFit(decoded, cfg.setups) && AllFit(models, cfg.setups)
    requires |decoded| < |models| && RecordFits(rec, cfg.setups)
    ensures UpTo(decoded + [rec], models, cfg) == UpTo(decoded, models, cfg) + [UpRecord(rec, models[|decoded|], cfg)]
  {
    hide UpRecord, RecordFits;
  }

  /** The updated model of one decoded sample is stored, if it is wanted. */
  method StoreDecodedModel(upModelBuf: array?<bool>, at: nat, i: nat, rec: Record, model: Record, cfg: LoopCfg,
                           ghost decoded: seq<Record>, ghost models: seq<Record>, ghost before: Bits)
    requires cfg.Valid() && AllFit(decoded, cfg.setups) && RecordFits(rec, cfg.setups) && i == |decoded|
    requires upModelBuf != null ==>
               && cfg.modelMode && AllFit(models, cfg.setups) && |decoded| < |models| && model == models[|decoded|]
               && Holds(upModelBuf.Length, at, |models|, cfg.setups)
               && Written(before, upModelBuf[..], at, BitsOfAll(UpTo(decoded, models, cfg), cfg.setups))
    modifies upModelBuf
    ensures upModelBuf != null ==>
              && AllFit(decoded + [rec], cfg.setups)
              && Written(before, upModelBuf[..], at, BitsOfAll(UpTo(decoded + [rec], models, cfg), cfg.setups))
  {
    hide BitsOf, BitsOfAll, SampleBits, Times, Written, UpRecord, UpTo;
    if upModelBuf != null {
      ghost var between := upModelBuf[..];
      ghost var u := UpRecord(rec, model, cfg);
      SampleIn(|models|, i, cfg.setups);
      StoreBits(upModelBuf, at + Times(i, SampleBits(cfg.setups)), BitsOf(UpRecord(rec, model, cfg), cfg.setups));
      UpToNext(decoded, rec, models, cfg);
      OneMoreSample(before, between, upModelBuf[..], at, UpTo(decoded, models, cfg), u, cfg.setups);
    }
  }

  /** What the decoding loop does to its two buffers, against the decoded stream. */
  predicate Decompressed(spec: StreamResult, err: bool, dst: Bits, dst': Bits, noUpdate: bool, up: Bits, up': Bits,
                         at: nat, n: nat, models: seq<Record>, cfg: LoopCfg)
    requires cfg.Valid() && (cfg.modelMode ==> |models| >= n && AllFit(models, cfg.setups))
    requires cfg.modelMode || noUpdate
  {
    && (err <==> spec.CorruptStream?)
    && Stored(dst, dst', at, n, if err then [] else spec.recs, cfg.setups, !err)
    && (if noUpdate then up' == up
        else Stored(up, up', at, n, if err then [] else UpTo(spec.recs, models, cfg), cfg.setups, !err))
  }

  predicate SoFar(dst: Bits, dst': Bits, noUpdate: bool, up: Bits, up': Bits, at: nat, decoded: seq<Record>,
                  models: seq<Record>, cfg: LoopCfg)
    requires cfg.Valid() && AllFit(decoded, cfg.setups)
    requires cfg.modelMode ==> |decoded| <= |models| && AllFit(models, cfg.setups)
    requires cfg.modelMode || noUpdate
  {
    && Written(dst, dst', at, BitsOfAll(decoded, cfg.setups))
    && (!noUpdate ==> Written(up, up', at, BitsOfAll(UpTo(decoded, models, cfg), cfg.setups)))
  }

  lemma LoopFailed(spec: StreamResult, dst: Bits, dst': Bits, noUpdate: bool, up: Bits, up': Bits, at: nat, n: nat,
                   decoded: seq<Record>, models: seq<Record>, cfg: LoopCfg)
    requires cfg.Valid() && (cfg.modelMode ==> |models| >= n && AllFit(models, cfg.setups))
    requires AllFit(decoded, cfg.setups) && |decoded| <= n && (cfg.modelMode || noUpdate)
    requires (noUpdate ==> up' == up)
    requires spec.CorruptStream? && SoFar(dst, dst', noUpdate, up, up', at, decoded, models, cfg)
    ensures Decompressed(spec, true, dst, dst', noUpdate, up, up', at, n, models, cfg)
  {
    hide BitsOfAll, SampleBits, Written, Spoiled, UpTo;
    StoredSoFar(dst, dst', at, n, decoded, cfg.setups);
    if !noUpdate {
      StoredSoFar(up, up', at, n, UpTo(decoded, models, cfg), cfg.setups);
    }
  }

  lemma LoopDone(spec: StreamResult, dst: Bits, dst': Bits, noUpdate: bool, up: Bits, up': Bits, at: nat,
                 decoded: seq<Record>, models: seq<Record>, cfg: LoopCfg)
    requires cfg.Valid() && (cfg.modelMode ==> |models| >= |decoded| && AllFit(models, cfg.setups))
    requires AllFit(decoded, cfg.setups) && (cfg.modelMode || noUpdate)
    requires (noUpdate ==> up' == up)
    requires spec.DecodedStream? && spec.recs == decoded
    requires SoFar(dst, dst', noUpdate, up, up', at, decoded, models, cfg)
    ensures Decompressed(spec, false, dst, dst', noUpdate, up, up', at, |decoded|, models, cfg)
  {
    hide BitsOfAll, SampleBits, Written, UpTo;
  }

  lemma NothingStored(a: Bits, at: nat, n: nat, setups: seq<Setup>)
    requires Holds(|a|, at, n, setups)
    ensures Written(a, a, at, BitsOfAll([], setups)) && AllFit([], setups)
  {
    assert a == a[..at] + [] + a[at..];
  }

  lemma RoomFor(size: nat, at: nat, n: nat, i: nat, setups: seq<Setup>)
    requires Holds(size, at, n, setups) && i < n
    ensures at + Times(i, SampleBits(setups)) + SampleBits(setups) <= size
  {
    hide SampleBits, Times;
    SampleIn(n, i, setups);
  }

  lemma NothingSoFar(dst: Bits, noUpdate: bool, up: Bits, at: nat, n: nat, models: seq<Record>, cfg: LoopCfg)
    requires cfg.Valid() && (cfg.modelMode ==> |models| >= n && AllFit(models, cfg.setups))
    requires cfg.modelMode || noUpdate
    requires Holds(|dst|, at, n, cfg.setups) && (!noUpdate ==> Holds(|up|, at, n, cfg.setups))
    ensures AllFit([], cfg.setups) && SoFar(dst, dst, noUpdate, up, up, at, [], models, cfg)
  {
    hide BitsOfAll, SampleBits, Written, Holds;
    NothingStored(dst, at, n, cfg.setups);
    if !noUpdate {
      NothingStored(up, at, n, cfg.setups);
    }
  }

  /** The model of the next sample, from a model buffer that may be the updated one. */
  lemma NextModelSoFar(modelBefore: Bits, model: Bits, dst: Bits, dst': Bits, noUpdate: bool, up: Bits, up': Bits,
                       at: nat, n: nat, decoded: seq<Record>, models: seq<Record>, cfg: LoopCfg)
    requires cfg.Valid() && cfg.modelMode && |models| == n && AllFit(models, cfg.setups) && AllFit(decoded, cfg.setups)
    requires Holds(|modelBefore|, at, n, cfg.setups) && models == SamplesAt(modelBefore, at, n, cfg.setups)
    requires |decoded| < n && SoFar(dst, dst', noUpdate, up, up', at, decoded, models, cfg)
    requires model == modelBefore || (!noUpdate && up == modelBefore && up' == model)
    ensures |model| == |modelBefore| && SampleAt(model, at, n, |decoded|, cfg.setups) == models[|decoded|]
  {
    hide BitsOfAll, SampleBits, Written, Holds, SamplesAt, SampleAt;
    if model == modelBefore {
      SampleAtIs(modelBefore, at, n, |decoded|, cfg.setups);
    } else {
      NextModel(modelBefore, model, at, n, UpTo(decoded, models, cfg), cfg.setups);
    }
  }

  /** One decoded sample goes to its place, and its updated model to the model's. */
  method StoreSample(dst: array<bool>, upModelBuf: array?<bool>, at: nat, n: nat, i: nat, rec: Record, model: Record,
                     cfg: LoopCfg, ghost decoded: seq<Record>, ghost models: seq<Record>, ghost before: Bits,
                     ghost upBefore: Bits)
    requires cfg.Valid() && AllFit(decoded, cfg.setups) && i == |decoded| < n
    requires RecordFits(rec, cfg.setups) && |rec| == |cfg.setups|
    requires cfg.modelMode ==> |models| == n && AllFit(models, cfg.setups) && model == models[i]
    requires Holds(dst.Length, at, n, cfg.setups) && dst != upModelBuf
    requires upModelBuf != null ==> cfg.modelMode && Holds(upModelBuf.Length, at, n, cfg.setups)
    requires SoFar(before, dst[..], upModelBuf == null, upBefore, Content(upModelBuf), at, decoded, models, cfg)
    modifies dst, upModelBuf
    ensures AllFit(decoded + [rec], cfg.setups)
    ensures SoFar(before, dst[..], upModelBuf == null, upBefore, Content(upModelBuf), at, decoded + [rec], models, cfg)
    ensures SampleAt(dst[..], at, n, i, cfg.setups) == rec
  {
    hide BitsOf, BitsOfAll, SampleBits, Times, Written, SampleAt, UpTo, AllFit, RecordFits, Holds;
    ghost var between := dst[..];
    RoomFor(dst.Length, at, n, i, cfg.setups);
    StoreBits(dst, at + Times(i, SampleBits(cfg.setups)), BitsOf(rec, cfg.setups));
    OneMoreSample(before, between, dst[..], at, decoded, rec, cfg.setups);
    ReadBack(between, dst[..], at, n, i, rec, cfg.setups);
    StoreDecodedModel(upModelBuf, at, i, rec, model, cfg, decoded, models, upBefore);
  }

  /** decompress_imagette and its siblings: decodes the samples into dst. In the model modes the
      model buffer supplies the models and the updated model, if wanted, goes to updated, which may
      be the model buffer itself; otherwise the sample just decoded is the next model. The exit test
      wraps without samples: then a first sample is looked for, which the stream must not hold,
      because there is no room for it. */
  method DecompressLoop(dec: BitDecoder, model: array?<bool>, updated: array?<bool>, dst: array<bool>, at: nat,
                        samples: nat, cfg: LoopCfg, ghost models: seq<Record>)
    returns (err: bool)
    requires cfg.Valid() && samples < TWO_32 && dec.Valid() && !dec.Over() && dec.Ready()
    requires ModelsOf(models, model, at, AtLeastOne(samples), cfg) && Holds(dst.Length, at, samples, cfg.setups)
    requires updated != null ==> Holds(updated.Length, at, samples, cfg.setups)
    requires dst != model && dst != updated
    requires samples == 0 ==> DecodeStream(dec.Rest(), 0, models, cfg, []).CorruptStream?
    modifies dec`container, dec`consumed, dec`cursor, dst, updated
    ensures dec.Valid()
    ensures cfg.modelMode ==> |models| == AtLeastOne(samples) && AllFit(models, cfg.setups)
    ensures Decompressed(DecodeStream(old(dec.Rest()), AtLeastOne(samples) - 1, models, cfg, []), err, old(dst[..]),
                         dst[..], updated == null || !cfg.modelMode, old(Content(updated)), Content(updated), at,
                         samples, models, cfg)
  {
    hide DecodeStream, DecodeRecord, BitsOf, BitsOfAll, SampleBits, Times, Written, Spoiled, Holds, SampleAt, SamplesAt,
      UpTo, Stored, AllFit, RecordFits, UpRecords, SoFar, BitDecoder.Valid, BitDecoder.Ready, BitDecoder.Rest,
      BitDecoder.Loaded, BitDecoder.Over;
    if cfg.modelMode {
      SamplesHaveFields(models, cfg.setups);
    }
    ghost var n := AtLeastOne(samples);
    ghost var spec := DecodeStream(dec.Rest(), n - 1, models, cfg, []);
    ghost var before, modelBefore := dst[..], Content(model);
    var currentModel := ZeroRecord(|cfg.setups|);
    var upModelBuf: array?<bool> := null;
    if cfg.modelMode {
      SampleAtIs(modelBefore, at, n, 0, cfg.setups);
      currentModel := SampleAt(model[..], at, AtLeastOne(samples), 0, cfg.setups);
      upModelBuf := updated;
    }
    ghost var upBefore := Content(upModelBuf);
    NothingSoFar(before, upModelBuf == null, upBefore, at, samples, models, cfg);
    ghost var decoded: seq<Record> := [];
    var last := U32(samples - 1);
    var i := 0;
    err := false;
    while true
      invariant i == |decoded| < n && AllFit(decoded, cfg.setups)
      invariant forall j :: 0 <= j < |decoded| ==> |decoded[j]| == |cfg.setups|
      invariant dec.Valid() && !dec.Over() && dec.Ready()
      invariant upModelBuf == if cfg.modelMode then updated else null
      invariant currentModel == ModelOf(decoded, models, cfg, i)
      invariant spec == DecodeStream(dec.Rest(), n - 1, models, cfg, decoded)
      invariant samples == 0 ==> spec.CorruptStream?
      invariant upModelBuf == null && updated != null ==> updated[..] == old(updated[..])
      invariant SoFar(before, dst[..], upModelBuf == null, upBefore, Content(upModelBuf), at, decoded, models, cfg)
      decreases n - i
    {
      var rec;
      DecodeStreamSample(dec.Rest(), n - 1, models, cfg, decoded,
                         DecodeRecord(dec.Rest(), currentModel, cfg.setups, []));
      err, rec := DecodeSample(dec, currentModel, cfg.setups);
      if err {
        LoopFailed(spec, before, dst[..], upModelBuf == null, upBefore, Content(upModelBuf), at, samples, decoded,
                   models, cfg);
        return;
      }
      StoreSample(dst, upModelBuf, at, samples, i, rec, currentModel, cfg, decoded, models, before, upBefore);
      decoded := decoded + [rec];
      if i >= last {
        LoopDone(spec, before, dst[..], upModelBuf == null, upBefore, Content(upModelBuf), at, decoded, models, cfg);
        return;
      }
      if cfg.modelMode {
        NextModelSoFar(modelBefore, model[..], before, dst[..], upModelBuf == null, upBefore, Content(upModelBuf), at,
                       n, decoded, models, cfg);
        currentModel := SampleAt(model[..], at, samples, i + 1, cfg.setups);
      } else {
        currentModel := SampleAt(dst[..], at, samples, i, cfg.setups);
      }
      i := i + 1;
    }
  }
}
