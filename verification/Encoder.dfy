/** The encoder's loops, bottom up: a code word, an escaped value, a sample, a collection. Each
    puts exactly the bits of its specification or reports a small buffer, and the updated model
    is written behind the position where the model is read. */
module Encoder {
  import opened BitStrings
  import opened Results
  import opened Golomb
  import opened Spill
  import opened Values
  import opened Streams
  import opened Memory
  import opened BitWriter

  /** The buffer a caller may hand to the bit writer, NULL to only get the length. */
  predicate Usable(mem: array?<bool>, maxStreamLen: nat) {
    mem != null ==> maxStreamLen % 32 == 0 && maxStreamLen <= mem.Length
  }

  method EncodeNormal(value: nat, streamLen: nat, su: Setup, mem: array?<bool>, maxStreamLen: nat)
    returns (r: Result<nat>)
    requires su.Valid() && value <= su.spill + 15 && Usable(mem, maxStreamLen)
    modifies mem
    ensures Put(mem == null, old(Content(mem)), Content(mem), streamLen, Code(value, su.par), maxStreamLen, r)
  {
    hide Code, GenerateCw, ToBits, Put;
    CodableFits(value, su.par, su.spill);
    GenerateCwBits(value, su.par);
    var w := GenerateCw(value, su.par);
    r := PutNBits32(w.bits, w.len, streamLen, mem, maxStreamLen);
  }

  method EncodeValueZero(data: nat, model: nat, streamLen: nat, su: Setup, mem: array?<bool>, maxStreamLen: nat)
    returns (r: Result<nat>)
    requires su.Valid() && su.zeroEscape && Usable(mem, maxStreamLen)
    modifies mem
    ensures Put(mem == null, old(Content(mem)), Content(mem), streamLen,
                EscapeBits(MapToPos(U32(data - model), su.width), su), maxStreamLen, r)
  {
    hide Code, ToBits, MapToPos, Put, U32;
    var mapped := U32(data - model);
    mapped := MapToPos(mapped, su.width);
    if mapped < su.spill - 1 {
      r := EncodeNormal(mapped + 1, streamLen, su, mem, maxStreamLen);
      return;
    }
    ghost var escape, payload := Code(0, su.par), ToBits(U32(mapped + 1), su.width);
    ghost var before := Content(mem);
    r := EncodeNormal(0, streamLen, su, mem, maxStreamLen);
    if r.Err? {
      EscapeFails(mem == null, before, Content(mem), streamLen, escape, payload, maxStreamLen, r);
      return;
    }
    EscapeFits(mem == null, before, Content(mem), streamLen, escape, maxStreamLen, r);
    ghost var between := Content(mem);
    r := PutNBits32(U32(mapped + 1), su.width, r.value, mem, maxStreamLen);
    PutThenPut(mem == null, before, between, Content(mem), streamLen, escape, payload, maxStreamLen, r);
  }

  lemma EscapeFails(noBuffer: bool, a: Bits, b: Bits, start: nat, x: Bits, y: Bits, limit: nat, r: Result<nat>)
    requires Put(noBuffer, a, b, start, x, limit, r) && r.Err?
    ensures Put(noBuffer, a, b, start, x + y, limit, r)
  {
  }

  lemma EscapeFits(noBuffer: bool, a: Bits, b: Bits, start: nat, x: Bits, limit: nat, r: Result<nat>)
    requires Put(noBuffer, a, b, start, x, limit, r) && r.Ok?
    ensures r == Ok(start + |x|)
  {
  }

  method EncodeValueMulti(data: nat, model: nat, streamLen: nat, su: Setup, mem: array?<bool>, maxStreamLen: nat)
    returns (r: Result<nat>)
    requires su.Valid() && !su.zeroEscape && Usable(mem, maxStreamLen)
    modifies mem
    ensures Put(mem == null, old(Content(mem)), Content(mem), streamLen,
                EscapeBits(MapToPos(U32(data - model), su.width), su), maxStreamLen, r)
  {
    hide Code, ToBits, Put, U32, MapToPos, Pow2, ILog2;
    var difference := U32(data - model);
    MapToPosIsFold(difference, su.width);
    var mapped := MapToPos(difference, su.width);
    if mapped < su.spill {
      r := EncodeNormal(mapped, streamLen, su, mem, maxStreamLen);
      return;
    }
    var unencoded := mapped - su.spill;
    var escapeSymOffset := if unencoded == 0 then 0 else ILog2(unencoded) / 2;
    EscapeSymbolFits(unencoded, su.width);
    var escapeSym := su.spill + escapeSymOffset;
    var unencodedLen := (escapeSymOffset + 1) * 2;
    ghost var escape, payload := Code(escapeSym, su.par), ToBits(unencoded, unencodedLen);
    ghost var before := Content(mem);
    r := EncodeNormal(escapeSym, streamLen, su, mem, maxStreamLen);
    if r.Err? {
      EscapeFails(mem == null, before, Content(mem), streamLen, escape, payload, maxStreamLen, r);
      return;
    }
    EscapeFits(mem == null, before, Content(mem), streamLen, escape, maxStreamLen, r);
    ghost var between := Content(mem);
    r := PutNBits32(unencoded, unencodedLen, r.value, mem, maxStreamLen);
    PutThenPut(mem == null, before, between, Content(mem), streamLen, escape, payload, maxStreamLen, r);
  }

  /** encode_value: rounds data and model, refuses what does not fit, encodes the rest. */
  method EncodeValue(data: nat, model: nat, streamLen: nat, su: Setup, mem: array?<bool>, maxStreamLen: nat)
    returns (r: Result<nat>)
    requires su.Valid() && Usable(mem, maxStreamLen)
    modifies mem
    ensures Fits(data, su) && Fits(model, su) ==>
              Put(mem == null, old(Content(mem)), Content(mem), streamLen, ValueBits(data, model, su), maxStreamLen, r)
    ensures !(Fits(data, su) && Fits(model, su)) ==> r == Err(DataValueTooLarge) && Content(mem) == old(Content(mem))
  {
    hide EscapeBits, MapToPos, Put, U32, RoundFwd, Pow2;
    var d, m := RoundFwd(data, su.round), RoundFwd(model, su.round);
    DownSmall(d, su.width);
    DownSmall(m, su.width);
    if Down(d, su.width) != 0 || Down(m, su.width) != 0 {
      return Err(DataValueTooLarge);
    }
    if su.zeroEscape {
      r := EncodeValueZero(d, m, streamLen, su, mem, maxStreamLen);
    } else {
      r := EncodeValueMulti(d, m, streamLen, su, mem, maxStreamLen);
    }
  }

  /** The fields of one sample, in order, each with its own setup. */
  method EncodeRecord(rec: Record, model: Record, setups: seq<Setup>, streamLen: nat, mem: array?<bool>,
                      maxStreamLen: nat)
    returns (r: Result<nat>)
    requires |setups| >= 1 && SetupsValid(setups) && RecordFits(rec, setups) && RecordFits(model, setups)
    requires Usable(mem, maxStreamLen)
    modifies mem
    ensures Put(mem == null, old(Content(mem)), Content(mem), streamLen, RecordBits(rec, model, setups, 0),
                maxStreamLen, r)
  {
    hide ValueBits, Put, Pow2, RecordBits;
    ghost var before := Content(mem);
    ghost var all := RecordBits(rec, model, setups, 0);
    FitsRecord(rec, setups);
    FitsRecord(model, setups);
    r := EncodeValue(rec[0], model[0], streamLen, setups[0], mem, maxStreamLen);
    ghost var done := ValueBits(rec[0], model[0], setups[0]);
    RecordBitsNext(rec, model, setups, 0);
    var f := 1;
    while r.Ok? && f < |setups|
      invariant 1 <= f <= |setups|
      invariant Put(mem == null, before, Content(mem), streamLen, done, maxStreamLen, r)
      invariant all == done + RecordBits(rec, model, setups, f)
    {
      ghost var between := Content(mem);
      ghost var next := ValueBits(rec[f], model[f], setups[f]);
      EscapeFits(mem == null, before, between, streamLen, done, maxStreamLen, r);
      r := EncodeValue(rec[f], model[f], r.value, setups[f], mem, maxStreamLen);
      PutThenPut(mem == null, before, between, Content(mem), streamLen, done, next, maxStreamLen, r);
      RecordBitsNext(rec, model, setups, f);
      assert done + (next + RecordBits(rec, model, setups, f + 1))
             == done + next + RecordBits(rec, model, setups, f + 1);
      done := done + next;
      f := f + 1;
    }
    if r.Err? {
      EscapeFails(mem == null, before, Content(mem), streamLen, done, RecordBits(rec, model, setups, f), maxStreamLen,
                  r);
    } else {
      RecordBitsEnd(rec, model, setups);
      assert all == done;
    }
  }

  lemma FitsRecord(rec: Record, setups: seq<Setup>)
    requires SetupsValid(setups) && RecordFits(rec, setups)
    ensures forall f :: 0 <= f < |rec| ==> Fits(rec[f], setups[f])
  {
    hide Fits, Pow2;
    forall f | 0 <= f < |rec| ensures Fits(rec[f], setups[f]) {
      RoundedFits(rec[f], setups[f]);
    }
  }

  lemma RecordBitsNext(rec: Record, model: Record, setups: seq<Setup>, f: nat)
    requires |rec| == |model| == |setups| && SetupsValid(setups) && f < |setups|
    ensures RecordBits(rec, model, setups, f)
            == ValueBits(rec[f], model[f], setups[f]) + RecordBits(rec, model, setups, f + 1)
  {
    hide ValueBits;
  }

  lemma RecordBitsEnd(rec: Record, model: Record, setups: seq<Setup>)
    requires |rec| == |model| == |setups| && SetupsValid(setups)
    ensures RecordBits(rec, model, setups, |setups|) == []
  {
  }

  // ----- the loop over a collection

  /** Room for n samples at position at. */
  predicate Holds(size: nat, at: nat, n: nat, setups: seq<Setup>) {
    at + Times(n, SampleBits(setups)) <= size
  }

  function SamplesAt(b: Bits, at: nat, n: nat, setups: seq<Setup>): (recs: seq<Record>)
    requires Holds(|b|, at, n, setups)
    ensures |recs| == n && AllFit(recs, setups)
  {
    RecordsOf(b[at..at + Times(n, SampleBits(setups))], n, setups)
  }

  lemma SampleIn(n: nat, i: nat, setups: seq<Setup>)
    requires i < n
    ensures Times(i, SampleBits(setups)) + SampleBits(setups) == Times(i + 1, SampleBits(setups))
            <= Times(n, SampleBits(setups))
  {
    TimesMonotone(i + 1, n, SampleBits(setups));
  }

  /** Sample i of the n at position at. */
  function SampleAt(b: Bits, at: nat, n: nat, i: nat, setups: seq<Setup>): (rec: Record)
    requires Holds(|b|, at, n, setups) && i < n
    ensures RecordFits(rec, setups)
  {
    SampleIn(n, i, setups);
    var pos := at + Times(i, SampleBits(setups));
    RecordOf(b[pos..pos + SampleBits(setups)], setups)
  }

  lemma SampleAtIs(b: Bits, at: nat, n: nat, i: nat, setups: seq<Setup>)
    requires Holds(|b|, at, n, setups) && i < n
    ensures SampleAt(b, at, n, i, setups) == SamplesAt(b, at, n, setups)[i]
  {
    hide RecordOf, RecordsOf, SampleBits, Times;
    SampleIn(n, i, setups);
    var size := SampleBits(setups);
    RecordAtOffset(b[at..at + Times(n, size)], n, setups, i);
    SliceOfSlice(b, at, Times(n, size), Times(i, size), Times(i + 1, size));
  }

  lemma SliceOfSlice(b: Bits, at: nat, n: nat, x: nat, y: nat)
    requires at + n <= |b| && x <= y <= n
    ensures b[at..at + n][x..y] == b[at + x..at + y]
  {
    var r, expected := b[at..at + n][x..y], b[at + x..at + y];
    assert forall i :: 0 <= i < y - x ==> r[i] == expected[i];
  }

  /** Samples behind what has been written are still the old ones. */
  lemma SampleBehind(a: Bits, b: Bits, at: nat, bits: Bits, n: nat, i: nat, setups: seq<Setup>)
    requires Holds(|a|, at, n, setups) && i < n && Written(a, b, at, bits) && |bits| <= Times(i, SampleBits(setups))
    ensures |b| == |a| && SampleAt(b, at, n, i, setups) == SampleAt(a, at, n, i, setups)
  {
    hide RecordOf, SampleBits, Times;
    SampleIn(n, i, setups);
    var pos := at + Times(i, SampleBits(setups));
    assert b[pos..pos + SampleBits(setups)] == a[pos..pos + SampleBits(setups)];
  }

  /** Writing sample i after the first i samples of a buffer. */
  lemma WriteSample(a: Bits, b: Bits, c: Bits, at: nat, recs: seq<Record>, i: nat, setups: seq<Setup>)
    requires AllFit(recs, setups) && i < |recs|
    requires Written(a, b, at, BitsOfAll(recs[..i], setups))
    requires Written(b, c, at + Times(i, SampleBits(setups)), BitsOf(recs[i], setups))
    ensures Written(a, c, at, BitsOfAll(recs[..i + 1], setups))
  {
    hide BitsOf, BitsOfAll, Written, SampleBits, Times;
    BitsOfAllSnoc(recs, i, setups);
    WrittenTwice(a, b, c, at, BitsOfAll(recs[..i], setups), BitsOf(recs[i], setups));
  }

  lemma NoSampleWritten(a: Bits, at: nat, recs: seq<Record>, setups: seq<Setup>)
    requires AllFit(recs, setups) && Holds(|a|, at, |recs|, setups)
    ensures Written(a, a, at, BitsOfAll(recs[..0], setups))
  {
    assert a == a[..at] + [] + a[at..];
  }

  lemma SomeSamplesWritten(a: Bits, b: Bits, at: nat, recs: seq<Record>, i: nat, setups: seq<Setup>)
    requires AllFit(recs, setups) && i <= |recs| && Written(a, b, at, BitsOfAll(recs[..i], setups))
    ensures Spoiled(a, b, at, at + Times(|recs|, SampleBits(setups)))
  {
    hide BitsOfAll, SampleBits, Written, Spoiled;
    TimesMonotone(i, |recs|, SampleBits(setups));
    WrittenSpoils(a, b, at, BitsOfAll(recs[..i], setups), at + Times(|recs|, SampleBits(setups)));
  }

  /** The encoded part of the stream grows by a record; nothing is put before the first one. */
  predicate PutSoFar(first: bool, noBuffer: bool, a: Bits, b: Bits, start: nat, done: Bits, limit: nat,
                     r: Result<nat>) {
    if first then done == [] && b == a && r == Ok(start) else Put(noBuffer, a, b, start, done, limit, r)
  }

  lemma PutRecord(first: bool, noBuffer: bool, a: Bits, b: Bits, c: Bits, start: nat, done: Bits, next: Bits,
                  limit: nat, sofar: nat, r: Result<nat>)
    requires PutSoFar(first, noBuffer, a, b, start, done, limit, Ok(sofar))
    requires Put(noBuffer, b, c, sofar, next, limit, r)
    ensures Put(noBuffer, a, c, start, done + next, limit, r)
  {
    if first {
      assert done + next == next;
    } else {
      EscapeFits(noBuffer, a, b, start, done, limit, Ok(sofar));
      hide Put;
      PutThenPut(noBuffer, a, b, c, start, done, next, limit, r);
    }
  }

  /** The stream split at record i + 1. */
  lemma StreamSplit(data: seq<Record>, models: seq<Record>, cfg: LoopCfg, i: nat, done: Bits)
    requires CanCode(data, models, cfg) && i < |data|
    requires StreamBits(data, models, cfg, 0) == done + StreamBits(data, models, cfg, i)
    ensures |ModelOf(data, models, cfg, i)| == |cfg.setups| == |data[i]|
    ensures RecordFits(ModelOf(data, models, cfg, i), cfg.setups)
    ensures var next := RecordBits(data[i], ModelOf(data, models, cfg, i), cfg.setups, 0);
            && StreamBits(data, models, cfg, 0) == done + next + StreamBits(data, models, cfg, i + 1)
            && (i + 1 == |data| ==> StreamBits(data, models, cfg, 0) == done + next)
  {
    hide StreamBits, RecordBits, ModelOf;
    StreamBitsFirst(data, models, cfg, i);
    ModelFits(data, models, cfg, i);
    var next, rest := RecordBits(data[i], ModelOf(data, models, cfg, i), cfg.setups, 0),
      StreamBits(data, models, cfg, i + 1);
    assert done + (next + rest) == done + next + rest;
  }

  /** The updated model of sample i goes to its place, if it is wanted. */
  method StoreUpModel(upModelBuf: array?<bool>, at: nat, data: seq<Record>, i: nat, model: Record, cfg: LoopCfg,
                      ghost models: seq<Record>, ghost before: Bits)
    requires CanCode(data, models, cfg) && i < |data|
    requires upModelBuf != null ==>
               && cfg.modelMode && model == models[i] && Holds(upModelBuf.Length, at, |data|, cfg.setups)
               && Written(before, upModelBuf[..], at, BitsOfAll(UpRecords(data, models, cfg)[..i], cfg.setups))
    modifies upModelBuf
    ensures upModelBuf != null ==>
              Written(before, upModelBuf[..], at, BitsOfAll(UpRecords(data, models, cfg)[..i + 1], cfg.setups))
  {
    hide BitsOf, BitsOfAll, SampleBits, Times, Written, UpModel;
    if upModelBuf != null {
      ghost var between := upModelBuf[..];
      SampleIn(|data|, i, cfg.setups);
      StoreBits(upModelBuf, at + Times(i, SampleBits(cfg.setups)), BitsOf(UpRecord(data[i], model, cfg), cfg.setups));
      WriteSample(before, between, upModelBuf[..], at, UpRecords(data, models, cfg), i, cfg.setups);
    }
  }

  /** What the encoding loop leaves in the buffer for the updated model. */
  predicate ModelUpdated(before: Bits, after: Bits, at: nat, data: seq<Record>, models: seq<Record>, cfg: LoopCfg,
                         ok: bool)
    requires CanCode(data, models, cfg)
  {
    if !cfg.modelMode then after == before
    else if ok then Written(before, after, at, BitsOfAll(UpRecords(data, models, cfg), cfg.setups))
    else Spoiled(before, after, at, at + Times(|data|, SampleBits(cfg.setups)))
  }

  lemma ModelUpdatedIs(before: Bits, after: Bits, at: nat, data: seq<Record>, models: seq<Record>, cfg: LoopCfg, i: nat,
                       ok: bool)
    requires CanCode(data, models, cfg) && i <= |data| && (ok ==> i == |data|)
    requires if cfg.modelMode then Written(before, after, at, BitsOfAll(UpRecords(data, models, cfg)[..i], cfg.setups))
             else after == before
    ensures ModelUpdated(before, after, at, data, models, cfg, ok)
  {
    hide BitsOfAll, Written, SampleBits, UpRecord, Spoiled;
    if cfg.modelMode {
      if ok {
        assert UpRecords(data, models, cfg)[..i] == UpRecords(data, models, cfg);
      } else {
        SomeSamplesWritten(before, after, at, UpRecords(data, models, cfg), i, cfg.setups);
      }
    }
  }

  /** The next model is read where nothing has been written yet, even if the model is updated in place. */
  lemma NextModel(modelBefore: Bits, model: Bits, at: nat, n: nat, ups: seq<Record>, setups: seq<Setup>)
    requires Holds(|modelBefore|, at, n, setups) && |ups| < n && AllFit(ups, setups)
    requires model == modelBefore || Written(modelBefore, model, at, BitsOfAll(ups, setups))
    ensures |model| == |modelBefore|
    ensures SampleAt(model, at, n, |ups|, setups) == SamplesAt(modelBefore, at, n, setups)[|ups|]
  {
    hide BitsOfAll, Written, SampleBits, Times, SampleAt, SamplesAt;
    SampleAtIs(modelBefore, at, n, |ups|, setups);
    if model != modelBefore {
      SampleBehind(modelBefore, model, at, BitsOfAll(ups, setups), n, |ups|, setups);
    }
  }

  /** compress_imagette and its siblings: encodes n >= 1 samples of data, read as records of
      the given setups. In the model modes the model buffer supplies the models and the updated
      model, if wanted, goes to updated, which may be the model buffer itself. */
  method CompressLoop(data: seq<Record>, model: array?<bool>, updated: array?<bool>, at: nat,
                      cfg: LoopCfg, start: nat, dst: array?<bool>, maxStreamLen: nat, ghost models: seq<Record>)
    returns (r: Result<nat>)
    requires CanCode(data, models, cfg) && |data| >= 1 && Usable(dst, maxStreamLen)
    requires cfg.modelMode ==>
               && model != null && Holds(model.Length, at, |data|, cfg.setups)
               && models == SamplesAt(model[..], at, |data|, cfg.setups)
    requires updated != null ==> Holds(updated.Length, at, |data|, cfg.setups)
    requires dst != null ==> dst != model && dst != updated
    modifies dst, updated
    ensures Put(dst == null, old(Content(dst)), Content(dst), start, StreamBits(data, models, cfg, 0), maxStreamLen, r)
    ensures updated != null ==> ModelUpdated(old(updated[..]), updated[..], at, data, models, cfg, r.Ok?)
  {
    hide RecordBits, StreamBits, Put, BitsOf, BitsOfAll, SampleBits, Times, Written, Spoiled, UpRecords, SampleAt,
      SamplesAt, ModelUpdated, Holds;
    ghost var before, upBefore, modelBefore := Content(dst), Content(updated), Content(model);
    var currentModel := ZeroRecord(|cfg.setups|);
    var upModelBuf: array?<bool> := null;
    if cfg.modelMode {
      SampleAtIs(model[..], at, |data|, 0, cfg.setups);
      currentModel := SampleAt(model[..], at, |data|, 0, cfg.setups);
      upModelBuf := updated;
    }
    if upModelBuf != null {
      NoSampleWritten(upBefore, at, UpRecords(data, models, cfg), cfg.setups);
    }
    ghost var done := [];
    var i := 0;
    r := Ok(start);
    while true
      invariant i < |data| && r.Ok?
      invariant currentModel == ModelOf(data, models, cfg, i)
      invariant upModelBuf == if cfg.modelMode then updated else null
      invariant PutSoFar(i == 0, dst == null, before, Content(dst), start, done, maxStreamLen, r)
      invariant StreamBits(data, models, cfg, 0) == done + StreamBits(data, models, cfg, i)
      invariant if upModelBuf == null then Content(updated) == upBefore
                else Written(upBefore, updated[..], at, BitsOfAll(UpRecords(data, models, cfg)[..i], cfg.setups))
      decreases |data| - i
    {
      ghost var between, sofar := Content(dst), r.value;
      StreamSplit(data, models, cfg, i, done);
      ghost var next := RecordBits(data[i], currentModel, cfg.setups, 0);
      r := EncodeRecord(data[i], currentModel, cfg.setups, r.value, dst, maxStreamLen);
      PutRecord(i == 0, dst == null, before, between, Content(dst), start, done, next, maxStreamLen, sofar, r);
      done := done + next;
      if r.Err? {
        EscapeFails(dst == null, before, Content(dst), start, done, StreamBits(data, models, cfg, i + 1), maxStreamLen,
                    r);
        if updated != null {
          ModelUpdatedIs(upBefore, updated[..], at, data, models, cfg, i, false);
        }
        break;
      }
      StoreUpModel(upModelBuf, at, data, i, currentModel, cfg, models, upBefore);
      if i >= |data| - 1 {
        if updated != null {
          ModelUpdatedIs(upBefore, updated[..], at, data, models, cfg, i + 1, true);
        }
        break;
      }
      if cfg.modelMode {
        NextModel(modelBefore, model[..], at, |data|, UpRecords(data, models, cfg)[..i + 1], cfg.setups);
        currentModel := SampleAt(model[..], at, |data|, i + 1, cfg.setups);
      } else {
        currentModel := data[i];
      }
      i := i + 1;
    }
  }
}
