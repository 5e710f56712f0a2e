/** The encoder of one collection: the stream with its padding, the raw fallback for data that
    do not shrink, and the frame around them. The same run with no buffer is the size query. */
module Compressor {
  import opened BitStrings
  import opened Results
  import opened Golomb
  import opened Streams
  import opened Memory
  import opened BitWriter
  import opened Encoder
  import opened DataTypes
  import opened Config
  import opened Parameters
  import opened Chunks

  /** Bits up to the end of the word. */
  function WordPad(bits: nat): (n: nat)
    ensures n < 32 && (bits + n) % 32 == 0
  {
    (32 - bits % 32) % 32
  }

  lemma PaddedFits(bits: nat, limit: nat)
    requires bits <= limit && limit % 32 == 0
    ensures bits + WordPad(bits) <= limit
  {
  }

  lemma PadIsLeft(bits: nat)
    ensures WordPad(bits) == if 32 - bits % 32 < 32 then 32 - bits % 32 else 0
  {
  }

  lemma NoPadding(b: Bits, at: nat)
    requires at <= |b|
    ensures Written(b, b, at, Zeros(0))
  {
    assert Zeros(0) == [] && b == b[..at] + [] + b[at..];
  }

  /** pad_bitstream: after a successful compression it always fits and only zeroes the rest
      of the last word. */
  method PadBitstream(dst: array?<bool>, cmpSize: nat, maxStreamLen: nat) returns (r: Result<nat>)
    requires Usable(dst, maxStreamLen) && (dst != null ==> cmpSize <= maxStreamLen)
    modifies dst
    ensures r == Ok(cmpSize)
    ensures dst != null ==> Written(old(dst[..]), dst[..], cmpSize, Zeros(WordPad(cmpSize)))
  {
    hide ToBits, Zeros, WordPad, Written;
    if dst == null {
      return Ok(cmpSize);
    }
    var nPadBits := 32 - cmpSize % 32;
    PadIsLeft(cmpSize);
    if nPadBits < 32 {
      PaddedFits(cmpSize, maxStreamLen);
      ZerosValue(nPadBits);
      r := PutNBits32(0, nPadBits, cmpSize, dst, maxStreamLen);
      if r.Err? {
        return;
      }
    } else {
      NoPadding(dst[..], cmpSize);
    }
    return Ok(cmpSize);
  }

  /** The outcome of compressing to position start: like a put of the stream s, with the
      last word padded. */
  predicate Compressed(noBuffer: bool, before: Bits, after: Bits, start: nat, s: Bits, limit: nat, r: Result<nat>) {
    if noBuffer then r == Ok(start + |s|) && after == before
    else if start + |s| <= limit then
      r == Ok(start + |s|) && Written(before, after, start, s + Zeros(WordPad(start + |s|)))
    else r == Err(SmallBuffer) && Spoiled(before, after, start, limit)
  }

  function ModelSlice(model: array?<bool>, at: nat, n: nat): (m: Bits)
    requires model != null ==> at + n <= model.Length
    reads model
    ensures model != null ==> |m| == n
  {
    if model == null then [] else model[at..at + n]
  }

  /** The updated model of a collection's data, as the loop leaves it. */
  predicate LoopUpdated(before: Bits, after: Bits, at: nat, data: Bits, model: Bits, n: nat, loop: LoopCfg, ok: bool)
    requires Codable(data, model, n, loop)
  {
    var (recs, models) := Records(data, model, n, loop);
    ModelUpdated(before, after, at, recs, models, loop, ok)
  }

  /** compress_data_internal in the non-raw modes. */
  method CompressStream(data: Bits, n: nat, loop: LoopCfg, model: array?<bool>, updated: array?<bool>, at: nat,
                        dst: array?<bool>, streamSize: nat, streamLen: nat) returns (r: Result<nat>)
    requires n >= 1 && (model != null ==> at + |data| <= model.Length)
    requires loop.modelMode ==> model != null
    requires Codable(data, ModelSlice(model, at, |data|), n, loop)
    requires updated != null ==> at + |data| <= updated.Length
    requires dst != null ==> dst != model && dst != updated && SizeToBits(streamSize) <= dst.Length
    modifies dst, updated
    ensures Compressed(dst == null, old(Content(dst)), Content(dst), streamLen,
                       old(Stream(data, ModelSlice(model, at, |data|), n, loop)), SizeToBits(streamSize), r)
    ensures updated != null ==>
              LoopUpdated(old(updated[..]), updated[..], at, data, old(ModelSlice(model, at, |data|)), n, loop, r.Ok?)
  {
    hide StreamBits, ModelUpdated, SampleBits, Times, RecordsOf, CanCode, Written, Zeros, WordPad, SizeToBits;
    ghost var (recs, models) := Records(data, ModelSlice(model, at, |data|), n, loop);
    ghost var before := Content(dst);
    r := CompressLoop(RecordsOf(data, n, loop.setups), model, updated, at, loop, streamLen, dst, SizeToBits(streamSize),
                      models);
    if r.Err? {
      return;
    }
    ghost var between := Content(dst);
    r := PadBitstream(dst, r.value, SizeToBits(streamSize));
    if dst != null {
      ghost var s := Stream(data, old(ModelSlice(model, at, |data|)), n, loop);
      WrittenTwice(before, between, dst[..], streamLen, s, Zeros(WordPad(streamLen + |s|)));
    }
  }

  // ----- the payload, with the raw fallback

  /** bits now stand at position start; nothing before start and nothing from limit on changed. */
  predicate Appended(before: Bits, after: Bits, start: nat, bits: Bits, limit: nat) {
    && |after| == |before| && start + |bits| <= limit <= |before|
    && after[..start] == before[..start]
    && after[start..start + |bits|] == bits
    && after[limit..] == before[limit..]
  }

  lemma WrittenAppends(a: Bits, b: Bits, start: nat, bits: Bits, pad: Bits, limit: nat)
    requires Written(a, b, start, bits + pad) && start + |bits + pad| <= limit <= |a|
    ensures Appended(a, b, start, bits, limit)
  {
  }

  lemma SpoiledMore(a: Bits, b: Bits, start: nat, limit: nat, more: nat)
    requires Spoiled(a, b, start, limit) && limit <= more
    ensures Spoiled(a, b, start, more)
  {
  }

  lemma SpoiledThenWritten(a: Bits, b: Bits, c: Bits, start: nat, limit: nat, bits: Bits)
    requires Spoiled(a, b, start, limit) && Written(b, c, start, bits) && limit <= start + |bits|
    ensures Written(a, c, start, bits)
  {
    assert a[..start] == b[..start];
    assert a[start + |bits|..] == b[start + |bits|..];
  }

  /** The outcome of compressing a payload to byte position start of a buffer of capacity bytes:
      it is there if it fits; otherwise the buffer cannot even hold the raw data. */
  predicate PayloadPut(noBuffer: bool, before: Bits, after: Bits, start: nat, capacity: nat, payload: Bits, size: nat,
                       fits: bool, r: Result<nat>) {
    if noBuffer || fits then
      && r.Ok? && (r.value + 7) / 8 == start + |payload| / 8
      && (if noBuffer then after == before else Appended(before, after, 8 * start, payload, 8 * capacity))
    else
      r == Err(SmallBuffer) && capacity < start + size && Spoiled(before, after, 8 * start, 8 * capacity)
  }

  /** What became of the updated model of the collection's data. */
  predicate PayloadUpdate(before: Bits, after: Bits, at: nat, data: Bits, model: Bits, n: nat, loop: LoopCfg,
                          start: nat, ok: bool)
    requires Codable(data, model, n, loop)
  {
    if !loop.modelMode then after == before
    else if ok then Written(before, after, at, UpdatedModel(data, model, n, loop, start))
    else Spoiled(before, after, at, at + |data|)
  }

  lemma CodedOutcome(noBuffer: bool, a: Bits, b: Bits, start: nat, capacity: nat, data: Bits, model: Bits, n: nat,
                     loop: LoopCfg, streamSize: nat, r: Result<nat>)
    requires Codable(data, model, n, loop) && |data| % 8 == 0 && n > 0 && |data| >= 8
    requires Compressed(noBuffer, a, b, 8 * start, Stream(data, model, n, loop), SizeToBits(streamSize), r) && r.Ok?
    requires r.value <= SizeToBits(streamSize) && streamSize < start + |data| / 8
    requires !noBuffer ==> streamSize <= capacity && 8 * capacity <= |a|
    ensures IsCoded(data, model, n, loop, start)
    ensures PayloadPut(noBuffer, a, b, start, capacity, Payload(data, model, n, loop, start), |data| / 8,
                       PayloadFits(data, model, n, loop, start, capacity), r)
  {
    hide Stream, Zeros, WordPad, BytePad, Codable, Appended, Written, SizeToBits;
    var s := Stream(data, model, n, loop);
    BytesOfPadded(start, |s|);
    WordsMonotone(streamSize, start + |data| / 8 - 1);
    if !noBuffer {
      WordsMonotone(streamSize, capacity);
      PaddedAppends(a, b, 8 * start, s, SizeToBits(streamSize), 8 * capacity);
    }
  }

  lemma PaddedAppends(a: Bits, b: Bits, start: nat, s: Bits, limit: nat, end: nat)
    requires start % 8 == 0 && limit % 32 == 0 && start + |s| <= limit <= end <= |a|
    requires Written(a, b, start, s + Zeros(WordPad(start + |s|)))
    ensures Appended(a, b, start, s + Zeros(BytePad(|s|)), end)
  {
    hide Zeros, WordPad, BytePad, Appended, Written;
    PadSplits(start, s);
    PaddedFits(start + |s|, limit);
    var p, q := WordPad(start + |s|), BytePad(|s|);
    WrittenAppends(a, b, start, s + Zeros(q), Zeros(p - q), end);
  }

  lemma BytesOfPadded(start: nat, bits: nat)
    ensures (8 * start + bits + 7) / 8 == start + (bits + BytePad(bits)) / 8
  {
  }

  lemma WordsMonotone(a: nat, b: nat)
    requires a <= b
    ensures SizeToBits(a) <= SizeToBits(b)
  {
  }

  lemma SmallPads(r: nat)
    requires r < 32
    ensures (8 - r % 8) % 8 <= (32 - r) % 32
  {
  }

  lemma SameModulo8(start: nat, n: nat)
    requires start % 8 == 0
    ensures n % 8 == (start + n) % 32 % 8
  {
    var x := start + n;
    MultipleOf8(x % 32, 4 * (x / 32));
    MultipleOf8(n, start / 8);
  }

  lemma MultipleOf8(a: nat, k: nat)
    ensures (a + 8 * k) % 8 == a % 8
  {
  }

  lemma ZerosSplit(p: nat, q: nat)
    requires q <= p
    ensures Zeros(p) == Zeros(q) + Zeros(p - q)
  {
  }

  /** The padding of the last word starts with the padding of the last byte. */
  lemma PadSplits(start: nat, s: Bits)
    requires start % 8 == 0
    ensures var p, q := WordPad(start + |s|), BytePad(|s|);
            q <= p && s + Zeros(p) == s + Zeros(q) + Zeros(p - q)
  {
    hide Zeros;
    SameModulo8(start, |s|);
    SmallPads((start + |s|) % 32);
    ZerosSplit(WordPad(start + |s|), BytePad(|s|));
  }

  /** compress_data_internal in raw mode. */
  method CompressRaw(data: Bits, dst: array?<bool>, streamSize: nat, streamLen: nat) returns (r: Result<nat>)
    requires streamLen % 8 == 0 && |data| % 8 == 0 && (dst != null ==> 8 * streamSize <= dst.Length)
    modifies dst
    ensures dst == null ==> r == Ok(streamLen + |data|)
    ensures dst != null && streamLen / 8 + |data| / 8 > streamSize ==> r == Err(SmallBuffer) && dst[..] == old(dst[..])
    ensures dst != null && streamLen / 8 + |data| / 8 <= streamSize ==>
              r == Ok(streamLen + |data|) && Written(old(dst[..]), dst[..], streamLen, data)
  {
    if dst != null {
      var newStreamSize := streamLen / 8 + |data| / 8;
      if newStreamSize > streamSize {
        return Err(SmallBuffer);
      }
      StoreBits(dst, streamLen, data);
    }
    return Ok(streamLen + |data|);
  }

  /** The attempt that did not shrink the data is replaced by a copy of them. */
  lemma RawOutcome(noBuffer: bool, a: Bits, b: Bits, c: Bits, start: nat, capacity: nat, data: Bits, model: Bits,
                   n: nat, loop: LoopCfg, attempt: Result<nat>)
    requires Codable(data, model, n, loop) && |data| % 8 == 0 && n > 0 && |data| >= 8
    requires var limit := SizeToBits(start + |data| / 8 - 1);
             && Compressed(noBuffer, a, b, 8 * start, Stream(data, model, n, loop), limit, attempt)
             && (attempt.Err? || (noBuffer && attempt.value > limit))
    requires if noBuffer then c == b
             else Written(b, c, 8 * start, data) && 8 * capacity <= |b| && start + |data| / 8 <= capacity
    ensures !IsCoded(data, model, n, loop, start)
    ensures PayloadPut(noBuffer, a, c, start, capacity, Payload(data, model, n, loop, start), |data| / 8,
                       PayloadFits(data, model, n, loop, start, capacity), Ok(8 * start + |data|))
  {
    hide Stream, Codable, Written, Spoiled, Appended;
    var limit := SizeToBits(start + |data| / 8 - 1);
    if !noBuffer {
      SpoiledThenWritten(a, b, c, 8 * start, limit, data);
      assert data == data + [];
      SameSize(b, c, 8 * start, data);
      SameSize(a, c, 8 * start, data);
      WrittenAppends(a, c, 8 * start, data, [], 8 * capacity);
    }
  }

  lemma SameSize(a: Bits, b: Bits, start: nat, bits: Bits)
    requires Written(a, b, start, bits)
    ensures |a| == |b| && start + |bits| <= |a|
  {
  }

  lemma FailedOutcome(a: Bits, b: Bits, start: nat, capacity: nat, data: Bits, model: Bits, n: nat, loop: LoopCfg,
                      r: Result<nat>)
    requires Codable(data, model, n, loop) && n > 0 && capacity < start + |data| / 8 && r.Err?
    requires Compressed(false, a, b, 8 * start, Stream(data, model, n, loop), SizeToBits(capacity), r)
    ensures PayloadPut(false, a, b, start, capacity, Payload(data, model, n, loop, start), |data| / 8,
                       PayloadFits(data, model, n, loop, start, capacity), r)
  {
    hide Stream, Codable, Spoiled, Payload;
    SpoiledMore(a, b, 8 * start, SizeToBits(capacity), 8 * capacity);
  }

  /** The updated model after an attempt: only the last one counts. */
  lemma UpdateOutcome(a: Bits, b: Bits, c: Bits, at: nat, data: Bits, model: Bits, n: nat, loop: LoopCfg, start: nat,
                      ok: bool, raw: bool)
    requires Codable(data, model, n, loop) && at + |data| <= |a|
    requires LoopUpdated(a, b, at, data, model, n, loop, ok)
    requires if loop.modelMode && raw then Written(b, c, at, data) else c == b
    requires raw || !ok || IsCoded(data, model, n, loop, start)
    requires raw ==> !IsCoded(data, model, n, loop, start)
    ensures PayloadUpdate(a, c, at, data, model, n, loop, start, raw || ok)
  {
    hide Stream, StreamBits, BitsOfAll, SampleBits, Times, Written, IsCoded, UpRecords, RecordsOf, Spoiled;
    var (recs, models) := Records(data, model, n, loop);
    if loop.modelMode && raw {
      if ok {
        WrittenSpoils(a, b, at, BitsOfAll(UpRecords(recs, models, loop), loop.setups), at + |data|);
      }
      SpoiledThenWritten(a, b, c, at, at + |data|, data);
    }
  }

  /** The payload of a collection whose header ends at byte position start. */
  method CompressPayload(data: Bits, n: nat, loop: LoopCfg, model: array?<bool>, updated: array?<bool>, at: nat,
                         dst: array?<bool>, dstCapacity: nat, start: nat) returns (r: Result<nat>)
    requires |data| % 8 == 0 && (n > 0 ==> |data| >= 8)
    requires model != null ==> at + |data| <= model.Length
    requires loop.modelMode ==> model != null
    requires Codable(data, ModelSlice(model, at, |data|), n, loop)
    requires updated != null ==> at + |data| <= updated.Length
    requires dst != null ==> dst != model && dst != updated && 8 * dstCapacity <= dst.Length && start <= dstCapacity
    modifies dst, updated
    ensures PayloadPut(dst == null, old(Content(dst)), Content(dst), start, dstCapacity,
                       old(Payload(data, ModelSlice(model, at, |data|), n, loop, start)), |data| / 8,
                       old(PayloadFits(data, ModelSlice(model, at, |data|), n, loop, start, dstCapacity)), r)
    ensures updated != null ==>
              PayloadUpdate(old(updated[..]), updated[..], at, data, old(ModelSlice(model, at, |data|)), n, loop, start,
                            r.Ok?)
  {
    hide Stream, SampleBits, Times, Records, StreamBits, Codable, LoopUpdated, PayloadPut, PayloadFits, PayloadUpdate,
      ModelUpdated,
      Written, Spoiled, Zeros, WordPad;
    ghost var m := ModelSlice(model, at, |data|);
    ghost var before, upBefore := Content(dst), Content(updated);
    if n == 0 {
      NothingToCompress(dst == null, before, start, dstCapacity, data, m, loop);
      if updated != null {
        NothingUpdated(upBefore, at, data, m, loop, start);
      }
      return Ok(8 * start);
    }
    if dst == null || dstCapacity >= start + |data| / 8 {
      var streamSize := start + |data| / 8 - 1;
      r := CompressStream(data, n, loop, model, updated, at, dst, streamSize, 8 * start);
      if r == Err(SmallBuffer) || (dst == null && r.value > SizeToBits(streamSize)) {
        ghost var attempt, between, upBetween := r, Content(dst), Content(updated);
        r := CompressRaw(data, dst, start + |data| / 8, 8 * start);
        if loop.modelMode && updated != null {
          StoreBits(updated, at, data);
        }
        RawOutcome(dst == null, before, between, Content(dst), start, dstCapacity, data, m, n, loop, attempt);
        if updated != null {
          UpdateOutcome(upBefore, upBetween, updated[..], at, data, m, n, loop, start, attempt.Ok?, true);
        }
        return;
      } else {
        CodedOutcome(dst == null, before, Content(dst), start, dstCapacity, data, m, n, loop, streamSize, r);
      }
    } else {
      r := CompressStream(data, n, loop, model, updated, at, dst, dstCapacity, 8 * start);
      if r.Ok? {
        CodedOutcome(dst == null, before, Content(dst), start, dstCapacity, data, m, n, loop, dstCapacity, r);
      } else {
        FailedOutcome(before, Content(dst), start, dstCapacity, data, m, n, loop, r);
      }
    }
    if updated != null {
      UpdateOutcome(upBefore, updated[..], updated[..], at, data, m, n, loop, start, r.Ok?, false);
    }
  }

  lemma NothingToCompress(noBuffer: bool, a: Bits, start: nat, capacity: nat, data: Bits, model: Bits, loop: LoopCfg)
    requires Codable(data, model, 0, loop)
    requires !noBuffer ==> 8 * capacity <= |a| && start <= capacity
    ensures PayloadPut(noBuffer, a, a, start, capacity, Payload(data, model, 0, loop, start), |data| / 8,
                       PayloadFits(data, model, 0, loop, start, capacity), Ok(8 * start))
  {
    assert data == [];
  }

  lemma NothingUpdated(a: Bits, at: nat, data: Bits, model: Bits, loop: LoopCfg, start: nat)
    requires Codable(data, model, 0, loop) && at <= |a|
    ensures PayloadUpdate(a, a, at, data, model, 0, loop, start, true)
  {
    assert data == [];
    assert a == a[..at] + [] + a[at..];
  }

  // ----- a collection

  /** The outcome of compressing the collection that starts col to byte position dstSize. */
  predicate CollectionPut(noBuffer: bool, before: Bits, after: Bits, dstSize: nat, capacity: nat, frame: Bits,
                          colBits: nat, fits: bool, r: Result<nat>) {
    if noBuffer || fits then
      && r.Ok? && r.value == dstSize + |frame| / 8
      && (if noBuffer then after == before else Appended(before, after, 8 * dstSize, frame, 8 * capacity))
    else
      && r == Err(SmallBuffer) && capacity < dstSize + CMP_COLLECTION_FIELD_SIZE + colBits / 8
      && Spoiled(before, after, 8 * dstSize, 8 * capacity)
  }

  lemma AppendAfter(a: Bits, b: Bits, c: Bits, at: nat, x: Bits, y: Bits, limit: nat)
    requires Written(a, b, at, x) && Appended(b, c, at + |x|, y, limit)
    ensures Appended(a, c, at, x + y, limit)
  {
    var p := at + |x|;
    assert c[..at] == c[..p][..at] == b[..p][..at] == a[..at];
    assert c[at..p] == c[..p][at..] == b[..p][at..] == x;
    assert c[at..p + |y|] == c[at..p] + c[p..p + |y|];
    assert b[limit..] == a[limit..];
  }

  lemma WriteBefore(a: Bits, b: Bits, c: Bits, at: nat, x: Bits, y: Bits, limit: nat)
    requires Appended(a, b, at + |x|, y, limit) && Written(b, c, at, x)
    ensures Appended(a, c, at, x + y, limit)
  {
    var p := at + |x|;
    assert c[..at] == b[..at] == b[..p][..at] == a[..p][..at] == a[..at];
    assert c[p..] == b[p..];
    assert c[at..p + |y|] == x + c[p..][..|y|] == x + b[p..p + |y|];
    assert c[limit..] == b[limit..];
  }

  /** A frame is built from its parts: first the header, then the payload, then the length field. */
  lemma FrameBuilt(a: Bits, b: Bits, c: Bits, d: Bits, at: nat, col: Bits, payload: Bits, limit: nat)
    requires |col| >= HDR_BITS
    requires Written(a, b, at + FIELD_BITS, col[..HDR_BITS])
    requires Appended(b, c, at + FIELD_BITS + HDR_BITS, payload, limit)
    requires Written(c, d, at, ToBits(|payload| / 8, FIELD_BITS))
    ensures Appended(a, d, at, Frame(col, payload), limit)
  {
    hide ToBits, Written, Appended;
    var hdr, field := col[..HDR_BITS], ToBits(|payload| / 8, FIELD_BITS);
    AppendAfter(a, b, c, at + FIELD_BITS, hdr, payload, limit);
    WriteBefore(a, c, d, at, field, hdr + payload, limit);
    assert field + (hdr + payload) == Frame(col, payload);
  }

  function ModelBits(model: array?<bool>, at: nat, n: nat): (m: Option<Bits>)
    requires model != null ==> at + n <= model.Length
    reads model
    ensures m.Some? ==> |m.value| == n
    ensures m.Some? <==> model != null
  {
    if model == null then None else Some(model[at..at + n])
  }

  /** What became of the updated model of a collection. */
  predicate CollectionUpdate(before: Bits, after: Bits, at: nat, col: Bits, model: Option<Bits>, ct: ChunkType,
                             cfg: Cfg, dstSize: nat, ok: bool)
    requires |col| >= HDR_BITS && cfg.WellFormed() && !ct.UnknownChunk? && ModelMatches(col, model)
    requires ColError(col, ct, cfg, model.Some?).None?
  {
    if !ModelModeIsUsed(cfg.cmpMode) then after == before
    else if ok then Written(before, after, at, ColUpdate(col, model, ct, cfg, dstSize))
    else Spoiled(before, after, at, at + ColBits(col))
  }

  lemma FrameOutcome(noBuffer: bool, a: Bits, b: Bits, c: Bits, d: Bits, dstSize: nat, capacity: nat, col: Bits,
                     payload: Bits, fits: bool, allFits: bool, bits: Result<nat>, r: Result<nat>)
    requires |col| >= HDR_BITS && |payload| % 8 == 0
    requires if noBuffer then b == a else Written(a, b, 8 * dstSize + FIELD_BITS, col[..HDR_BITS])
    requires PayloadPut(noBuffer, b, c, dstSize + FRAME_HDR_SIZE, capacity, payload, DataLength(col), fits, bits)
    requires !noBuffer && bits.Ok? ==> Written(c, d, 8 * dstSize, ToBits(|payload| / 8, FIELD_BITS))
    requires noBuffer || bits.Err? ==> d == c
    requires r == if bits.Ok? then Ok((bits.value + 7) / 8) else bits
    requires !noBuffer ==> dstSize + FRAME_HDR_SIZE <= capacity && allFits == fits
    ensures CollectionPut(noBuffer, a, d, dstSize, capacity, Frame(col, payload), ColBits(col), allFits, r)
  {
    hide ToBits, Written, Appended, Spoiled, Frame, DataLength;
    FrameBytes(col, payload);
    if !noBuffer {
      if r.Ok? {
        FrameBuilt(a, b, c, d, 8 * dstSize, col, payload, 8 * capacity);
      } else {
        WrittenThenSpoiled(a, b, c, 8 * dstSize + FIELD_BITS, col[..HDR_BITS], 8 * dstSize, 8 * capacity);
      }
    }
  }

  lemma FrameOf(col: Bits, model: Option<Bits>, ct: ChunkType, cfg: Cfg, at: nat, capacity: nat)
    requires |col| >= HDR_BITS && cfg.WellFormed() && !ct.UnknownChunk? && ModelMatches(col, model)
    requires ColError(col, ct, cfg, model.Some?).None? && cfg.cmpMode != CMP_MODE_RAW
    requires Codable(ColData(col), ModelData(col, model), Samples(col), cfg.Loop(TypeOf(col)))
    ensures ColFrame(col, model, ct, cfg, at) == Frame(col, ColPayload(col, model, ct, cfg, at + FRAME_HDR_SIZE))
    ensures ColFits(col, model, ct, cfg, at, capacity)
            <==> && at + FRAME_HDR_SIZE <= capacity
                 && PayloadFits(ColData(col), ModelData(col, model), Samples(col), cfg.Loop(TypeOf(col)),
                                at + FRAME_HDR_SIZE, capacity)
  {
    hide ColPayload, Frame, ColError, PayloadFits, Codable, TypeOf, DataLength;
  }

  lemma FrameBytes(col: Bits, payload: Bits)
    requires |col| >= HDR_BITS && |payload| % 8 == 0
    ensures |Frame(col, payload)| / 8 == FRAME_HDR_SIZE + |payload| / 8
    ensures ColBits(col) / 8 == COLLECTION_HDR_SIZE + DataLength(col)
  {
  }

  lemma WrittenThenSpoiled(a: Bits, b: Bits, c: Bits, at: nat, x: Bits, from: nat, limit: nat)
    requires Written(a, b, at, x) && Spoiled(b, c, at + |x|, limit) && from <= at && at + |x| <= limit
    ensures Spoiled(a, c, from, limit)
  {
  }

  lemma UpdateFramed(a: Bits, b: Bits, c: Bits, at: nat, col: Bits, model: Option<Bits>, ct: ChunkType, cfg: Cfg,
                     dstSize: nat, ok: bool)
    requires |col| >= HDR_BITS && cfg.WellFormed() && !ct.UnknownChunk? && ModelMatches(col, model)
    requires ColError(col, ct, cfg, model.Some?).None? && cfg.cmpMode != CMP_MODE_RAW
    requires Codable(ColData(col), ModelData(col, model), Samples(col), cfg.Loop(TypeOf(col)))
    requires if ModelModeIsUsed(cfg.cmpMode) then Written(a, b, at, col[..HDR_BITS]) else b == a
    requires PayloadUpdate(b, c, at + HDR_BITS, ColData(col), ModelData(col, model), Samples(col),
                           cfg.Loop(TypeOf(col)), dstSize + FRAME_HDR_SIZE, ok)
    ensures CollectionUpdate(a, c, at, col, model, ct, cfg, dstSize, ok)
  {
    hide ColError, UpdatedModel, Codable, TypeOf, Written, Spoiled;
    if ModelModeIsUsed(cfg.cmpMode) {
      if ok {
        WrittenTwice(a, b, c, at, col[..HDR_BITS],
                     UpdatedModel(ColData(col), ModelData(col, model), Samples(col), cfg.Loop(TypeOf(col)),
                                  dstSize + FRAME_HDR_SIZE));
      } else {
        WrittenThenSpoiled(a, b, c, at, col[..HDR_BITS], at, at + ColBits(col));
      }
    }
  }

  /** The collection header is not compressed but copied into the compressed data and the updated model. */
  method CopyHeader(col: Bits, dst: array?<bool>, pos: nat, updated: array?<bool>, at: nat)
    requires |col| >= HDR_BITS && (dst != null ==> pos + HDR_BITS <= dst.Length && dst != updated)
    requires updated != null ==> at + HDR_BITS <= updated.Length
    modifies dst, updated
    ensures dst != null ==> Written(old(dst[..]), dst[..], pos, col[..HDR_BITS])
    ensures updated != null ==> Written(old(updated[..]), updated[..], at, col[..HDR_BITS])
  {
    hide Written;
    if dst != null {
      StoreBits(dst, pos, col[..HDR_BITS]);
    }
    if updated != null {
      StoreBits(updated, at, col[..HDR_BITS]);
    }
  }

  /** set_cmp_col_size. */
  method SetCmpColSize(dst: array<bool>, pos: nat, cmpColSize: nat) returns (err: Option<Error>)
    requires pos + FIELD_BITS <= dst.Length
    modifies dst
    ensures cmpColSize > 0xFFFF ==> err == Some(IntCmpColTooLarge) && dst[..] == old(dst[..])
    ensures cmpColSize <= 0xFFFF ==>
              err == None && Written(old(dst[..]), dst[..], pos, ToBits(cmpColSize, FIELD_BITS))
  {
    hide Written, ToBits;
    if cmpColSize > 0xFFFF {
      return Some(IntCmpColTooLarge);
    }
    StoreBits(dst, pos, ToBits(cmpColSize, FIELD_BITS));
    return None;
  }

  /** cmp_collection in the non-raw modes, after its checks. */
  method FrameCollection(col: Bits, model: array?<bool>, updated: array?<bool>, at: nat, dst: array?<bool>,
                         dstCapacity: nat, ct: ChunkType, cfg: Cfg, dstSize: nat) returns (r: Result<nat>)
    requires |col| >= HDR_BITS && cfg.WellFormed() && !ct.UnknownChunk?
    requires ColError(col, ct, cfg, model != null).None? && cfg.cmpMode != CMP_MODE_RAW
    requires model != null ==> at + |col| <= model.Length
    requires updated != null ==> at + |col| <= updated.Length
    requires dst != null ==> dst != model && dst != updated && 8 * dstCapacity <= dst.Length
    modifies dst, updated
    ensures var m := old(ModelBits(model, at, |col|));
            && CollectionPut(dst == null, old(Content(dst)), Content(dst), dstSize, dstCapacity,
                             ColFrame(col, m, ct, cfg, dstSize), ColBits(col),
                             ColFits(col, m, ct, cfg, dstSize, dstCapacity), r)
            && (updated != null ==>
                  CollectionUpdate(old(updated[..]), updated[..], at, col, m, ct, cfg, dstSize, r.Ok?))
  {
    hide ColError, Codable, Payload, UpdatedModel, PayloadUpdate, CollectionUpdate, Written, Spoiled, Appended,
      CollectionPut, Frame, ToBits, TypeOf, Cfg.GenParIsInvalid, Cfg.SpecificIsInvalid, Samples, SampleBits, Times,
      Cfg.Loop, IsCoded, DataLength, ColPayload, ColFrame, ColFits, PayloadFits;
    ghost var m := ModelBits(model, at, |col|);
    if dst != null && dstSize + FRAME_HDR_SIZE > dstCapacity {
      PayloadReady(col, m, ct, cfg);
      FrameOf(col, m, ct, cfg, dstSize, dstCapacity);
      NothingFramed(dst[..], dstSize, dstCapacity, ColFrame(col, m, ct, cfg, dstSize), ColBits(col));
      if updated != null {
        NotUpdated(updated[..], at, col, m, ct, cfg, dstSize);
      }
      return Err(SmallBuffer);
    }
    r := FrameBehindHeader(col, model, updated, at, dst, dstCapacity, ct, cfg, dstSize);
  }

  /** The same when there is room for the header: header, payload and then the length field. */
  method FrameBehindHeader(col: Bits, model: array?<bool>, updated: array?<bool>, at: nat, dst: array?<bool>,
                           dstCapacity: nat, ct: ChunkType, cfg: Cfg, dstSize: nat) returns (r: Result<nat>)
    requires |col| >= HDR_BITS && cfg.WellFormed() && !ct.UnknownChunk?
    requires ColError(col, ct, cfg, model != null).None? && cfg.cmpMode != CMP_MODE_RAW
    requires model != null ==> at + |col| <= model.Length
    requires updated != null ==> at + |col| <= updated.Length
    requires dst != null ==> dst != model && dst != updated && 8 * dstCapacity <= dst.Length
    requires dst != null ==> dstSize + FRAME_HDR_SIZE <= dstCapacity
    modifies dst, updated
    ensures var m := old(ModelBits(model, at, |col|));
            && CollectionPut(dst == null, old(Content(dst)), Content(dst), dstSize, dstCapacity,
                             ColFrame(col, m, ct, cfg, dstSize), ColBits(col),
                             ColFits(col, m, ct, cfg, dstSize, dstCapacity), r)
            && (updated != null ==>
                  CollectionUpdate(old(updated[..]), updated[..], at, col, m, ct, cfg, dstSize, r.Ok?))
  {
    hide ColError, Codable, Payload, UpdatedModel, PayloadUpdate, CollectionUpdate, Written, Spoiled, Appended,
      CollectionPut, Frame, ToBits, TypeOf, Cfg.GenParIsInvalid, Cfg.SpecificIsInvalid, Samples, SampleBits, Times,
      Cfg.Loop, IsCoded, DataLength, ColPayload, ColFrame, ColFits, PayloadFits,
      PayloadPut;
    ghost var m := ModelBits(model, at, |col|);
    ghost var before, upBefore, modelBefore := Content(dst), Content(updated), Content(model);
    var hdrEnd := dstSize + FRAME_HDR_SIZE;
    CopyHeader(col, dst, 8 * dstSize + FIELD_BITS, if ModelModeIsUsed(cfg.cmpMode) then updated else null, at);
    ghost var framed, upFramed := Content(dst), Content(updated);
    PayloadReady(col, m, ct, cfg);
    if model != null {
      BehindHeader(modelBefore, model[..], at, col[..HDR_BITS], |col|, ColBits(col));
    }
    r := CompressPayload(ColData(col), Samples(col), cfg.Loop(TypeOf(col)), model, updated, at + HDR_BITS, dst,
                         dstCapacity, hdrEnd);
    ghost var put, bits := Content(dst), r;
    if r.Ok? {
      ghost var payload := ColPayload(col, m, ct, cfg, hdrEnd);
      ColPayloadSize(col, m, ct, cfg, hdrEnd);
      PutSize(dst == null, framed, put, hdrEnd, dstCapacity, payload, DataLength(col),
              PayloadFits(ColData(col), ModelData(col, m), Samples(col), cfg.Loop(TypeOf(col)), hdrEnd, dstCapacity),
              r);
      var size := SetFrameSize(dst, dstSize, r.value, payload);
      r := Ok(size);
    }
    FrameDone(dst == null, before, framed, put, Content(dst), dstSize, dstCapacity, col, m, ct, cfg, bits, r);
    if updated != null {
      UpdateFramed(upBefore, upFramed, updated[..], at, col, m, ct, cfg, dstSize, r.Ok?);
    }
  }

  /** The size of a frame whose payload ends after so many bits goes into its length field. */
  method SetFrameSize(dst: array?<bool>, dstSize: nat, bits: nat, ghost payload: Bits) returns (size: nat)
    requires (bits + 7) / 8 == dstSize + FRAME_HDR_SIZE + |payload| / 8 && |payload| / 8 <= 0xFFFF
    requires dst != null ==> 8 * dstSize + FIELD_BITS <= dst.Length
    modifies dst
    ensures size == (bits + 7) / 8
    ensures dst != null ==> Written(old(dst[..]), dst[..], 8 * dstSize, ToBits(|payload| / 8, FIELD_BITS))
  {
    hide Written, ToBits;
    size := (bits + 7) / 8;
    if dst != null {
      var err := SetCmpColSize(dst, 8 * dstSize, size - (dstSize + FRAME_HDR_SIZE));
      assert err.None?;
    }
  }

  lemma PutSize(noBuffer: bool, before: Bits, after: Bits, start: nat, capacity: nat, payload: Bits, size: nat,
                fits: bool, r: Result<nat>)
    requires PayloadPut(noBuffer, before, after, start, capacity, payload, size, fits, r) && r.Ok?
    ensures (r.value + 7) / 8 == start + |payload| / 8
  {
  }

  lemma FrameDone(noBuffer: bool, a: Bits, b: Bits, c: Bits, d: Bits, dstSize: nat, capacity: nat, col: Bits,
                  model: Option<Bits>, ct: ChunkType, cfg: Cfg, bits: Result<nat>, r: Result<nat>)
    requires |col| >= HDR_BITS && cfg.WellFormed() && !ct.UnknownChunk? && ModelMatches(col, model)
    requires ColError(col, ct, cfg, model.Some?).None? && cfg.cmpMode != CMP_MODE_RAW
    requires Codable(ColData(col), ModelData(col, model), Samples(col), cfg.Loop(TypeOf(col)))
    requires if noBuffer then b == a else Written(a, b, 8 * dstSize + FIELD_BITS, col[..HDR_BITS])
    requires PayloadPut(noBuffer, b, c, dstSize + FRAME_HDR_SIZE, capacity,
                        Payload(ColData(col), ModelData(col, model), Samples(col), cfg.Loop(TypeOf(col)),
                                dstSize + FRAME_HDR_SIZE),
                        DataLength(col),
                        PayloadFits(ColData(col), ModelData(col, model), Samples(col), cfg.Loop(TypeOf(col)),
                                    dstSize + FRAME_HDR_SIZE, capacity), bits)
    requires var payload := ColPayload(col, model, ct, cfg, dstSize + FRAME_HDR_SIZE);
             !noBuffer && bits.Ok? ==> Written(c, d, 8 * dstSize, ToBits(|payload| / 8, FIELD_BITS))
    requires noBuffer || bits.Err? ==> d == c
    requires r == if bits.Ok? then Ok((bits.value + 7) / 8) else bits
    requires !noBuffer ==> dstSize + FRAME_HDR_SIZE <= capacity
    ensures CollectionPut(noBuffer, a, d, dstSize, capacity, ColFrame(col, model, ct, cfg, dstSize), ColBits(col),
                          ColFits(col, model, ct, cfg, dstSize, capacity), r)
  {
    hide ToBits, Written, Frame, DataLength, PayloadPut, CollectionPut, Codable, ColError, Payload, PayloadFits, TypeOf,
      Samples, ColFrame, ColFits, ColPayload, Cfg.Loop;
    var at := dstSize + FRAME_HDR_SIZE;
    PayloadReady(col, model, ct, cfg);
    ColPayloadSize(col, model, ct, cfg, at);
    FrameOf(col, model, ct, cfg, dstSize, capacity);
    FrameOutcome(noBuffer, a, b, c, d, dstSize, capacity, col, ColPayload(col, model, ct, cfg, at),
                 PayloadFits(ColData(col), ModelData(col, model), Samples(col), cfg.Loop(TypeOf(col)), at, capacity),
                 ColFits(col, model, ct, cfg, dstSize, capacity), bits, r);
  }

  lemma PayloadReady(col: Bits, model: Option<Bits>, ct: ChunkType, cfg: Cfg)
    requires |col| >= HDR_BITS && cfg.WellFormed() && !ct.UnknownChunk? && ModelMatches(col, model)
    requires ColError(col, ct, cfg, model.Some?).None? && cfg.cmpMode != CMP_MODE_RAW
    ensures Codable(ColData(col), ModelData(col, model), Samples(col), cfg.Loop(TypeOf(col)))
    ensures |ColData(col)| % 8 == 0 && (Samples(col) > 0 ==> |ColData(col)| >= 8)
    ensures cfg.Loop(TypeOf(col)).modelMode == ModelModeIsUsed(cfg.cmpMode)
    ensures ModelModeIsUsed(cfg.cmpMode) ==> model.Some?
    ensures forall start :: ColPayload(col, model, ct, cfg, start)
                            == Payload(ColData(col), ModelData(col, model), Samples(col), cfg.Loop(TypeOf(col)), start)
  {
    hide DataLength, ColError, SampleBits, Times, Layout, DataTypeOf;
    ColIsCodable(col, model, ct, cfg);
  }

  lemma BehindHeader(a: Bits, b: Bits, at: nat, x: Bits, n: nat, k: nat)
    requires b == a || Written(a, b, at, x)
    requires |x| <= k <= n && at + n <= |a|
    ensures |b| == |a| && b[at + |x|..at + k] == a[at..at + n][|x|..k]
  {
    SliceOfSlice(a, at, n, |x|, k);
  }

  lemma NothingFramed(a: Bits, dstSize: nat, capacity: nat, frame: Bits, colBits: nat)
    requires capacity < dstSize + FRAME_HDR_SIZE && colBits >= HDR_BITS
    ensures CollectionPut(false, a, a, dstSize, capacity, frame, colBits, false, Err(SmallBuffer))
  {
  }

  lemma NotUpdated(a: Bits, at: nat, col: Bits, model: Option<Bits>, ct: ChunkType, cfg: Cfg, dstSize: nat)
    requires |col| >= HDR_BITS && cfg.WellFormed() && !ct.UnknownChunk? && ModelMatches(col, model)
    requires ColError(col, ct, cfg, model.Some?).None?
    ensures CollectionUpdate(a, a, at, col, model, ct, cfg, dstSize, false)
  {
  }

  /** cmp_collection in raw mode, after its checks: header and data are copied. */
  method CopyCollection(col: Bits, updated: array?<bool>, dst: array?<bool>, dstCapacity: nat, dstSize: nat)
    returns (r: Result<nat>)
    requires |col| >= HDR_BITS && ColBits(col) <= |col|
    requires dst != null ==> dst != updated && 8 * dstCapacity <= dst.Length
    modifies dst
    ensures CollectionPut(dst == null, old(Content(dst)), Content(dst), dstSize, dstCapacity, col[..ColBits(col)],
                          ColBits(col), dstSize + ColBits(col) / 8 <= dstCapacity, r)
  {
    hide Written, Appended, Spoiled, DataLength;
    ghost var before := Content(dst);
    var hdrEnd := dstSize + COLLECTION_HDR_SIZE;
    if dst != null && hdrEnd > dstCapacity {
      RawTooLarge(before, before, dstSize, dstCapacity);
      return Err(SmallBuffer);
    }
    CopyHeader(col, dst, 8 * dstSize, null, 0);
    ghost var framed := Content(dst);
    r := CompressRaw(ColData(col), dst, dstCapacity, 8 * hdrEnd);
    if r.Err? {
      WrittenSpoils(before, framed, 8 * dstSize, col[..HDR_BITS], 8 * dstCapacity);
      return;
    }
    assert col[..ColBits(col)] == col[..HDR_BITS] + ColData(col);
    if dst != null {
      WrittenTwice(before, framed, dst[..], 8 * dstSize, col[..HDR_BITS], ColData(col));
      assert col[..ColBits(col)] + [] == col[..ColBits(col)];
      SameSize(before, dst[..], 8 * dstSize, col[..ColBits(col)]);
      WrittenAppends(before, dst[..], 8 * dstSize, col[..ColBits(col)], [], 8 * dstCapacity);
    }
    r := Ok((r.value + 7) / 8);
  }

  lemma RawTooLarge(a: Bits, b: Bits, dstSize: nat, capacity: nat)
    requires a == b
    ensures Spoiled(a, b, 8 * dstSize, 8 * capacity)
  {
  }

  /** cmp_collection: one collection, at bit position at of the model buffers, goes to byte
      position dstSize of the destination. */
  method CmpCollection(col: Bits, model: array?<bool>, updated: array?<bool>, at: nat, dst: array?<bool>,
                       dstCapacity: nat, ct: ChunkType, cfg: Cfg, dstSize: nat) returns (r: Result<nat>)
    requires |col| >= HDR_BITS && ColBits(col) <= |col| && cfg.WellFormed()
    requires !ct.UnknownChunk? && ChunkTypeOf(Subservice(col)) == ct
    requires model != null ==> at + |col| <= model.Length
    requires updated != null ==> at + |col| <= updated.Length
    requires dst != null ==> dst != model && dst != updated && 8 * dstCapacity <= dst.Length
    modifies dst, updated
    ensures ColError(col, ct, cfg, model != null).Some? ==>
              && r == Err(ColError(col, ct, cfg, model != null).value)
              && Content(dst) == old(Content(dst)) && Content(updated) == old(Content(updated))
    ensures ColError(col, ct, cfg, model != null).None? ==>
              var m := old(ModelBits(model, at, |col|));
              && CollectionPut(dst == null, old(Content(dst)), Content(dst), dstSize, dstCapacity,
                               ColFrame(col, m, ct, cfg, dstSize), ColBits(col),
                               ColFits(col, m, ct, cfg, dstSize, dstCapacity), r)
              && (updated != null ==>
                    CollectionUpdate(old(updated[..]), updated[..], at, col, m, ct, cfg, dstSize, r.Ok?))
  {
    hide CollectionPut, Written, Spoiled, TypeOf, ColPayload, DataLength, SampleSize;
    ChunkTypesAreSupported(Subservice(col));
    TypeHasSize(col);
    if DataLength(col) % SampleSize(TypeOf(col)) != 0 {
      return Err(ColSizeInconsistent);
    }
    if cfg.GenParIsInvalid() {
      return Err(ParGeneric);
    }
    if cfg.SpecificIsInvalid(TypeOf(col)) {
      return Err(ParSpecific);
    }
    if ModelModeIsUsed(cfg.cmpMode) && model == null {
      return Err(ParNoModel);
    }
    if cfg.cmpMode == CMP_MODE_RAW {
      r := CopyCollection(col, updated, dst, dstCapacity, dstSize);
    } else {
      r := FrameCollection(col, model, updated, at, dst, dstCapacity, ct, cfg, dstSize);
    }
  }

  lemma TypeHasSize(col: Bits)
    requires |col| >= HDR_BITS && !ChunkTypeOf(Subservice(col)).UnknownChunk?
    ensures SampleSize(TypeOf(col)) > 0
  {
    ChunkTypesAreSupported(Subservice(col));
  }
}
