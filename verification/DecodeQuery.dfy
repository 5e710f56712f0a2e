/** decompress_cmp_entiy without output buffer. */
module DecodeQuery {
  import opened BitStrings
  import opened Results
  import opened Golomb
  import opened Streams
  import opened BitWriter
  import opened Memory
  import opened ChunkTheorems
  import opened Config
  import opened Parameters
  import opened DataTypes
  import opened Chunks
  import opened Entities
  import opened Decompressor
  import opened SizeQuery

  /** The size in bits of the collection in the frame that starts s, if the frame passes the checks
      made before its stream is looked at. */
  function QueryCol(s: Bits, hasModel: bool, cfg: Cfg, room: nat): (n: Option<nat>)
    requires |s| >= FIELD_BITS + HDR_BITS && FrameBits(s) <= |s|
    requires cfg.WellFormed() && !cfg.GenParIsInvalid() && cfg.cmpMode != CMP_MODE_RAW
    ensures n.Some? ==> n.value == ColBits(s[FIELD_BITS..]) <= room
  {
    var size, h := LengthField(s), s[FIELD_BITS..];
    if FrameIsBad(h, size, room) then None
    else if size != DataLength(h)
            && (cfg.SpecificIsInvalid(TypeOf(h)) || (ModelModeIsUsed(cfg.cmpMode) && !hasModel)) then None
    else Some(ColBits(h))
  }

  function QueryFrames(s: Bits, hasModel: bool, cfg: Cfg, room: nat): bool
    requires FrameCount(s).Some?
    requires cfg.WellFormed() && !cfg.GenParIsInvalid() && cfg.cmpMode != CMP_MODE_RAW
    decreases |s|
  {
    if s == [] then true
    else
      NextFrame(s);
      var c := QueryCol(s, hasModel, cfg, room);
      c.Some? && QueryFrames(s[FrameBits(s)..], hasModel, cfg, room - c.value)
  }

  function QueryEntity(h: Header, data: Bits, hasModel: bool): Option<nat>
    requires HeaderIsWellFormed(h) && |data| == 8 * DataSize(h)
  {
    if h.originalSize == 0 then Some(0)
    else
      var read := ReadHeader(h);
      if read.None? then None
      else if h.cmpMode == CMP_MODE_RAW then Some(read.value.1)
      else if FrameCount(data).None? || FrameCount(data).value == 0 then None
      else if QueryFrames(data, hasModel, read.value.0, 8 * h.originalSize) then Some(h.originalSize) else None
  }

  /** The frame that starts s was stored raw: its length field is that of the collection. */
  predicate IsRawFrame(s: Bits)
    requires |s| >= FIELD_BITS + HDR_BITS
  {
    LengthField(s) == DataLength(s[FIELD_BITS..])
  }

  predicate AllRaw(s: Bits)
    requires FrameCount(s).Some?
    decreases |s|
  {
    if s == [] then true
    else
      NextFrame(s);
      IsRawFrame(s) && AllRaw(s[FrameBits(s)..])
  }

  /** The frames of t have the headers of the frames of s, with whatever behind them. */
  predicate SameFrames(s: Bits, t: Bits)
    requires FrameCount(s).Some?
    decreases |s|
  {
    if s == [] then t == []
    else
      NextFrame(s);
      && |t| >= FrameBits(s) && t[..FIELD_BITS + HDR_BITS] == s[..FIELD_BITS + HDR_BITS]
      && SameFrames(s[FrameBits(s)..], t[FrameBits(s)..])
  }

  lemma SameStart(s: Bits, t: Bits)
    requires |s| >= FIELD_BITS + HDR_BITS && |t| >= FIELD_BITS + HDR_BITS
    requires t[..FIELD_BITS + HDR_BITS] == s[..FIELD_BITS + HDR_BITS]
    ensures LengthField(t) == LengthField(s) && FrameBits(t) == FrameBits(s)
    ensures var a, b := s[FIELD_BITS..], t[FIELD_BITS..];
            DataLength(b) == DataLength(a) && TypeOf(b) == TypeOf(a) && ColBits(b) == ColBits(a)
  {
    hide FromBits, DataTypeOf;
    var a, b := s[FIELD_BITS..], t[FIELD_BITS..];
    assert t[..FIELD_BITS] == t[..FIELD_BITS + HDR_BITS][..FIELD_BITS] == s[..FIELD_BITS];
    assert b[..HDR_BITS] == t[..FIELD_BITS + HDR_BITS][FIELD_BITS..] == a[..HDR_BITS];
    assert b[65..71] == b[..HDR_BITS][65..71] == a[65..71];
    assert b[80..96] == b[..HDR_BITS][80..96] == a[80..96];
  }

  lemma SameQuery(s: Bits, t: Bits, hasModel: bool, cfg: Cfg, room: nat)
    requires |s| >= FIELD_BITS + HDR_BITS && FrameBits(s) <= |s|
    requires |t| >= FrameBits(s) && t[..FIELD_BITS + HDR_BITS] == s[..FIELD_BITS + HDR_BITS]
    requires cfg.WellFormed() && !cfg.GenParIsInvalid() && cfg.cmpMode != CMP_MODE_RAW
    ensures FrameBits(t) == FrameBits(s) && QueryCol(t, hasModel, cfg, room) == QueryCol(s, hasModel, cfg, room)
    ensures IsRawFrame(t) == IsRawFrame(s)
  {
    hide LengthField, DataLength, TypeOf, ColBits, SampleSize, Cfg.SpecificIsInvalid;
    SameStart(s, t);
  }

  /** A query reads the headers of the frames and nothing else. */
  lemma {:induction false} FramesAlike(s: Bits, t: Bits, hasModel: bool, cfg: Cfg, room: nat)
    requires FrameCount(s).Some? && SameFrames(s, t)
    requires cfg.WellFormed() && !cfg.GenParIsInvalid() && cfg.cmpMode != CMP_MODE_RAW
    ensures |t| == |s| && FrameCount(t) == FrameCount(s) && AllRaw(t) == AllRaw(s)
    ensures QueryFrames(t, hasModel, cfg, room) == QueryFrames(s, hasModel, cfg, room)
    decreases |s|
  {
    hide QueryCol, FrameBits, IsRawFrame;
    if s != [] {
      NextFrame(s);
      SameQuery(s, t, hasModel, cfg, room);
      var c := QueryCol(s, hasModel, cfg, room);
      FramesAlike(s[FrameBits(s)..], t[FrameBits(s)..], hasModel, cfg, if c.Some? then room - c.value else 0);
    }
  }

  // ----- what a real decoding makes of the frames

  lemma FrameQuery(s: Bits, model: Option<Bits>, cfg: Cfg, room: nat)
    requires |s| >= FIELD_BITS + HDR_BITS && FrameBits(s) <= |s|
    requires cfg.WellFormed() && !cfg.GenParIsInvalid() && cfg.cmpMode != CMP_MODE_RAW
    requires model.Some? ==> |model.value| == room
    ensures DecodeCol(s, model, cfg, room).GoodCol? ==> QueryCol(s, model.Some?, cfg, room).Some?
    ensures QueryCol(s, model.Some?, cfg, room).Some? && IsRawFrame(s) ==> DecodeCol(s, model, cfg, room).GoodCol?
  {
    hide LengthField, DataLength, TypeOf, SampleSize, Samples, DecodePayload, IsFastCadence, Cfg.Loop,
      Cfg.SpecificIsInvalid;
  }

  /** The query never refuses frames that decode, and frames stored raw that it accepts do decode. */
  lemma {:induction false} FramesQuery(s: Bits, model: Option<Bits>, cfg: Cfg, room: nat)
    requires FrameCount(s).Some? && (model.Some? ==> |model.value| == room)
    requires cfg.WellFormed() && !cfg.GenParIsInvalid() && cfg.cmpMode != CMP_MODE_RAW
    ensures DecodeFrames(s, model, cfg, room).Some? ==> QueryFrames(s, model.Some?, cfg, room)
    ensures QueryFrames(s, model.Some?, cfg, room) && AllRaw(s) ==> DecodeFrames(s, model, cfg, room).Some?
    decreases |s|
  {
    hide DecodeCol, QueryCol, IsRawFrame, FrameBits, FrameCount;
    if s != [] {
      NextFrame(s);
      FrameQuery(s, model, cfg, room);
      var n := ColBits(s[FIELD_BITS..]);
      if DecodeCol(s, model, cfg, room).GoodCol? {
        FramesQuery(s[FrameBits(s)..], if model.Some? then Some(model.value[n..]) else None, cfg, room - n);
      }
    }
  }

  /** A code word of ones never ends. */
  lemma OnesAreNoCode(k: nat, m: nat)
    requires m > 0
    ensures DecodeCw(Ones(k), m).NotEnoughBits?
  {
    LeadingOnesOf(k, []);
    assert Ones(k) + [] == Ones(k);
  }

  lemma OnesNeverDecode(k: nat, model: Bits, n: nat, loop: LoopCfg)
    requires loop.Valid() && (loop.modelMode ==> |model| == Times(AtLeastOne(n), SampleBits(loop.setups)))
    ensures DecodePayload(Ones(k), model, n, loop).None?
  {
    hide DecodeCw, Times, SampleBits, ModelRecords;
    OnesAreNoCode(k, loop.setups[0].par);
  }

  /** The frames with ones for every coded payload. */
  function WithOnes(s: Bits): (t: Bits)
    requires FrameCount(s).Some?
    ensures |t| == |s|
    decreases |s|
  {
    if s == [] then []
    else
      NextFrame(s);
      (if IsRawFrame(s) then s[..FrameBits(s)] else s[..FIELD_BITS + HDR_BITS] + Ones(8 * LengthField(s)))
      + WithOnes(s[FrameBits(s)..])
  }

  lemma WithOnesStarts(s: Bits)
    requires FrameCount(s).Some? && s != []
    ensures |s| >= FIELD_BITS + HDR_BITS && FrameBits(s) <= |s| && FrameCount(s[FrameBits(s)..]).Some?
    ensures var t := WithOnes(s);
            && t[..FIELD_BITS + HDR_BITS] == s[..FIELD_BITS + HDR_BITS]
            && t[FrameBits(s)..] == WithOnes(s[FrameBits(s)..])
            && (!IsRawFrame(s) ==> t[FIELD_BITS + HDR_BITS..FrameBits(s)] == Ones(8 * LengthField(s)))
  {
    hide LengthField, IsRawFrame;
    NextFrame(s);
  }

  lemma {:induction false} WithOnesIsAlike(s: Bits)
    requires FrameCount(s).Some?
    ensures SameFrames(s, WithOnes(s))
    decreases |s|
  {
    hide WithOnes;
    if s != [] {
      WithOnesStarts(s);
      WithOnesIsAlike(s[FrameBits(s)..]);
    } else {
      assert |WithOnes(s)| == 0;
    }
  }

  lemma OnesAreBad(s: Bits, model: Option<Bits>, cfg: Cfg, room: nat)
    requires |s| >= FIELD_BITS + HDR_BITS && FrameBits(s) <= |s| && !IsRawFrame(s)
    requires s[FIELD_BITS + HDR_BITS..FrameBits(s)] == Ones(8 * LengthField(s))
    requires cfg.WellFormed() && !cfg.GenParIsInvalid() && cfg.cmpMode != CMP_MODE_RAW
    requires model.Some? ==> |model.value| == room
    ensures DecodeCol(s, model, cfg, room).BadCol?
  {
    hide LengthField, DataLength, TypeOf, SampleSize, Samples, DecodePayload, IsFastCadence, Cfg.SpecificIsInvalid,
      SampleBits, Times;
    var size, h := LengthField(s), s[FIELD_BITS..];
    assert h[HDR_BITS..HDR_BITS + 8 * size] == s[FIELD_BITS + HDR_BITS..FrameBits(s)];
    if DecodeCol(s, model, cfg, room).GoodCol? {
      DecodableFrame(h, cfg, size);
      OnesNeverDecode(8 * size, if model.Some? then model.value[HDR_BITS..ColBits(h)] else [], Samples(h),
                      cfg.Loop(TypeOf(h)));
    }
  }

  /** If some frame is coded, the same headers with ones behind them do not decode. */
  lemma {:induction false} WithOnesFails(s: Bits, model: Option<Bits>, cfg: Cfg, room: nat)
    requires FrameCount(s).Some? && (model.Some? ==> |model.value| == room) && !AllRaw(s)
    requires cfg.WellFormed() && !cfg.GenParIsInvalid() && cfg.cmpMode != CMP_MODE_RAW
    ensures FrameCount(WithOnes(s)).Some? && DecodeFrames(WithOnes(s), model, cfg, room).None?
    decreases |s|
  {
    hide WithOnes, DecodeCol, IsRawFrame, FrameBits, LengthField, QueryCol, FrameCount;
    var t := WithOnes(s);
    WithOnesIsAlike(s);
    FramesAlike(s, t, true, cfg, room);
    WithOnesStarts(s);
    SameStart(s, t);
    if !IsRawFrame(s) {
      SameQuery(s, t, true, cfg, room);
      OnesAreBad(t, model, cfg, room);
    } else if DecodeCol(t, model, cfg, room).GoodCol? {
      var n := ColBits(t[FIELD_BITS..]);
      WithOnesFails(s[FrameBits(s)..], if model.Some? then Some(model.value[n..]) else None, cfg, room - n);
    }
  }

  // ----- an entity

  /** An entity of which nothing is decoded, or whose frames were all stored raw. */
  predicate HasNoStream(h: Header, data: Bits) {
    || h.originalSize == 0 || h.cmpMode == CMP_MODE_RAW
    || (FrameCount(data).Some? && AllRaw(data))
  }

  /** The entity with other payloads in its frames. */
  predicate SameHeaders(h: Header, data: Bits, data': Bits) {
    && |data'| == |data|
    && (h.originalSize > 0 && h.cmpMode != CMP_MODE_RAW && FrameCount(data).Some? ==> SameFrames(data, data'))
  }

  /** Whatever the payloads are, the entity decodes. */
  ghost predicate AlwaysDecodes(h: Header, data: Bits, model: Option<Bits>)
    requires HeaderIsWellFormed(h) && |data| == 8 * DataSize(h) && (model.Some? ==> |model.value| == 8 * h.originalSize)
  {
    forall data': Bits :: SameHeaders(h, data, data') ==> DecodeEntity(h, data', model).Some?
  }

  /** The query never refuses an entity that decodes, and its answer is the size. */
  lemma EntityQuery(h: Header, data: Bits, model: Option<Bits>)
    requires HeaderIsWellFormed(h) && |data| == 8 * DataSize(h) && (model.Some? ==> |model.value| == 8 * h.originalSize)
    ensures QueryEntity(h, data, model.Some?).Some? ==> QueryEntity(h, data, model.Some?).value == h.originalSize
    ensures DecodeEntity(h, data, model).Some? ==> QueryEntity(h, data, model.Some?).Some?
    ensures QueryEntity(h, data, model.Some?).Some? && HasNoStream(h, data) ==> DecodeEntity(h, data, model).Some?
  {
    hide ReadHeader, DecodeFrames, QueryFrames, AllRaw, FrameCount;
    var read := ReadHeader(h);
    if read.Some? && h.originalSize > 0 && h.cmpMode != CMP_MODE_RAW && FrameCount(data).Some? {
      FramesQuery(data, model, read.value.0, 8 * h.originalSize);
    }
  }

  /** An answer can be relied on, whatever the payloads are, exactly when every frame was stored raw. */
  lemma AnswerIsReliableIff(h: Header, data: Bits, model: Option<Bits>)
    requires HeaderIsWellFormed(h) && |data| == 8 * DataSize(h) && (model.Some? ==> |model.value| == 8 * h.originalSize)
    requires QueryEntity(h, data, model.Some?).Some?
    ensures AlwaysDecodes(h, data, model) <==> HasNoStream(h, data)
  {
    hide DecodeEntity;
    if HasNoStream(h, data) {
      forall data': Bits | SameHeaders(h, data, data') ensures DecodeEntity(h, data', model).Some? {
        AlikeIsReliable(h, data, data', model);
      }
    } else {
      CodedCanFail(h, data, model);
      assert DecodeEntity(h, WithOnes(data), model).None?;
    }
  }

  lemma AlikeIsReliable(h: Header, data: Bits, data': Bits, model: Option<Bits>)
    requires HeaderIsWellFormed(h) && |data| == 8 * DataSize(h) && (model.Some? ==> |model.value| == 8 * h.originalSize)
    requires QueryEntity(h, data, model.Some?).Some? && HasNoStream(h, data) && SameHeaders(h, data, data')
    ensures DecodeEntity(h, data', model).Some?
  {
    hide ReadHeader, DecodeFrames, QueryFrames, AllRaw, FrameCount, SameFrames;
    if h.originalSize > 0 && h.cmpMode != CMP_MODE_RAW {
      FramesAlike(data, data', model.Some?, ReadHeader(h).value.0, 8 * h.originalSize);
      FramesQuery(data', model, ReadHeader(h).value.0, 8 * h.originalSize);
    }
  }

  lemma CodedCanFail(h: Header, data: Bits, model: Option<Bits>)
    requires HeaderIsWellFormed(h) && |data| == 8 * DataSize(h) && (model.Some? ==> |model.value| == 8 * h.originalSize)
    requires QueryEntity(h, data, model.Some?).Some? && !HasNoStream(h, data)
    ensures FrameCount(data).Some? && SameHeaders(h, data, WithOnes(data))
    ensures DecodeEntity(h, WithOnes(data), model).None?
  {
    hide ReadHeader, DecodeFrames, QueryFrames, AllRaw, FrameCount, SameFrames, WithOnes;
    WithOnesIsAlike(data);
    WithOnesFails(data, model, ReadHeader(h).value.0, 8 * h.originalSize);
  }

  // ----- an entity that is accepted and does not decode

  /** One coded frame of four imagette samples, with a byte of ones for a payload. */
  function FrameOfOnes(): (s: Bits)
    ensures |s| == 120
  {
    ToBits(1, 16) + ImagetteHeader() + Ones(8)
  }

  function HeaderOfOnes(par: CmpPar): Header {
    Header(79, 20, false, par.cmpMode, par.modelValue, 0, InitialCfg(NcamImagette, par).slots, Clock(0, 0))
  }

  lemma FrameOfOnesIs()
    ensures var s := FrameOfOnes();
            && LengthField(s) == 1 && FrameBits(s) == 120 && s[FIELD_BITS + HDR_BITS..] == Ones(8)
            && DataLength(s[FIELD_BITS..]) == 8 && TypeOf(s[FIELD_BITS..]) == Imagette
  {
    var s := FrameOfOnes();
    FrameOfOnesParts();
    ImagetteHeaderIs(Ones(8));
    OneInField();
    hide ToBits, FromBits, ImagetteHeader, FrameOfOnes, Subservice, DataLength, Ones;
  }

  lemma FrameOfOnesParts()
    ensures FrameOfOnes()[..FIELD_BITS] == ToBits(1, FIELD_BITS)
    ensures FrameOfOnes()[FIELD_BITS..] == ImagetteHeader() + Ones(8)
    ensures FrameOfOnes()[FIELD_BITS + HDR_BITS..] == Ones(8)
  {
    hide ToBits, ImagetteHeader, Ones;
  }

  lemma OneInField()
    ensures FromBits(ToBits(1, FIELD_BITS)) == 1
  {
    hide ToBits, FromBits;
    Pow2Values();
    FromToBits(1, FIELD_BITS);
  }

  /** The query answers with the size of a chunk that no decoding returns. */
  lemma QueryAcceptsCorrupt(par: CmpPar, model: Bits)
    requires UnitPar(par) && |model| == 160
    ensures HeaderIsWellFormed(HeaderOfOnes(par)) && 8 * DataSize(HeaderOfOnes(par)) == |FrameOfOnes()|
    ensures QueryEntity(HeaderOfOnes(par), FrameOfOnes(), true) == Some(20)
    ensures DecodeEntity(HeaderOfOnes(par), FrameOfOnes(), Some(model)).None?
  {
    hide FrameOfOnes, InitialCfg, LengthField, DataLength, TypeOf, Cfg.SpecificIsInvalid, DecodeCol;
    var s, cfg := FrameOfOnes(), InitialCfg(NcamImagette, par);
    FrameOfOnesIs();
    UnitCfg(par);
    InitialCfgIsLossless(NcamImagette, par);
    assert s[FrameBits(s)..] == [];
    assert FrameCount(s[FrameBits(s)..]) == Some(0);
    OnesAreBad(s, Some(model), cfg, 160);
  }

  // ----- the loop

  /** Put over the part of b from position at on. */
  function PutOver(b: Bits, at: nat, x: Bits): (r: Bits)
    requires at + |x| <= |b|
    ensures |r| == |b|
  {
    b[..at] + x + b[at + |x|..]
  }

  /** The updated model after a query in a model mode: collections stored raw are copied to it, up to the
      first frame that is refused. */
  function QueryCopies(s: Bits, hasModel: bool, cfg: Cfg, room: nat, up: Bits, at: nat): (r: Bits)
    requires FrameCount(s).Some? && at + room <= |up|
    requires cfg.WellFormed() && !cfg.GenParIsInvalid() && cfg.cmpMode != CMP_MODE_RAW
    ensures |r| == |up|
    decreases |s|
  {
    if s == [] then up
    else
      NextFrame(s);
      var c := QueryCol(s, hasModel, cfg, room);
      if c.None? then up
      else
        var up' := if IsRawFrame(s) then PutOver(up, at, s[FIELD_BITS..][..c.value]) else up;
        QueryCopies(s[FrameBits(s)..], hasModel, cfg, room - c.value, up', at + c.value)
  }

  function EntityCopies(h: Header, data: Bits, hasModel: bool, up: Bits): (r: Bits)
    requires HeaderIsWellFormed(h) && |data| == 8 * DataSize(h) && |up| == 8 * h.originalSize
  {
    if h.originalSize == 0 || ReadHeader(h).None? || FrameCount(data).None? || !ModelModeIsUsed(h.cmpMode) then up
    else QueryCopies(data, hasModel, ReadHeader(h).value.0, 8 * h.originalSize, up, 0)
  }

  /** decompress_cmp_entiy without output buffer. */
  method QuerySize(h: Header, data: Bits, hasModel: bool, updated: array?<bool>) returns (r: Option<nat>)
    requires HeaderIsWellFormed(h) && |data| == 8 * DataSize(h)
    requires updated != null ==> updated.Length == 8 * h.originalSize
    modifies updated
    ensures r == QueryEntity(h, data, hasModel)
    ensures updated != null ==> updated[..] == EntityCopies(h, data, hasModel, old(updated[..]))
  {
    hide ReadHeader, FrameCount, QueryCol, FrameAt, FrameBits, ColBits, IsRawFrame, PutOver, Cfg.GenParIsInvalid;
    if h.originalSize == 0 {
      return Some(0);
    }
    var read := ReadHeader(h);
    if read.None? {
      return None;
    }
    if h.cmpMode == CMP_MODE_RAW {
      return Some(read.value.1);
    }
    var count := CountFrames(data);
    if count.None? {
      return None;
    }
    NextFrame(data);
    if count.value == 0 {
      return None;
    }
    var cfg, room, i := read.value.0, 8 * h.originalSize, 0;
    var upModelBuf: array?<bool> := if ModelModeIsUsed(h.cmpMode) then updated else null;
    ghost var before := Content(upModelBuf);
    AtStart(data);
    while i < count.value
      invariant i <= count.value && FrameAt(data, i).1 <= room
      invariant QueryFrames(data, hasModel, cfg, room)
                == QueryFrames(FrameAt(data, i).0, hasModel, cfg, room - FrameAt(data, i).1)
      invariant upModelBuf == null && updated != null ==> updated[..] == old(updated[..])
      invariant upModelBuf != null ==>
                  QueryCopies(data, hasModel, cfg, room, before, 0)
                  == QueryCopies(FrameAt(data, i).0, hasModel, cfg, room - FrameAt(data, i).1, upModelBuf[..],
                                 FrameAt(data, i).1)
    {
      var s, decmpPos := FindFrame(data, i);
      FrameAfter(data, i);
      NextFrame(s);
      var c := QueryCol(s, hasModel, cfg, room - decmpPos);
      if c.None? {
        return None;
      }
      if upModelBuf != null && IsRawFrame(s) {
        RawFits(s);
        ghost var up := upModelBuf[..];
        StoreBits(upModelBuf, decmpPos, s[FIELD_BITS..][..c.value]);
        WrittenIsPut(up, upModelBuf[..], decmpPos, s[FIELD_BITS..][..c.value]);
      }
      i := i + 1;
    }
    NextFrame(FrameAt(data, i).0);
    return Some(h.originalSize);
  }

  lemma RawFits(s: Bits)
    requires |s| >= FIELD_BITS + HDR_BITS && FrameBits(s) <= |s| && IsRawFrame(s)
    ensures ColBits(s[FIELD_BITS..]) <= |s[FIELD_BITS..]|
  {
  }

  lemma WrittenIsPut(a: Bits, b: Bits, at: nat, x: Bits)
    requires Written(a, b, at, x)
    ensures at + |x| <= |a| && b == PutOver(a, at, x)
  {
  }

  lemma AtStart(data: Bits)
    requires FrameCount(data).Some?
    ensures FrameAt(data, 0) == (data, 0)
  {
  }

  /** What a frame has to be for the query to accept it. */
  lemma AcceptedFrameIs(s: Bits, hasModel: bool, cfg: Cfg, room: nat)
    requires |s| >= FIELD_BITS + HDR_BITS && FrameBits(s) <= |s|
    requires cfg.WellFormed() && !cfg.GenParIsInvalid() && cfg.cmpMode != CMP_MODE_RAW
    ensures var h := s[FIELD_BITS..];
            QueryCol(s, hasModel, cfg, room).Some?
            <==> && !TypeOf(h).Unknown? && LengthField(s) <= DataLength(h)
                 && DataLength(h) % SampleSize(TypeOf(h)) == 0 && ColBits(h) <= room
                 && (LengthField(s) < DataLength(h) ==>
                       cfg.Loop(TypeOf(h)).Valid() && (ModelModeIsUsed(cfg.cmpMode) ==> hasModel))
  {
    hide LengthField, DataLength, TypeOf, ColBits, Cfg.SpecificIsInvalid, Cfg.Loop, Cfg.GenParIsInvalid;
    var h := s[FIELD_BITS..];
    if !TypeOf(h).Unknown? {
      ModesAreKnown(cfg);
      ChecksAreExact(cfg, TypeOf(h));
    }
  }

  lemma ModesAreKnown(cfg: Cfg)
    requires !cfg.GenParIsInvalid()
    ensures ModeIsSupported(cfg.cmpMode) && cfg.round <= 3
  {
  }

  /** A frame that decodes passed these checks, is of no fast cadence type if it is coded, and yields the
      collection its header announces. */
  lemma DecodedFrameIs(s: Bits, model: Option<Bits>, cfg: Cfg, room: nat)
    requires |s| >= FIELD_BITS + HDR_BITS && FrameBits(s) <= |s|
    requires cfg.WellFormed() && !cfg.GenParIsInvalid() && cfg.cmpMode != CMP_MODE_RAW
    requires (model.Some? ==> |model.value| == room) && DecodeCol(s, model, cfg, room).GoodCol?
    ensures var h, col := s[FIELD_BITS..], DecodeCol(s, model, cfg, room).col;
            && QueryCol(s, model.Some?, cfg, room).Some?
            && |col| == ColBits(h) && col[..HDR_BITS] == h[..HDR_BITS]
            && (IsRawFrame(s) ==> col == h[..ColBits(h)])
            && (!IsRawFrame(s) ==> !IsFastCadence(TypeOf(h)))
  {
    hide LengthField, DataLength, TypeOf, DecodePayload, Cfg.SpecificIsInvalid, Samples, SampleSize, Cfg.Loop,
      IsFastCadence;
    FrameQuery(s, model, cfg, room);
  }
}
