/** A compression entity as bytes. */
module EntityMemory {
  import opened BitStrings
  import opened Results
  import opened BitWriter
  import opened BitRuns
  import opened Config
  import opened Parameters
  import opened Chunks
  import opened Entities
  import opened ChunkCompressor
  import opened ChunkTheorems
  import opened Decompressor

  const DATA_TYPE_CHUNK := 24
  const RAW_BIT := 0x8000

  // ----- the header

  /** Version, sizes, times, data type, mode, model value, model id and counter, reserved, rounding. */
  const GENERIC_WIDTHS: seq<nat> := [32, 24, 24, 48, 48, 16, 8, 8, 16, 8, 8, 16]
  /** Six thresholds, each with its parameter. */
  const SLOT_WIDTHS: seq<nat> := [24, 16, 24, 16, 24, 16, 24, 16, 24, 16, 24, 16]

  function GenericValues(h: Header, version: nat): (v: seq<nat>)
    ensures |v| == |GENERIC_WIDTHS|
  {
    [version, h.size, h.originalSize, h.clock.start, h.clock.end, DATA_TYPE_CHUNK + (if h.rawBit then RAW_BIT else 0),
     h.cmpMode, h.modelValue, 0, 0, 0, h.round]
  }

  function SlotValues(slots: seq<Pair>): (v: seq<nat>)
    requires |slots| == 6
    ensures |v| == |SLOT_WIDTHS|
  {
    seq(12, i requires 0 <= i < 12 => if i % 2 == 0 then slots[i / 2].spill else slots[i / 2].par)
  }

  /** Where fields begin that stand behind each other. */
  lemma {:induction false} SumIs(widths: seq<nat>, offsets: seq<nat>)
    requires |offsets| == |widths| + 1 && offsets[0] == 0
    requires forall k :: 0 <= k < |widths| ==> offsets[k] + widths[k] == offsets[k + 1]
    ensures Sum(widths) == offsets[|widths|]
    decreases |widths|
  {
    if widths != [] {
      SumIs(widths[..|widths| - 1], offsets[..|widths|]);
    }
  }

  lemma WidthSums()
    ensures Sum(GENERIC_WIDTHS) == 8 * GENERIC_HEADER_SIZE
    ensures Sum(SLOT_WIDTHS) + 16 == 8 * (NON_IMAGETTE_HEADER_SIZE - GENERIC_HEADER_SIZE)
  {
    SumIs(GENERIC_WIDTHS, [0, 32, 56, 80, 128, 176, 192, 200, 208, 224, 232, 240, 256]);
    SumIs(SLOT_WIDTHS, [0, 24, 40, 64, 80, 104, 120, 144, 160, 184, 200, 224, 240]);
  }

  /** What the setters leave in memory; the last two bytes of a specific header are never set. */
  function HeaderBits(h: Header, version: nat): (b: Bits)
    requires HeaderIsWellFormed(h)
    ensures |b| == if h.rawBit then 8 * GENERIC_HEADER_SIZE else 8 * NON_IMAGETTE_HEADER_SIZE - 16
  {
    WidthSums();
    FieldBits(GenericValues(h, version), GENERIC_WIDTHS) + if h.rawBit then []
    else FieldBits(SlotValues(h.slots), SLOT_WIDTHS)
  }

  /** What the getters read. */
  function HeaderIn(b: Bits): (h: Header)
    requires |b| >= 8 * GENERIC_HEADER_SIZE
    ensures HeaderIsWellFormed(h)
  {
    WidthSums();
    var v := Fields(b, GENERIC_WIDTHS);
    var raw := v[5] / RAW_BIT % 2 == 1;
    var slots := if raw || |b| < 8 * NON_IMAGETTE_HEADER_SIZE then seq(6, i => Pair(0, 0))
                 else
                   var w := Fields(b[8 * GENERIC_HEADER_SIZE..], SLOT_WIDTHS);
                   seq(6, i requires 0 <= i < 6 => Pair(w[2 * i + 1], w[2 * i]));
    Header(v[1], v[2], raw, v[6], v[7], v[11], slots, Clock(v[3], v[4]))
  }

  /** cmp_ent_get_data_type, before it is checked. */
  function TypeIn(b: Bits): nat
    requires |b| >= 8 * GENERIC_HEADER_SIZE
  {
    WidthSums();
    Fields(b, GENERIC_WIDTHS)[5] % RAW_BIT
  }

  predicate IsRdcuType(t: nat) {
    1 <= t <= 4 || 20 <= t <= 21
  }

  /** Every field is within its width. */
  predicate Bounded(h: Header, version: nat) {
    && HeaderIsWellFormed(h) && version < TWO_32
    && h.size <= CMP_ENTITY_MAX_SIZE && h.originalSize <= CMP_ENTITY_MAX_ORIGINAL_SIZE && h.clock.Fit()
    && h.cmpMode <= 0xFF && h.modelValue <= 0xFF && h.round <= 0xFFFF
    && (h.rawBit ==> h.slots == seq(6, i => Pair(0, 0)))
    && forall s :: 0 <= s < 6 ==> h.slots[s].spill <= 0xFF_FFFF && h.slots[s].par <= 0xFFFF
  }

  lemma Powers()
    ensures Pow2(8) == 0x100 && Pow2(16) == 0x1_0000 && Pow2(24) == 0x100_0000 && Pow2(32) == TWO_32
    ensures Pow2(48) == MAX_TIMESTAMP + 1
  {
    Pow2Values();
    assert Pow2(40) == 0x100_0000_0000;
  }

  lemma ValuesFit(h: Header, version: nat)
    requires Bounded(h, version)
    ensures forall i :: 0 <= i < 12 ==> GenericValues(h, version)[i] < Pow2(GENERIC_WIDTHS[i])
    ensures forall i :: 0 <= i < 12 ==> SlotValues(h.slots)[i] < Pow2(SLOT_WIDTHS[i])
  {
    Powers();
    hide Pow2;
    var v := SlotValues(h.slots);
    forall i | 0 <= i < 12 ensures v[i] < Pow2(SLOT_WIDTHS[i]) {
      assert 0 <= i / 2 < 6 && SLOT_WIDTHS[i] == if i % 2 == 0 then 24 else 16;
    }
  }

  lemma GenericReadBack(h: Header, version: nat, t: Bits)
    requires Bounded(h, version)
    ensures Fields(FieldBits(GenericValues(h, version), GENERIC_WIDTHS) + t, GENERIC_WIDTHS)
            == GenericValues(h, version)
  {
    hide Fields, FieldBits, Pow2, GenericValues;
    ValuesFit(h, version);
    FieldsReadBack(GenericValues(h, version), GENERIC_WIDTHS, t);
  }

  lemma SlotsReadBack(h: Header, version: nat, t: Bits)
    requires Bounded(h, version)
    ensures Fields(FieldBits(SlotValues(h.slots), SLOT_WIDTHS) + t, SLOT_WIDTHS) == SlotValues(h.slots)
  {
    hide Fields, FieldBits, Pow2, SlotValues;
    ValuesFit(h, version);
    FieldsReadBack(SlotValues(h.slots), SLOT_WIDTHS, t);
  }

  /** The getters return what the setters were given, whatever stands behind the header. */
  lemma HeaderReadBack(h: Header, version: nat, t: Bits)
    requires Bounded(h, version) && (!h.rawBit ==> |t| >= 16)
    ensures HeaderIn(HeaderBits(h, version) + t) == h && TypeIn(HeaderBits(h, version) + t) == DATA_TYPE_CHUNK
  {
    hide Fields, FieldBits;
    WidthSums();
    var g, s := FieldBits(GenericValues(h, version), GENERIC_WIDTHS), FieldBits(SlotValues(h.slots), SLOT_WIDTHS);
    var b := HeaderBits(h, version) + t;
    if h.rawBit {
      assert b == g + t;
      GenericReadBack(h, version, t);
    } else {
      assert b == g + (s + t);
      GenericReadBack(h, version, s + t);
      assert b[8 * GENERIC_HEADER_SIZE..] == s + t;
      SlotsReadBack(h, version, t);
      assert HeaderIn(b).slots == h.slots;
    }
  }

  /** Field k of a string of fields. */
  lemma {:induction false} FieldAt(values: seq<nat>, widths: seq<nat>, k: nat)
    requires |values| == |widths| && k < |widths|
    ensures Sum(widths[..k]) + widths[k] <= Sum(widths)
    ensures FieldBits(values, widths)[Sum(widths[..k])..Sum(widths[..k]) + widths[k]] == ToBits(values[k], widths[k])
    decreases |widths|
  {
    hide ToBits;
    var last := |widths| - 1;
    var init, f := FieldBits(values[..last], widths[..last]), ToBits(values[last], widths[last]);
    if k < last {
      FieldAt(values[..last], widths[..last], k);
      assert widths[..last][..k] == widths[..k];
      SliceInFront(init, f, Sum(widths[..k]), Sum(widths[..k]) + widths[k]);
    } else {
      SliceBehind(init, f, 0, widths[k]);
    }
  }

  /** Field k, with the places where the fields begin. */
  lemma FieldFrom(values: seq<nat>, widths: seq<nat>, offsets: seq<nat>, k: nat)
    requires |values| == |widths| && |offsets| == |widths| + 1 && k < |widths| && offsets[0] == 0
    requires forall i :: 0 <= i < |widths| ==> offsets[i] + widths[i] == offsets[i + 1]
    ensures offsets[k + 1] <= |FieldBits(values, widths)|
    ensures FieldBits(values, widths)[offsets[k]..offsets[k + 1]] == ToBits(values[k], widths[k])
  {
    hide ToBits, FieldBits, Sum;
    SumIs(widths[..k], offsets[..k + 1]);
    FieldAt(values, widths, k);
  }

  /** The unsigned number in bits from .. to of an entity. */
  predicate Holds(b: Bits, from: nat, to: nat, value: nat) {
    from <= to <= |b| && FromBits(b[from..to]) == value
  }

  lemma GenericFieldHolds(h: Header, version: nat, k: nat)
    requires Bounded(h, version) && k < 12
    ensures var offsets: seq<nat> := [0, 32, 56, 80, 128, 176, 192, 200, 208, 224, 232, 240, 256];
            Holds(HeaderBits(h, version), offsets[k], offsets[k + 1], GenericValues(h, version)[k])
  {
    hide FieldBits, ToBits, FromBits, Pow2;
    var offsets: seq<nat> := [0, 32, 56, 80, 128, 176, 192, 200, 208, 224, 232, 240, 256];
    var v := GenericValues(h, version);
    ValuesFit(h, version);
    FieldFrom(v, GENERIC_WIDTHS, offsets, k);
    var g := FieldBits(v, GENERIC_WIDTHS);
    SliceInFront(g, if h.rawBit then [] else FieldBits(SlotValues(h.slots), SLOT_WIDTHS), offsets[k], offsets[k + 1]);
    FromToBits(v[k], GENERIC_WIDTHS[k]);
  }

  lemma SliceInFront(a: Bits, b: Bits, from: nat, to: nat)
    requires from <= to <= |a|
    ensures (a + b)[from..to] == a[from..to]
  {
  }

  lemma SliceBehind(a: Bits, b: Bits, from: nat, to: nat)
    requires from <= to <= |b|
    ensures (a + b)[|a| + from..|a| + to] == b[from..to]
  {
  }

  lemma SlotFieldHolds(h: Header, version: nat, k: nat)
    requires Bounded(h, version) && !h.rawBit && k < 12
    ensures var offsets: seq<nat> := [0, 24, 40, 64, 80, 104, 120, 144, 160, 184, 200, 224, 240];
            Holds(HeaderBits(h, version), 256 + offsets[k], 256 + offsets[k + 1], SlotValues(h.slots)[k])
  {
    hide FieldBits, ToBits, FromBits, Pow2, SlotValues;
    var offsets: seq<nat> := [0, 24, 40, 64, 80, 104, 120, 144, 160, 184, 200, 224, 240];
    var v := SlotValues(h.slots);
    ValuesFit(h, version);
    WidthSums();
    FieldFrom(v, SLOT_WIDTHS, offsets, k);
    var g, s := FieldBits(GenericValues(h, version), GENERIC_WIDTHS), FieldBits(v, SLOT_WIDTHS);
    SliceBehind(g, s, offsets[k], offsets[k + 1]);
    FromToBits(v[k], SLOT_WIDTHS[k]);
  }

  lemma GenericLayout(h: Header, version: nat)
    requires Bounded(h, version)
    ensures var b := HeaderBits(h, version);
            && Holds(b, 0, 32, version) && Holds(b, 32, 56, h.size) && Holds(b, 56, 80, h.originalSize)
            && Holds(b, 80, 128, h.clock.start) && Holds(b, 128, 176, h.clock.end)
            && Holds(b, 176, 192, DATA_TYPE_CHUNK + if h.rawBit then RAW_BIT else 0)
            && Holds(b, 192, 200, h.cmpMode) && Holds(b, 200, 208, h.modelValue)
            && Holds(b, 208, 224, 0) && Holds(b, 224, 232, 0) && Holds(b, 232, 240, 0) && Holds(b, 240, 256, h.round)
  {
    hide HeaderBits, Holds, Bounded;
    GenericFieldHolds(h, version, 0);
    GenericFieldHolds(h, version, 1);
    GenericFieldHolds(h, version, 2);
    GenericFieldHolds(h, version, 3);
    GenericFieldHolds(h, version, 4);
    GenericFieldHolds(h, version, 5);
    GenericFieldHolds(h, version, 6);
    GenericFieldHolds(h, version, 7);
    GenericFieldHolds(h, version, 8);
    GenericFieldHolds(h, version, 9);
    GenericFieldHolds(h, version, 10);
    GenericFieldHolds(h, version, 11);
  }

  lemma SlotLayout(h: Header, version: nat, k: nat)
    requires Bounded(h, version) && !h.rawBit && k < 6
    ensures var b := HeaderBits(h, version);
            && Holds(b, 256 + 40 * k, 280 + 40 * k, h.slots[k].spill)
            && Holds(b, 280 + 40 * k, 296 + 40 * k, h.slots[k].par)
  {
    hide HeaderBits, Holds, SlotValues;
    SlotFieldHolds(h, version, 2 * k);
    SlotFieldHolds(h, version, 2 * k + 1);
    SlotValuesAre(h.slots, k);
  }

  /** The fields of the entity, at the places the format gives them. */
  lemma EntityLayout(h: Header, version: nat)
    requires Bounded(h, version)
    ensures var b := HeaderBits(h, version);
            && Holds(b, 0, 32, version) && Holds(b, 32, 56, h.size) && Holds(b, 56, 80, h.originalSize)
            && Holds(b, 80, 128, h.clock.start) && Holds(b, 128, 176, h.clock.end)
            && Holds(b, 176, 192, DATA_TYPE_CHUNK + if h.rawBit then RAW_BIT else 0)
            && Holds(b, 192, 200, h.cmpMode) && Holds(b, 200, 208, h.modelValue)
            && Holds(b, 208, 224, 0) && Holds(b, 224, 232, 0) && Holds(b, 232, 240, 0) && Holds(b, 240, 256, h.round)
            && (!h.rawBit ==>
                  forall k :: 0 <= k < 6 ==>
                    && Holds(b, 256 + 40 * k, 280 + 40 * k, h.slots[k].spill)
                    && Holds(b, 280 + 40 * k, 296 + 40 * k, h.slots[k].par))
  {
    hide HeaderBits, Holds;
    GenericLayout(h, version);
    if !h.rawBit {
      forall k | 0 <= k < 6
        ensures Holds(HeaderBits(h, version), 256 + 40 * k, 280 + 40 * k, h.slots[k].spill)
        ensures Holds(HeaderBits(h, version), 280 + 40 * k, 296 + 40 * k, h.slots[k].par)
      {
        SlotLayout(h, version, k);
      }
    }
  }

  lemma SlotValuesAre(slots: seq<Pair>, k: nat)
    requires |slots| == 6 && k < 6
    ensures SlotValues(slots)[2 * k] == slots[k].spill && SlotValues(slots)[2 * k + 1] == slots[k].par
  {
  }

  // ----- both halves on bytes

  /** decompress_cmp_entiy of an entity with any data type but those of the RDCU. The entity is as
      long as its header says. */
  function DecodeMemory(b: Bits, model: Option<Bits>): (r: Option<Data>)
    requires IsEntity(b) && (model.Some? ==> |model.value| == 8 * HeaderIn(b).originalSize)
  {
    var h := HeaderIn(b);
    if h.originalSize == 0 then Some(Data([], []))
    else if TypeIn(b) != DATA_TYPE_CHUNK then None
    else DecodeEntity(h, b[|b| - 8 * DataSize(h)..], model)
  }

  predicate IsEntity(b: Bits) {
    && |b| >= 8 * GENERIC_HEADER_SIZE && |b| == 8 * HeaderIn(b).size && !IsRdcuType(TypeIn(b))
  }

  /** The entity compress_chunk leaves in the first bytes of its destination. */
  function EntityBits(h: Header, version: nat, body: Bits, size: nat): Bits
    requires HeaderIsWellFormed(h) && |HeaderBits(h, version)| <= 8 * size <= |body|
  {
    HeaderBits(h, version) + body[|HeaderBits(h, version)|..8 * size]
  }

  lemma BuiltIsBounded(cfg: Cfg, chunkSize: nat, entSize: nat, clock: Clock, version: nat)
    requires cfg.WellFormed() && BuildHeader(cfg, chunkSize, entSize, clock).Ok? && version < TWO_32
    ensures Bounded(BuildHeader(cfg, chunkSize, entSize, clock).value, version)
    ensures var h := BuildHeader(cfg, chunkSize, entSize, clock).value;
            h.size == entSize && h.rawBit == (cfg.cmpMode == CMP_MODE_RAW)
  {
  }

  /** For every chunk, parameter set, model and destination: if compress_chunk succeeds, the bytes it
      left, and nothing else, decode to exactly the chunk and the updated model. */
  lemma MemoryRoundTrip(before: Bits, body: Bits, capacity: nat, chunk: Bits, model: Option<Bits>, ct: ChunkType,
                        par: CmpPar, clock: Clock, version: nat, r: Result<nat>, h: Option<Header>)
    requires EarlyError(chunk).None? && !ct.UnknownChunk? && ModelMatches(chunk, model) && |chunk| % 8 == 0
    requires version < TWO_32
    requires ChunkPut(false, before, body, capacity, chunk, model, ct, InitialCfg(ct, par), clock, r, h) && r.Ok?
    ensures h.Some? && HeaderIsWellFormed(h.value) && |HeaderBits(h.value, version)| <= 8 * r.value <= |body|
    ensures Accepted(chunk, model, ct, InitialCfg(ct, par))
    ensures var e := EntityBits(h.value, version, body, r.value);
            && IsEntity(e) && HeaderIn(e) == h.value && h.value.originalSize == |chunk| / 8
            && DecodeMemory(e, model) == Some(Expected(chunk, model, ct, InitialCfg(ct, par)))
  {
    hide InitialCfg, DecodeEntity, Expected, HeaderBits, HeaderIn, TypeIn, Frames, ChunkError, Updates;
    var cfg := InitialCfg(ct, par);
    EntityRoundTrip(before, body, capacity, chunk, model, ct, par, clock, r, h);
    BuiltIsBounded(cfg, |chunk| / 8, r.value, clock, version);
    CfgKeepsMode(ct, par);
    var hb, start := HeaderBits(h.value, version), 8 * HeaderSize(par.cmpMode);
    HeaderReadBack(h.value, version, body[|hb|..8 * r.value]);
    var e := EntityBits(h.value, version, body, r.value);
    assert e[start..] == body[start..8 * r.value];
  }

  /** compress_chunk with its header in memory; body is the destination before the header was set. If
      that fails, nothing is promised of the header's bytes. */
  method CompressChunkInMemory(chunk: Bits, model: array?<bool>, updated: array?<bool>, dst: array?<bool>,
                               dstCapacity: nat, par: CmpPar, clock: Clock, version: nat)
    returns (r: Result<nat>, ghost header: Option<Header>, ghost body: Bits)
    requires |chunk| % 8 == 0 && version < TWO_32
    requires model != null ==> model.Length == |chunk|
    requires updated != null ==> updated.Length == |chunk|
    requires dst != null ==> dst != model && dst != updated && 8 * dstCapacity <= dst.Length
    modifies dst, updated
    ensures EarlyError(chunk).Some? ==>
              && r == Err(EarlyError(chunk).value)
              && Content(dst) == old(Content(dst)) && Content(updated) == old(Content(updated))
    ensures EarlyError(chunk).None? ==>
              var m, ct := old(WholeModel(model)), ChunkTypeOf(Subservice(chunk));
              var cfg := InitialCfg(ct, par);
              && ChunkPut(dst == null, old(Content(dst)), body, dstCapacity, chunk, m, ct, cfg, clock, r, header)
              && (updated != null ==> ChunkUpdate(old(updated[..]), updated[..], chunk, m, ct, cfg, r))
              && (dst != null && r.Err? ==>
                    && dst.Length == |body| && (r.error !in {EntityHeader, EntityTimestamp} ==> dst[..] == body)
                    && forall i :: 8 * HeaderSize(par.cmpMode) <= i < |body| ==> dst[i] == body[i])
              && (dst != null && r.Ok? ==>
                    && header.Some? && HeaderIsWellFormed(header.value)
                    && |HeaderBits(header.value, version)| <= 8 * r.value <= |body|
                    && dst[..] == EntityBits(header.value, version, body, r.value) + body[8 * r.value..]
                    && IsEntity(dst[..8 * r.value]) && HeaderIn(dst[..8 * r.value]).originalSize == |chunk| / 8
                    && Accepted(chunk, m, ct, cfg)
                    && DecodeMemory(dst[..8 * r.value], m) == Some(Expected(chunk, m, ct, cfg)))
  {
    hide Subservice, InitialCfg, ChunkPut, ChunkUpdate, DecodeMemory, Expected, HeaderBits, IsEntity, HeaderIn,
      Accepted;
    ghost var m, before := WholeModel(model), Content(dst);
    var h;
    r, h := CompressChunk(chunk, model, updated, dst, dstCapacity, par, clock);
    header, body := h, Content(dst);
    if h.None? || dst == null {
      return;
    }
    ghost var ct := ChunkTypeOf(Subservice(chunk));
    MemoryRoundTrip(before, body, dstCapacity, chunk, m, ct, par, clock, version, r, h);
    StoreBits(dst, 0, HeaderBits(h.value, version));
    EntityInFront(body, dst[..], h.value, version, r.value);
  }

  lemma EntityInFront(body: Bits, mem: Bits, h: Header, version: nat, size: nat)
    requires HeaderIsWellFormed(h) && |HeaderBits(h, version)| <= 8 * size <= |body|
    requires Written(body, mem, 0, HeaderBits(h, version))
    ensures mem == EntityBits(h, version, body, size) + body[8 * size..]
    ensures mem[..8 * size] == EntityBits(h, version, body, size)
  {
    hide HeaderBits, Written;
    FrontThenRest(body, mem, HeaderBits(h, version), 8 * size);
  }

  lemma FrontThenRest(body: Bits, mem: Bits, front: Bits, n: nat)
    requires |front| <= n <= |body| && Written(body, mem, 0, front)
    ensures mem == front + body[|front|..n] + body[n..]
    ensures mem[..n] == front + body[|front|..n]
  {
    assert body[|front|..] == body[|front|..n] + body[n..];
  }

  /** decompress_cmp_entiy on the bytes of an entity. */
  method DecompressMemory(entity: Bits, model: array?<bool>, updated: array?<bool>, dst: array<bool>)
    returns (r: Option<nat>)
    requires IsEntity(entity)
    requires model != null ==> model.Length == 8 * HeaderIn(entity).originalSize
    requires updated != null ==> updated.Length == 8 * HeaderIn(entity).originalSize
    requires dst.Length == 8 * HeaderIn(entity).originalSize && dst != model && dst != updated
    modifies dst, updated
    ensures var h, spec := HeaderIn(entity), DecodeMemory(entity, old(WholeModel(model)));
            && (r.Some? <==> spec.Some?)
            && (r.Some? ==>
                  && r.value == h.originalSize && Written(old(dst[..]), dst[..], 0, spec.value.data)
                  && (updated != null && h.originalSize > 0 && ModelModeIsUsed(h.cmpMode) ==>
                        Written(old(updated[..]), updated[..], 0, spec.value.up)))
    ensures updated != null && !ModelModeIsUsed(HeaderIn(entity).cmpMode) ==> updated[..] == old(updated[..])
  {
    hide DecodeEntity, HeaderIn, TypeIn, Written;
    var h := HeaderIn(entity);
    if h.originalSize == 0 {
      NothingDecoded(dst[..]);
      return Some(0);
    }
    if TypeIn(entity) != DATA_TYPE_CHUNK {
      return None;
    }
    r := DecompressEntity(h, entity[|entity| - 8 * DataSize(h)..], model, updated, dst);
  }
}
