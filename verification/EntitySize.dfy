/** What an entity has to hold, and its returned size. */
module EntitySize {
  import opened BitStrings
  import opened Results
  import opened Config
  import opened Parameters
  import opened Chunks
  import opened Entities
  import opened Decompressor
  import opened SizeQuery
  import opened Acceptance

  // ----- frames

  /** A frame is as long as its length field says, behind the field and a collection header. */
  predicate IsFrame(f: Bits) {
    |f| >= 112 && |f| == 112 + 8 * FromBits(f[..16])
  }

  predicate AreFrames(s: Bits, frames: seq<Bits>) {
    Joined(frames) == s && forall i :: 0 <= i < |frames| ==> IsFrame(frames[i])
  }

  lemma FirstFrame(f: Bits, rest: Bits)
    requires |f| >= 112
    ensures LengthField(f + rest) == FromBits(f[..16])
    ensures IsFrame(f) <==> FrameBits(f + rest) == |f|
  {
    hide FromBits;
    assert (f + rest)[..16] == f[..16];
  }

  lemma {:induction false} FramesOf(s: Bits) returns (frames: seq<Bits>)
    requires FrameCount(s).Some?
    ensures AreFrames(s, frames) && |frames| == FrameCount(s).value
    decreases |s|
  {
    hide FrameCount, FrameBits, IsFrame;
    NextFrame(s);
    if FrameCount(s).value == 0 {
      return [];
    }
    var f, rest := s[..FrameBits(s)], s[FrameBits(s)..];
    assert f + rest == s;
    FirstFrame(f, rest);
    var more := FramesOf(rest);
    frames := [f] + more;
    assert frames[1..] == more;
  }

  lemma {:induction false} JoinedFrames(frames: seq<Bits>)
    requires forall i :: 0 <= i < |frames| ==> IsFrame(frames[i])
    ensures FrameCount(Joined(frames)) == Some(|frames|)
  {
    if frames != [] {
      var f, rest := frames[0], Joined(frames[1..]);
      assert IsFrame(f);
      JoinedFrames(frames[1..]);
      FirstFrame(f, rest);
      hide IsFrame, FrameBits, FrameCount;
      assert (f + rest)[|f|..] == rest;
      FrameCountStep(f + rest, rest);
    }
  }

  /** The frames are counted exactly if the data of the entity are frames, one after the other. */
  lemma FramesIff(s: Bits, n: nat)
    ensures FrameCount(s) == Some(n) <==> exists frames: seq<Bits> :: |frames| == n && AreFrames(s, frames)
  {
    hide FrameCount, IsFrame;
    if FrameCount(s) == Some(n) {
      var frames := FramesOf(s);
    }
    if frames: seq<Bits> :| |frames| == n && AreFrames(s, frames) {
      JoinedFrames(frames);
    }
  }

  // ----- the size

  /** The sizes of the collections, in bits, as their own headers announce them. */
  function Announced(s: Bits): (n: nat)
    requires FrameCount(s).Some?
    decreases |s|
  {
    if s == [] then 0
    else
      NextFrame(s);
      ColBits(s[FIELD_BITS..]) + Announced(s[FrameBits(s)..])
  }

  lemma {:induction false} DecodedIsAnnounced(s: Bits, model: Option<Bits>, cfg: Cfg, room: nat)
    requires FrameCount(s).Some? && (model.Some? ==> |model.value| == room)
    requires cfg.WellFormed() && !cfg.GenParIsInvalid() && cfg.cmpMode != CMP_MODE_RAW
    ensures DecodeFrames(s, model, cfg, room).Some? ==>
              |DecodeFrames(s, model, cfg, room).value.data| == Announced(s) <= room
    decreases |s|
  {
    hide DecodeCol, FrameBits, FrameCount, ColBits, Cfg.GenParIsInvalid;
    NextFrame(s);
    if FrameCount(s).value > 0 {
      var c := DecodeCol(s, model, cfg, room);
      if c.GoodCol? {
        DecodedIsAnnounced(s[FrameBits(s)..], if model.Some? then Some(model.value[|c.col|..]) else None, cfg,
                           room - |c.col|);
      }
    }
  }

  /** The size returned for an entity, the original size in its header, is that of the decoded data if
      and only if the entity holds nothing, is raw, or its collections announce that size together. */
  lemma ReturnedSizeIff(h: Header, data: Bits, model: Option<Bits>)
    requires HeaderIsWellFormed(h) && |data| == 8 * DataSize(h)
    requires (model.Some? ==> |model.value| == 8 * h.originalSize) && DecodeEntity(h, data, model).Some?
    ensures |DecodeEntity(h, data, model).value.data| == 8 * h.originalSize
            <==> || h.originalSize == 0 || h.cmpMode == CMP_MODE_RAW
                 || (FrameCount(data).Some? && Announced(data) == 8 * h.originalSize)
  {
    hide DecodeFrames, ReadHeader, Announced, Cfg.GenParIsInvalid;
    if h.originalSize > 0 && h.cmpMode != CMP_MODE_RAW {
      DecodedIsAnnounced(data, model, ReadHeader(h).value.0, 8 * h.originalSize);
    }
  }

  /** One frame of an empty collection of fluxes. */
  function EmptyFrame(): (s: Bits)
    ensures |s| == 112
  {
    Zeros(16) + EmptyFluxes()
  }

  lemma EmptyFrameIs()
    ensures var s := EmptyFrame();
            && LengthField(s) == 0 && FrameBits(s) == 112 && s[FIELD_BITS..] == EmptyFluxes()
            && FrameCount(s) == Some(1)
  {
    hide EmptyFluxes, FromBits, Zeros;
    var s := EmptyFrame();
    assert s[..FIELD_BITS] == Zeros(16) && s[FIELD_BITS..] == EmptyFluxes();
    ZerosValue(16);
    assert s[FrameBits(s)..] == [];
  }

  /** The header of an entity with that frame that announces n bytes. */
  function HeaderOf(n: nat, slots: seq<Pair>): Header {
    Header(78, n, false, CMP_MODE_DIFF_ZERO, 0, 0, slots, Clock(0, 0))
  }

  lemma HeaderIsRead(n: nat, slots: seq<Pair>)
    requires n > 12 && |slots| == 6
    ensures HeaderIsWellFormed(HeaderOf(n, slots)) && DataSize(HeaderOf(n, slots)) == 14
    ensures ReadHeader(HeaderOf(n, slots)) == Some((Cfg(CMP_MODE_DIFF_ZERO, 0, 0, slots), 14))
  {
  }

  lemma EmptyFrameDecodes(room: nat, slots: seq<Pair>)
    requires room >= 96 && |slots| == 6
    ensures FrameCount(EmptyFrame()) == Some(1)
    ensures DecodeFrames(EmptyFrame(), None, Cfg(CMP_MODE_DIFF_ZERO, 0, 0, slots), room)
            == Some(Data(EmptyFluxes(), []))
  {
    hide EmptyFrame, EmptyFluxes, LengthField, FrameBits, Subservice, DataLength, Cfg.SpecificIsInvalid, FrameCount;
    var s, cfg := EmptyFrame(), Cfg(CMP_MODE_DIFF_ZERO, 0, 0, slots);
    EmptyFrameIs();
    EmptyFluxesAre();
    NextFrame(s);
    NextFrame(s[FrameBits(s)..]);
    assert EmptyFluxes()[..ColBits(EmptyFluxes())] == EmptyFluxes();
    assert DecodeCol(s, None, cfg, room) == GoodCol(EmptyFluxes(), []);
    assert DecodeFrames(s[FrameBits(s)..], None, cfg, room - 96) == Some(Data([], []));
    DecodeFramesStep(s, None, cfg, room, GoodCol(EmptyFluxes(), []), s[FrameBits(s)..], None, Data([], []));
    var none: Bits := [];
    assert EmptyFluxes() + none == EmptyFluxes() && none + none == none;
  }

  /** For every size above twelve bytes there is an entity of which the decoder returns that size and
      decodes twelve. */
  lemma ReturnedTooMuch(n: nat, slots: seq<Pair>)
    requires n > 12 && |slots| == 6
    ensures HeaderIsWellFormed(HeaderOf(n, slots)) && |EmptyFrame()| == 8 * DataSize(HeaderOf(n, slots))
    ensures DecodeEntity(HeaderOf(n, slots), EmptyFrame(), None) == Some(Data(EmptyFluxes(), []))
    ensures |EmptyFluxes()| == 96 < 8 * n
  {
    hide EmptyFrame, EmptyFluxes, DecodeFrames, FrameCount, ReadHeader, HeaderIsWellFormed, DataSize;
    HeaderIsRead(n, slots);
    EmptyFrameDecodes(8 * n, slots);
  }
}
