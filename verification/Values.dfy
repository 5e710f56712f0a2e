/** One value through the codec. */
module Values {
  // Rounding, folding of the signed difference, the two escape mechanisms, the update of the model.

  import opened BitStrings
  import opened Golomb
  import opened Spill

  const MAX_ICU_ROUND := 3
  const MAX_MODEL_VALUE := 16

  /** What encoder_setup and decoder_setup hold for one kind of value. */
  datatype Setup = Setup(par: nat, spill: nat, round: nat, width: nat, zeroEscape: bool)
  {
    predicate Valid() {
      ParsAreValid(par, spill) && round <= MAX_ICU_ROUND && 1 <= width <= 32
    }
  }

  // ----- lossy rounding

  function RoundFwd(value: nat, round: nat): nat {
    Down(value, round)
  }

  function RoundInv(value: nat, round: nat): nat {
    Shl32(value, round)
  }

  /** The value a lossy decoder can at best return: the low bits cleared. */
  function Rounded(value: nat, round: nat): nat {
    RoundInv(RoundFwd(value, round), round)
  }

  lemma RoundedAgain(value: nat, round: nat)
    requires value < TWO_32
    ensures RoundFwd(Rounded(value, round), round) == RoundFwd(value, round)
    ensures Rounded(value, round) == value - Low(value, round)
    ensures Rounded(Rounded(value, round), round) == Rounded(value, round)
    ensures Rounded(value, 0) == value
  {
    UpDownLow(value, round);
    DownOfUp(Down(value, round), 0, round);
  }

  // ----- mapping of differences to unsigned values

  function MapToPos(value: nat, maxDataBits: nat): nat
    requires 1 <= maxDataBits <= 32
  {
    var masked := Low(value, maxDataBits);
    if Down(masked, maxDataBits - 1) != 0 then
      Pow2Word(maxDataBits);
      var signExtended := masked + (TWO_32 - Pow2(maxDataBits));
      U32(U32(-signExtended) * 2 - 1)
    else
      U32(masked * 2)
  }

  function ReMapToPos(value: nat): nat {
    if value % 2 == 1 then U32(-((value + 1) / 2)) else value / 2
  }

  lemma {:induction false} DownSmall(x: nat, n: nat)
    ensures Down(x, n) == 0 <==> x < Pow2(n)
  {
    if n > 0 {
      DownSmall(x / 2, n - 1);
    }
  }

  /** The fold in closed form: non-negative differences become even, negative ones odd. */
  function Fold(d: nat, p: nat): (u: int)
    requires d < p
  {
    if 2 * d < p then 2 * d else 2 * (p - d) - 1
  }

  lemma MapToPosIsFold(value: nat, n: nat)
    requires 1 <= n <= 32
    ensures MapToPos(value, n) == Fold(Low(value, n), Pow2(n)) && MapToPos(value, n) < Pow2(n)
  {
    hide Low, Down;
    var d, p := Low(value, n), Pow2(n);
    Pow2Word(n);
    DownSmall(d, n - 1);
    assert p == 2 * Pow2(n - 1);
    if 2 * d >= p {
      FoldNegative(d, p);
    }
  }

  /** The source's 32-bit arithmetic for a negative difference d - p. */
  lemma FoldNegative(d: nat, p: nat)
    requires d < p <= TWO_32 && 2 * d >= p
    ensures U32(U32(-(d + (TWO_32 - p))) * 2 - 1) == 2 * (p - d) - 1
  {
    assert U32(-(d + (TWO_32 - p))) == p - d;
  }

  lemma UnfoldFold(d: nat, p: nat)
    requires d < p <= TWO_32
    ensures 0 <= Fold(d, p) < p
    ensures ReMapToPos(Fold(d, p)) == if 2 * d < p then d else TWO_32 - (p - d)
  {
    if 2 * d >= p {
      assert (2 * (p - d) - 1) % 2 == 1;
      assert U32(-(p - d)) == TWO_32 - (p - d);
    }
  }

  /** Adding 2^n, also when that wraps around 2^32, leaves the n low bits alone. */
  lemma LowOfAdded(x: nat, n: nat)
    requires 1 <= n <= 32 && x < Pow2(n)
    ensures Low(x, n) == x && Low(x + Pow2(n), n) == x
  {
    assert Pow2(0) == 1;
    hide Low, Up, Pow2;
    LowSmall(x, n);
    UpOfPow2(0, n);
    LowOfSum(x, 1, n);
  }

  lemma LowOfBelowWord(x: nat, n: nat)
    requires 1 <= n <= 32 && x < Pow2(n)
    ensures Pow2(n) <= TWO_32 && Low(x + (TWO_32 - Pow2(n)), n) == x
  {
    hide *;
    LowSmall(x, n);
    Pow2Word(n);
    Pow2Values();
    UpOfPow2(32 - n, n);
    UpNext(Pow2(32 - n) - 1, n);
    LowOfSum(x, Pow2(32 - n) - 1, n);
  }

  /** The n low bits of the 32-bit difference are the difference modulo 2^n. */
  lemma LowOfDifference(data: nat, model: nat, n: nat)
    requires 1 <= n <= 32 && data < Pow2(n) && model < Pow2(n)
    ensures Low(U32(data - model), n) == if data >= model then data - model else data - model + Pow2(n)
  {
    Pow2Word(n);
    if data >= model {
      LowSmall(data - model, n);
    } else {
      LowOfBelowWord(data - model + Pow2(n), n);
    }
  }

  /** Adding the model back lands on the data, up to one of three harmless wraps. */
  lemma UnfoldAgainstModel(d: nat, data: nat, model: nat, n: nat)
    requires 1 <= n <= 32 && data < Pow2(n) && model < Pow2(n)
    requires d == if data >= model then data - model else data - model + Pow2(n)
    ensures Pow2(n) <= TWO_32
    ensures Low(U32((if 2 * d < Pow2(n) then d else TWO_32 - (Pow2(n) - d)) + model), n) == data
  {
    Pow2Word(n);
    LowOfAdded(data, n);
    LowOfBelowWord(data, n);
    WrappedSum(d, data, model, Pow2(n));
  }

  lemma WrappedSum(d: nat, data: nat, model: nat, p: nat)
    requires data < p && model < p && (p == TWO_32 || 2 * p <= TWO_32)
    requires d == if data >= model then data - model else data - model + p
    ensures U32((if 2 * d < p then d else TWO_32 - (p - d)) + model) in {data, data + p, data + (TWO_32 - p)}
  {
  }

  /** Folding the difference and unfolding it against the same model is the identity. */
  lemma MapRoundTrip(data: nat, model: nat, n: nat)
    requires 1 <= n <= 32 && data < Pow2(n) && model < Pow2(n)
    ensures Low(U32(ReMapToPos(MapToPos(U32(data - model), n)) + model), n) == data
  {
    var d := if data >= model then data - model else data - model + Pow2(n);
    LowOfDifference(data, model, n);
    MapToPosIsFold(U32(data - model), n);
    UnfoldAgainstModel(d, data, model, n);
    UnfoldFold(d, Pow2(n));
    assert MapToPos(U32(data - model), n) == Fold(d, Pow2(n));
  }

  // ----- the two escape mechanisms, as the bits they put into the stream

  /** Zero escape: values are shifted up by one so that 0 announces an unencoded value. */
  function ZeroEscapeBits(mapped: nat, su: Setup): (b: Bits)
    requires su.Valid()
    ensures |b| >= 1
  {
    if mapped < su.spill - 1 then Code(mapped + 1, su.par)
    else Code(0, su.par) + ToBits(U32(mapped + 1), su.width)
  }

  /** Half the number of bits, rounded down, that an unencoded value needs beyond one. */
  function EscapeSymOffset(unencoded: nat): nat {
    if unencoded == 0 then 0 else ILog2(unencoded) / 2
  }

  /** Multi escape: the escape symbol tells the length of the unencoded excess over the threshold. */
  function MultiEscapeBits(mapped: nat, su: Setup): (b: Bits)
    requires su.Valid()
    ensures |b| >= 1
  {
    if mapped < su.spill then Code(mapped, su.par)
    else
      var unencoded := mapped - su.spill;
      var offset := EscapeSymOffset(unencoded);
      Code(su.spill + offset, su.par) + ToBits(unencoded, 2 * (offset + 1))
  }

  function EscapeBits(mapped: nat, su: Setup): (b: Bits)
    requires su.Valid()
    ensures |b| >= 1
  {
    if su.zeroEscape then ZeroEscapeBits(mapped, su) else MultiEscapeBits(mapped, su)
  }

  // ----- and their decoders, with the consistency checks of the source

  datatype DecodeResult = Corrupt | Decoded(value: nat, rest: Bits)

  function ZeroEscapeDecode(s: Bits, su: Setup): (r: DecodeResult)
    requires su.Valid()
    ensures r.Decoded? ==> r.value < TWO_32
  {
    var d := DecodeCw(s, su.par);
    if d.NotEnoughBits? then Corrupt
    else if d.value != 0 then
      if d.value >= su.spill then Corrupt else
      SpillIsSmall(su);
      Decoded(d.value - 1, s[d.used..])
    else if |s| < d.used + su.width then Corrupt
    else
      Pow2Word(su.width);
      var value := RawFieldSub1(FromBits(s[d.used..d.used + su.width]), su.width);
      if value < su.spill - 1 then Corrupt else Decoded(value, s[d.used + su.width..])
  }

  /** The raw field of a zero escape, less one, within its width. */
  function RawFieldSub1(field: nat, width: nat): (value: nat)
    ensures value < Pow2(width)
  {
    Low(U32(field - 1), width)
  }

  /** The width rounded up to a multiple of 2. */
  function EvenWidth(width: nat): (w: nat)
    ensures width <= 32 ==> w <= 32
  {
    (width + 1) / 2 * 2
  }

  function MultiEscapeDecode(s: Bits, su: Setup): (r: DecodeResult)
    requires su.Valid()
    ensures r.Decoded? ==> r.value < TWO_32
  {
    var d := DecodeCw(s, su.par);
    if d.NotEnoughBits? then Corrupt
    else if d.value >= su.spill then
      var len := 2 * (d.value - su.spill + 1);
      if len > EvenWidth(su.width) || |s| < d.used + len then Corrupt
      else
        var unencoded := FromBits(s[d.used..d.used + len]);
        if ExcessIsCorrupt(unencoded, len, su) then Corrupt
        else Decoded(U32(unencoded + su.spill), s[d.used + len..])
    else
      SpillIsSmall(su);
      Decoded(d.value, s[d.used..])
  }

  /** One of the two highest bits must be set, unless there are only two; adding the
      threshold back must not overflow the value. */
  predicate ExcessIsCorrupt(unencoded: nat, len: nat, su: Setup)
    requires len >= 2
  {
    || (Down(unencoded, len - 2) == 0 && len > 2)
    || Low(U32(unencoded + su.spill), su.width) < su.spill
  }

  function EscapeDecode(s: Bits, su: Setup): (r: DecodeResult)
    requires su.Valid()
    ensures r.Decoded? ==> r.value < TWO_32
  {
    if su.zeroEscape then ZeroEscapeDecode(s, su) else MultiEscapeDecode(s, su)
  }

  /** Legal thresholds fit 24 bits, as the entity header demands. */
  lemma SpillIsSmall(su: Setup)
    requires su.Valid()
    ensures su.spill <= 0xFF_FFFF
  {
    DerivedSpillIsValid(su.par, false, 1);
  }

  /** A code word cut short is not decoded. */
  lemma CutCodeWord(s: Bits, t: Bits, v: nat, m: nat)
    requires 0 < m < TWO_32 && s + t == Code(v, m) && t != []
    ensures DecodeCw(s, m) == NotEnoughBits
  {
    DecodeIsPrefixCode(s, t, m);
    DecodeInvertsCode(v, m, []);
    assert Code(v, m) + [] == Code(v, m);
  }

  /** Decoding a code word that is followed by a payload. */
  lemma CodeThenPayload(s: Bits, v: nat, m: nat, payload: Bits, t: Bits)
    requires 0 < m < TWO_32 && s == Code(v, m) + payload + t
    ensures var d := DecodeCw(s, m);
            && d == Value(v, |Code(v, m)|)
            && |s| >= d.used + |payload|
            && s[d.used..d.used + |payload|] == payload
            && s[d.used + |payload|..] == t
            && (payload == [] ==> s[d.used..] == t)
  {
    var c := Code(v, m);
    hide Code, DecodeCw;
    assert s == c + (payload + t);
    DecodeInvertsCode(v, m, payload + t);
    ThreeParts(c, payload, t);
  }

  lemma ThreeParts(a: Bits, b: Bits, t: Bits)
    ensures (a + b + t)[|a|..|a| + |b|] == b && (a + b + t)[|a| + |b|..] == t
  {
  }

  /** decode_zero inverts encode_value_zero, including the + 1 that wraps to 0 in the raw field. */
  lemma ZeroEscapeRoundTrip(mapped: nat, su: Setup, t: Bits)
    requires su.Valid() && mapped < Pow2(su.width)
    ensures ZeroEscapeDecode(ZeroEscapeBits(mapped, su) + t, su) == Decoded(mapped, t)
  {
    hide DecodeCw, Code, ToBits, Pow2, U32;
    var s := ZeroEscapeBits(mapped, su) + t;
    if mapped < su.spill - 1 {
      assert s == Code(mapped + 1, su.par) + [] + t;
      CodeThenPayload(s, mapped + 1, su.par, [], t);
    } else {
      CodeThenPayload(s, 0, su.par, ToBits(U32(mapped + 1), su.width), t);
      ZeroOutlier(s, mapped, su, t, DecodeCw(s, su.par).used);
    }
  }

  lemma ZeroOutlier(s: Bits, mapped: nat, su: Setup, t: Bits, used: nat)
    requires su.Valid() && su.spill - 1 <= mapped < Pow2(su.width)
    requires DecodeCw(s, su.par) == Value(0, used) && |s| >= used + su.width
    requires s[used..used + su.width] == ToBits(U32(mapped + 1), su.width)
    requires s[used + su.width..] == t
    ensures ZeroEscapeDecode(s, su) == Decoded(mapped, t)
  {
    hide DecodeCw, Low, FromBits, ToBits, Pow2;
    FieldValue(s[used..used + su.width], U32(mapped + 1), su.width);
    RawFieldMinusOne(mapped, su.width);
  }

  lemma FieldValue(field: Bits, x: nat, n: nat)
    requires field == ToBits(x, n)
    ensures FromBits(field) == Low(x, n)
    ensures x < Pow2(n) ==> FromBits(field) == x
  {
    FromToBits(x, n);
  }

  lemma RawFieldMinusOne(mapped: nat, n: nat)
    requires 1 <= n <= 32 && mapped < Pow2(n)
    ensures RawFieldSub1(Low(U32(mapped + 1), n), n) == mapped
  {
    Pow2Word(n);
    if mapped + 1 == Pow2(n) {
      RawFieldWraps(n, U32(mapped + 1));
      MinusOneWraps(n);
    } else {
      LowSmall(mapped, n);
      LowSmall(mapped + 1, n);
    }
  }

  lemma RawFieldWraps(n: nat, field: nat)
    requires 1 <= n <= 32 && field == U32(Pow2(n))
    ensures Low(field, n) == 0
  {
    Pow2Word(n);
    LowOfAdded(0, n);
  }

  lemma MinusOneWraps(n: nat)
    requires 1 <= n <= 32
    ensures U32(0 - 1) == TWO_32 - 1 && Low(TWO_32 - 1, n) == Pow2(n) - 1
  {
    LowOfBelowWord(Pow2(n) - 1, n);
  }

  /** An excess below 2^width has an escape symbol the decoder expects, and its
      payload starts with a set bit among its first two unless it has only two. */
  lemma EscapeSymbolFits(x: nat, width: nat)
    requires 1 <= width <= 32 && x < Pow2(width)
    ensures var len := 2 * (EscapeSymOffset(x) + 1);
            && len <= EvenWidth(width)
            && x < Pow2(len)
            && (len > 2 ==> Down(x, len - 2) != 0)
  {
    if x > 0 {
      var l := ILog2(x);
      hide ILog2, Pow2, Down;
      if l >= width {
        Pow2Monotone(width, l);
      }
      Halved(l, width);
      Pow2Monotone(l + 1, 2 * (l / 2 + 1));
      DownSmall(x, 2 * (l / 2));
      Pow2Monotone(2 * (l / 2), l);
    }
  }

  lemma Halved(l: nat, width: nat)
    requires l < width
    ensures 2 * (l / 2) <= l < 2 * (l / 2 + 1) <= EvenWidth(width)
  {
  }

  /** decode_multi inverts encode_value_multi with none of its corruption checks firing. */
  lemma MultiEscapeRoundTrip(mapped: nat, su: Setup, t: Bits)
    requires su.Valid() && mapped < Pow2(su.width)
    ensures MultiEscapeDecode(MultiEscapeBits(mapped, su) + t, su) == Decoded(mapped, t)
  {
    hide DecodeCw, Code, ToBits, EscapeSymOffset, Pow2;
    var s := MultiEscapeBits(mapped, su) + t;
    if mapped < su.spill {
      assert s == Code(mapped, su.par) + [] + t;
      CodeThenPayload(s, mapped, su.par, [], t);
    } else {
      var x := mapped - su.spill;
      var offset := EscapeSymOffset(x);
      CodeThenPayload(s, su.spill + offset, su.par, ToBits(x, 2 * (offset + 1)), t);
      MultiOutlier(s, mapped, offset, su, t, DecodeCw(s, su.par).used);
    }
  }

  lemma MultiOutlier(s: Bits, mapped: nat, offset: nat, su: Setup, t: Bits, used: nat)
    requires su.Valid() && su.spill <= mapped < Pow2(su.width) && offset == EscapeSymOffset(mapped - su.spill)
    requires DecodeCw(s, su.par) == Value(su.spill + offset, used) && |s| >= used + 2 * (offset + 1)
    requires s[used..used + 2 * (offset + 1)] == ToBits(mapped - su.spill, 2 * (offset + 1))
    requires s[used + 2 * (offset + 1)..] == t
    ensures MultiEscapeDecode(s, su) == Decoded(mapped, t)
  {
    hide DecodeCw, Low, FromBits, ToBits, EscapeSymOffset, Pow2;
    EscapeSymbolFits(mapped - su.spill, su.width);
    FieldValue(s[used..used + 2 * (offset + 1)], mapped - su.spill, 2 * (offset + 1));
    ExcessIsSound(mapped, su);
  }

  lemma ExcessIsSound(mapped: nat, su: Setup)
    requires su.Valid() && su.spill <= mapped < Pow2(su.width)
    ensures var x := mapped - su.spill;
            !ExcessIsCorrupt(x, 2 * (EscapeSymOffset(x) + 1), su) && U32(x + su.spill) == mapped
  {
    hide EvenWidth, EscapeSymOffset, Down, Low, Pow2, IcuMaxSpill;
    EscapeSymbolFits(mapped - su.spill, su.width);
    Pow2Word(su.width);
    LowSmall(mapped, su.width);
  }

  lemma EscapeRoundTrip(mapped: nat, su: Setup, t: Bits)
    requires su.Valid() && mapped < Pow2(su.width)
    ensures EscapeDecode(EscapeBits(mapped, su) + t, su) == Decoded(mapped, t)
  {
    if su.zeroEscape { ZeroEscapeRoundTrip(mapped, su, t); } else { MultiEscapeRoundTrip(mapped, su, t); }
  }

  /** An escape sequence cut anywhere is rejected. */
  lemma CutEscape(s: Bits, t: Bits, mapped: nat, su: Setup)
    requires su.Valid() && mapped < Pow2(su.width) && t != [] && s + t == EscapeBits(mapped, su)
    ensures EscapeDecode(s, su) == Corrupt
  {
    hide DecodeCw, Code, ToBits, EscapeSymOffset, U32, Low, Pow2, FromBits;
    var normal := if su.zeroEscape then mapped < su.spill - 1 else mapped < su.spill;
    if normal {
      CutCodeWord(s, t, if su.zeroEscape then mapped + 1 else mapped, su.par);
    } else if su.zeroEscape {
      CutPayload(s, t, 0, su.par, ToBits(U32(mapped + 1), su.width));
    } else {
      var x := mapped - su.spill;
      var offset := EscapeSymOffset(x);
      CutPayload(s, t, su.spill + offset, su.par, ToBits(x, 2 * (offset + 1)));
    }
  }

  lemma CutPayload(s: Bits, t: Bits, v: nat, m: nat, payload: Bits)
    requires 0 < m < TWO_32 && t != [] && s + t == Code(v, m) + payload
    ensures var d := DecodeCw(s, m);
            d.NotEnoughBits? || (d == Value(v, |Code(v, m)|) && |s| < d.used + |payload|)
  {
    var c := Code(v, m);
    if |s| < |c| {
      assert (s + t)[..|c|] == c;
      assert s + t[..|c| - |s|] == c;
      CutCodeWord(s, t[..|c| - |s|], v, m);
    } else {
      assert s[..|c|] == (s + t)[..|c|] == c;
      assert s == c + s[|c|..];
      DecodeInvertsCode(v, m, s[|c|..]);
    }
  }

  // ----- encode_value and decode_value

  predicate Fits(value: nat, su: Setup) {
    RoundFwd(value, su.round) < Pow2(su.width)
  }

  /** The bits encode_value puts into the stream when data and model fit. */
  function ValueBits(data: nat, model: nat, su: Setup): (b: Bits)
    requires su.Valid()
    ensures |b| >= 1
  {
    EscapeBits(MapToPos(U32(RoundFwd(data, su.round) - RoundFwd(model, su.round)), su.width), su)
  }

  function DecodeValue(s: Bits, model: nat, su: Setup): (r: DecodeResult)
    requires su.Valid()
    ensures r.Decoded? ==> r.value < TWO_32
  {
    var d := EscapeDecode(s, su);
    if d.Corrupt? then Corrupt
    else
      var sum := U32(ReMapToPos(d.value) + RoundFwd(model, su.round));
      Decoded(RoundInv(Low(sum, su.width), su.round), d.rest)
  }

  /** The decoder returns the rounded value, whatever the stream holds after it, as long as
      its model rounds to the encoder's: the encoder may use unrounded neighbours. */
  lemma ValueRoundTrip(data: nat, model: nat, model': nat, su: Setup, t: Bits)
    requires su.Valid() && Fits(data, su) && Fits(model, su)
    requires RoundFwd(model', su.round) == RoundFwd(model, su.round)
    ensures DecodeValue(ValueBits(data, model, su) + t, model', su) == Decoded(Rounded(data, su.round), t)
  {
    hide EscapeBits, EscapeDecode, MapToPos, ReMapToPos, Low, U32, RoundFwd, Pow2;
    var difference := U32(RoundFwd(data, su.round) - RoundFwd(model, su.round));
    MapRoundTrip(RoundFwd(data, su.round), RoundFwd(model, su.round), su.width);
    MappedRoundTrip(MapToPos(difference, su.width), difference, su, t);
  }

  lemma MappedRoundTrip(mapped: nat, difference: nat, su: Setup, t: Bits)
    requires su.Valid() && mapped == MapToPos(difference, su.width)
    ensures EscapeDecode(EscapeBits(mapped, su) + t, su) == Decoded(mapped, t)
  {
    MapToPosIsFold(difference, su.width);
    EscapeRoundTrip(mapped, su, t);
  }

  lemma CutValue(s: Bits, t: Bits, data: nat, model: nat, model': nat, su: Setup)
    requires su.Valid() && t != [] && s + t == ValueBits(data, model, su)
    ensures DecodeValue(s, model', su) == Corrupt
  {
    var u := U32(RoundFwd(data, su.round) - RoundFwd(model, su.round));
    MapToPosIsFold(u, su.width);
    CutEscape(s, t, MapToPos(u, su.width), su);
  }

  /** At most two words are put into the stream per value. */
  lemma ValueBitsBound(data: nat, model: nat, su: Setup)
    requires su.Valid()
    ensures 1 <= |ValueBits(data, model, su)| <= 64
  {
    hide U32, RoundFwd, MapToPos, Fold, Low, Pow2, EscapeBits, IcuMaxSpill;
    var u := U32(RoundFwd(data, su.round) - RoundFwd(model, su.round));
    MapToPosIsFold(u, su.width);
    EscapeBitsBound(MapToPos(u, su.width), su);
  }

  lemma EscapeBitsBound(mapped: nat, su: Setup)
    requires su.Valid() && mapped < Pow2(su.width)
    ensures |EscapeBits(mapped, su)| <= 64
  {
    hide Code, ToBits, EscapeSymOffset, IcuMaxSpill, Pow2, U32, Down;
    if su.zeroEscape {
      CodableFits(if mapped < su.spill - 1 then mapped + 1 else 0, su.par, su.spill);
    } else if mapped < su.spill {
      CodableFits(mapped, su.par, su.spill);
    } else {
      EscapeSymbolFits(mapped - su.spill, su.width);
      CodableFits(su.spill + EscapeSymOffset(mapped - su.spill), su.par, su.spill);
    }
  }

  // ----- the updated model

  /** cmp_up_model16: 32-bit arithmetic, result cut to 16 bits. */
  function UpModel16(data: nat, model: nat, modelValue: nat, round: nat): nat
    requires modelValue <= MAX_MODEL_VALUE
  {
    var weightedData := U32(Rounded(data, round) * (MAX_MODEL_VALUE - modelValue));
    var weightedModel := U32(model * modelValue);
    Low(U32(weightedModel + weightedData) / MAX_MODEL_VALUE, 16)
  }

  /** cmp_up_model32: 64-bit arithmetic, result cut to 32 bits. */
  function UpModel32(data: nat, model: nat, modelValue: nat, round: nat): nat
    requires modelValue <= MAX_MODEL_VALUE
  {
    var weightedData := Rounded(data, round) * (MAX_MODEL_VALUE - modelValue);
    var weightedModel := model * modelValue;
    U32((weightedModel + weightedData) / MAX_MODEL_VALUE)
  }

  /** cmp_up_model for a field of the given width, stored back into that field. */
  function UpModel(data: nat, model: nat, modelValue: nat, round: nat, width: nat): (u: nat)
    requires modelValue <= MAX_MODEL_VALUE
    ensures u < Pow2(width)
  {
    Low(if width <= 16 then UpModel16(data, model, modelValue, round)
        else UpModel32(data, model, modelValue, round), width)
  }

  function Average(model: nat, data: nat, weight: nat): nat
    requires weight <= 16
  {
    (model * weight + data * (16 - weight)) / 16
  }

  lemma WeightedBelow(d: nat, m: nat, w: nat, p: nat)
    requires d < p && m < p && w <= 16
    ensures m * w + d * (16 - w) < 16 * p
  {
    MulMonotone(d, p - 1, 16 - w);
    MulMonotone(m, p - 1, w);
    assert (p - 1) * w + (p - 1) * (16 - w) == (p - 1) * 16;
  }

  lemma MulMonotone(a: nat, b: nat, c: nat)
    requires a <= b
    ensures a * c <= b * c
  {
  }

  /** No truncation ever happens: for values that fit their field the updated model
      is the weighted average of the model and the rounded data, rounded down. */
  lemma UpModelIsAverage(data: nat, model: nat, modelValue: nat, round: nat, width: nat)
    requires modelValue <= MAX_MODEL_VALUE && 1 <= width <= 32
    requires data < Pow2(width) && model < Pow2(width)
    ensures UpModel(data, model, modelValue, round, width)
            == Average(model, Rounded(data, round), modelValue)
  {
    hide UpModel, Rounded, Pow2, Low;
    Pow2Word(width);
    RoundedAgain(data, round);
    WeightedBelow(Rounded(data, round), model, modelValue, Pow2(width));
    UpModelByProducts(data, model, modelValue, round, width,
                      Rounded(data, round) * (16 - modelValue), model * modelValue);
  }

  lemma UpModelByProducts(data: nat, model: nat, modelValue: nat, round: nat, width: nat,
                          weightedData: nat, weightedModel: nat)
    requires modelValue <= MAX_MODEL_VALUE && 1 <= width <= 32
    requires weightedData == Rounded(data, round) * (16 - modelValue)
    requires weightedModel == model * modelValue
    requires weightedModel + weightedData < 16 * Pow2(width)
    ensures UpModel(data, model, modelValue, round, width) == (weightedModel + weightedData) / 16
  {
    hide Low, U32, Rounded, Pow2;
    AverageIsKept(weightedData, weightedModel, width);
  }

  lemma AverageIsKept(weightedData: nat, weightedModel: nat, width: nat)
    requires 1 <= width <= 32 && weightedModel + weightedData < 16 * Pow2(width)
    ensures width <= 16 ==>
              Low(Low(U32(U32(weightedModel) + U32(weightedData)) / 16, 16), width)
              == (weightedModel + weightedData) / 16
    ensures Low(U32((weightedModel + weightedData) / 16), width) == (weightedModel + weightedData) / 16
  {
    var average := (weightedModel + weightedData) / 16;
    Pow2Word(width);
    LowSmall(average, width);
    if width <= 16 {
      Pow2Values();
      Pow2Monotone(width, 16);
      LowSmall(average, 16);
    }
  }

  /** The encoder updates from the original value, the decoder from the rounded one: same model. */
  lemma UpModelOfRounded(data: nat, model: nat, modelValue: nat, round: nat, width: nat)
    requires modelValue <= MAX_MODEL_VALUE && data < TWO_32
    ensures UpModel(Rounded(data, round), model, modelValue, round, width)
            == UpModel(data, model, modelValue, round, width)
  {
    RoundedAgain(data, round);
  }
}
