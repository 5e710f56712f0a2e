/** The bit reader: a 64-bit register over bytes. */
module BitReader {
  import opened BitStrings
  import opened Golomb
  import opened Values

  datatype Status = Overflow | EndOfBuffer | AllReadIn | Unfinished

  const REG_BITS := 64
  const REG_MASK_PLUS_1 := 64
  const MAX_READ := 57

  /** Number of leading zeros; the whole length when no bit is set. */
  function LeadingZeros(b: Bits): (n: nat)
    ensures n <= |b|
  {
    if b == [] || b[0] then 0 else 1 + LeadingZeros(b[1..])
  }

  lemma {:induction false} LeadingZerosOfNot(b: Bits)
    ensures LeadingZeros(Not(b)) == LeadingOnes(b)
  {
    if b != [] && b[0] {
      LeadingZerosOfNot(b[1..]);
      assert Not(b)[1..] == Not(b[1..]);
    }
  }

  lemma {:induction false} LeadingOnesThenZeros(b: Bits, k: nat)
    ensures LeadingOnes(b + Zeros(k)) == LeadingOnes(b)
  {
    if b == [] {
      assert b + Zeros(k) == Zeros(k);
    } else if b[0] {
      assert (b + Zeros(k))[1..] == b[1..] + Zeros(k);
      LeadingOnesThenZeros(b[1..], k);
    }
  }

  lemma {:induction false} FromBitsLeadingZeros(k: nat, b: Bits)
    ensures FromBits(Zeros(k) + b) == FromBits(b)
  {
    ZerosValue(k);
    FromBitsConcat(Zeros(k), b);
    UpOfZero(|b|);
  }

  /** The 57 or fewer bits looked at, seen through the register's shifts. */
  lemma PeekedValue(container: Bits, consumed: nat, n: nat)
    requires |container| == REG_BITS && consumed < REG_BITS && n <= MAX_READ
    ensures |container[consumed..] + Zeros(n)| >= n
    ensures FromBits(ShiftRight(ShiftLeft(container, consumed), REG_BITS - n))
            == FromBits((container[consumed..] + Zeros(n))[..n])
    ensures consumed + n <= REG_BITS ==>
              FromBits(ShiftRight(ShiftLeft(container, consumed), REG_BITS - n)) == FromBits(container[consumed..][..n])
  {
    hide FromBits;
    var top := (container[consumed..] + Zeros(n))[..n];
    assert ShiftRight(ShiftLeft(container, consumed), REG_BITS - n) == Zeros(REG_BITS - n) + top;
    FromBitsLeadingZeros(REG_BITS - n, top);
    if consumed + n <= REG_BITS {
      assert top == container[consumed..][..n];
    }
  }

  /** Of the register shifted right, only the field's own bits matter. */
  lemma FieldOfRegister(container: Bits, consumed: nat, n: nat)
    requires |container| == REG_BITS && 1 <= n <= 32 && consumed + n <= REG_BITS
    ensures var shifted := FromBits(ShiftRight(container, REG_BITS - consumed - n));
            Low(Low(shifted, 32), n) == FromBits(container[consumed..][..n])
  {
    hide FromBits, Low, Up, Down, Pow2;
    var field, before := container[consumed..][..n], container[..consumed];
    var k := REG_BITS - consumed - n;
    assert ShiftRight(container, k) == Zeros(k) + (before + field);
    FromBitsLeadingZeros(k, before + field);
    FromBitsConcat(before, field);
    DownOfUp(FromBits(before), FromBits(field), n);
    LowOfLow(FromBits(before + field), n, 32);
  }

  /** Subtracting one before or after cutting to the field's width makes no difference. */
  lemma SubOneThenMask(x: nat, n: nat)
    requires x < TWO_32 && 1 <= n <= 32
    ensures Low(U32(x - 1), n) == RawFieldSub1(Low(x, n), n)
  {
    hide Low;
    var hi, lo := Down(x, n), Low(x, n);
    UpDownLow(x, n);
    if lo > 0 {
      DownOfUp(hi, lo - 1, n);
      LowSmall(lo - 1, n);
    } else if hi > 0 {
      UpNext(hi - 1, n);
      DownOfUp(hi - 1, Pow2(n) - 1, n);
      MinusOneWraps(n);
    } else {
      UpOfZero(n);
    }
  }

  class BitDecoder {
    const buf: Bits
    var container: Bits
    var consumed: nat
    var cursor: nat
    var limit: nat

    /** A buffer shorter than the register is right-aligned in it. */
    ghost function Padded(): (p: Bits)
      ensures |p| == if |buf| < REG_BITS then REG_BITS else |buf|
      ensures |buf| >= REG_BITS ==> p == buf
    {
      if |buf| < REG_BITS then Zeros(REG_BITS - |buf|) + buf else buf
    }

    ghost predicate Valid()
      reads this
    {
      && |container| == REG_BITS
      && cursor <= limit
      && 8 * limit + REG_BITS == |Padded()|
      && container == Padded()[8 * cursor..8 * cursor + REG_BITS]
    }

    /** More bits were consumed than there are. */
    ghost predicate Over()
      reads this
    {
      consumed > REG_BITS
    }

    /** The unread bits in the register. */
    ghost function Loaded(): Bits
      requires Valid() && !Over()
      reads this
    {
      container[consumed..]
    }

    /** The unread bits of the stream. */
    ghost function Rest(): Bits
      requires Valid() && !Over()
      reads this
    {
      Padded()[8 * cursor + consumed..]
    }

    /** Enough bits are loaded for the next read, or all there are. */
    ghost predicate Ready()
      requires Valid() && !Over()
      reads this
    {
      |Loaded()| >= MAX_READ || Loaded() == Rest()
    }

    lemma LoadedIsPrefix()
      requires Valid() && !Over()
      ensures |Loaded()| == REG_BITS - consumed <= |Rest()| && Rest()[..|Loaded()|] == Loaded()
      ensures Loaded() == Rest() <==> cursor == limit
    {
    }

    lemma PrefixOfRest(n: nat)
      requires Valid() && !Over() && n <= |Loaded()|
      ensures n <= |Rest()| && Rest()[..n] == Loaded()[..n]
    {
      hide Padded;
      LoadedIsPrefix();
      assert Loaded()[..n] == Rest()[..|Loaded()|][..n] == Rest()[..n];
    }

    lemma BufferIsPadded()
      requires Valid() && cursor < limit
      ensures Padded() == buf
    {
    }

    /** bit_init_decoder, for buffers of any number of bytes. */
    constructor (buffer: Bits)
      requires |buffer| % 8 == 0
      ensures Valid() && !Over() && Ready()
      ensures buf == buffer && Rest() == buffer
    {
      buf := buffer;
      cursor := 0;
      if |buffer| < 8 {
        consumed := REG_BITS;
        container := Zeros(REG_BITS);
        limit := 0;
      } else if |buffer| >= REG_BITS {
        consumed := 0;
        container := buffer[..REG_BITS];
        limit := |buffer| / 8 - 8;
      } else {
        consumed := REG_BITS - |buffer|;
        container := ShiftRight(buffer + Zeros(REG_BITS - |buffer|), REG_BITS - |buffer|);
        limit := 0;
      }
    }

    /** bit_peek_bits. The shift amount is masked to six bits, so when the register is used
        up what is seen is meaningless; bits beyond the loaded ones read as zeros. */
    method PeekBits(n: nat) returns (value: nat)
      requires Valid() && 1 <= n <= MAX_READ
      ensures value < Pow2(n)
      ensures consumed < REG_BITS ==> value == FromBits((Loaded() + Zeros(n))[..n])
      ensures consumed + n <= REG_BITS ==> value == FromBits(Loaded()[..n])
    {
      hide FromBits, Pow2;
      value := FromBits(ShiftRight(ShiftLeft(container, consumed % REG_MASK_PLUS_1), REG_BITS - n));
      PeekedValue(container, consumed % REG_MASK_PLUS_1, n);
    }

    /** bit_peek_leading_ones. */
    method PeekLeadingOnes() returns (n: nat)
      requires Valid()
      ensures n <= REG_BITS
      ensures consumed < REG_BITS ==> n == LeadingOnes(Loaded())
    {
      hide LeadingOnes, LeadingZeros;
      var shifted := ShiftLeft(container, consumed % REG_MASK_PLUS_1);
      n := LeadingZeros(Not(shifted));
      LeadingZerosOfNot(shifted);
      LeadingOnesThenZeros(container[consumed % REG_MASK_PLUS_1..], consumed % REG_MASK_PLUS_1);
    }

    method ConsumeBits(n: nat)
      modifies this`consumed
      ensures consumed == old(consumed) + n
    {
      consumed := consumed + n;
    }

    /** bit_read_bits. */
    method ReadBits(n: nat) returns (value: nat)
      requires Valid() && 1 <= n <= MAX_READ
      modifies this`consumed
      ensures Valid() && consumed == old(consumed) + n
      ensures value < Pow2(n)
      ensures !Over() ==> n <= |old(Rest())| && value == FromBits(old(Rest())[..n]) && Rest() == old(Rest())[n..]
      ensures !Over() ==> value == FromBits(old(Loaded())[..n])
      ensures !old(Over()) && old(Ready()) ==> (Over() <==> n > |old(Rest())|)
    {
      hide FromBits, Pow2;
      value := PeekBits(n);
      if consumed + n <= REG_BITS {
        PrefixOfRest(n);
      }
      ConsumeBits(n);
    }

    /** bit_read_bits32_sub_1. */
    method ReadBits32Sub1(n: nat) returns (value: nat)
      requires Valid() && 1 <= n <= 32
      modifies this`consumed
      ensures Valid() && consumed == old(consumed) + n
      ensures value < Pow2(n)
      ensures !Over() ==>
                && n <= |old(Rest())| && Rest() == old(Rest())[n..]
                && value == RawFieldSub1(FromBits(old(Rest())[..n]), n)
      ensures !old(Over()) && old(Ready()) ==> (Over() <==> n > |old(Rest())|)
    {
      hide FromBits, Pow2, U32, Low, RawFieldSub1;
      var shiftBits := (REG_BITS - consumed - n) % REG_MASK_PLUS_1;
      var shifted := FromBits(ShiftRight(container, shiftBits));
      var unmasked: int := Low(shifted, 32);
      ghost var before := consumed;
      ConsumeBits(n);
      value := Low(U32(unmasked - 1), n);
      Pow2Values();
      SubOneThenMask(unmasked, n);
      if !Over() {
        FieldOfRegister(container, before, n);
        assert Padded()[8 * cursor + before..][..n] == container[before..][..n];
      }
    }

    /** bit_refill. The position in the stream is kept; the register is read from inside the
        buffer only; the status tells how much is loaded afterwards. */
    method Refill() returns (status: Status)
      requires Valid()
      modifies this`container, this`consumed, this`cursor
      ensures Valid()
      ensures status == Overflow <==> old(Over())
      ensures Over() == old(Over())
      ensures 8 * cursor + consumed == old(8 * cursor + consumed)
      ensures !Over() ==> Rest() == old(Rest()) && Ready()
      ensures status == Unfinished ==> |Loaded()| >= MAX_READ
      ensures status == EndOfBuffer || status == AllReadIn ==> Loaded() == Rest()
      ensures status == AllReadIn <==> !old(Over()) && old(Rest()) == []
    {
      hide Padded, Loaded;
      var bytesConsumed := consumed / 8;
      if consumed > REG_BITS {
        return Overflow;
      }
      LoadedIsPrefix();
      if cursor + bytesConsumed < limit {
        BufferIsPadded();
        cursor := cursor + bytesConsumed;
        container := buf[8 * cursor..8 * cursor + REG_BITS];
        consumed := consumed % 8;
        LoadedIsPrefix();
        return Unfinished;
      }
      if cursor == limit {
        if consumed == REG_BITS {
          return AllReadIn;
        }
        return EndOfBuffer;
      }
      BufferIsPadded();
      assert consumed >= 8 * bytesConsumed;
      consumed := consumed - (limit - cursor) * 8;
      cursor := limit;
      container := buf[8 * cursor..8 * cursor + REG_BITS];
      LoadedIsPrefix();
      return EndOfBuffer;
    }

    /** bit_end_of_stream: exactly when every bit was read. */
    predicate EndOfStream()
      requires Valid()
      reads this
      ensures EndOfStream() <==> !Over() && Rest() == []
    {
      cursor == limit && consumed == REG_BITS
    }
  }
}
