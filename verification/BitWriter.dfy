/** The bit writer: put_n_bits32 on 32-bit words. */
module BitWriter {
  import opened BitStrings
  import opened Results

  // ----- what a write does to a buffer

  /** bits were written at position start and nothing else changed. */
  predicate Written(before: Bits, after: Bits, start: nat, bits: Bits) {
    && start + |bits| <= |before|
    && after == before[..start] + bits + before[start + |bits|..]
  }

  /** At most the bits from start up to limit changed. */
  predicate Spoiled(before: Bits, after: Bits, start: nat, limit: nat) {
    && |after| == |before|
    && forall i :: 0 <= i < |before| && (i < start || limit <= i) ==> after[i] == before[i]
  }

  /** The outcome of putting bits at position start of a buffer that may be used up to limit:
      without a buffer only the length is computed; with one, the bits are either all there
      or the buffer is too small, and then nothing outside the usable part changed. */
  predicate Put(noBuffer: bool, before: Bits, after: Bits, start: nat, bits: Bits, limit: nat, r: Result<nat>) {
    if noBuffer then r == Ok(start + |bits|) && after == before
    else if start + |bits| <= limit then r == Ok(start + |bits|) && Written(before, after, start, bits)
    else r == Err(SmallBuffer) && Spoiled(before, after, start, limit)
  }

  lemma WrittenTwice(a: Bits, b: Bits, c: Bits, start: nat, x: Bits, y: Bits)
    requires Written(a, b, start, x) && Written(b, c, start + |x|, y)
    ensures Written(a, c, start, x + y)
  {
    var mid := start + |x|;
    assert b[..mid] == a[..start] + x;
    assert b[mid + |y|..] == a[mid + |y|..];
    assert a[..start] + x + y + a[mid + |y|..] == a[..start] + (x + y) + a[start + |x + y|..];
  }

  lemma WrittenSpoils(a: Bits, b: Bits, start: nat, x: Bits, limit: nat)
    requires Written(a, b, start, x) && start + |x| <= limit
    ensures Spoiled(a, b, start, limit)
  {
  }

  /** Putting one string after another is putting their concatenation. */
  lemma PutThenPut(noBuffer: bool, a: Bits, b: Bits, c: Bits, start: nat, x: Bits, y: Bits, limit: nat, r: Result<nat>)
    requires Put(noBuffer, a, b, start, x, limit, Ok(start + |x|))
    requires Put(noBuffer, b, c, start + |x|, y, limit, r)
    ensures Put(noBuffer, a, c, start, x + y, limit, r)
  {
    if !noBuffer {
      WrittenSpoils(a, b, start, x, limit);
      if r.Ok? {
        hide Spoiled;
        WrittenTwice(a, b, c, start, x, y);
      }
    }
  }

  // ----- words

  lemma {:induction false} ToBitsSuffix(v: nat, n: nat, k: nat)
    requires k <= n
    ensures ToBits(v, n)[n - k..] == ToBits(v, k)
  {
    if k > 0 {
      ToBitsSuffix(v / 2, n - 1, k - 1);
    }
  }

  /** The value of the first masked store: the field's bits, cut at the end of the word. */
  function FirstWord(w: Bits, value: nat, shiftLeft: nat, bitsLeft: nat): (r: Bits)
    requires |w| == 32 && shiftLeft <= 32 && bitsLeft <= 32
    ensures |r| == 32
  {
    var mask := ShiftRight(ShiftLeft(Ones(32), shiftLeft), bitsLeft);
    Or(And(w, Not(mask)), ShiftRight(ShiftLeft(ToBits(value, 32), shiftLeft), bitsLeft))
  }

  /** The value of the second masked store: the bits that did not fit the first word. */
  function SecondWord(w: Bits, value: nat, bitsRight: nat): (r: Bits)
    requires |w| == 32 && bitsRight <= 32
    ensures |r| == 32
  {
    var mask := ShiftLeft(Ones(32), bitsRight);
    Or(And(w, Not(mask)), ShiftLeft(ToBits(value, 32), bitsRight))
  }

  function Min(a: nat, b: nat): nat {
    if a <= b then a else b
  }

  lemma ShiftedBit(v: Bits, left: nat, right: nat, i: nat)
    requires |v| == 32 && left <= 32 && right <= 32 && i < 32
    ensures ShiftRight(ShiftLeft(v, left), right)[i] == (right <= i < 32 + right - left && v[i - right + left])
    ensures ShiftLeft(v, left)[i] == (i + left < 32 && v[i + left])
  {
  }

  lemma FieldBit(value: nat, n: nat, j: nat)
    requires j < n <= 32
    ensures ToBits(value, 32)[32 - n + j] == ToBits(value, n)[j]
  {
    ToBitsSuffix(value, 32, n);
    assert ToBits(value, 32)[32 - n..][j] == ToBits(value, n)[j];
  }

  lemma FirstWordBit(w: Bits, value: nat, n: nat, bitsLeft: nat, i: nat)
    requires |w| == 32 && 1 <= n <= 32 && bitsLeft < 32 && i < 32
    ensures FirstWord(w, value, 32 - n, bitsLeft)[i]
            == if i < bitsLeft || i >= bitsLeft + n then w[i] else ToBits(value, n)[i - bitsLeft]
  {
    hide ToBits, ShiftRight, ShiftLeft;
    ShiftedBit(Ones(32), 32 - n, bitsLeft, i);
    ShiftedBit(ToBits(value, 32), 32 - n, bitsLeft, i);
    if bitsLeft <= i < bitsLeft + n {
      FieldBit(value, n, i - bitsLeft);
    }
  }

  lemma SecondWordBit(w: Bits, value: nat, n: nat, bitsLeft: nat, i: nat)
    requires |w| == 32 && 1 <= n <= 32 && bitsLeft < 32 < bitsLeft + n && i < 32
    ensures SecondWord(w, value, 64 - bitsLeft - n)[i]
            == if i >= bitsLeft + n - 32 then w[i] else ToBits(value, n)[32 - bitsLeft + i]
  {
    hide ToBits, ShiftRight, ShiftLeft;
    ShiftedBit(Ones(32), 64 - bitsLeft - n, 0, i);
    ShiftedBit(ToBits(value, 32), 64 - bitsLeft - n, 0, i);
    if i < bitsLeft + n - 32 {
      FieldBit(value, n, 32 - bitsLeft + i);
    }
  }

  lemma FirstWordBits(w: Bits, value: nat, n: nat, bitsLeft: nat)
    requires |w| == 32 && 1 <= n <= 32 && bitsLeft < 32
    ensures var k := Min(n, 32 - bitsLeft);
            FirstWord(w, value, 32 - n, bitsLeft) == w[..bitsLeft] + ToBits(value, n)[..k] + w[bitsLeft + k..]
  {
    hide ToBits, FirstWord;
    var k := Min(n, 32 - bitsLeft);
    var r, expected := FirstWord(w, value, 32 - n, bitsLeft), w[..bitsLeft] + ToBits(value, n)[..k] + w[bitsLeft + k..];
    forall i | 0 <= i < 32 ensures r[i] == expected[i] {
      FirstWordBit(w, value, n, bitsLeft, i);
    }
    assert r == expected;
  }

  lemma SecondWordBits(w: Bits, value: nat, n: nat, bitsLeft: nat)
    requires |w| == 32 && 1 <= n <= 32 && bitsLeft < 32 < bitsLeft + n
    ensures SecondWord(w, value, 64 - bitsLeft - n) == ToBits(value, n)[32 - bitsLeft..] + w[bitsLeft + n - 32..]
  {
    hide ToBits, SecondWord;
    var r, expected := SecondWord(w, value, 64 - bitsLeft - n),
      ToBits(value, n)[32 - bitsLeft..] + w[bitsLeft + n - 32..];
    forall i | 0 <= i < 32 ensures r[i] == expected[i] {
      SecondWordBit(w, value, n, bitsLeft, i);
    }
    assert r == expected;
  }

  function LoadWord(mem: array<bool>, k: nat): (w: Bits)
    requires 32 * (k + 1) <= mem.Length
    reads mem
    ensures |w| == 32 && w == WordAt(mem[..], k)
  {
    mem[32 * k..32 * k + 32]
  }

  method StoreWord(mem: array<bool>, k: nat, w: Bits)
    requires 32 * (k + 1) <= mem.Length && |w| == 32
    modifies mem
    ensures Written(old(mem[..]), mem[..], 32 * k, w)
  {
    StoreBits(mem, 32 * k, w);
  }

  /** memcpy into a buffer. */
  method StoreBits(mem: array<bool>, start: nat, bits: Bits)
    requires start + |bits| <= mem.Length
    modifies mem
    ensures Written(old(mem[..]), mem[..], start, bits)
  {
    forall i | 0 <= i < |bits| {
      mem[start + i] := bits[i];
    }
  }

  function Content(mem: array?<bool>): Bits
    reads mem
  {
    if mem == null then [] else mem[..]
  }

  function WordAt(a: Bits, k: nat): (w: Bits)
    requires 32 * (k + 1) <= |a|
    ensures |w| == 32
  {
    a[32 * k..32 * k + 32]
  }

  lemma OneWordWritten(a: Bits, b: Bits, k: nat, left: nat, bits: Bits, w: Bits)
    requires 32 * (k + 1) <= |a| && left + |bits| <= 32
    requires w == WordAt(a, k)[..left] + bits + WordAt(a, k)[left + |bits|..]
    requires Written(a, b, 32 * k, w)
    ensures Written(a, b, 32 * k + left, bits)
  {
    var p := 32 * k;
    assert a[p..p + 32][..left] == a[p..p + left];
    assert a[p..p + 32][left + |bits|..] + a[p + 32..] == a[p + left + |bits|..];
    assert a[..p] + a[p..p + left] == a[..p + left];
  }

  /** The field lies within one word. */
  lemma Unsegmented(a: Bits, b: Bits, value: nat, n: nat, k: nat, left: nat)
    requires 1 <= n && left + n <= 32 && 32 * (k + 1) <= |a|
    requires Written(a, b, 32 * k, FirstWord(WordAt(a, k), value, 32 - n, left))
    ensures Written(a, b, 32 * k + left, ToBits(value, n))
  {
    hide ToBits, FirstWord, Written;
    FirstWordBits(WordAt(a, k), value, n, left);
    assert ToBits(value, n)[..n] == ToBits(value, n);
    OneWordWritten(a, b, k, left, ToBits(value, n), FirstWord(WordAt(a, k), value, 32 - n, left));
  }

  /** The field is split over two words. */
  lemma Segmented(a: Bits, b: Bits, c: Bits, value: nat, n: nat, k: nat, left: nat)
    requires n <= 32 && left < 32 < left + n && 32 * (k + 2) <= |a| == |b|
    requires Written(a, b, 32 * k, FirstWord(WordAt(a, k), value, 32 - n, left))
    requires Written(b, c, 32 * (k + 1), SecondWord(WordAt(b, k + 1), value, 64 - left - n))
    ensures Written(a, c, 32 * k + left, ToBits(value, n))
  {
    hide ToBits, FirstWord, SecondWord, Written;
    var bits := ToBits(value, n);
    FirstWordBits(WordAt(a, k), value, n, left);
    OneWordWritten(a, b, k, left, bits[..32 - left], FirstWord(WordAt(a, k), value, 32 - n, left));
    SecondWordBits(WordAt(b, k + 1), value, n, left);
    assert WordAt(b, k + 1)[..0] + bits[32 - left..] == bits[32 - left..];
    OneWordWritten(b, c, k + 1, 0, bits[32 - left..], SecondWord(WordAt(b, k + 1), value, 64 - left - n));
    WrittenTwice(a, b, c, 32 * k + left, bits[..32 - left], bits[32 - left..]);
    assert bits == bits[..32 - left] + bits[32 - left..];
  }

  lemma WordPosition(offset: nat, end: nat, limit: nat)
    requires offset < end <= limit && limit % 32 == 0
    ensures offset == 32 * (offset / 32) + offset % 32
    ensures 32 * (offset / 32 + 1) <= limit
    ensures end > 32 * (offset / 32 + 1) ==> 32 * (offset / 32 + 2) <= limit
  {
  }

  /** put_n_bits32: the n low bits of value go to position bitOffset. The buffer is a
      multiple of 32 bits long, as cmp_stream_size_to_bits makes it. */
  method PutNBits32(value: nat, nBits: nat, bitOffset: nat, mem: array?<bool>, maxStreamLen: nat)
    returns (r: Result<nat>)
    requires mem != null ==> maxStreamLen % 32 == 0 && maxStreamLen <= mem.Length
    modifies mem
    ensures nBits > 32 ==> r == Err(IntDecoder) && Content(mem) == old(Content(mem))
    ensures nBits == 0 ==> r == Ok(bitOffset) && Content(mem) == old(Content(mem))
    ensures 1 <= nBits <= 32 ==>
              Put(mem == null, old(Content(mem)), Content(mem), bitOffset, ToBits(value, nBits), maxStreamLen, r)
    ensures r == Err(SmallBuffer) ==> Content(mem) == old(Content(mem))
  {
    hide ToBits, FirstWord, SecondWord, Written, WordAt;
    var bitsLeft := bitOffset % 32;
    var bitsRight := 64 - bitsLeft - nBits;
    var shiftLeft := 32 - nBits;
    var streamLen := nBits + bitOffset;
    if shiftLeft < 0 {
      return Err(IntDecoder);
    }
    if nBits == 0 {
      return Ok(streamLen);
    }
    if mem == null {
      return Ok(streamLen);
    }
    if streamLen > maxStreamLen {
      return Err(SmallBuffer);
    }
    var k := bitOffset / 32;
    WordPosition(bitOffset, streamLen, maxStreamLen);
    ghost var before := mem[..];
    var w := FirstWord(LoadWord(mem, k), value, shiftLeft, bitsLeft);
    StoreWord(mem, k, w);
    if bitsRight < 32 {
      ghost var between := mem[..];
      w := SecondWord(LoadWord(mem, k + 1), value, bitsRight);
      StoreWord(mem, k + 1, w);
      Segmented(before, between, mem[..], value, nBits, k, bitsLeft);
    } else {
      Unsegmented(before, mem[..], value, nBits, k, bitsLeft);
    }
    return Ok(streamLen);
  }
}
