/** The Rice, Golomb and unary codes. */
module Golomb {
  // Two encoders, three decoders, and the self-delimiting code they all implement.

  import opened BitStrings

  /** floor(log2(x)). */
  function ILog2(x: nat): (k: nat)
    requires x > 0
    ensures Pow2(k) <= x < Pow2(k + 1)
  {
    if x == 1 then 0 else 1 + ILog2(x / 2)
  }

  function BitAnd(a: nat, b: nat): nat
  {
    if a == 0 || b == 0 then 0
    else 2 * BitAnd(a / 2, b / 2) + (if a % 2 == 1 && b % 2 == 1 then 1 else 0)
  }

  function BitOr(a: nat, b: nat): nat
  {
    if a == 0 then b
    else if b == 0 then a
    else 2 * BitOr(a / 2, b / 2) + (if a % 2 == 1 || b % 2 == 1 then 1 else 0)
  }

  /** The bit trick of the source; like the source it answers true for 0. */
  predicate IsAPowOf2(v: nat) {
    BitAnd(v, U32(v - 1)) == 0
  }

  lemma {:induction false} BitAndSelf(x: nat)
    ensures BitAnd(x, x) == x
  {
    if x > 0 {
      BitAndSelf(x / 2);
    }
  }

  lemma {:induction false} PowOf2Test(v: nat)
    requires 0 < v < TWO_32
    ensures IsAPowOf2(v) <==> v == Pow2(ILog2(v))
  {
    if v > 1 {
      PowOf2Test(v / 2);
      assert Pow2(ILog2(v)) == 2 * Pow2(ILog2(v / 2));
      if v % 2 == 0 {
        assert (v - 1) / 2 == v / 2 - 1;
      } else {
        BitAndSelf(v / 2);
        assert (v - 1) / 2 == v / 2;
      }
    }
  }

  lemma {:induction false} BitAndLow(v: nat, k: nat)
    ensures BitAnd(v, Pow2(k) - 1) == Low(v, k)
  {
    if k > 0 {
      BitAndLow(v / 2, k - 1);
      assert (Pow2(k) - 1) / 2 == Pow2(k - 1) - 1;
    }
  }

  lemma {:induction false} BitOrDisjoint(x: nat, r: nat, k: nat)
    requires r < Pow2(k)
    ensures BitOr(Up(x, k), r) == Up(x, k) + r
  {
    if k > 0 {
      BitOrDisjoint(x, r / 2, k - 1);
    }
  }

  // ----- arithmetic with the Golomb parameter, by repeated addition and subtraction

  function Times(q: nat, m: nat): nat {
    if q == 0 then 0 else Times(q - 1, m) + m
  }

  function Quotient(v: nat, m: nat): nat
    requires m > 0
  {
    if v < m then 0 else Quotient(v - m, m) + 1
  }

  function Rest(v: nat, m: nat): (r: nat)
    requires m > 0
    ensures r < m
  {
    if v < m then v else Rest(v - m, m)
  }

  /** These are the machine's multiplication, division and remainder. */
  lemma {:induction false} TimesIsProduct(q: nat, m: nat)
    ensures Times(q, m) == q * m
  {
    if q > 0 {
      TimesIsProduct(q - 1, m);
    }
  }

  lemma {:induction false} QuotientIsDivision(v: nat, m: nat)
    requires m > 0
    ensures Quotient(v, m) == v / m && Rest(v, m) == v % m
  {
    QuotientRest(v, m);
    TimesIsProduct(Quotient(v, m), m);
    DivisionUnique(v, m, Quotient(v, m), Rest(v, m));
  }

  lemma DivisionUnique(v: nat, m: nat, q: nat, r: nat)
    requires m > 0 && r < m && v == q * m + r
    ensures v / m == q && v % m == r
  {
    var d := v / m - q;
    assert v == v / m * m + v % m;
    assert d * m == r - v % m;
    assert d < 1 by { if d >= 1 { MulAtLeast(d, m); } }
    assert d > -1 by { if d <= -1 { MulAtLeast(-d, m); } }
  }

  lemma MulAtLeast(d: int, m: nat)
    requires d >= 1
    ensures d * m >= m
  {
  }

  lemma {:induction false} QuotientRest(v: nat, m: nat)
    requires m > 0
    ensures v == Times(Quotient(v, m), m) + Rest(v, m)
  {
    if v >= m {
      QuotientRest(v - m, m);
    }
  }

  lemma {:induction false} QuotientUnique(v: nat, m: nat, q: nat, r: nat)
    requires m > 0 && r < m && v == Times(q, m) + r
    ensures Quotient(v, m) == q && Rest(v, m) == r
  {
    if q > 0 {
      QuotientUnique(v - m, m, q - 1, r);
    }
  }

  /** Dividing by a power of two is a shift. */
  lemma QuotientOfPow2(v: nat, k: nat)
    ensures Quotient(v, Pow2(k)) == Down(v, k) && Rest(v, Pow2(k)) == Low(v, k)
  {
    UpDownLow(v, k);
    UpIsTimes(Down(v, k), k);
    QuotientUnique(v, Pow2(k), Down(v, k), Low(v, k));
  }

  lemma {:induction false} UpIsTimes(x: nat, s: nat)
    ensures Up(x, s) == Times(x, Pow2(s))
  {
    if x == 0 {
      UpOfZero(s);
    } else {
      UpIsTimes(x - 1, s);
      UpNext(x - 1, s);
    }
  }

  // ----- the encoders

  datatype CodeWord = CodeWord(bits: nat, len: nat)

  /** Members of the first group: 2^(log2 m + 1) - m. */
  function Cutoff(m: nat): (c: nat)
    requires m > 0
    ensures 1 <= c <= Pow2(ILog2(m)) <= m && c + m == Pow2(ILog2(m) + 1)
  {
    Shl32Small(ILog2(m)) - m
  }

  /** 2 << k, for the parameters the codec accepts. */
  function Shl32Small(k: nat): (r: nat)
    ensures r == Pow2(k + 1)
  {
    2 * Pow2(k)
  }

  function RiceEncoder(value: nat, m: nat, log2M: nat): CodeWord
    requires m > 0
  {
    var q := Down(value, log2M);
    var qc := U32(Shl32(1, q) - 1);
    var r := BitAnd(value, m - 1);
    var rl := log2M + 1;
    CodeWord(BitOr(Shl32(qc, rl % 32), r), rl + q)
  }

  function GolombEncoder(value: nat, m: nat, log2M: nat): CodeWord
    requires m > 0 && log2M == ILog2(m)
  {
    var len := log2M + 1;
    var cutoff := Cutoff(m);
    if value < cutoff then CodeWord(value, len)
    else
      var g := Quotient(value - cutoff, m);
      var r: int := value - cutoff - Times(g, m);
      var gc := U32(Shl32(1, g % 32) - 1);
      CodeWord(U32(Shl32(gc, (len + 1) % 32) + 2 * cutoff + r), len + 1 + g)
  }

  /** The encoder configure_encoder_setup selects. */
  function GenerateCw(value: nat, m: nat): CodeWord
    requires m > 0
  {
    if IsAPowOf2(m) then RiceEncoder(value, m, ILog2(m)) else GolombEncoder(value, m, ILog2(m))
  }

  // ----- the code both halves implement: unary quotient, truncated binary remainder

  function Remainder(r: nat, m: nat): (b: Bits)
    requires m > 0 && r < m
  {
    if r < Cutoff(m) then ToBits(r, ILog2(m)) else ToBits(r + Cutoff(m), ILog2(m) + 1)
  }

  function Code(v: nat, m: nat): (b: Bits)
    requires m > 0
    ensures |b| >= 1
  {
    Ones(Quotient(v, m)) + [false] + Remainder(Rest(v, m), m)
  }

  lemma CodeAt(v: nat, m: nat, q: nat, r: nat)
    requires m > 0 && r < m && v == Times(q, m) + r
    ensures Code(v, m) == Ones(q) + [false] + Remainder(r, m)
  {
    QuotientUnique(v, m, q, r);
  }

  /** A value of the first group. */
  lemma CodeOfFirstGroup(v: nat, m: nat)
    requires m > 0 && v < Cutoff(m)
    ensures Code(v, m) == [false] + ToBits(v, ILog2(m))
  {
    CodeAt(v, m, 0, v);
    assert Ones(0) + [false] == [false];
  }

  /** A value of a later group: its offset in the group decides the quotient. */
  lemma CodeOfLaterGroup(v: nat, m: nat, g: nat, r: nat)
    requires m > 0 && r < m && v == Cutoff(m) + Times(g, m) + r
    ensures Code(v, m) == if r < m - Cutoff(m)
                          then Ones(g) + [false] + ToBits(r + 2 * Cutoff(m), ILog2(m) + 1)
                          else Ones(g + 1) + [false] + ToBits(r + Cutoff(m) - m, ILog2(m))
  {
    hide Code, Cutoff, ILog2, ToBits;
    var c := Cutoff(m);
    if r < m - c {
      CodeAt(v, m, g, r + c);
    } else {
      CodeAt(v, m, g + 1, r + c - m);
    }
  }

  /** 2 * cutoff + r, on log2 m + 2 bits, is the end of a code word of a later group. */
  lemma GroupTail(r: nat, m: nat)
    requires m > 0 && r < m
    ensures var k, c := ILog2(m), Cutoff(m);
            && 2 * c + r < Pow2(k + 2)
            && ToBits(2 * c + r, k + 2) == if r < m - c then [false] + ToBits(r + 2 * c, k + 1)
                                           else [true, false] + ToBits(r + c - m, k)
  {
    hide Cutoff, ILog2, Pow2, ToBits;
    TailBits(r, m, ILog2(m), Cutoff(m));
  }

  lemma TailBits(r: nat, m: nat, k: nat, c: nat)
    requires r < m && 1 <= c <= Pow2(k) <= m && c + m == Pow2(k + 1)
    ensures 2 * c + r < Pow2(k + 2)
    ensures r < m - c ==> ToBits(2 * c + r, k + 2) == [false] + ToBits(r + 2 * c, k + 1)
    ensures r >= m - c ==> ToBits(2 * c + r, k + 2) == [true, false] + ToBits(r + c - m, k)
  {
    DoubledPow2(k);
    hide Pow2, ToBits;
    if r < m - c {
      ZeroInFront(2 * c + r, k + 1);
    } else {
      var x := r + c - m;
      assert Pow2(k + 1) + x == 2 * c + r;
      OneThenZero(x, k);
    }
  }

  lemma DoubledPow2(k: nat)
    ensures Pow2(k + 2) == 2 * Pow2(k + 1) && Pow2(k + 1) == 2 * Pow2(k)
  {
  }

  lemma OneThenZero(x: nat, k: nat)
    requires x < Pow2(k)
    ensures ToBits(Pow2(k + 1) + x, k + 2) == [true, false] + ToBits(x, k)
  {
    hide ToBits;
    OneInFront(x, k + 1);
    ZeroInFront(x, k);
    assert [true] + ([false] + ToBits(x, k)) == [true, false] + ToBits(x, k);
  }

  lemma ZeroInFront(x: nat, n: nat)
    requires x < Pow2(n)
    ensures ToBits(x, n + 1) == [false] + ToBits(x, n)
  {
    ToBitsConcat(0, x, 1, n);
    UpOfZero(n);
    assert ToBits(0, 1) == [false];
  }

  lemma OneInFront(x: nat, n: nat)
    requires x < Pow2(n)
    ensures ToBits(Pow2(n) + x, n + 1) == [true] + ToBits(x, n)
  {
    ToBitsConcat(1, x, 1, n);
    UpOfPow2(0, n);
    assert ToBits(1, 1) == [true];
  }

  /** The length golomb_encoder announces is the length of the code, for any value. */
  lemma GolombEncoderLength(v: nat, m: nat)
    requires m > 0
    ensures GolombEncoder(v, m, ILog2(m)).len == |Code(v, m)|
  {
    if v < Cutoff(m) {
      CodeOfFirstGroup(v, m);
    } else {
      QuotientRest(v - Cutoff(m), m);
      CodeOfLaterGroup(v, m, Quotient(v - Cutoff(m), m), Rest(v - Cutoff(m), m));
    }
  }

  /** (1 << g) - 1 is g ones. */
  lemma UnaryGroup(g: nat)
    requires g < 32
    ensures U32(Shl32(1, g) - 1) == Pow2(g) - 1
  {
    assert Pow2(0) == 1;
    hide Pow2;
    UpOfPow2(0, g);
    Pow2Word(g);
  }

  /** No bit of the g ones is lost when they are shifted left by s, g + s <= 32. */
  lemma UnaryShifted(g: nat, s: nat)
    requires g + s <= 32
    ensures Up(Pow2(g) - 1, s) + Pow2(s) <= TWO_32
  {
    UpOfPow2(g, s);
    UpNext(Pow2(g) - 1, s);
    Pow2Word(g + s);
  }

  lemma UnaryPart(g: nat, s: nat)
    requires 1 <= s && g + s <= 32
    ensures Shl32(U32(Shl32(1, g) - 1), s % 32) == Up(Pow2(g) - 1, s)
    ensures Up(Pow2(g) - 1, s) + Pow2(s) <= TWO_32
  {
    UnaryGroup(g);
    UnaryShifted(g, s);
    if s < 32 {
      SmallRest(s, 32);
    } else {
      NothingShifted();
    }
  }

  /** A 32-bit remainder leaves room for no one: the shift amount wraps, harmlessly. */
  lemma NothingShifted()
    ensures 32 % 32 == 0 && Pow2(0) == 1 && Up(0, 0) == 0 && Up(0, 32) == 0
  {
    UpOfZero(32);
  }

  lemma SmallRest(s: nat, m: nat)
    requires s < m
    ensures s % m == s
  {
  }

  lemma {:induction false} UpOfZero(s: nat)
    ensures Up(0, s) == 0
  {
    if s > 0 {
      UpOfZero(s - 1);
    }
  }

  lemma GroupWordBits(g: nat, x: nat, s: nat)
    requires 1 <= s && g + s <= 32 && x < Pow2(s)
    ensures ToBits(U32(Shl32(U32(Shl32(1, g) - 1), s % 32) + x), g + s) == Ones(g) + ToBits(x, s)
  {
    UnaryPart(g, s);
    OnesValue(g);
    ToBitsConcat(Pow2(g) - 1, x, g, s);
  }

  /** The composed word of golomb_encoder for group g, member r. */
  lemma GolombGroupBits(g: nat, r: nat, m: nat)
    requires m > 0 && r < m && g + ILog2(m) + 2 <= 32
    ensures var k, c := ILog2(m), Cutoff(m);
            ToBits(U32(Shl32(U32(Shl32(1, g % 32) - 1), (k + 2) % 32) + 2 * c + r), g + (k + 2))
            == Ones(g) + ToBits(2 * c + r, k + 2)
  {
    hide *;
    GroupTail(r, m);
    SmallRest(g, 32);
    GroupWordBits(g, 2 * Cutoff(m) + r, ILog2(m) + 2);
  }

  lemma LaterGroupShape(g: nat, r: nat, m: nat)
    requires m > 0 && r < m
    ensures var k, c := ILog2(m), Cutoff(m);
            Ones(g) + (if r < m - c then [false] + ToBits(r + 2 * c, k + 1)
                       else [true, false] + ToBits(r + c - m, k))
            == if r < m - c then Ones(g) + [false] + ToBits(r + 2 * c, k + 1)
               else Ones(g + 1) + [false] + ToBits(r + c - m, k)
  {
    assert Ones(g + 1) == Ones(g) + [true];
  }

  lemma GolombEncoderWord(v: nat, m: nat)
    requires m > 0 && v >= Cutoff(m)
    ensures var k, c := ILog2(m), Cutoff(m);
            var g, r := Quotient(v - c, m), Rest(v - c, m);
            && GolombEncoder(v, m, k)
               == CodeWord(U32(Shl32(U32(Shl32(1, g % 32) - 1), (k + 2) % 32) + 2 * c + r), g + (k + 2))
            && v == c + Times(g, m) + r
  {
    hide Shl32, U32, ILog2, Pow2, Cutoff;
    QuotientRest(v - Cutoff(m), m);
  }

  /** golomb_encoder emits the code whenever its word fits 32 bits. */
  lemma GolombEncoderBits(v: nat, m: nat)
    requires m > 0 && |Code(v, m)| <= 32
    ensures var w := GolombEncoder(v, m, ILog2(m)); ToBits(w.bits, w.len) == Code(v, m)
  {
    hide ToBits, Code, ILog2, Pow2, Quotient, Rest, U32, Shl32, Times, Cutoff;
    GolombEncoderLength(v, m);
    if v < Cutoff(m) {
      FirstGroupBits(v, m);
    } else {
      GolombEncoderWord(v, m);
      LaterGroupBits(v, m, Quotient(v - Cutoff(m), m), Rest(v - Cutoff(m), m), GolombEncoder(v, m, ILog2(m)));
    }
  }

  lemma FirstGroupBits(v: nat, m: nat)
    requires m > 0 && v < Cutoff(m)
    ensures ToBits(v, ILog2(m) + 1) == Code(v, m)
  {
    CodeOfFirstGroup(v, m);
    ToBitsConcat(0, v, 1, ILog2(m));
    UpOfZero(ILog2(m));
    assert ToBits(0, 1) == [false];
  }

  lemma LaterGroupBits(v: nat, m: nat, g: nat, r: nat, w: CodeWord)
    requires m > 0 && r < m && v == Cutoff(m) + Times(g, m) + r && w.len <= 32
    requires var k, c := ILog2(m), Cutoff(m);
             w == CodeWord(U32(Shl32(U32(Shl32(1, g % 32) - 1), (k + 2) % 32) + 2 * c + r), g + (k + 2))
    ensures ToBits(w.bits, w.len) == Code(v, m)
  {
    CodeOfLaterGroup(v, m, g, r);
    GroupTail(r, m);
    GolombGroupBits(g, r, m);
    LaterGroupShape(g, r, m);
  }

  /** For powers of two the remainder always has log2 m bits. */
  lemma PowerOfTwoCode(v: nat, k: nat)
    ensures ILog2(Pow2(k)) == k && Cutoff(Pow2(k)) == Pow2(k)
    ensures Code(v, Pow2(k)) == Ones(Down(v, k)) + [false] + ToBits(Low(v, k), k)
  {
    ILog2OfPow2(k);
    QuotientOfPow2(v, k);
  }

  lemma {:induction false} ILog2OfPow2(k: nat)
    ensures ILog2(Pow2(k)) == k
  {
    if k > 0 {
      ILog2OfPow2(k - 1);
    }
  }

  lemma RiceEncoderWord(v: nat, k: nat)
    ensures RiceEncoder(v, Pow2(k), k)
            == CodeWord(BitOr(Shl32(U32(Shl32(1, Down(v, k)) - 1), (k + 1) % 32), Low(v, k)), k + 1 + Down(v, k))
  {
    BitAndLow(v, k);
  }

  /** rice_encoder announces the length of the code, for any value. */
  lemma RiceEncoderLength(v: nat, k: nat)
    ensures RiceEncoder(v, Pow2(k), k).len == |Code(v, Pow2(k))|
  {
    PowerOfTwoCode(v, k);
  }

  /** rice_encoder emits the code whenever its word fits 32 bits. */
  lemma RiceEncoderBits(v: nat, m: nat, k: nat)
    requires m == Pow2(k) && |Code(v, m)| <= 32
    ensures var w := RiceEncoder(v, m, k); ToBits(w.bits, w.len) == Code(v, m)
  {
    hide *;
    var q, r := Down(v, k), Low(v, k);
    PowerOfTwoCode(v, k);
    RiceEncoderWord(v, k);
    RiceWordBits(q, r, k);
  }

  lemma RiceWordBits(q: nat, r: nat, k: nat)
    requires r < Pow2(k) && q + k + 1 <= 32
    ensures ToBits(BitOr(Shl32(U32(Shl32(1, q) - 1), (k + 1) % 32), r), k + 1 + q)
            == Ones(q) + [false] + ToBits(r, k)
  {
    UnaryPart(q, k + 1);
    OnesValue(q);
    ToBitsConcat(Pow2(q) - 1, r, q, k + 1);
    ToBitsConcat(0, r, 1, k);
    UpOfZero(k);
    assert ToBits(0, 1) == [false];
    assert Ones(q) + ([false] + ToBits(r, k)) == Ones(q) + [false] + ToBits(r, k);
    BitOrDisjoint(Pow2(q) - 1, r, k + 1);
  }

  /** Whichever encoder is selected announces the length of the code and, up to
      32 bits, emits the code itself: the fast Rice form refines the general one. */
  lemma GenerateCwBits(v: nat, m: nat)
    requires 0 < m < TWO_32
    ensures GenerateCw(v, m).len == |Code(v, m)|
    ensures |Code(v, m)| <= 32 ==> var w := GenerateCw(v, m); ToBits(w.bits, w.len) == Code(v, m)
  {
    PowOf2Test(m);
    if IsAPowOf2(m) {
      RiceEncoderLength(v, ILog2(m));
      if |Code(v, m)| <= 32 {
        RiceEncoderBits(v, m, ILog2(m));
      }
    } else {
      GolombEncoderLength(v, m);
      if |Code(v, m)| <= 32 {
        GolombEncoderBits(v, m);
      }
    }
  }

  /** For a power of two, rice_encoder and golomb_encoder agree on length and bits. */
  lemma RiceRefinesGolomb(v: nat, m: nat)
    requires 0 < m < TWO_32 && IsAPowOf2(m)
    ensures var rice, golomb := RiceEncoder(v, m, ILog2(m)), GolombEncoder(v, m, ILog2(m));
            && rice.len == golomb.len
            && (rice.len <= 32 ==> ToBits(rice.bits, rice.len) == ToBits(golomb.bits, golomb.len))
  {
    PowOf2Test(m);
    GenerateCwBits(v, m);
    GolombEncoderLength(v, m);
    if |Code(v, m)| <= 32 {
      GolombEncoderBits(v, m);
    }
  }

  // ----- the decoders, on the bits that are left in the stream

  /** A decoded value and the number of bits consumed. */
  datatype Decoded = NotEnoughBits | Value(value: nat, used: nat)

  function LeadingOnes(s: Bits): (n: nat)
    ensures n <= |s|
  {
    if s == [] || !s[0] then 0 else 1 + LeadingOnes(s[1..])
  }

  function UnaryDecode(s: Bits): (d: Decoded)
    ensures d.Value? ==> 1 <= d.used <= |s|
  {
    var q := LeadingOnes(s);
    if q < |s| then Value(q, q + 1) else NotEnoughBits
  }

  function RiceDecode(s: Bits, log2M: nat): (d: Decoded)
    ensures d.Value? ==> 1 <= d.used <= |s|
  {
    var u := UnaryDecode(s);
    if u.NotEnoughBits? || |s| < u.used + log2M then NotEnoughBits
    else Value(Up(u.value, log2M) + FromBits(s[u.used..u.used + log2M]), u.used + log2M)
  }

  /** The remainder part: one look at log2 m + 1 bits decides between its two lengths. */
  function RemainderDecode(s: Bits, m: nat): (d: Decoded)
    requires m > 0
    ensures d.Value? ==> d.used <= |s|
  {
    var k := ILog2(m);
    if |s| < k then NotEnoughBits
    else if FromBits(s[..k]) < Cutoff(m) then Value(FromBits(s[..k]), k)
    else if |s| < k + 1 then NotEnoughBits
    else Value(U32(FromBits(s[..k + 1]) - Cutoff(m)), k + 1)
  }

  function GolombDecode(s: Bits, m: nat): (d: Decoded)
    requires m > 0
    ensures d.Value? ==> 1 <= d.used <= |s|
  {
    var u := UnaryDecode(s);
    if u.NotEnoughBits? then NotEnoughBits
    else
      var r := RemainderDecode(s[u.used..], m);
      if r.NotEnoughBits? then NotEnoughBits
      else Value(Times(u.value, m) + r.value, u.used + r.used)
  }

  /** The decoder select_decoder selects. */
  function DecodeCw(s: Bits, m: nat): (d: Decoded)
    requires m > 0
    ensures d.Value? ==> 1 <= d.used <= |s|
  {
    if m == 1 then UnaryDecode(s)
    else if IsAPowOf2(m) then RiceDecode(s, ILog2(m))
    else GolombDecode(s, m)
  }

  lemma {:induction false} LeadingOnesOf(q: nat, t: Bits)
    requires t == [] || !t[0]
    ensures LeadingOnes(Ones(q) + t) == q
  {
    if q == 0 {
      assert Ones(0) + t == t;
    } else {
      assert (Ones(q) + t)[1..] == Ones(q - 1) + t;
      LeadingOnesOf(q - 1, t);
    }
  }

  lemma {:induction false} LeadingOnesAre(s: Bits)
    ensures s[..LeadingOnes(s)] == Ones(LeadingOnes(s))
    ensures LeadingOnes(s) < |s| ==> !s[LeadingOnes(s)]
  {
    if s != [] && s[0] {
      LeadingOnesAre(s[1..]);
      assert s[..LeadingOnes(s)] == [true] + s[1..][..LeadingOnes(s[1..])];
      assert Ones(LeadingOnes(s)) == [true] + Ones(LeadingOnes(s[1..]));
    }
  }

  /** The first log2 m bits of a truncated binary remainder tell its two lengths apart. */
  lemma RemainderHead(r: nat, m: nat)
    requires m > 0 && r >= Cutoff(m) && r < m
    ensures FromBits(Remainder(r, m)) == r + Cutoff(m)
    ensures FromBits(Remainder(r, m)[..ILog2(m)]) >= Cutoff(m)
  {
    hide ILog2, Cutoff, ToBits, Pow2;
    var k, c, b := ILog2(m), Cutoff(m), Remainder(r, m);
    FromToBits(r + c, k + 1);
    assert b[..|b| - 1] == b[..k];
  }

  lemma RemainderDecodes(r: nat, m: nat, t: Bits)
    requires 0 < m < TWO_32 && r < m
    ensures RemainderDecode(Remainder(r, m) + t, m) == Value(r, |Remainder(r, m)|)
  {
    var k, c, b := ILog2(m), Cutoff(m), Remainder(r, m);
    assert (b + t)[..|b|] == b;
    if r < c {
      FromToBits(r, k);
    } else {
      RemainderHead(r, m);
      assert (b + t)[..k] == b[..k];
    }
  }

  lemma RemainderDecodesOnly(s: Bits, m: nat)
    requires 0 < m < TWO_32 && RemainderDecode(s, m).Value?
    ensures var d := RemainderDecode(s, m);
            d.value < m && s[..d.used] == Remainder(d.value, m)
  {
    var k, c := ILog2(m), Cutoff(m);
    if FromBits(s[..k]) < c {
      ToFromBits(s[..k]);
    } else {
      var tail := s[..k + 1];
      assert tail[..|tail| - 1] == s[..k];
      ToFromBits(tail);
    }
  }

  /** Decoding a code word followed by anything returns its value and consumes exactly it. */
  lemma GolombDecodesCode(v: nat, m: nat, t: Bits)
    requires 0 < m < TWO_32
    ensures GolombDecode(Code(v, m) + t, m) == Value(v, |Code(v, m)|)
  {
    hide Times, Quotient, Rest, Remainder, RemainderDecode, LeadingOnes;
    var q, rem := Quotient(v, m), Remainder(Rest(v, m), m);
    var s := Code(v, m) + t;
    QuotientRest(v, m);
    assert s == Ones(q) + ([false] + rem + t);
    LeadingOnesOf(q, [false] + rem + t);
    assert s[q + 1..] == rem + t;
    RemainderDecodes(Rest(v, m), m, t);
  }

  /** Whatever golomb_decoder returns, the bits it consumed are the code of that value. */
  lemma GolombDecodesOnlyCode(s: Bits, m: nat)
    requires 0 < m < TWO_32 && GolombDecode(s, m).Value?
    ensures s[..GolombDecode(s, m).used] == Code(GolombDecode(s, m).value, m)
  {
    var q := LeadingOnes(s);
    RemainderDecodesOnly(s[q + 1..], m);
    ComposedCode(s, m, q, RemainderDecode(s[q + 1..], m), GolombDecode(s, m));
  }

  lemma ComposedCode(s: Bits, m: nat, q: nat, r: Decoded, d: Decoded)
    requires m > 0 && q == LeadingOnes(s) < |s| && r.Value? && q + 1 + r.used <= |s|
    requires r.value < m && s[q + 1..][..r.used] == Remainder(r.value, m)
    requires d == Value(Times(q, m) + r.value, q + 1 + r.used)
    ensures s[..d.used] == Code(d.value, m)
  {
    UnaryThenRest(s, q, r.used);
    CodeAt(d.value, m, q, r.value);
  }

  lemma UnaryThenRest(s: Bits, q: nat, n: nat)
    requires q == LeadingOnes(s) < |s| && q + 1 + n <= |s|
    ensures s[..q + 1 + n] == Ones(q) + [false] + s[q + 1..][..n]
  {
    LeadingOnesAre(s);
    assert s[..q + 1 + n] == s[..q] + [s[q]] + s[q + 1..][..n];
  }

  lemma UnaryAgrees(s: Bits)
    ensures UnaryDecode(s) == GolombDecode(s, 1)
  {
    TimesIsProduct(LeadingOnes(s), 1);
  }

  lemma RemainderOfPow2(t: Bits, k: nat, m: nat)
    requires m == Pow2(k)
    ensures RemainderDecode(t, m) == if |t| < k then NotEnoughBits else Value(FromBits(t[..k]), k)
  {
    ILog2OfPow2(k);
  }

  lemma RiceAgrees(s: Bits, k: nat, m: nat)
    requires m == Pow2(k)
    ensures RiceDecode(s, k) == GolombDecode(s, m)
  {
    hide LeadingOnes, RemainderDecode, Up, Times, FromBits, Pow2;
    var q := LeadingOnes(s);
    if q < |s| {
      RemainderOfPow2(s[q + 1..], k, m);
      UpIsTimes(q, k);
      SliceOfRest(s, q + 1, k);
    }
  }

  lemma SliceOfRest(s: Bits, a: nat, k: nat)
    requires a <= |s|
    ensures a + k <= |s| ==> s[a..][..k] == s[a..a + k]
  {
  }

  /** All three decoders are one function: result and bits consumed agree. */
  lemma DecodersAgree(s: Bits, m: nat)
    requires 0 < m < TWO_32
    ensures DecodeCw(s, m) == GolombDecode(s, m)
  {
    PowOf2Test(m);
    if m == 1 {
      UnaryAgrees(s);
    } else if IsAPowOf2(m) {
      RiceAgrees(s, ILog2(m), m);
    }
  }

  /** The selected decoder inverts the selected encoder, and is self-delimiting. */
  lemma DecodeInvertsCode(v: nat, m: nat, t: Bits)
    requires 0 < m < TWO_32
    ensures DecodeCw(Code(v, m) + t, m) == Value(v, |Code(v, m)|)
  {
    DecodersAgree(Code(v, m) + t, m);
    GolombDecodesCode(v, m, t);
  }

  /** What is decoded depends only on the bits consumed; a code word cut short is not decoded. */
  lemma DecodeIsPrefixCode(s: Bits, t: Bits, m: nat)
    requires 0 < m < TWO_32
    ensures DecodeCw(s, m).Value? ==>
              DecodeCw(s + t, m) == DecodeCw(s, m) && s[..DecodeCw(s, m).used] == Code(DecodeCw(s, m).value, m)
    ensures DecodeCw(s + t, m).Value? && DecodeCw(s + t, m).used <= |s| ==> DecodeCw(s, m) == DecodeCw(s + t, m)
  {
    hide *;
    DecodersAgree(s, m);
    DecodersAgree(s + t, m);
    if DecodeCw(s, m).Value? {
      var d := DecodeCw(s, m);
      GolombDecodesOnlyCode(s, m);
      assert s + t == Code(d.value, m) + (s[d.used..] + t);
      GolombDecodesCode(d.value, m, s[d.used..] + t);
    }
    if DecodeCw(s + t, m).Value? && DecodeCw(s + t, m).used <= |s| {
      var d := DecodeCw(s + t, m);
      GolombDecodesOnlyCode(s + t, m);
      assert (s + t)[..d.used] == s[..d.used];
      assert s == Code(d.value, m) + s[d.used..];
      GolombDecodesCode(d.value, m, s[d.used..]);
    }
  }
}
